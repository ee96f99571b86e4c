/** `Urbanczik_Archiving_Node` (nestkernel/urbanczik_archiving_node_impl.h):
    the dendritic compartment's raw history of weight-change samples
    (`urbanczik_history_`) and its compressed history (`urbanczik_history_compr_`),
    which keeps one record of decayed integrals per time a presynaptic spike
    compressed the raw samples. Only two-compartment neurons are supported, so
    the arrays indexed by `comp - 1` hold a single compartment here. */
module UrbanczikArchive {
  import opened Entries

  /** The accumulators `I1_L`, `I1_s`, `I2_L`, `I2_s` a synapse reads back. */
  datatype Integrals = Integrals(i1L: real, i1S: real, i2L: real, i2S: real)

  const NoIntegrals := Integrals(0.0, 0.0, 0.0, 0.0)

  function Accumulators(e: CompressedEntry): (v: Integrals)
  {
    Integrals(e.i1L, e.i1S, e.i2L, e.i2S)
  }

  /** The time constants compression divides by: `tau_L`, `tau_s` of the
      compartment and the synapse's `tau_Delta`. */
  datatype Taus = Taus(l: real, s: real, delta: real)

  predicate NonZero(k: Taus)
  {
    k.l != 0.0 && k.s != 0.0 && k.delta != 0.0
  }

  // ---------------------------------------------------------------------
  // get_urbanczik_history

  /** From `from` on, the first raw entry that lies no more than 1e-6 before
      `key`, or the end: where each scan of `get_urbanczik_history` stops. */
  function ScanPast(s: seq<ExtendedEntry>, from: nat, key: real): (j: nat)
    requires from <= |s|
    ensures from <= j <= |s|
    ensures forall k :: from <= k < j ==> s[k].t - Tolerance < key
    ensures j < |s| ==> key <= s[j].t - Tolerance
    decreases |s| - from
  {
    if from == |s| || key <= s[from].t - Tolerance then from else ScanPast(s, from + 1, key)
  }

  /** On a time-sorted raw history the slice `[start, finish)` holds exactly
      the entries with `t1 <= t - 1e-6 < t2`:
      the entry at `t1` is left out and the one at `t2` is taken. */
  lemma {:induction false} UrbanczikWindow(s: seq<ExtendedEntry>, t1: real, t2: real)
    requires TimeSorted(s)
    ensures var start := ScanPast(s, 0, t1);
      var finish := ScanPast(s, start, t2);
      forall j :: 0 <= j < |s| ==> (start <= j < finish <==> t1 <= s[j].t - Tolerance < t2)
  {
    var start := ScanPast(s, 0, t1);
    var finish := ScanPast(s, start, t2);
    forall j | 0 <= j < |s|
      ensures start <= j < finish <==> t1 <= s[j].t - Tolerance < t2
    {
      if start <= j {
        assert t1 <= s[start].t - Tolerance <= s[j].t - Tolerance;
      }
      if finish <= j {
        assert t2 <= s[finish].t - Tolerance <= s[j].t - Tolerance;
      }
    }
  }

  // ---------------------------------------------------------------------
  // get_urbanczik_value

  /** From `from` on, the first compressed record within 1e-6 of `t`, or the
      end. The end is checked before a record is read. */
  function FindRecord(c: seq<CompressedEntry>, from: nat, t: real): (k: nat)
    requires from <= |c|
    ensures from <= k <= |c|
    ensures forall j :: from <= j < k ==> Abs(t - c[j].t) > Tolerance
    ensures k < |c| ==> Abs(t - c[k].t) <= Tolerance
    decreases |c| - from
  {
    if from == |c| || Abs(t - c[from].t) <= Tolerance then from else FindRecord(c, from + 1, t)
  }

  /** The positions whose `t_` the loop of `get_urbanczik_value` reads, as
      written: its guard reads `runner->t_` before it compares `runner` with
      the end, so a search that finds nothing also reads at the end. */
  function AsWrittenValueReads(c: seq<CompressedEntry>, from: nat, t: real): (ps: seq<nat>)
    requires from <= |c|
    ensures ps != [] && ps[0] == from
    decreases |c| - from
  {
    if from == |c| then [from]
    else if Abs(t - c[from].t) > Tolerance then [from] + AsWrittenValueReads(c, from + 1, t)
    else [from]
  }

  /** The as-written loop reads every position up to the record it finds, and
      reads the end itself exactly when no record lies within 1e-6. */
  lemma {:induction false} AsWrittenValueReadsUpTo(c: seq<CompressedEntry>, from: nat, t: real)
    requires from <= |c|
    ensures var ps := AsWrittenValueReads(c, from, t);
      && |ps| == FindRecord(c, from, t) - from + 1
      && (forall i :: 0 <= i < |ps| ==> ps[i] == from + i)
      && (|c| in ps <==> FindRecord(c, from, t) == |c|)
    decreases |c| - from
  {
    if from < |c| && Abs(t - c[from].t) > Tolerance {
      AsWrittenValueReadsUpTo(c, from + 1, t);
    }
  }

  /** The first spike of a synapse with delay 1 ms at 5 ms: compression has
      just written the record at 4 ms, and the lookup for the initial
      `t_lastspike_ - d = -2` ms reads one position past the end. */
  lemma FirstSpikeReadsEnd()
    ensures var c := [CompressedEntry(4.0, 0.0, 0.0, 0.0, 0.0, 1)];
      && AsWrittenValueReads(c, 0, -2.0) == [0, 1]
      && FindRecord(c, 0, -2.0) == |c|
  {
    var c := [CompressedEntry(4.0, 0.0, 0.0, 0.0, 0.0, 1)];
    assert AsWrittenValueReads(c, 1, -2.0) == [1];
  }

  /** Record `k` is the first one within 1e-6 of `t`. */
  predicate FirstWithin(c: seq<CompressedEntry>, t: real, k: int)
  {
    0 <= k < |c| && Abs(t - c[k].t) <= Tolerance && forall j :: 0 <= j < k ==> Abs(t - c[j].t) > Tolerance
  }

  /** A lookup by `get_urbanczik_value`: the compressed history afterwards and
      the accumulators returned. */
  datatype ValueRead = ValueRead(compressed: seq<CompressedEntry>, value: Integrals)

  /** `get_urbanczik_value(t)` with the end checked first: the first record
      within 1e-6 of `t` loses one reader and hands back its accumulators;
      without one, all four accumulators are zero and nothing changes. */
  function ValueAt(c: seq<CompressedEntry>, t: real): (r: ValueRead)
    ensures |r.compressed| == |c|
  {
    var k := FindRecord(c, 0, t);
    if k == |c| then ValueRead(c, NoIntegrals)
    else ValueRead(c[k := c[k].(accessCounter := DecrementCounter(c[k].accessCounter))], Accumulators(c[k]))
  }

  /** What a lookup does: with no record within 1e-6 of `t` it returns zeros
      and changes nothing; otherwise the first such record hands back its
      accumulators and loses one reader, and every other record, and every
      time and accumulator, stays as it was. */
  lemma ValueAtShape(c: seq<CompressedEntry>, t: real)
    ensures var r := ValueAt(c, t);
      && ((forall j :: 0 <= j < |c| ==> Abs(t - c[j].t) > Tolerance) ==> r == ValueRead(c, NoIntegrals))
      && (forall k :: FirstWithin(c, t, k) ==>
            r.value == Accumulators(c[k]) && r.compressed[k].accessCounter == DecrementCounter(c[k].accessCounter))
      && (forall j :: 0 <= j < |c| ==> r.compressed[j].t == c[j].t && Accumulators(r.compressed[j]) == Accumulators(c[j]))
      && (forall j :: 0 <= j < |c| && j != FindRecord(c, 0, t) ==> r.compressed[j] == c[j])
  {
  }

  // ---------------------------------------------------------------------
  // compress_urbanczik_history

  /** The compressed records some synapse will still read: pruning erases
      every record whose counter is zero and keeps the others in order. */
  function Prune(c: seq<CompressedEntry>): (r: seq<CompressedEntry>)
    ensures |r| <= |c|
    ensures forall j :: 0 <= j < |r| ==> r[j].accessCounter != 0
  {
    if c == [] then []
    else if c[0].accessCounter == 0 then Prune(c[1..])
    else [c[0]] + Prune(c[1..])
  }

  /** Pruning works record by record, so it keeps the order of the records. */
  lemma {:induction false} PruneAppend(a: seq<CompressedEntry>, b: seq<CompressedEntry>)
    ensures Prune(a + b) == Prune(a) + Prune(b)
  {
    if a == [] {
      assert a + b == b;
    } else {
      assert (a + b)[0] == a[0] && (a + b)[1..] == a[1..] + b;
      PruneAppend(a[1..], b);
    }
  }

  /** Pruning keeps exactly the records that are still read. */
  lemma {:induction false} PruneMembers(c: seq<CompressedEntry>)
    ensures forall e :: e in Prune(c) <==> e in c && e.accessCounter != 0
  {
    if c != [] {
      PruneMembers(c[1..]);
      assert c == [c[0]] + c[1..];
    }
  }

  /** A history whose every record is still read is left as it is. */
  lemma {:induction false} PruneKeepsRead(c: seq<CompressedEntry>)
    requires forall j :: 0 <= j < |c| ==> c[j].accessCounter != 0
    ensures Prune(c) == c
  {
    if c != [] {
      PruneKeepsRead(c[1..]);
    }
  }

  /** Pruning twice prunes nothing more. */
  lemma PruneIdempotent(c: seq<CompressedEntry>)
    ensures Prune(Prune(c)) == Prune(c)
  {
    PruneKeepsRead(Prune(c));
  }

  /** When the last record is still read, it is the last record after
      pruning: the record the duplicate branch increments is the one whose
      time matched. */
  lemma PruneKeepsLastRead(c: seq<CompressedEntry>)
    requires c != [] && c[|c| - 1].accessCounter != 0
    ensures var p := Prune(c); p != [] && p[|p| - 1] == c[|c| - 1]
  {
    var n := |c| - 1;
    assert c == c[..n] + [c[n]];
    PruneAppend(c[..n], [c[n]]);
    assert Prune([c[n]]) == [c[n]] by {
      assert [c[n]][1..] == [];
    }
  }

  /** `t_last_update`: the time of the last compressed record, read before
      pruning, or -1000 ms when there is none. On records in time order it is
      the latest compression. */
  function LastCompression(c: seq<CompressedEntry>): (t: real)
    ensures (forall i, j :: 0 <= i < j < |c| ==> c[i].t <= c[j].t) ==>
              forall j :: 0 <= j < |c| ==> c[j].t <= t
  {
    if c == [] then -1000.0 else c[|c| - 1].t
  }

  /** Another spike already compressed at `tEnd` (within 1e-6). */
  predicate Repeated(c: seq<CompressedEntry>, tEnd: real)
  {
    Abs(LastCompression(c) - tEnd) < Tolerance
  }

  /** The duplicate branch increments the last record left after pruning; it
      needs one. */
  predicate CompressDefined(n: nat, c: seq<CompressedEntry>, tEnd: real)
  {
    n != 0 && Repeated(c, tEnd) ==> Prune(c) != []
  }

  /** Number of raw samples at the head that are due at `tEnd`: those less
      than 1e-6 after it. */
  function DueCount(h: seq<ExtendedEntry>, tEnd: real): (n: nat)
    ensures n <= |h|
    ensures forall j :: 0 <= j < n ==> h[j].t - tEnd < Tolerance
    ensures n < |h| ==> Tolerance <= h[n].t - tEnd
  {
    if h != [] && h[0].t - tEnd < Tolerance then 1 + DueCount(h[1..], tEnd) else 0
  }

  /** `PI_integral_L`, `PI_integral_s`, `dPI_exp_integral_L`, `dPI_exp_integral_s`. */
  datatype Accrual = Accrual(piL: real, piS: real, dpiL: real, dpiS: real)

  /** No accrual at all. */
  const NoAccrual := Accrual(0.0, 0.0, 0.0, 0.0)

  /** What one raw sample `he` adds to the accrual, with `exp` the
      exponential function. Every part is proportional to the sample's
      `dPI`, so a sample without a weight change adds nothing. */
  function Contribution(he: ExtendedEntry, tLast: real, tEnd: real, k: Taus, exp: real -> real): (r: Accrual)
    requires NonZero(k)
    ensures he.dw == 0.0 ==> r == NoAccrual
  {
    var piL := exp((tLast - he.t) / k.l) * he.dw;
    var piS := exp((tLast - he.t) / k.s) * he.dw;
    Accrual(piL, piS, exp((he.t - tEnd) / k.delta) * piL, exp((he.t - tEnd) / k.delta) * piS)
  }

  /** Part-wise sum of two accruals; no accrual is its neutral element. */
  function Plus(a: Accrual, b: Accrual): (r: Accrual)
    ensures a == NoAccrual ==> r == b
    ensures b == NoAccrual ==> r == a
  {
    Accrual(a.piL + b.piL, a.piS + b.piS, a.dpiL + b.dpiL, a.dpiS + b.dpiS)
  }

  /** The accrual of the samples in `popped`, added up from the head. Samples
      without a weight change accrue nothing. */
  function Accrue(popped: seq<ExtendedEntry>, tLast: real, tEnd: real, k: Taus, exp: real -> real): (r: Accrual)
    requires NonZero(k)
    ensures (forall j :: 0 <= j < |popped| ==> popped[j].dw == 0.0) ==> r == NoAccrual
    decreases |popped|
  {
    if popped == [] then NoAccrual
    else Plus(Accrue(popped[..|popped| - 1], tLast, tEnd, k, exp),
              Contribution(popped[|popped| - 1], tLast, tEnd, k, exp))
  }

  /** The update of one existing record: its `I1` gain the decayed PI
      integrals, its `I2` decay to `tEnd` and gain the decayed dPI
      integrals. Time and counter stay. */
  function Integrate(rec: CompressedEntry, a: Accrual, tLast: real, tEnd: real, k: Taus, exp: real -> real): (r: CompressedEntry)
    requires NonZero(k)
    ensures r.t == rec.t && r.accessCounter == rec.accessCounter
  {
    var decayL := exp((rec.t - tLast) / k.l);
    var decayS := exp((rec.t - tLast) / k.s);
    var fade := exp((tLast - tEnd) / k.delta);
    rec.(i1L := rec.i1L + decayL * a.piL, i1S := rec.i1S + decayS * a.piS,
         i2L := rec.i2L * fade + decayL * a.dpiL, i2S := rec.i2S * fade + decayS * a.dpiS)
  }

  /** Every record kept after pruning, updated with the same accrual. */
  function IntegrateAll(c: seq<CompressedEntry>, a: Accrual, tLast: real, tEnd: real, k: Taus, exp: real -> real)
    : (r: seq<CompressedEntry>)
    requires NonZero(k)
    ensures |r| == |c| && forall j :: 0 <= j < |c| ==> r[j] == Integrate(c[j], a, tLast, tEnd, k, exp)
    decreases |c|
  {
    if c == [] then [] else [Integrate(c[0], a, tLast, tEnd, k, exp)] + IntegrateAll(c[1..], a, tLast, tEnd, k, exp)
  }

  /** With no sample due, an existing record's `I1` stay and its `I2` only
      decay. */
  lemma IntegrateNothing(rec: CompressedEntry, tLast: real, tEnd: real, k: Taus, exp: real -> real)
    requires NonZero(k)
    ensures var r := Integrate(rec, Accrue([], tLast, tEnd, k, exp), tLast, tEnd, k, exp);
      && r.i1L == rec.i1L && r.i1S == rec.i1S
      && r.i2L == rec.i2L * exp((tLast - tEnd) / k.delta)
      && r.i2S == rec.i2S * exp((tLast - tEnd) / k.delta)
  {
    var decayL := exp((rec.t - tLast) / k.l);
    var decayS := exp((rec.t - tLast) / k.s);
    assert decayL * 0.0 == 0.0 && decayS * 0.0 == 0.0;
  }

  /** The raw and the compressed history of the compartment. */
  datatype Archive = Archive(history: seq<ExtendedEntry>, compressed: seq<CompressedEntry>)

  /** `compress_urbanczik_history(tEnd, tau_Delta)` with `n` incoming
      synapses. Without synapses nothing changes. Otherwise the raw history
      only loses samples at its head, every compressed record left still
      has a reader, and unless another spike already compressed at `tEnd`
      the last record is the one for `tEnd`, which the next compression
      reads as `t_last_update`. */
  function Compression(n: nat, a: Archive, tEnd: real, k: Taus, exp: real -> real): (r: Archive)
    requires NonZero(k) && CompressDefined(n, a.compressed, tEnd)
    ensures n == 0 ==> r == a
    ensures |r.history| <= |a.history| && r.history == a.history[|a.history| - |r.history|..]
    ensures n != 0 ==> forall j :: 0 <= j < |r.compressed| ==> r.compressed[j].accessCounter != 0
    ensures n != 0 && !Repeated(a.compressed, tEnd) ==> LastCompression(r.compressed) == tEnd
  {
    if n == 0 then a
    else
      var p := Prune(a.compressed);
      var tLast := LastCompression(a.compressed);
      if Abs(tLast - tEnd) < Tolerance then
        Archive(a.history, p[|p| - 1 := p[|p| - 1].(accessCounter := p[|p| - 1].accessCounter + 1)])
      else
        var d := DueCount(a.history, tEnd);
        var acc := Accrue(a.history[..d], tLast, tEnd, k, exp);
        Archive(a.history[d..],
          IntegrateAll(p, acc, tLast, tEnd, k, exp)
          + [CompressedEntry(tEnd, 0.0, 0.0, 0.0, 0.0, 1)])
  }

  /** The shape of a compression with incoming synapses: every record left
      has a reader; a repeated spike only adds a reader to the last record;
      otherwise the due samples leave the raw history, each kept record
      keeps its time and readers, and a fresh record for `tEnd` with one
      reader and zero accumulators is appended. */
  lemma CompressionShape(n: nat, a: Archive, tEnd: real, k: Taus, exp: real -> real)
    requires NonZero(k) && CompressDefined(n, a.compressed, tEnd)
    ensures n == 0 ==> Compression(n, a, tEnd, k, exp) == a
    ensures n != 0 ==> var r := Compression(n, a, tEnd, k, exp);
      forall j :: 0 <= j < |r.compressed| ==> r.compressed[j].accessCounter != 0
    ensures n != 0 && Repeated(a.compressed, tEnd) ==>
      var r := Compression(n, a, tEnd, k, exp);
      && r.history == a.history
      && |r.compressed| == |Prune(a.compressed)|
      && (forall j :: 0 <= j < |r.compressed| - 1 ==> r.compressed[j] == Prune(a.compressed)[j])
      && r.compressed[|r.compressed| - 1].accessCounter == Prune(a.compressed)[|r.compressed| - 1].accessCounter + 1
    ensures n != 0 && !Repeated(a.compressed, tEnd) ==>
      var r := Compression(n, a, tEnd, k, exp);
      var d := DueCount(a.history, tEnd);
      && r.history == a.history[d..]
      && |r.compressed| == |Prune(a.compressed)| + 1
      && r.compressed[|r.compressed| - 1] == CompressedEntry(tEnd, 0.0, 0.0, 0.0, 0.0, 1)
      && (forall j :: 0 <= j < |r.compressed| - 1 ==>
            r.compressed[j].t == Prune(a.compressed)[j].t
            && r.compressed[j].accessCounter == Prune(a.compressed)[j].accessCounter)
  {
  }

  /** The pruning loop: erase zero-counter records in place. */
  method PruneRecords(c: seq<CompressedEntry>) returns (r: seq<CompressedEntry>)
    ensures r == Prune(c)
  {
    r := c;
    var i := 0;
    assert r[0..] == c;
    while i < |r|
      invariant 0 <= i <= |r|
      invariant r[..i] + Prune(r[i..]) == Prune(c)
      decreases |r| - i
    {
      assert r[i..][1..] == r[i + 1..];
      if r[i].accessCounter == 0 {
        var next := r[..i] + r[i + 1..];
        assert next[..i] == r[..i] && next[i..] == r[i + 1..];
        r := next;
      } else {
        assert r[..i + 1] == r[..i] + [r[i]];
        i := i + 1;
      }
    }
    assert r[..i] == r && r[i..] == [];
  }

  /** The popping loop: consume the due samples at the head, adding up their
      contributions. */
  method PopDue(h: seq<ExtendedEntry>, tLast: real, tEnd: real, k: Taus, exp: real -> real)
    returns (rest: seq<ExtendedEntry>, a: Accrual)
    requires NonZero(k)
    ensures rest == h[DueCount(h, tEnd)..]
    ensures a == Accrue(h[..DueCount(h, tEnd)], tLast, tEnd, k, exp)
  {
    rest := h;
    a := NoAccrual;
    ghost var n := 0;
    assert h[..0] == [];
    while rest != [] && rest[0].t - tEnd < Tolerance
      invariant 0 <= n <= |h| && rest == h[n..]
      invariant n + DueCount(rest, tEnd) == DueCount(h, tEnd)
      invariant a == Accrue(h[..n], tLast, tEnd, k, exp)
      decreases |rest|
    {
      assert rest[1..] == h[n + 1..];
      assert h[..n + 1][..n] == h[..n] && h[..n + 1][n] == rest[0];
      a := Plus(a, Contribution(rest[0], tLast, tEnd, k, exp));
      rest := rest[1..];
      n := n + 1;
    }
  }

  /** The update loop over the records kept after pruning. */
  method IntegrateRecords(c: seq<CompressedEntry>, a: Accrual, tLast: real, tEnd: real, k: Taus, exp: real -> real)
    returns (r: seq<CompressedEntry>)
    requires NonZero(k)
    ensures r == IntegrateAll(c, a, tLast, tEnd, k, exp)
  {
    r := c;
    var i := 0;
    while i < |r|
      invariant |r| == |c| && 0 <= i <= |r|
      invariant forall j :: 0 <= j < i ==> r[j] == Integrate(c[j], a, tLast, tEnd, k, exp)
      invariant forall j :: i <= j < |r| ==> r[j] == c[j]
    {
      r := r[i := Integrate(r[i], a, tLast, tEnd, k, exp)];
      i := i + 1;
    }
    assert forall j :: 0 <= j < |r| ==> r[j] == IntegrateAll(c, a, tLast, tEnd, k, exp)[j];
  }

  /** The body of `compress_urbanczik_history` on the two histories: prune,
      then either count one more reader on the last record or pop the due
      samples, update the kept records and append the record for `tEnd`. */
  method Compress(n: nat, a: Archive, tEnd: real, k: Taus, exp: real -> real) returns (r: Archive)
    requires NonZero(k) && CompressDefined(n, a.compressed, tEnd)
    ensures r == Compression(n, a, tEnd, k, exp)
  {
    if n == 0 {
      return a;
    }
    var tLast := LastCompression(a.compressed);
    var pruned := PruneRecords(a.compressed);
    if Abs(tLast - tEnd) < Tolerance {
      var last := pruned[|pruned| - 1];
      r := a.(compressed := pruned[|pruned| - 1 := last.(accessCounter := last.accessCounter + 1)]);
    } else {
      var rest, acc := PopDue(a.history, tLast, tEnd, k, exp);
      var integrated := IntegrateRecords(pruned, acc, tLast, tEnd, k, exp);
      r := Archive(rest, integrated + [CompressedEntry(tEnd, 0.0, 0.0, 0.0, 0.0, 1)]);
    }
  }

  // ---------------------------------------------------------------------
  // write_urbanczik_history

  /** The pruning of `write_urbanczik_history`: drop head samples that all
      `n` incoming synapses have read, never the last one, stopping at the
      first sample some synapse has not read. */
  function Retire(h: seq<ExtendedEntry>, n: nat): (r: seq<ExtendedEntry>)
    ensures |r| <= |h| && r == h[|h| - |r|..]
    ensures h != [] ==> r != []
    ensures forall j :: 0 <= j < |h| - |r| ==> n <= h[j].accessCounter
    ensures 1 < |r| ==> r[0].accessCounter < n
  {
    if 1 < |h| && n <= h[0].accessCounter then Retire(h[1..], n) else h
  }

  /** Retiring twice retires nothing more. */
  lemma {:induction false} RetireIdempotent(h: seq<ExtendedEntry>, n: nat)
    ensures Retire(Retire(h, n), n) == Retire(h, n)
  {
    if 1 < |h| && n <= h[0].accessCounter {
      RetireIdempotent(h[1..], n);
    }
  }

  /** Writing a sample no earlier than the last one keeps the raw history
      time-sorted. */
  lemma WriteKeepsSorted(h: seq<ExtendedEntry>, n: nat, e: ExtendedEntry)
    requires TimeSorted(h) && (h != [] ==> h[|h| - 1].t <= e.t)
    ensures TimeSorted(Retire(h, n) + [e])
  {
    var r := Retire(h, n);
    SortedSuffix(h, |h| - |r|);
    SortedAppend(r, e);
  }

  lemma SortedSuffix(h: seq<ExtendedEntry>, d: nat)
    requires TimeSorted(h) && d <= |h|
    ensures TimeSorted(h[d..])
  {
    var r := h[d..];
    forall i, j | 0 <= i < j < |r|
      ensures r[i].t <= r[j].t
    {
      assert r[i] == h[d + i] && r[j] == h[d + j];
    }
  }

  /** The two scans of `get_urbanczik_history` over the raw history `h`:
      the first finds `start`, the second gives every sample it passes one
      more reader and stops at `finish`. */
  method MarkWindow(h: seq<ExtendedEntry>, t1: real, t2: real) returns (r: seq<ExtendedEntry>, start: nat, finish: nat)
    ensures start == ScanPast(h, 0, t1) && finish == ScanPast(h, start, t2)
    ensures |r| == |h|
    ensures forall j :: 0 <= j < |r| ==>
      r[j] == if start <= j < finish then h[j].(accessCounter := h[j].accessCounter + 1) else h[j]
  {
    if h == [] {
      return h, 0, 0;
    }
    r := h;
    var runner := 0;
    while runner != |r| && r[runner].t - Tolerance < t1
      invariant 0 <= runner <= |r|
      invariant ScanPast(r, runner, t1) == ScanPast(r, 0, t1)
      decreases |r| - runner
    {
      runner := runner + 1;
    }
    start := runner;
    while runner != |r| && r[runner].t - Tolerance < t2
      invariant start <= runner <= |r| && |r| == |h|
      invariant ScanPast(h, runner, t2) == ScanPast(h, start, t2)
      invariant forall j :: 0 <= j < |r| ==>
        r[j] == if start <= j < runner then h[j].(accessCounter := h[j].accessCounter + 1) else h[j]
      decreases |r| - runner
    {
      r := r[runner := r[runner].(accessCounter := r[runner].accessCounter + 1)];
      runner := runner + 1;
    }
    finish := runner;
  }

  /** After `get_urbanczik_history` has marked the slice of a time-sorted raw
      history, the history is still time-sorted and the slice holds exactly
      the samples with `t1 <= t - 1e-6 < t2`. */
  lemma MarkedWindow(a: seq<ExtendedEntry>, b: seq<ExtendedEntry>, t1: real, t2: real, start: nat, finish: nat)
    requires TimeSorted(a) && |a| == |b|
    requires start == ScanPast(a, 0, t1) && finish == ScanPast(a, start, t2)
    requires forall j :: 0 <= j < |b| ==>
      b[j] == if start <= j < finish then a[j].(accessCounter := a[j].accessCounter + 1) else a[j]
    ensures TimeSorted(b)
    ensures forall j :: 0 <= j < |b| ==> (start <= j < finish <==> t1 <= b[j].t - Tolerance < t2)
  {
    UrbanczikWindow(a, t1, t2);
    assert forall j :: 0 <= j < |b| ==> b[j].t == a[j].t;
    SameTimesSorted(a, b);
  }

  /** Changing counters only keeps the raw history time-sorted. */
  lemma SameTimesSorted(a: seq<ExtendedEntry>, b: seq<ExtendedEntry>)
    requires TimeSorted(a) && |a| == |b| && forall j :: 0 <= j < |a| ==> a[j].t == b[j].t
    ensures TimeSorted(b)
  {
  }

  lemma SortedAppend(r: seq<ExtendedEntry>, e: ExtendedEntry)
    requires TimeSorted(r) && (r != [] ==> r[|r| - 1].t <= e.t)
    ensures TimeSorted(r + [e])
  {
    var s := r + [e];
    forall i, j | 0 <= i < j < |s|
      ensures s[i].t <= s[j].t
    {
      if j < |r| {
        assert s[i] == r[i] && s[j] == r[j];
      } else {
        assert s[i] == r[i] && r[i].t <= r[|r| - 1].t;
      }
    }
  }

  // ---------------------------------------------------------------------
  // The archiving node

  class UrbanczikArchivingNode {
    /** `C_m`, `g_L`, `tau_syn_ex` and `tau_syn_in` of the dendritic
        compartment. */
    const cM: real
    const gL: real
    const tauSynEx: real
    const tauSynIn: real

    /** Number of incoming plastic synapses (`n_incoming_` of the base archiving
        node), raised by `RegisterStdpConnection`. */
    var nIncoming: nat
    /** `urbanczik_history_[0]`: one sample `{t, dPI, counter}` per step. */
    var history: seq<ExtendedEntry>
    /** `urbanczik_history_compr_[0]`. */
    var compressed: seq<CompressedEntry>

    /** `get_tau_L`: `C_m / g_L`. */
    function TauL(): (tau: real)
      requires gL != 0.0
    {
      cM / gL
    }

    /** What compression divides by is non-zero: `g_L` in `tau_L = C_m / g_L`,
        then `tau_L` and `tau_syn_ex`. */
    predicate CompressionParameters()
    {
      gL != 0.0 && TauL() != 0.0 && tauSynEx != 0.0
    }

    /** The neuron writes one sample per step, in time order. */
    ghost predicate Valid()
      reads this
    {
      TimeSorted(history)
    }

    constructor (cM: real, gL: real, tauSynEx: real, tauSynIn: real)
      ensures Valid()
      ensures this.cM == cM && this.gL == gL && this.tauSynEx == tauSynEx && this.tauSynIn == tauSynIn
      ensures nIncoming == 0 && history == [] && compressed == []
    {
      this.cM := cM;
      this.gL := gL;
      this.tauSynEx := tauSynEx;
      this.tauSynIn := tauSynIn;
      nIncoming := 0;
      history := [];
      compressed := [];
    }

    /** `register_stdp_connection`, which a new synapse calls on its target:
        one more incoming plastic synapse, so compression and writing take
        place from then on. */
    method RegisterStdpConnection()
      requires Valid()
      modifies this`nIncoming
      ensures Valid()
      ensures nIncoming == old(nIncoming) + 1
    {
      nIncoming := nIncoming + 1;
    }

    /** `get_urbanczik_history(t1, t2)`: `start` is the first sample not more
        than 1e-6 before `t1`, `finish` the first one from there not more than
        1e-6 before `t2`; exactly the samples in between gain a reader. An
        empty history gives `start == finish == end`. The slice holds exactly
        the samples with `t1 <= t - 1e-6 < t2`. */
    method GetUrbanczikHistory(t1: real, t2: real) returns (start: nat, finish: nat)
      requires Valid()
      modifies this`history
      ensures Valid()
      ensures forall j :: 0 <= j < |history| ==> (start <= j < finish <==> t1 <= history[j].t - Tolerance < t2)
      ensures start == ScanPast(old(history), 0, t1)
      ensures finish == ScanPast(old(history), start, t2)
      ensures |history| == |old(history)|
      ensures forall j :: 0 <= j < |history| ==>
        history[j] == if start <= j < finish
          then old(history)[j].(accessCounter := old(history)[j].accessCounter + 1)
          else old(history)[j]
      ensures compressed == old(compressed) && nIncoming == old(nIncoming)
    {
      var marked;
      marked, start, finish := MarkWindow(history, t1, t2);
      history := marked;
      MarkedWindow(old(history), history, t1, t2, start, finish);
    }

    /** `get_urbanczik_value(t)`, checking for the end before reading. */
    method GetUrbanczikValue(tLastSpike: real) returns (v: Integrals)
      requires Valid()
      modifies this`compressed
      ensures Valid()
      ensures ValueRead(compressed, v) == ValueAt(old(compressed), tLastSpike)
      ensures history == old(history) && nIncoming == old(nIncoming)
    {
      if compressed == [] {
        return NoIntegrals;
      }
      var runner := 0;
      while runner != |compressed| && Abs(tLastSpike - compressed[runner].t) > Tolerance
        invariant 0 <= runner <= |compressed|
        invariant FindRecord(compressed, runner, tLastSpike) == FindRecord(compressed, 0, tLastSpike)
        decreases |compressed| - runner
      {
        runner := runner + 1;
      }
      if runner == |compressed| {
        v := NoIntegrals;
      } else {
        var rec := compressed[runner];
        compressed := compressed[runner := rec.(accessCounter := DecrementCounter(rec.accessCounter))];
        v := Accumulators(rec);
      }
    }

    /** `compress_urbanczik_history(tEnd, tau_Delta)`, with `exp` the
        exponential function. */
    method CompressUrbanczikHistory(tEnd: real, tauDelta: real, exp: real -> real)
      requires Valid() && CompressionParameters() && tauDelta != 0.0
      requires CompressDefined(nIncoming, compressed, tEnd)
      modifies this`history, this`compressed
      ensures Valid()
      ensures Archive(history, compressed)
        == Compression(old(nIncoming), Archive(old(history), old(compressed)), tEnd, Taus(TauL(), tauSynEx, tauDelta), exp)
      ensures nIncoming == old(nIncoming)
    {
      var r := Compress(nIncoming, Archive(history, compressed), tEnd, Taus(TauL(), tauSynEx, tauDelta), exp);
      SortedSuffix(history, |history| - |r.history|);
      history, compressed := r.history, r.compressed;
    }

    /** `write_urbanczik_history(t, dPI)`, with the sample value `dPI`
        computed by the caller: retire the samples every synapse has read,
        then append `{t, dPI, 0}`. Nothing happens without incoming synapses.
        The neuron writes once per step, so `t` is no earlier than the last
        sample, and the history stays in time order. */
    method WriteUrbanczikHistory(t: real, dPI: real)
      requires Valid() && (history != [] ==> history[|history| - 1].t <= t)
      modifies this`history
      ensures Valid()
      ensures history == if old(nIncoming) == 0 then old(history)
        else Retire(old(history), old(nIncoming)) + [ExtendedEntry(t, dPI, 0)]
      ensures compressed == old(compressed) && nIncoming == old(nIncoming)
    {
      if nIncoming != 0 {
        var h := history;
        while 1 < |h| && nIncoming <= h[0].accessCounter
          invariant Retire(h, nIncoming) == Retire(history, nIncoming)
          decreases |h|
        {
          h := h[1..];
        }
        WriteKeepsSorted(history, nIncoming, ExtendedEntry(t, dPI, 0));
        history := h + [ExtendedEntry(t, dPI, 0)];
      }
    }
  }
}
