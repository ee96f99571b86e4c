/** The checkpoint registry `last_spike_per_synapse_` of the e-prop archiving
    node (nestkernel/eprop_archiving_node.cpp): one `{t, access_counter}` entry
    per time at which some synapses are parked, kept in ascending time order.
    `eps` is the kernel's stdp tolerance. */
module EpropRegistry {
  import opened Entries

  /** Checkpoint times strictly ascend: the registry has no duplicates. */
  ghost predicate Ascending(reg: seq<ExtendedEntry>)
  {
    forall i, j :: 0 <= i < j < |reg| ==> reg[i].t < reg[j].t
  }

  /** Every checkpoint still holds at least one synapse. */
  ghost predicate AllPositive(reg: seq<ExtendedEntry>)
  {
    forall i :: 0 <= i < |reg| ==> reg[i].accessCounter > 0
  }

  /** The registry's invariant. */
  ghost predicate WellFormed(reg: seq<ExtendedEntry>)
  {
    Ascending(reg) && AllPositive(reg)
  }

  /** The first checkpoint of a well-formed registry is its earliest. */
  lemma EarliestCheckpoint(reg: seq<ExtendedEntry>)
    requires Ascending(reg) && reg != []
    ensures forall j :: 0 <= j < |reg| ==> reg[0].t <= reg[j].t
  {
    forall j | 0 < j < |reg|
      ensures reg[0].t <= reg[j].t
    {
    }
  }

  /** Number of synapses parked in the registry. */
  function Total(reg: seq<ExtendedEntry>): (n: nat)
  {
    if reg == [] then 0 else reg[0].accessCounter + Total(reg[1..])
  }

  /** `fabs(key - t) > eps` is false: the checkpoint at `t` is the one for `key`. */
  predicate Near(t: real, key: real, eps: real)
  {
    Abs(key - t) <= eps
  }

  /** No checkpoint of the registry lies within `eps` of `key`. */
  ghost predicate Absent(reg: seq<ExtendedEntry>, key: real, eps: real)
  {
    forall j :: 0 <= j < |reg| ==> !Near(reg[j].t, key, eps)
  }

  /** `k` is the first checkpoint within `eps` of `key`. */
  ghost predicate FirstNear(reg: seq<ExtendedEntry>, key: real, eps: real, k: int)
  {
    0 <= k < |reg| && Near(reg[k].t, key, eps) && forall j :: 0 <= j < k ==> !Near(reg[j].t, key, eps)
  }

  /** Insert-or-increment of `init_eprop_buffers` and of the first half of
      `register_update`: afterwards a checkpoint lies within `eps` of `key`,
      and exactly one more synapse is parked, either on a new checkpoint or
      on the one already there. */
  function Register(reg: seq<ExtendedEntry>, key: real, eps: real): (r: seq<ExtendedEntry>)
    ensures |reg| <= |r| <= |reg| + 1
    ensures Total(r) == Total(reg) + 1
    ensures AllPositive(reg) ==> AllPositive(r)
    ensures 0.0 <= eps ==> exists j :: 0 <= j < |r| && Near(r[j].t, key, eps)
  {
    var i := LowerBound(reg, key - eps);
    if i == |reg| || Abs(key - reg[i].t) > eps then
      var x := ExtendedEntry(key, 0.0, 1);
      TotalInsert(reg, i, x);
      InsertPositive(reg, i, x);
      var r := reg[..i] + [x] + reg[i..];
      assert 0.0 <= eps ==> Near(r[i].t, key, eps);
      r
    else
      TotalUpdate(reg, i, reg[i].accessCounter + 1);
      var r := reg[i := reg[i].(accessCounter := reg[i].accessCounter + 1)];
      assert Near(r[i].t, key, eps);
      r
  }

  /** Result of releasing a checkpoint; `found` is false where the source only
      prints "found nothing". */
  datatype Released = Released(registry: seq<ExtendedEntry>, found: bool)

  /** Second half of `register_update`: decrement the checkpoint at `key`
      and erase it once its counter reaches zero. Something is found only
      when a checkpoint lies within `eps` of `key`; then, with positive
      counters, exactly one synapse leaves the registry, and otherwise the
      registry is untouched. */
  function Release(reg: seq<ExtendedEntry>, key: real, eps: real): (r: Released)
    ensures |reg| - 1 <= |r.registry| <= |reg|
    ensures !r.found ==> r.registry == reg
    ensures r.found ==> exists j :: 0 <= j < |reg| && Near(reg[j].t, key, eps)
    ensures r.found && AllPositive(reg) ==> Total(r.registry) + 1 == Total(reg)
  {
    var i := LowerBound(reg, key - eps);
    if i == |reg| || Abs(key - reg[i].t) > eps then
      Released(reg, false)
    else
      assert Near(reg[i].t, key, eps);
      var c := DecrementCounter(reg[i].accessCounter);
      if c == 0 then
        TotalSplit(reg, i);
        TotalAppend(reg[..i], reg[i + 1..]);
        Released(reg[..i] + reg[i + 1..], true)
      else
        TotalUpdate(reg, i, c);
        Released(reg[i := reg[i].(accessCounter := c)], true)
  }

  /** The release half of `register_update`, step by step: look the key up,
      report whether it was found, and decrement or erase its checkpoint. */
  method ReleaseCheckpoint(reg: seq<ExtendedEntry>, key: real, eps: real) returns (r: seq<ExtendedEntry>, found: bool)
    ensures Released(r, found) == Release(reg, key, eps)
  {
    r := reg;
    var i := LowerBound(r, key - eps);
    if i == |r| || Abs(key - r[i].t) > eps {
      found := false;
    } else {
      found := true;
      var c := DecrementCounter(r[i].accessCounter);
      if c == 0 {
        r := r[..i] + r[i + 1..];
      } else {
        r := r[i := r[i].(accessCounter := c)];
      }
    }
  }

  /** `register_update(tLast, tNext)`: register `tNext`, then release `tLast`.
      With positive counters the number of parked synapses is unchanged when
      the old checkpoint was found, and one higher when it was not. */
  function RegisterUpdate(reg: seq<ExtendedEntry>, tLast: real, tNext: real, eps: real): (r: Released)
    ensures |reg| - 1 <= |r.registry| <= |reg| + 1
    ensures AllPositive(reg) ==> Total(r.registry) == if r.found then Total(reg) else Total(reg) + 1
  {
    Release(Register(reg, tNext, eps), tLast, eps)
  }

  // ---------------------------------------------------------------------
  // Counter totals

  lemma {:induction false} TotalAppend(a: seq<ExtendedEntry>, b: seq<ExtendedEntry>)
    ensures Total(a + b) == Total(a) + Total(b)
  {
    if a == [] {
      assert a + b == b;
    } else {
      assert (a + b)[0] == a[0];
      assert (a + b)[1..] == a[1..] + b;
      TotalAppend(a[1..], b);
    }
  }

  lemma {:induction false} TotalSplit(s: seq<ExtendedEntry>, i: nat)
    requires i < |s|
    ensures Total(s) == Total(s[..i]) + s[i].accessCounter + Total(s[i + 1..])
  {
    assert s == s[..i] + [s[i]] + s[i + 1..];
    TotalAppend(s[..i] + [s[i]], s[i + 1..]);
    TotalAppend(s[..i], [s[i]]);
    assert Total([s[i]]) == s[i].accessCounter + Total([]);
  }

  /** Changing one counter changes the total by the same amount. */
  lemma TotalUpdate(s: seq<ExtendedEntry>, i: nat, c: nat)
    requires i < |s|
    ensures Total(s[i := s[i].(accessCounter := c)]) + s[i].accessCounter == Total(s) + c
  {
    var u := s[i := s[i].(accessCounter := c)];
    TotalSplit(s, i);
    TotalSplit(u, i);
    assert u[..i] == s[..i] && u[i + 1..] == s[i + 1..];
  }

  // ---------------------------------------------------------------------
  // Insert-or-increment

  /** Inserting `x` between the checkpoints before it and those after it
      keeps the registry strictly ascending. */
  lemma InsertKeepsAscending(reg: seq<ExtendedEntry>, i: nat, x: ExtendedEntry)
    requires Ascending(reg) && i <= |reg|
    requires forall j :: 0 <= j < i ==> reg[j].t < x.t
    requires forall j :: i <= j < |reg| ==> x.t < reg[j].t
    ensures Ascending(reg[..i] + [x] + reg[i..])
  {
    var r := reg[..i] + [x] + reg[i..];
    assert forall j :: 0 <= j < i ==> r[j] == reg[j];
    assert r[i] == x;
    assert forall j :: i < j < |r| ==> r[j] == reg[j - 1];
    forall a, b | 0 <= a < b < |r| ensures r[a].t < r[b].t {
      if b < i {
      } else if a < i && b == i {
      } else if a < i {
        assert r[a].t < x.t < r[b].t;
      } else if a == i {
      } else {
        assert r[a] == reg[a - 1] && r[b] == reg[b - 1];
      }
    }
  }

  /** Where the lower bound of `key - eps` points when no checkpoint is
      within `eps` of `key`: everything before is below the key, everything
      from there on is above it. */
  lemma AbsentSplit(reg: seq<ExtendedEntry>, key: real, eps: real)
    requires Ascending(reg) && 0.0 <= eps && Absent(reg, key, eps)
    ensures var i := LowerBound(reg, key - eps);
      && (forall j :: 0 <= j < i ==> reg[j].t < key)
      && (forall j :: i <= j < |reg| ==> key < reg[j].t)
  {
    var i := LowerBound(reg, key - eps);
    if i < |reg| {
      assert !Near(reg[i].t, key, eps);
      assert key + eps < reg[i].t;
      forall j | i <= j < |reg| ensures key < reg[j].t {
        if j > i {
          assert reg[i].t < reg[j].t;
        }
      }
    }
  }

  /** With no checkpoint within `eps` of `key`, a new checkpoint `{key, 1}` is
      inserted at its sorted position: the result holds exactly the old
      checkpoints and the new one, still strictly ascending. */
  lemma RegisterWhenAbsent(reg: seq<ExtendedEntry>, key: real, eps: real)
    requires Ascending(reg) && 0.0 <= eps && Absent(reg, key, eps)
    ensures var r := Register(reg, key, eps);
      && |r| == |reg| + 1
      && Ascending(r)
      && multiset(r) == multiset(reg) + multiset{ExtendedEntry(key, 0.0, 1)}
  {
    var i := LowerBound(reg, key - eps);
    var x := ExtendedEntry(key, 0.0, 1);
    AbsentSplit(reg, key, eps);
    assert i < |reg| ==> !Near(reg[i].t, key, eps);
    RegisterInsertsAt(reg, key, eps);
    InsertKeepsAscending(reg, i, x);
    MultisetInsert(reg, i, x);
  }

  /** Where `Register` inserts when no checkpoint at the lower bound is near
      the key. */
  lemma RegisterInsertsAt(reg: seq<ExtendedEntry>, key: real, eps: real)
    requires var i := LowerBound(reg, key - eps); i == |reg| || !Near(reg[i].t, key, eps)
    ensures var i := LowerBound(reg, key - eps);
      Register(reg, key, eps) == reg[..i] + [ExtendedEntry(key, 0.0, 1)] + reg[i..]
  {
  }

  lemma MultisetInsert(reg: seq<ExtendedEntry>, i: nat, x: ExtendedEntry)
    requires i <= |reg|
    ensures multiset(reg[..i] + [x] + reg[i..]) == multiset(reg) + multiset{x}
  {
    assert reg == reg[..i] + reg[i..];
  }

  /** With `k` the first checkpoint within `eps` of `key`, exactly that
      checkpoint's counter goes up by one. */
  lemma RegisterWhenPresent(reg: seq<ExtendedEntry>, key: real, eps: real, k: int)
    requires Ascending(reg) && 0.0 <= eps && FirstNear(reg, key, eps, k)
    ensures Register(reg, key, eps) == reg[k := reg[k].(accessCounter := reg[k].accessCounter + 1)]
  {
    assert forall j :: 0 <= j < k ==> reg[j].t < key - eps by {
      forall j | 0 <= j < k ensures reg[j].t < key - eps {
        assert reg[j].t < reg[k].t;
      }
    }
    assert LowerBound(reg, key - eps) == k;
  }

  /** Either the key was absent or some checkpoint is the first one near it. */
  lemma AbsentOrFirstNear(reg: seq<ExtendedEntry>, key: real, eps: real) returns (k: int)
    ensures Absent(reg, key, eps) || FirstNear(reg, key, eps, k)
  {
    k := 0;
    while k < |reg| && !Near(reg[k].t, key, eps)
      invariant 0 <= k <= |reg|
      invariant forall j :: 0 <= j < k ==> !Near(reg[j].t, key, eps)
    {
      k := k + 1;
    }
  }

  /** Registering keeps the registry well formed and parks exactly one more
      synapse in it. */
  lemma RegisterKeepsInvariant(reg: seq<ExtendedEntry>, key: real, eps: real)
    requires WellFormed(reg) && 0.0 <= eps
    ensures WellFormed(Register(reg, key, eps))
    ensures Total(Register(reg, key, eps)) == Total(reg) + 1
  {
    var k := AbsentOrFirstNear(reg, key, eps);
    if Absent(reg, key, eps) {
      var i := LowerBound(reg, key - eps);
      var x := ExtendedEntry(key, 0.0, 1);
      RegisterWhenAbsent(reg, key, eps);
      assert i < |reg| ==> !Near(reg[i].t, key, eps);
      RegisterInsertsAt(reg, key, eps);
      InsertKeepsPositive(reg, i, x);
      TotalInsert(reg, i, x);
    } else {
      RegisterWhenPresent(reg, key, eps, k);
      SetCounterKeepsWellFormed(reg, k, reg[k].accessCounter + 1);
    }
  }

  /** Inserting a checkpoint keeps every counter positive when its own is. */
  lemma InsertPositive(reg: seq<ExtendedEntry>, i: nat, x: ExtendedEntry)
    requires i <= |reg|
    ensures AllPositive(reg) && x.accessCounter > 0 ==> AllPositive(reg[..i] + [x] + reg[i..])
  {
    if AllPositive(reg) && x.accessCounter > 0 {
      InsertKeepsPositive(reg, i, x);
    }
  }

  /** Inserting a checkpoint with a positive counter keeps every counter
      positive. */
  lemma InsertKeepsPositive(reg: seq<ExtendedEntry>, i: nat, x: ExtendedEntry)
    requires AllPositive(reg) && i <= |reg| && x.accessCounter > 0
    ensures AllPositive(reg[..i] + [x] + reg[i..])
  {
    var r := reg[..i] + [x] + reg[i..];
    forall j | 0 <= j < |r| ensures r[j].accessCounter > 0 {
      if j < i {
        assert r[j] == reg[j];
      } else if i < j {
        assert r[j] == reg[j - 1];
      }
    }
  }

  /** Inserting a checkpoint adds its counter to the total. */
  lemma TotalInsert(reg: seq<ExtendedEntry>, i: nat, x: ExtendedEntry)
    requires i <= |reg|
    ensures Total(reg[..i] + [x] + reg[i..]) == Total(reg) + x.accessCounter
  {
    TotalAppend(reg[..i] + [x], reg[i..]);
    TotalAppend(reg[..i], [x]);
    TotalAppend(reg[..i], reg[i..]);
    assert reg == reg[..i] + reg[i..];
    assert Total([x]) == x.accessCounter + Total([]);
  }

  // ---------------------------------------------------------------------
  // Release

  /** Releasing a key with no checkpoint near it changes nothing and reports
      that nothing was found. */
  lemma ReleaseWhenAbsent(reg: seq<ExtendedEntry>, key: real, eps: real)
    requires Absent(reg, key, eps)
    ensures Release(reg, key, eps) == Released(reg, false)
  {
    var i := LowerBound(reg, key - eps);
    assert i < |reg| ==> !Near(reg[i].t, key, eps);
  }

  /** Releasing the first checkpoint near `key` takes exactly one synapse off
      it, erases it when that was its last one, and leaves every other
      checkpoint as it was. */
  lemma ReleaseWhenPresent(reg: seq<ExtendedEntry>, key: real, eps: real, k: int)
    requires WellFormed(reg) && 0.0 <= eps && FirstNear(reg, key, eps, k)
    ensures var r := Release(reg, key, eps);
      && r.found
      && (reg[k].accessCounter == 1 ==> r.registry == reg[..k] + reg[k + 1..])
      && (reg[k].accessCounter > 1 ==>
            r.registry == reg[k := reg[k].(accessCounter := reg[k].accessCounter - 1)])
  {
    assert forall j :: 0 <= j < k ==> reg[j].t < key - eps by {
      forall j | 0 <= j < k ensures reg[j].t < key - eps {
        assert reg[j].t < reg[k].t;
      }
    }
    assert LowerBound(reg, key - eps) == k;
  }

  /** Releasing keeps the registry well formed; a found checkpoint loses
      exactly one synapse, a missing one leaves the total unchanged. */
  lemma ReleaseKeepsInvariant(reg: seq<ExtendedEntry>, key: real, eps: real)
    requires WellFormed(reg) && 0.0 <= eps
    ensures var r := Release(reg, key, eps);
      && WellFormed(r.registry)
      && Total(r.registry) == if r.found then Total(reg) - 1 else Total(reg)
  {
    var k := AbsentOrFirstNear(reg, key, eps);
    if Absent(reg, key, eps) {
      ReleaseWhenAbsent(reg, key, eps);
    } else {
      ReleaseWhenPresent(reg, key, eps, k);
      if reg[k].accessCounter == 1 {
        EraseKeepsWellFormed(reg, k);
      } else {
        SetCounterKeepsWellFormed(reg, k, reg[k].accessCounter - 1);
      }
    }
  }

  /** Erasing a checkpoint keeps the registry well formed and takes its
      synapses off the total. */
  lemma EraseKeepsWellFormed(reg: seq<ExtendedEntry>, k: nat)
    requires WellFormed(reg) && k < |reg|
    ensures WellFormed(reg[..k] + reg[k + 1..])
    ensures Total(reg[..k] + reg[k + 1..]) == Total(reg) - reg[k].accessCounter
  {
    var r := reg[..k] + reg[k + 1..];
    TotalSplit(reg, k);
    TotalAppend(reg[..k], reg[k + 1..]);
    assert |r| == |reg| - 1;
    forall j | 0 <= j < |r|
      ensures r[j] == reg[if j < k then j else j + 1]
    {
    }
    forall i, j | 0 <= i < j < |r|
      ensures r[i].t < r[j].t
    {
      assert r[i] == reg[if i < k then i else i + 1];
      assert r[j] == reg[if j < k then j else j + 1];
    }
  }

  /** Setting a checkpoint's counter to another positive value keeps the
      registry well formed and shifts the total by the difference. */
  lemma SetCounterKeepsWellFormed(reg: seq<ExtendedEntry>, k: nat, c: nat)
    requires WellFormed(reg) && k < |reg| && 0 < c
    ensures WellFormed(reg[k := reg[k].(accessCounter := c)])
    ensures Total(reg[k := reg[k].(accessCounter := c)]) + reg[k].accessCounter == Total(reg) + c
  {
    TotalUpdate(reg, k, c);
  }

  // ---------------------------------------------------------------------
  // register_update

  /** `register_update` keeps the registry well formed. Its counter total is
      unchanged when the old checkpoint was found and grows by one when it
      was not (the source then only prints "found nothing"). */
  lemma RegisterUpdateBalance(reg: seq<ExtendedEntry>, tLast: real, tNext: real, eps: real)
    requires WellFormed(reg) && 0.0 <= eps
    ensures var r := RegisterUpdate(reg, tLast, tNext, eps);
      && WellFormed(r.registry)
      && Total(r.registry) == if r.found then Total(reg) else Total(reg) + 1
  {
    RegisterKeepsInvariant(reg, tNext, eps);
    ReleaseKeepsInvariant(Register(reg, tNext, eps), tLast, eps);
  }

  /** A synapse that stays at its checkpoint leaves the registry exactly as
      it was. */
  lemma RegisterUpdateSameTime(reg: seq<ExtendedEntry>, t: real, eps: real)
    requires WellFormed(reg) && 0.0 <= eps
    ensures RegisterUpdate(reg, t, t, eps) == Released(reg, true)
  {
    var k := AbsentOrFirstNear(reg, t, eps);
    if Absent(reg, t, eps) {
      var i := LowerBound(reg, t - eps);
      assert i < |reg| ==> !Near(reg[i].t, t, eps);
      SameTimeWhenAbsent(reg, t, eps);
    } else {
      SameTimeWhenPresent(reg, t, eps, k);
    }
  }

  lemma SameTimeWhenAbsent(reg: seq<ExtendedEntry>, t: real, eps: real)
    requires 0.0 <= eps
    requires var i := LowerBound(reg, t - eps); i == |reg| || !Near(reg[i].t, t, eps)
    ensures Release(Register(reg, t, eps), t, eps) == Released(reg, true)
  {
    var i := LowerBound(reg, t - eps);
    RegisterInsertsAt(reg, t, eps);
    ReleaseInserted(reg, t, eps, i);
  }

  /** Releasing a fresh checkpoint inserted where every earlier checkpoint
      lies before `key - eps` gives back the registry it was inserted into. */
  lemma ReleaseInserted(reg: seq<ExtendedEntry>, key: real, eps: real, i: nat)
    requires 0.0 <= eps && i <= |reg|
    requires forall j :: 0 <= j < i ==> ExtendedBefore(reg[j], key - eps)
    ensures Release(reg[..i] + [ExtendedEntry(key, 0.0, 1)] + reg[i..], key, eps) == Released(reg, true)
  {
    var x := ExtendedEntry(key, 0.0, 1);
    var r := reg[..i] + [x] + reg[i..];
    assert r[i] == x;
    assert forall j :: 0 <= j < i ==> r[j] == reg[j];
    LowerBoundUnique(r, key - eps, i);
    ReleaseAt(r, key, eps, i);
    InsertThenErase(reg, i, x);
  }

  lemma InsertThenErase(reg: seq<ExtendedEntry>, i: nat, x: ExtendedEntry)
    requires i <= |reg|
    ensures var r := reg[..i] + [x] + reg[i..]; r[..i] + r[i + 1..] == reg
  {
    var r := reg[..i] + [x] + reg[i..];
    assert r[..i] == reg[..i];
    assert r[i + 1..] == reg[i..];
  }

  /** What `Release` does at the checkpoint the lower bound finds near the key. */
  lemma ReleaseAt(reg: seq<ExtendedEntry>, key: real, eps: real, i: nat)
    requires i < |reg| && LowerBound(reg, key - eps) == i && Near(reg[i].t, key, eps)
    ensures reg[i].accessCounter == 1 ==> Release(reg, key, eps) == Released(reg[..i] + reg[i + 1..], true)
    ensures reg[i].accessCounter > 1 ==>
      Release(reg, key, eps) == Released(reg[i := reg[i].(accessCounter := reg[i].accessCounter - 1)], true)
  {
  }

  lemma SameTimeWhenPresent(reg: seq<ExtendedEntry>, t: real, eps: real, k: int)
    requires WellFormed(reg) && 0.0 <= eps && FirstNear(reg, t, eps, k)
    ensures Release(Register(reg, t, eps), t, eps) == Released(reg, true)
  {
    RegisterWhenPresent(reg, t, eps, k);
    var r := reg[k := reg[k].(accessCounter := reg[k].accessCounter + 1)];
    assert forall j :: 0 <= j < |r| ==> r[j].t == reg[j].t;
    LowerBoundSameTimes(reg, r, t - eps);
    assert reg[k].accessCounter > 0;
    ReleaseAt(r, t, eps, k);
    IncrementThenDecrement(reg, k);
  }

  lemma IncrementThenDecrement(reg: seq<ExtendedEntry>, k: nat)
    requires k < |reg|
    ensures var r := reg[k := reg[k].(accessCounter := reg[k].accessCounter + 1)];
      r[k := r[k].(accessCounter := r[k].accessCounter - 1)] == reg
  {
  }

  /** Moving a checkpoint never empties a registry that held one: the
      synapses parked in it are never fewer afterwards. */
  lemma RegisterUpdateKeepsSome(reg: seq<ExtendedEntry>, tLast: real, tNext: real, eps: real)
    requires WellFormed(reg) && 0.0 <= eps && reg != []
    ensures RegisterUpdate(reg, tLast, tNext, eps).registry != []
  {
    RegisterUpdateBalance(reg, tLast, tNext, eps);
    assert Total(reg) > 0;
  }

  /** The scenario of three synapses connected at -1000 ms that each move
      their checkpoint to 5 ms: the sentinel disappears and a single
      checkpoint at 5 ms holds all three. */
  lemma ThreeSynapsesScenario(eps: real)
    requires 0.0 <= eps < 1.0
    ensures var seeded := Register(Register(Register([], -1000.0, eps), -1000.0, eps), -1000.0, eps);
      && seeded == [ExtendedEntry(-1000.0, 0.0, 3)]
      && var a := RegisterUpdate(seeded, -1000.0, 5.0, eps);
      && var b := RegisterUpdate(a.registry, -1000.0, 5.0, eps);
      && var c := RegisterUpdate(b.registry, -1000.0, 5.0, eps);
      && a.found && b.found && c.found
      && c.registry == [ExtendedEntry(5.0, 0.0, 3)]
  {
    SeedSentinel(eps);
    FirstMove(eps);
    LaterMove(eps, 2, 1);
    LaterMove(eps, 1, 2);
  }

  /** Three synapses connected at -1000 ms share one sentinel checkpoint. */
  lemma SeedSentinel(eps: real)
    requires 0.0 <= eps < 1.0
    ensures Register(Register(Register([], -1000.0, eps), -1000.0, eps), -1000.0, eps)
      == [ExtendedEntry(-1000.0, 0.0, 3)]
  {
    var s1 := Register([], -1000.0, eps);
    assert s1 == [ExtendedEntry(-1000.0, 0.0, 1)];
    LowerBoundUnique(s1, -1000.0 - eps, 0);
    var s2 := Register(s1, -1000.0, eps);
    assert s2 == [ExtendedEntry(-1000.0, 0.0, 2)];
    LowerBoundUnique(s2, -1000.0 - eps, 0);
  }

  /** The first synapse to move opens the checkpoint at 5 ms. */
  lemma FirstMove(eps: real)
    requires 0.0 <= eps < 1.0
    ensures RegisterUpdate([ExtendedEntry(-1000.0, 0.0, 3)], -1000.0, 5.0, eps)
      == Released([ExtendedEntry(-1000.0, 0.0, 2), ExtendedEntry(5.0, 0.0, 1)], true)
  {
    var s3 := [ExtendedEntry(-1000.0, 0.0, 3)];
    LowerBoundUnique(s3, 5.0 - eps, 1);
    var r1 := Register(s3, 5.0, eps);
    assert r1 == [ExtendedEntry(-1000.0, 0.0, 3), ExtendedEntry(5.0, 0.0, 1)];
    LowerBoundUnique(r1, -1000.0 - eps, 0);
    ReleaseAt(r1, -1000.0, eps, 0);
  }

  /** A later synapse joins the checkpoint at 5 ms and leaves the sentinel,
      which disappears with its last synapse. */
  lemma LaterMove(eps: real, n: nat, m: nat)
    requires 0.0 <= eps < 1.0 && 1 <= n
    ensures RegisterUpdate([ExtendedEntry(-1000.0, 0.0, n), ExtendedEntry(5.0, 0.0, m)], -1000.0, 5.0, eps)
      == Released(if n == 1 then [ExtendedEntry(5.0, 0.0, m + 1)]
                  else [ExtendedEntry(-1000.0, 0.0, n - 1), ExtendedEntry(5.0, 0.0, m + 1)], true)
  {
    var reg := [ExtendedEntry(-1000.0, 0.0, n), ExtendedEntry(5.0, 0.0, m)];
    LowerBoundUnique(reg, 5.0 - eps, 1);
    var r := Register(reg, 5.0, eps);
    assert r == [ExtendedEntry(-1000.0, 0.0, n), ExtendedEntry(5.0, 0.0, m + 1)];
    LowerBoundUnique(r, -1000.0 - eps, 0);
    ReleaseAt(r, -1000.0, eps, 0);
    assert r[..0] + r[1..] == [ExtendedEntry(5.0, 0.0, m + 1)];
  }
}
