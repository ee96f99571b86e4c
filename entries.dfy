/** History records kept by the archiving nodes, their order against a time,
    and the unsigned access counters they carry (nestkernel/histentry.h).
    Times are simulation times in ms, modelled as reals. */
module Entries {

  /** The tolerance, in ms, that the archives write literally as 1.0e-6. */
  const Tolerance: real := 0.000001

  /** The largest value of the unsigned 64-bit counter type `size_t`. */
  const SizeMax: nat := 0x1_0000_0000_0000_0000 - 1

  /** Entry of the plain spike history: `histentry`. */
  datatype HistEntry = HistEntry(t: real, kMinus: real, kMinusTriplet: real, accessCounter: nat)

  /** Entry of plasticity rules with one extra factor: `histentry_extended`.
      The checkpoint registry and the raw Urbanczik history hold these. */
  datatype ExtendedEntry = ExtendedEntry(t: real, dw: real, accessCounter: nat)

  /** A `double` as the e-prop writer can store it: a finite value, or the
      NaN that `0.0 / 0.0` leaves. */
  datatype Double = Finite(value: real) | NaN

  /** Entry of the e-prop history: time, pseudo-derivative (kept in the
      `V_m_` slot) and the learning signal added to it later. */
  datatype EpropEntry = EpropEntry(t: real, vM: Double, learningSignal: real, accessCounter: nat)

  /** Record of the compressed Urbanczik history (`histentry_eextended`):
      four decayed integrals, keyed by the time a compression ended. */
  datatype CompressedEntry =
    CompressedEntry(t: real, i1L: real, i1S: real, i2L: real, i2S: real, accessCounter: nat)

  function Abs(x: real): (r: real)
    ensures 0.0 <= r && (r == x || r == -x)
  {
    if x < 0.0 then -x else x
  }

  /** `he < t` for `histentry_extended`: a strict order, so no entry comes
      before its own time. */
  predicate ExtendedBefore(he: ExtendedEntry, t: real): (b: bool)
    ensures t <= he.t ==> !b
  {
    he.t < t
  }

  /** `he < t` for `histentry_eprop`: a strict order, so no entry comes
      before its own time. */
  predicate EpropBefore(he: EpropEntry, t: real): (b: bool)
    ensures t <= he.t ==> !b
  {
    he.t < t
  }

  /** The ordering looks at the time only: payload and counter play no part. */
  lemma BeforeIgnoresPayload(a: ExtendedEntry, b: ExtendedEntry, c: EpropEntry, d: EpropEntry, t: real)
    requires a.t == b.t && c.t == d.t
    ensures ExtendedBefore(a, t) <==> ExtendedBefore(b, t)
    ensures EpropBefore(c, t) <==> EpropBefore(d, t)
  {
  }

  /** Times never decrease along the sequence. */
  ghost predicate TimeSorted(s: seq<ExtendedEntry>)
  {
    forall i, j :: 0 <= i < j < |s| ==> s[i].t <= s[j].t
  }

  /** `std::lower_bound(s.begin(), s.end(), key)` with the order above: the
      first position whose entry is not before `key`. */
  function LowerBound(s: seq<ExtendedEntry>, key: real): (i: nat)
    ensures i <= |s|
    ensures forall j :: 0 <= j < i ==> ExtendedBefore(s[j], key)
    ensures i < |s| ==> !ExtendedBefore(s[i], key)
  {
    if s == [] || !ExtendedBefore(s[0], key) then 0 else 1 + LowerBound(s[1..], key)
  }

  /** On a time-sorted sequence, every entry from the lower bound on is at or
      after the key, so the lower bound is the first entry with `t >= key`. */
  lemma {:induction false} LowerBoundSorted(s: seq<ExtendedEntry>, key: real)
    requires TimeSorted(s)
    ensures forall j :: 0 <= j < |s| ==> (LowerBound(s, key) <= j <==> key <= s[j].t)
  {
    var i := LowerBound(s, key);
    forall j | 0 <= j < |s|
      ensures i <= j <==> key <= s[j].t
    {
      if i <= j {
        assert key <= s[i].t <= s[j].t;
      }
    }
  }

  /** The lower bound is the only position with the two properties its
      contract states. */
  lemma LowerBoundUnique(s: seq<ExtendedEntry>, key: real, i: nat)
    requires i <= |s|
    requires forall j :: 0 <= j < i ==> ExtendedBefore(s[j], key)
    requires i < |s| ==> !ExtendedBefore(s[i], key)
    ensures LowerBound(s, key) == i
  {
  }

  /** The lower bound depends on the times alone. */
  lemma LowerBoundSameTimes(a: seq<ExtendedEntry>, b: seq<ExtendedEntry>, key: real)
    requires |a| == |b|
    requires forall j :: 0 <= j < |a| ==> a[j].t == b[j].t
    ensures LowerBound(a, key) == LowerBound(b, key)
  {
  }

  /** `size_t` decrement: the modular predecessor, so 0 wraps to `SizeMax`. */
  function DecrementCounter(c: nat): (r: nat)
    ensures c <= SizeMax ==> r <= SizeMax && (r + 1) % (SizeMax + 1) == c
  {
    if c == 0 then SizeMax else c - 1
  }

  /** Decrementing a counter that was just incremented gives it back, and a
      counter at zero does not fail: it wraps to the largest value. */
  lemma DecrementUndoesIncrement(c: nat)
    ensures DecrementCounter(c + 1) == c
    ensures DecrementCounter(0) == SizeMax
  {
  }
}
