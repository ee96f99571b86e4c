/** The two histories of the e-prop archiving node
    (nestkernel/eprop_archiving_node.cpp) seen as values: the dense,
    grid-addressed `eprop_history_` and the search-addressed
    `spike_history_`, with the slices and prunes the node computes on them.
    `h` is the simulation resolution in ms. */
module EpropHistory {
  import opened Entries

  function Max(a: int, b: int): (m: int) { if a < b then b else a }

  function Min(a: int, b: int): (m: int) { if a < b then a else b }

  /** `std::round`: the nearest integer, halves rounded away from zero. */
  function Round(x: real): (r: int)
    ensures x - 0.5 <= r as real <= x + 0.5
    ensures 0.0 <= x ==> x - 0.5 < r as real
    ensures x <= 0.0 ==> r as real < x + 0.5
  {
    if x >= 0.0 then (x + 0.5).Floor else -((-x + 0.5).Floor)
  }

  lemma RoundInteger(k: int)
    ensures Round(k as real) == k
  {
  }

  // Facts about products and quotients, each proved in isolation so that no
  // larger proof has to reason about multiplication itself.

  lemma MulDiv(a: real, h: real)
    requires h != 0.0
    ensures (a * h) / h == a
  {
  }

  lemma DivMul(a: real, h: real)
    requires h != 0.0
    ensures (a / h) * h == a
  {
  }

  lemma ScaleLe(a: real, b: real, h: real)
    requires 0.0 < h && a <= b
    ensures a * h <= b * h
  {
  }

  lemma ScaleLt(a: real, b: real, h: real)
    requires 0.0 < h && a < b
    ensures a * h < b * h
  {
  }

  lemma AddMul(a: real, b: real, h: real)
    ensures (a + b) * h == a * h + b * h
  {
  }

  // ---------------------------------------------------------------------
  // The time grid

  /** The time of step `k` on the grid of spacing `h` that starts at `tFirst`. */
  function GridTime(tFirst: real, k: int, h: real): (t: real)
    ensures 0.0 < h ==> (0 < k <==> tFirst < t) && (k == 0 <==> t == tFirst)
  {
    StepSign(k, h);
    tFirst + k as real * h
  }

  /** A positive spacing keeps the sign of the step. */
  lemma StepSign(k: int, h: real)
    ensures 0.0 < h ==> (0 < k <==> 0.0 < k as real * h) && (k == 0 <==> k as real * h == 0.0)
  {
    if 0.0 < h && k != 0 {
      if 0 < k {
        ScaleLt(0.0, k as real, h);
      } else {
        ScaleLt(k as real, 0.0, h);
      }
    }
  }

  /** The grid position nearest to `t`: `round((t - t_first) / h)`. The
      time `t` lies within half a step of that grid point. */
  function GridIndex(t: real, tFirst: real, h: real): (k: int)
    requires 0.0 < h
    ensures GridTime(tFirst, k, h) - h / 2.0 <= t <= GridTime(tFirst, k, h) + h / 2.0
  {
    var k := Round((t - tFirst) / h);
    DivMul(t - tFirst, h);
    HalfStep(t - tFirst, (t - tFirst) / h, k as real, h);
    k
  }

  /** A multiplier within half a unit of the quotient `q = d / h` gives a
      product within half a step of `d`. */
  lemma HalfStep(d: real, q: real, k: real, h: real)
    requires 0.0 < h && q * h == d && q - 0.5 <= k <= q + 0.5
    ensures k * h - h / 2.0 <= d <= k * h + h / 2.0
  {
    ScaleLe(q + -0.5, k, h);
    ScaleLe(k, q + 0.5, h);
    AddMul(q, -0.5, h);
    AddMul(q, 0.5, h);
    assert q * h + -0.5 * h <= k * h <= q * h + 0.5 * h;
    assert 0.5 * h == h / 2.0;
    assert d - h / 2.0 <= k * h <= d + h / 2.0;
  }

  /** `std::round` never decreases. */
  lemma RoundMonotone(x: real, y: real)
    requires x <= y
    ensures Round(x) <= Round(y)
  {
  }

  /** Later times have grid positions no earlier. */
  lemma GridIndexMonotone(t1: real, t2: real, tFirst: real, h: real)
    requires 0.0 < h && t1 <= t2
    ensures GridIndex(t1, tFirst, h) <= GridIndex(t2, tFirst, h)
  {
    var x1, x2 := (t1 - tFirst) / h, (t2 - tFirst) / h;
    assert x1 <= x2 by {
      DivMul(t1 - tFirst, h);
      DivMul(t2 - tFirst, h);
      if x2 < x1 {
        ScaleLt(x2, x1, h);
      }
    }
    RoundMonotone(x1, x2);
  }

  /** Steps add up along the grid. */
  lemma GridTimeAdd(tFirst: real, i: int, j: int, h: real)
    ensures GridTime(GridTime(tFirst, i, h), j, h) == GridTime(tFirst, i + j, h)
  {
    AddMul(i as real, j as real, h);
  }

  /** Grid times are strictly increasing in the step. */
  lemma GridTimeMonotone(tFirst: real, i: int, j: int, h: real)
    requires 0.0 < h
    ensures i <= j <==> GridTime(tFirst, i, h) <= GridTime(tFirst, j, h)
    ensures i < j <==> GridTime(tFirst, i, h) < GridTime(tFirst, j, h)
  {
    if i < j {
      ScaleLt(i as real, j as real, h);
    } else if i == j {
    } else {
      ScaleLt(j as real, i as real, h);
    }
  }

  /** The grid position of a grid time is its step. */
  lemma GridIndexOfGridTime(tFirst: real, k: int, h: real)
    requires 0.0 < h
    ensures GridIndex(GridTime(tFirst, k, h), tFirst, h) == k
  {
    var d := GridTime(tFirst, k, h) - tFirst;
    assert d == k as real * h;
    MulDiv(k as real, h);
    assert d / h == k as real;
    RoundInteger(k);
  }

  /** Steps below the grid position of `t` lie before `t`; the others lie
      no earlier than half a step before it. */
  lemma GridIndexBracket(t: real, tFirst: real, h: real, j: int)
    requires 0.0 < h
    ensures j < GridIndex(t, tFirst, h) ==> GridTime(tFirst, j, h) < t
    ensures GridIndex(t, tFirst, h) <= j ==> t - h / 2.0 <= GridTime(tFirst, j, h)
  {
    var r := GridIndex(t, tFirst, h);
    if j < r {
      GridTimeAdd(tFirst, j, 1, h);
      GridTimeMonotone(tFirst, j + 1, r, h);
    } else {
      GridTimeMonotone(tFirst, r, j, h);
    }
  }

  /** Measured from a later grid point, a time that rounds to grid position
      `f >= 1` rounds to position 0 or below. */
  lemma GridIndexFromLaterPoint(t: real, tFirst: real, h: real, f: int)
    requires 0.0 < h && 1 <= f && GridIndex(t, tFirst, h) == f
    ensures GridIndex(t, GridTime(tFirst, f, h), h) <= 0
  {
    var x := (t - tFirst) / h;
    assert x - 0.5 < f as real <= x + 0.5;
    var y := (t - GridTime(tFirst, f, h)) / h;
    DivMul(t - tFirst, h);
    AddMul(x, -(f as real), h);
    assert t - GridTime(tFirst, f, h) == (x - f as real) * h;
    MulDiv(x - f as real, h);
    assert y == x - f as real;
  }

  /** The writer appends one entry per simulation step, so entry `j` lies `j`
      steps after the first one. */
  ghost predicate Dense(hist: seq<EpropEntry>, h: real)
  {
    forall j :: 0 <= j < |hist| ==> hist[j].t == GridTime(hist[0].t, j, h)
  }

  /** What is left of a dense history after erasing a prefix is dense. */
  lemma DenseSuffix(hist: seq<EpropEntry>, h: real, f: nat)
    requires Dense(hist, h) && f <= |hist|
    ensures Dense(hist[f..], h)
  {
    var r := hist[f..];
    forall j | 0 <= j < |r| ensures r[j].t == GridTime(r[0].t, j, h) {
      assert r[j] == hist[f + j] && r[0] == hist[f];
      GridTimeAdd(hist[0].t, f, j, h);
    }
  }

  /** Appending the entry one step after the last keeps a history dense. */
  lemma DenseAppend(hist: seq<EpropEntry>, h: real, e: EpropEntry)
    requires Dense(hist, h) && (hist != [] ==> e.t == GridTime(hist[|hist| - 1].t, 1, h))
    ensures Dense(hist + [e], h)
  {
    var r := hist + [e];
    if hist != [] {
      GridTimeAdd(hist[0].t, |hist| - 1, 1, h);
      assert r[|hist|].t == GridTime(r[0].t, |hist|, h);
      assert forall j :: 0 <= j < |hist| ==> r[j] == hist[j];
    }
  }

  /** A history with the same times as a dense one is dense. */
  lemma DenseSameTimes(a: seq<EpropEntry>, b: seq<EpropEntry>, h: real)
    requires Dense(a, h) && |a| == |b|
    requires forall j :: 0 <= j < |a| ==> a[j].t == b[j].t
    ensures Dense(b, h)
  {
  }

  // ---------------------------------------------------------------------
  // eprop_history_

  /** A pair of positions into a history: `[start, finish)`; an empty history
      gives `start == finish == end`. */
  datatype Slice = Slice(start: int, finish: int)

  /** `find_eprop_hist_entries(t1, t2)` as the source writes it: positions by
      grid arithmetic, `finish` clamped to `[0, size]`, `start` only to `0`. */
  function FindEpropHistEntries(hist: seq<EpropEntry>, t1: real, t2: real, h: real): (s: Slice)
    requires 0.0 < h
    ensures 0 <= s.start && 0 <= s.finish <= |hist|
    ensures hist != [] ==> s.start == Max(0, GridIndex(t1, hist[0].t, h))
    ensures hist != [] ==> s.finish == Max(0, Min(|hist|, GridIndex(t2, hist[0].t, h)))
    ensures hist == [] ==> s == Slice(0, 0)
  {
    if hist == [] then Slice(|hist|, |hist|)
    else
      var tFirst := hist[0].t;
      var posT1 := Max(0, GridIndex(t1, tFirst, h));
      var posT2 := Min(|hist|, GridIndex(t2, tFirst, h));
      Slice(Max(0, posT1), Max(0, posT2))
  }

  /** The start position is not clamped to the size: a query that begins
      past the last entry yields a start beyond `end()`. */
  lemma StartPastEnd()
    ensures var s := FindEpropHistEntries([EpropEntry(0.0, Finite(0.0), 0.0, 0)], 3.0, 4.0, 1.0);
      s.start == 3 && s.finish == 1
  {
    GridIndexOfGridTime(0.0, 3, 1.0);
    GridIndexOfGridTime(0.0, 4, 1.0);
  }

  /** The positions as the grid lookup evidently intends them: `start` is
      also kept inside `[begin, finish]`, so `[start, finish)` is always a
      slice of the history. */
  function FindEntries(hist: seq<EpropEntry>, t1: real, t2: real, h: real): (s: Slice)
    requires 0.0 < h
    ensures 0 <= s.start <= s.finish <= |hist|
    ensures s.finish == FindEpropHistEntries(hist, t1, t2, h).finish
  {
    var w := FindEpropHistEntries(hist, t1, t2, h);
    Slice(Min(w.start, w.finish), w.finish)
  }

  /** The two lookups agree on every query in time order whose start does
      not lie past the end of the history: they differ only where the
      source's start would leave the history. */
  lemma FindEntriesAgreesInside(hist: seq<EpropEntry>, t1: real, t2: real, h: real)
    requires 0.0 < h && t1 <= t2
    requires hist != [] ==> GridIndex(t1, hist[0].t, h) <= |hist|
    ensures FindEntries(hist, t1, t2, h) == FindEpropHistEntries(hist, t1, t2, h)
  {
    if hist != [] {
      GridIndexMonotone(t1, t2, hist[0].t, h);
    }
  }

  /** On a dense history and grid-aligned bounds, the slice holds exactly the
      entries with `t1 <= t < t2`: the lower bound is included and the upper
      bound excluded. */
  lemma FindEntriesOnGrid(hist: seq<EpropEntry>, h: real, k1: int, k2: int)
    requires 0.0 < h && Dense(hist, h) && hist != []
    ensures var t1, t2 := GridTime(hist[0].t, k1, h), GridTime(hist[0].t, k2, h);
      var s := FindEntries(hist, t1, t2, h);
      forall j :: 0 <= j < |hist| ==> (s.start <= j < s.finish <==> t1 <= hist[j].t < t2)
  {
    var t0 := hist[0].t;
    var t1, t2 := GridTime(t0, k1, h), GridTime(t0, k2, h);
    GridIndexOfGridTime(t0, k1, h);
    GridIndexOfGridTime(t0, k2, h);
    var s := FindEntries(hist, t1, t2, h);
    assert s.start == Min(Max(0, k1), Max(0, Min(|hist|, k2)));
    assert s.finish == Max(0, Min(|hist|, k2));
    forall j | 0 <= j < |hist|
      ensures s.start <= j < s.finish <==> t1 <= hist[j].t < t2
    {
      assert hist[j].t == GridTime(t0, j, h);
      GridTimeMonotone(t0, k1, j, h);
      GridTimeMonotone(t0, j, k2, h);
    }
  }

  /** `tidy_eprop_history` on `eprop_history_`: erase the head up to the grid
      position of the watermark `m` (the smallest checkpoint). */
  function TidyHistory(hist: seq<EpropEntry>, m: real, h: real): (r: seq<EpropEntry>)
    requires 0.0 < h
    ensures |r| <= |hist| && forall j :: 0 <= j < |r| ==> r[j] == hist[|hist| - |r| + j]
    ensures hist != [] ==> |hist| - |r| == Max(0, Min(|hist|, GridIndex(m, hist[0].t, h)))
  {
    if hist == [] then [] else hist[FindEntries(hist, 0.0, m, h).finish..]
  }

  /** Tidying never erases an entry at or after the watermark, and what it
      keeps starts at most half a step before the watermark. */
  lemma TidyKeepsWatermark(hist: seq<EpropEntry>, m: real, h: real)
    requires 0.0 < h && Dense(hist, h)
    ensures var r := TidyHistory(hist, m, h);
      && (forall j :: 0 <= j < |hist| - |r| ==> hist[j].t < m)
      && (forall j :: 0 <= j < |r| ==> m - h / 2.0 <= r[j].t)
  {
    var r := TidyHistory(hist, m, h);
    var f := |hist| - |r|;
    forall j | 0 <= j < |hist|
      ensures j < f ==> hist[j].t < m
      ensures f <= j ==> m - h / 2.0 <= hist[j].t
    {
      GridIndexBracket(m, hist[0].t, h, j);
    }
    assert forall j :: 0 <= j < |r| ==> r[j] == hist[f + j];
  }

  /** Tidying twice with the same watermark removes nothing the second time. */
  lemma TidyIdempotent(hist: seq<EpropEntry>, m: real, h: real)
    requires 0.0 < h && Dense(hist, h)
    ensures TidyHistory(TidyHistory(hist, m, h), m, h) == TidyHistory(hist, m, h)
  {
    var r := TidyHistory(hist, m, h);
    if r != [] {
      var f := |hist| - |r|;
      if f > 0 {
        assert r[0] == hist[f];
        assert r[0].t == GridTime(hist[0].t, f, h);
        GridIndexFromLaterPoint(m, hist[0].t, h, f);
        assert r[|r| - |r|..] == r;
      } else {
        assert r == hist;
      }
    }
  }

  /** The positions `add_learning_to_hist` looks up, with the lookup as the
      source writes it, for an event stamped `stamp` with a delay of
      `delaySteps` steps: from the entry nearest two steps before the stamp,
      for the length of the delay. A delay of no steps or more never gives a
      reversed window unless its start lies past the end. */
  function LearningWindow(hist: seq<EpropEntry>, stamp: real, delaySteps: int, h: real): (s: Slice)
    requires 0.0 < h
    ensures 0 <= s.start && 0 <= s.finish <= |hist|
    ensures hist != [] ==> s.start == Max(0, GridIndex(stamp - 2.0 * h, hist[0].t, h))
    ensures 0 <= delaySteps && s.start <= |hist| ==> s.start <= s.finish
  {
    var tMs := stamp - 2.0 * h;
    var tEnd := tMs + delaySteps as real * h;
    DelayOrdersWindow(hist, tMs, delaySteps, h);
    FindEpropHistEntries(hist, tMs, tEnd, h)
  }

  /** A delay of no steps or more ends the window no earlier than it starts. */
  lemma DelayOrdersWindow(hist: seq<EpropEntry>, tMs: real, delaySteps: int, h: real)
    requires 0.0 < h
    ensures hist != [] && 0 <= delaySteps ==>
      GridIndex(tMs, hist[0].t, h) <= GridIndex(tMs + delaySteps as real * h, hist[0].t, h)
  {
    if hist != [] && 0 <= delaySteps {
      ScaleLe(0.0, delaySteps as real, h);
      GridIndexMonotone(tMs, tMs + delaySteps as real * h, hist[0].t, h);
    }
  }

  /** The history after `add_learning_to_hist`: the learning signal of the
      entry at the window's start grows by `weight * coeffs[1]`, provided the
      two positions differ, the start is an entry of the history and the
      event carries a coefficient. Only that entry's learning signal can
      change. */
  function AddLearningSignal(hist: seq<EpropEntry>, stamp: real, delaySteps: int, weight: real,
                             coeffs: seq<real>, h: real): (r: seq<EpropEntry>)
    requires 0.0 < h
    ensures |r| == |hist|
    ensures forall j :: 0 <= j < |r| ==>
      r[j].t == hist[j].t && r[j].vM == hist[j].vM && r[j].accessCounter == hist[j].accessCounter
    ensures forall j :: 0 <= j < |r| && r[j] != hist[j] ==>
      j == LearningWindow(hist, stamp, delaySteps, h).start
      && |coeffs| >= 2 && r[j].learningSignal == hist[j].learningSignal + weight * coeffs[1]
  {
    var s := LearningWindow(hist, stamp, delaySteps, h);
    if s.start != s.finish && s.start < |hist| && |coeffs| >= 2 then
      hist[s.start := hist[s.start].(learningSignal := hist[s.start].learningSignal + weight * coeffs[1])]
    else hist
  }

  /** For an event stamped on the grid whose window starts inside the
      history, exactly the entry two steps before the stamp receives the
      learning signal. */
  lemma AddLearningSignalOnGrid(hist: seq<EpropEntry>, k: int, delaySteps: int, weight: real,
                                coeffs: seq<real>, h: real)
    requires 0.0 < h && 0 <= k < |hist| && 1 <= delaySteps && |coeffs| >= 2
    ensures var r := AddLearningSignal(hist, GridTime(hist[0].t, k + 2, h), delaySteps, weight, coeffs, h);
      r[k].learningSignal == hist[k].learningSignal + weight * coeffs[1]
      && forall j :: 0 <= j < |r| && j != k ==> r[j] == hist[j]
  {
    var t0 := hist[0].t;
    var stamp := GridTime(t0, k + 2, h);
    var tMs := stamp - 2.0 * h;
    GridTimeAdd(t0, k, 2, h);
    assert tMs == GridTime(t0, k, h);
    GridTimeAdd(t0, k, delaySteps, h);
    assert tMs + delaySteps as real * h == GridTime(t0, k + delaySteps, h);
    GridIndexOfGridTime(t0, k, h);
    GridIndexOfGridTime(t0, k + delaySteps, h);
    var s := LearningWindow(hist, stamp, delaySteps, h);
    assert s.start == k && k < s.finish;
  }

  /** `pseudo_deriv`: the dampening factor times `max(0, 1 - |diff / V_th|)`.
      For `V_th == 0` the quotient is infinite or NaN, and `1 - |q|` is then
      not above 0, so the clipped factor is 0. */
  function PseudoDeriv(diff: real, vTh: real, dampening: real): (r: real)
    ensures 0.0 <= dampening ==> 0.0 <= r <= dampening
    ensures Abs(vTh) <= Abs(diff) ==> r == 0.0
    ensures 0.0 < dampening && Abs(diff) < Abs(vTh) ==> 0.0 < r
  {
    var clipped :=
      if vTh == 0.0 then 0.0
      else (
        var norm := 1.0 - Abs(diff / vTh);
        QuotientBelowOne(diff, vTh);
        if norm > 0.0 then norm else 0.0);
    DampenUnit(dampening, clipped);
    dampening * clipped
  }

  /** The value `write_eprop_history` stores: `pseudo_deriv / V_th`. For
      `V_th == 0` that is `0.0 / 0.0`, NaN; otherwise multiplying it back by
      `V_th` gives the pseudo-derivative. */
  function ScaledPseudoDeriv(diff: real, vTh: real, dampening: real): (v: Double)
    ensures v.NaN? <==> vTh == 0.0
    ensures v.Finite? ==> v.value * vTh == PseudoDeriv(diff, vTh, dampening)
    ensures v.Finite? && Abs(vTh) <= Abs(diff) ==> v.value == 0.0
  {
    if vTh == 0.0 then NaN
    else
      var p := PseudoDeriv(diff, vTh, dampening);
      DivMul(p, vTh);
      Finite(p / vTh)
  }

  /** `|diff / vTh| < 1` exactly when `|diff| < |vTh|`. */
  lemma QuotientBelowOne(diff: real, vTh: real)
    requires vTh != 0.0
    ensures Abs(diff / vTh) < 1.0 <==> Abs(diff) < Abs(vTh)
  {
    var q := diff / vTh;
    var aq, av := Abs(q), Abs(vTh);
    assert diff == q * vTh;
    assert Abs(diff) == aq * av by {
      if q < 0.0 && vTh < 0.0 { assert aq * av == (-q) * (-vTh) == q * vTh; }
      else if q < 0.0 { assert aq * av == (-q) * vTh; }
      else if vTh < 0.0 { assert aq * av == q * (-vTh); }
    }
    if aq < 1.0 {
      ScaleLt(aq, 1.0, av);
    } else {
      ScaleLe(1.0, aq, av);
    }
  }

  /** Scaling a factor in `[0, 1]` by a nonnegative dampening stays in
      `[0, dampening]`, and is positive when both are. */
  lemma DampenUnit(dampening: real, x: real)
    requires 0.0 <= x <= 1.0
    ensures 0.0 <= dampening ==> 0.0 <= dampening * x <= dampening
    ensures 0.0 < dampening && 0.0 < x ==> 0.0 < dampening * x
  {
    if 0.0 <= dampening {
      ScaleLe(x, 1.0, if dampening == 0.0 then 1.0 else dampening);
    }
  }

  // ---------------------------------------------------------------------
  // spike_history_

  /** Spike times never decrease. */
  ghost predicate Sorted(s: seq<real>)
  {
    forall i, j :: 0 <= i < j < |s| ==> s[i] <= s[j]
  }

  /** `std::lower_bound(s.begin() + from, s.end(), key)` on spike times. */
  function LowerBoundFrom(s: seq<real>, from: nat, key: real): (i: nat)
    requires from <= |s|
    ensures from <= i <= |s|
    ensures forall j :: from <= j < i ==> s[j] < key
    ensures i < |s| ==> key <= s[i]
    decreases |s| - from
  {
    if from == |s| || !(s[from] < key) then from else LowerBoundFrom(s, from + 1, key)
  }

  /** `get_spike_history(t1, t2)`: the spikes after `t1` up to `t2`, both
      shifted by the stdp tolerance `eps`. */
  function GetSpikeHistory(s: seq<real>, t1: real, t2: real, eps: real): (r: Slice)
    ensures 0 <= r.start <= r.finish <= |s|
    ensures s == [] ==> r == Slice(|s|, |s|)
  {
    if s == [] then Slice(|s|, |s|)
    else
      var start := LowerBoundFrom(s, 0, t1 + eps);
      Slice(start, LowerBoundFrom(s, start, t2 + eps))
  }

  /** On a sorted spike history the slice holds exactly the spikes with
      `t1 + eps <= t < t2 + eps`, i.e. after `t1` and up to `t2` within the
      tolerance. */
  lemma {:induction false} SpikeHistoryRange(s: seq<real>, t1: real, t2: real, eps: real)
    requires Sorted(s)
    ensures var r := GetSpikeHistory(s, t1, t2, eps);
      forall j :: 0 <= j < |s| ==> (r.start <= j < r.finish <==> t1 + eps <= s[j] < t2 + eps)
  {
    var r := GetSpikeHistory(s, t1, t2, eps);
    forall j | 0 <= j < |s|
      ensures r.start <= j < r.finish <==> t1 + eps <= s[j] < t2 + eps
    {
      if r.start <= j {
        assert t1 + eps <= s[r.start] <= s[j];
      }
      if r.finish <= j && r.finish < |s| {
        assert t2 + eps <= s[r.finish] <= s[j];
      }
      if j < r.start {
        assert s[j] < t1 + eps;
      }
    }
  }

  /** How many head spikes the `pop_front` loop of `tidy_eprop_history`
      drops from `spike_history_`: it pops while `front + 1e-6 < m`. */
  function SpikesBefore(s: seq<real>, m: real): (k: nat)
    ensures k <= |s|
    ensures forall j :: 0 <= j < k ==> s[j] + Tolerance < m
    ensures k < |s| ==> m <= s[k] + Tolerance
  {
    if s != [] && s[0] + Tolerance < m then 1 + SpikesBefore(s[1..], m) else 0
  }

  /** The spike history after that loop: every dropped spike lies more than
      1e-6 before `m`, and the first one kept does not. */
  function DropSpikesBefore(s: seq<real>, m: real): (r: seq<real>)
    ensures |r| <= |s| && forall j :: 0 <= j < |r| ==> r[j] == s[|s| - |r| + j]
    ensures forall j :: 0 <= j < |s| - |r| ==> s[j] + Tolerance < m
    ensures r != [] ==> m <= r[0] + Tolerance
  {
    s[SpikesBefore(s, m)..]
  }

  /** The `pop_front` loop of `tidy_eprop_history` on the spike times `s`. */
  method PopSpikesBefore(s: seq<real>, m: real) returns (r: seq<real>)
    ensures r == DropSpikesBefore(s, m)
  {
    r := s;
    ghost var popped := 0;
    while r != [] && r[0] + Tolerance < m
      invariant popped <= SpikesBefore(s, m) && r == s[popped..]
      decreases |r|
    {
      r, popped := r[1..], popped + 1;
    }
  }

  /** Dropping a head keeps a sorted spike history sorted. */
  lemma DropKeepsSorted(s: seq<real>, m: real)
    requires Sorted(s)
    ensures Sorted(DropSpikesBefore(s, m))
  {
    var r := DropSpikesBefore(s, m);
    forall i, j | 0 <= i < j < |r| ensures r[i] <= r[j] {
      assert r[i] == s[|s| - |r| + i] && r[j] == s[|s| - |r| + j];
    }
  }

  /** Appending a spike no earlier than the last keeps the history sorted. */
  lemma AppendKeepsSorted(s: seq<real>, t: real)
    requires Sorted(s) && (s != [] ==> s[|s| - 1] <= t)
    ensures Sorted(s + [t])
  {
    var r := s + [t];
    forall i, j | 0 <= i < j < |r| ensures r[i] <= r[j] {
      if j == |s| && i < |s| - 1 {
        assert r[i] == s[i] && s[i] <= s[|s| - 1];
      }
    }
  }

  /** Dropping again with the same watermark removes nothing. */
  lemma DropSpikesIdempotent(s: seq<real>, m: real)
    ensures DropSpikesBefore(DropSpikesBefore(s, m), m) == DropSpikesBefore(s, m)
  {
  }
}
