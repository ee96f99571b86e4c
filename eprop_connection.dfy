/** `EpropConnection` (models/eprop_connection.h): an e-prop synapse. It
    buffers its presynaptic spike times and, at most once per update
    interval, reads the target's e-prop history since its last update,
    changes its weight, moves its checkpoint and lets the target tidy up. */
module EpropSynapse {
  import opened Entries
  import opened Wrappers
  import EpropRegistry
  import opened EpropHistory
  import opened EpropArchive

  /** What the eligibility-trace computation hands back: the weight change
      and the two traces the synapse carries to its next update. */
  datatype TraceUpdate = TraceUpdate(dw: real, lastETrace: real, tPrimeIntTrace: real)

  /** `floor(x / h)`: how many whole steps of `h` fit into `x`. */
  function WholeSteps(x: real, h: real): (f: int)
    requires 0.0 < h
    ensures f as real * h <= x < f as real * h + h
    ensures 0.0 <= x ==> 0 <= f
  {
    var q := x / h;
    var k := q.Floor;
    DivMul(x, h);
    ScaleLe(k as real, q, h);
    ScaleLt(q, k as real + 1.0, h);
    AddMul(k as real, 1.0, h);
    assert k as real * h <= q * h == x;
    assert x < (k as real + 1.0) * h;
    assert (k as real + 1.0) * h == k as real * h + h;
    if k < 0 then
      ScaleLe(k as real, -1.0, h);
      k
    else k
  }

  /** `floor(t / T) * T`: the update boundary at or before `t`. */
  function FloorToInterval(t: real, interval: real): (r: real)
    requires 0.0 < interval
    ensures r <= t < r + interval
  {
    WholeSteps(t, interval) as real * interval
  }

  /** `floor((t_spike - t_next) / T) + 1`: how many whole intervals
      `t_nextupdate_` advances by once `t_spike` has passed it. */
  function StepsToNextUpdate(tNext: real, tSpike: real, interval: real): (k: int)
    requires 0.0 < interval && tNext < tSpike
    ensures 1 <= k
    ensures tNext + (k - 1) as real * interval <= tSpike < tNext + (k - 1) as real * interval + interval
  {
    WholeSteps(tSpike - tNext, interval) + 1
  }

  /** The new `t_nextupdate_`: the first point of its grid after the spike. */
  function NextUpdate(tNext: real, tSpike: real, interval: real): (r: real)
    requires 0.0 < interval && tNext < tSpike
    ensures tSpike < r <= tSpike + interval
  {
    var k := StepsToNextUpdate(tNext, tSpike, interval);
    AddMul((k - 1) as real, 1.0, interval);
    tNext + k as real * interval
  }

  /** From a multiple of the interval, the next update is the interval
      boundary after the spike, one interval after the new `t_lastupdate_`:
      a schedule that starts on the grid stays on it. */
  lemma NextUpdateOnGrid(m: int, tSpike: real, interval: real)
    requires 0.0 < interval && m as real * interval < tSpike
    ensures NextUpdate(m as real * interval, tSpike, interval) == FloorToInterval(tSpike, interval) + interval
    ensures FloorToInterval(tSpike, interval) == ((tSpike / interval).Floor as real) * interval
  {
    var q := tSpike / interval;
    var f := q.Floor;
    DivMul(tSpike, interval);
    AddMul(q, -(m as real), interval);
    assert tSpike - m as real * interval == (q - m as real) * interval;
    MulDiv(q - m as real, interval);
    assert (tSpike - m as real * interval) / interval == q - m as real;
    assert (q - m as real).Floor == f - m;
    var k := StepsToNextUpdate(m as real * interval, tSpike, interval);
    assert k == f - m + 1;
    AddMul(m as real, (f - m + 1) as real, interval);
    AddMul(f as real, 1.0, interval);
  }

  /** The `set_status` checks that throw: a non-positive `tau_alpha` or
      update interval. The weight/`Wmin`/`Wmax` sign checks never throw. */
  function CheckEpropStatus(tauAlpha: real, interval: real): (r: Option<BadProperty>)
    ensures r == None <==> 0.0 < tauAlpha && 0.0 < interval
    ensures tauAlpha <= 0.0 ==> r == Some(NonPositiveTau)
    ensures 0.0 < tauAlpha && interval <= 0.0 ==> r == Some(NonPositiveInterval)
  {
    if tauAlpha <= 0.0 then Some(NonPositiveTau)
    else if interval <= 0.0 then Some(NonPositiveInterval)
    else None
  }

  class EpropConnection {
    /** The dendritic delay `d`, in ms. */
    const delay: real

    var weight: real
    var tauAlpha: real
    var tauKappa: real
    var eta: real
    var updateInterval: real
    var wMin: real
    var wMax: real
    var tLastSpike: real
    var tLastUpdate: real
    var tNextUpdate: real
    var lastETrace: real
    var tPrimeIntTrace: real
    var keepTraces: real
    /** `pre_syn_spike_times_`. */
    var preSynSpikeTimes: seq<real>

    constructor (delay: real)
      ensures this.delay == delay && weight == 1.0 && tauAlpha == 10.0 && tauKappa == 10.0
      ensures eta == 0.0001 && updateInterval == 100.0 && wMin == 0.0 && wMax == 100.0
      ensures tLastSpike == -1000.0 && tLastUpdate == -1000.0 && tNextUpdate == 100.0
      ensures lastETrace == 0.0 && tPrimeIntTrace == 0.0 && keepTraces == 1.0
      ensures preSynSpikeTimes == []
    {
      this.delay := delay;
      weight := 1.0;
      tauAlpha := 10.0;
      tauKappa := 10.0;
      eta := 0.0001;
      updateInterval := 100.0;
      wMin := 0.0;
      wMax := 100.0;
      tLastSpike := -1000.0;
      tLastUpdate := -1000.0;
      tNextUpdate := 100.0;
      lastETrace := 0.0;
      tPrimeIntTrace := 0.0;
      keepTraces := 1.0;
      preSynSpikeTimes := [];
    }

    /** The time at which a spike sent at `t` reaches the dendrite. */
    function Dendritic(t: real): (td: real)
    {
      t - delay
    }

    /** `send` for a spike at `tSpike`: the spike joins the buffer and, once
        it is past `t_nextupdate_`, the synapse updates. `learn` stands for
        the eligibility trace and weight-change computation over the history
        slice, the buffered spike times and the two traces. */
    method Send(tSpike: real, target: EpropArchivingNode,
                learn: (seq<EpropEntry>, seq<real>, real, real) -> TraceUpdate)
      requires 0.0 < updateInterval
      requires target.Valid() && target.registry != []
      modifies this`weight, this`lastETrace, this`tPrimeIntTrace, this`tLastSpike
      modifies this`tLastUpdate, this`tNextUpdate, this`preSynSpikeTimes, target
      ensures target.Valid() && target.registry != []
      ensures tLastSpike == tSpike
      ensures target.nIncoming == old(target.nIncoming) && target.dampeningFactor == old(target.dampeningFactor)
      ensures target.updateInterval == old(target.updateInterval)
      ensures preSynSpikeTimes == if old(tNextUpdate) < tSpike then [tSpike] else old(preSynSpikeTimes) + [tSpike]
      ensures tSpike <= old(tNextUpdate) ==>
        && weight == old(weight) && tLastUpdate == old(tLastUpdate) && tNextUpdate == old(tNextUpdate)
        && lastETrace == old(lastETrace) && tPrimeIntTrace == old(tPrimeIntTrace)
        && target.registry == old(target.registry) && target.epropHistory == old(target.epropHistory)
        && target.spikeHistory == old(target.spikeHistory)
      ensures old(tNextUpdate) < tSpike ==>
        var tUpdate := FloorToInterval(tSpike, updateInterval);
        var s := FindEntries(old(target.epropHistory), Dendritic(old(tLastUpdate)), Dendritic(tUpdate), target.h);
        var reset := old(keepTraces) < 1.0;
        var u := learn(old(target.epropHistory)[s.start..s.finish], old(preSynSpikeTimes) + [tSpike],
                       if reset then 0.0 else old(lastETrace), if reset then 0.0 else old(tPrimeIntTrace));
        && weight == old(weight) + u.dw && lastETrace == u.lastETrace && tPrimeIntTrace == u.tPrimeIntTrace
        && tLastUpdate == tUpdate && tLastUpdate <= tSpike < tNextUpdate
        && tNextUpdate == NextUpdate(old(tNextUpdate), tSpike, updateInterval)
        && target.registry
             == EpropRegistry.RegisterUpdate(old(target.registry), Dendritic(old(tLastUpdate)), Dendritic(tUpdate), target.eps).registry
        && target.epropHistory == TidyHistory(old(target.epropHistory), target.registry[0].t, target.h)
        && target.spikeHistory == DropSpikesBefore(old(target.spikeHistory), target.registry[0].t)
    {
      if tSpike > tNextUpdate {
        var tUpdate := FloorToInterval(tSpike, updateInterval);
        Update(tSpike, tUpdate, NextUpdate(tNextUpdate, tSpike, updateInterval), target, learn);
        assert updateInterval == old(updateInterval);
      } else {
        preSynSpikeTimes := preSynSpikeTimes + [tSpike];
        tLastSpike := tSpike;
      }
    }
    /** The update branch of `send`: the target moves the synapse's
        checkpoint to the interval boundary before the spike and hands back
        the history slice since the last update; the weight change over it
        is applied, the schedule moves on, the buffer restarts with the
        spike, and the target tidies its histories. */
    method Update(tSpike: real, tUpdate: real, tNext: real, target: EpropArchivingNode,
                  learn: (seq<EpropEntry>, seq<real>, real, real) -> TraceUpdate)
      requires target.Valid() && target.registry != []
      modifies this`weight, this`lastETrace, this`tPrimeIntTrace, this`tLastSpike
      modifies this`tLastUpdate, this`tNextUpdate, this`preSynSpikeTimes, target
      ensures target.Valid() && target.registry != []
      ensures tLastSpike == tSpike && preSynSpikeTimes == [tSpike]
      ensures target.nIncoming == old(target.nIncoming) && target.dampeningFactor == old(target.dampeningFactor)
      ensures target.updateInterval == old(target.updateInterval)
      ensures
        var s := FindEntries(old(target.epropHistory), Dendritic(old(tLastUpdate)), Dendritic(tUpdate), target.h);
        var reset := old(keepTraces) < 1.0;
        var u := learn(old(target.epropHistory)[s.start..s.finish], old(preSynSpikeTimes) + [tSpike],
                       if reset then 0.0 else old(lastETrace), if reset then 0.0 else old(tPrimeIntTrace));
        && weight == old(weight) + u.dw && lastETrace == u.lastETrace && tPrimeIntTrace == u.tPrimeIntTrace
        && tLastUpdate == tUpdate && tNextUpdate == tNext
        && target.registry
             == EpropRegistry.RegisterUpdate(old(target.registry), Dendritic(old(tLastUpdate)), Dendritic(tUpdate), target.eps).registry
        && target.epropHistory == TidyHistory(old(target.epropHistory), target.registry[0].t, target.h)
        && target.spikeHistory == DropSpikesBefore(old(target.spikeHistory), target.registry[0].t)
    {
      var reset := keepTraces < 1.0;
      var buffer, eTrace, intTrace :=
        preSynSpikeTimes + [tSpike], if reset then 0.0 else lastETrace, if reset then 0.0 else tPrimeIntTrace;
      ghost var window := FindEntries(target.epropHistory, Dendritic(tLastUpdate), Dendritic(tUpdate), target.h);
      var slice := Exchange(target, Dendritic(tLastUpdate), Dendritic(tUpdate));
      assert slice == old(target.epropHistory)[window.start..window.finish];
      var u := learn(slice, buffer, eTrace, intTrace);
      Advance(tSpike, tUpdate, tNext, u);
      tLastSpike := tSpike;
      assert u == learn(slice, buffer, eTrace, intTrace);
    }

    /** The synapse's side of an update, once the weight change `u` has been
        computed over the history slice: apply it, move `t_lastupdate_` to
        the interval boundary `tUpdate` before the spike and `t_nextupdate_`
        to `tNext` past it, and restart the buffer with the spike. */
    method Advance(tSpike: real, tUpdate: real, tNext: real, u: TraceUpdate)
      modifies this`weight, this`lastETrace, this`tPrimeIntTrace
      modifies this`tLastUpdate, this`tNextUpdate, this`preSynSpikeTimes
      ensures weight == old(weight) + u.dw && lastETrace == u.lastETrace && tPrimeIntTrace == u.tPrimeIntTrace
      ensures tLastUpdate == tUpdate && tNextUpdate == tNext && preSynSpikeTimes == [tSpike]
    {
      weight, lastETrace, tPrimeIntTrace := weight + u.dw, u.lastETrace, u.tPrimeIntTrace;
      tLastUpdate, tNextUpdate, preSynSpikeTimes := tUpdate, tNext, [tSpike];
    }

    /** `set_status`: take every given value, restart the schedule at one
        interval, then report the first parameter that is out of range. The
        values are kept even when an error is reported. */
    method SetStatus(w: Option<real>, tauA: Option<real>, tauK: Option<real>, rate: Option<real>,
                     interval: Option<real>, lo: Option<real>, hi: Option<real>, keep: Option<real>)
      returns (err: Option<BadProperty>)
      modifies this`weight, this`tauAlpha, this`tauKappa, this`eta, this`updateInterval
      modifies this`wMin, this`wMax, this`keepTraces, this`tNextUpdate
      ensures weight == OrElse(w, old(weight)) && tauAlpha == OrElse(tauA, old(tauAlpha))
      ensures tauKappa == OrElse(tauK, old(tauKappa)) && eta == OrElse(rate, old(eta))
      ensures updateInterval == OrElse(interval, old(updateInterval))
      ensures wMin == OrElse(lo, old(wMin)) && wMax == OrElse(hi, old(wMax))
      ensures keepTraces == OrElse(keep, old(keepTraces))
      ensures tNextUpdate == updateInterval
      ensures err == CheckEpropStatus(tauAlpha, updateInterval)
      ensures err == None ==> 0.0 < updateInterval
    {
      var newTauAlpha, newInterval := OrElse(tauA, tauAlpha), OrElse(interval, updateInterval);
      weight, tauAlpha, tauKappa, eta := OrElse(w, weight), newTauAlpha, OrElse(tauK, tauKappa), OrElse(rate, eta);
      updateInterval, wMin, wMax := newInterval, OrElse(lo, wMin), OrElse(hi, wMax);
      keepTraces, tNextUpdate := OrElse(keep, keepTraces), newInterval;
      err := CheckEpropStatus(newTauAlpha, newInterval);
    }
  }

  /** What an update asks of the target: move the synapse's checkpoint from
      `tFrom` to `tTo` and read the history slice `[tFrom, tTo)`
      (`get_eprop_history`), then let the target tidy
      (`tidy_eprop_history`). The slice is handed back by value; the weight
      computation only reads it, so it may come after the tidying. */
  method Exchange(target: EpropArchivingNode, tFrom: real, tTo: real) returns (slice: seq<EpropEntry>)
    requires target.Valid() && target.registry != []
    modifies target
    ensures target.Valid() && target.registry != []
    ensures target.nIncoming == old(target.nIncoming) && target.dampeningFactor == old(target.dampeningFactor)
    ensures target.updateInterval == old(target.updateInterval)
    ensures
      var s := FindEntries(old(target.epropHistory), tFrom, tTo, target.h);
      slice == old(target.epropHistory)[s.start..s.finish]
    ensures target.registry == EpropRegistry.RegisterUpdate(old(target.registry), tFrom, tTo, target.eps).registry
    ensures target.epropHistory == TidyHistory(old(target.epropHistory), target.registry[0].t, target.h)
    ensures target.spikeHistory == DropSpikesBefore(old(target.spikeHistory), target.registry[0].t)
  {
    var s, found := target.GetEpropHistory(tFrom, tTo, tFrom, tTo);
    slice := target.epropHistory[s.start..s.finish];
    target.TidyEpropHistory(tTo);
  }
}
