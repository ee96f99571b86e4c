/** `EpropArchivingNode` (nestkernel/eprop_archiving_node.cpp): the state a
    neuron keeps for its e-prop synapses, updated in place by the methods the
    synapses and the neuron's update loop call. */
module EpropArchive {
  import opened Entries
  import opened Wrappers
  import opened EpropRegistry
  import opened EpropHistory

  class EpropArchivingNode {
    /** The kernel's stdp tolerance `eps`, in ms. */
    const eps: real
    /** The simulation resolution `h`, in ms. */
    const h: real

    /** Number of incoming plastic synapses (`n_incoming_` of the base archiving
        node), raised by `RegisterStdpConnection`. */
    var nIncoming: nat
    var dampeningFactor: real
    var updateInterval: real

    /** `last_spike_per_synapse_`: one checkpoint per distinct time, each
        counting the synapses parked on it. */
    var registry: seq<ExtendedEntry>
    /** `eprop_history_`: one entry per simulation step. */
    var epropHistory: seq<EpropEntry>
    /** `spike_history_`: the neuron's own spike times. */
    var spikeHistory: seq<real>

    /** The registry is ascending with positive counters, the e-prop
        history has one entry per step and the spike times never decrease. */
    ghost predicate Valid()
      reads this
    {
      0.0 <= eps && 0.0 < h && WellFormed(registry) && Dense(epropHistory, h) && Sorted(spikeHistory)
    }

    constructor (eps: real, h: real)
      requires 0.0 <= eps && 0.0 < h
      ensures Valid()
      ensures this.eps == eps && this.h == h && nIncoming == 0
      ensures dampeningFactor == 0.3 && updateInterval == 100.0
      ensures registry == [] && epropHistory == [] && spikeHistory == []
    {
      this.eps := eps;
      this.h := h;
      nIncoming := 0;
      dampeningFactor := 0.3;
      updateInterval := 100.0;
      registry := [];
      epropHistory := [];
      spikeHistory := [];
    }

    /** `register_stdp_connection`, which a new synapse calls on its target:
        one more incoming plastic synapse, so the write branches are taken
        from then on. */
    method RegisterStdpConnection()
      requires Valid()
      modifies this`nIncoming
      ensures Valid()
      ensures nIncoming == old(nIncoming) + 1
    {
      nIncoming := nIncoming + 1;
    }

    /** `init_eprop_buffers(delay)`: insert-or-increment the checkpoint at
        `delay`; one more synapse is parked in the registry. */
    method InitEpropBuffers(delay: real)
      requires Valid()
      modifies this`registry
      ensures Valid()
      ensures registry == Register(old(registry), delay, eps)
      ensures Total(registry) == Total(old(registry)) + 1
      ensures epropHistory == old(epropHistory) && spikeHistory == old(spikeHistory)
      ensures nIncoming == old(nIncoming) && dampeningFactor == old(dampeningFactor)
      ensures updateInterval == old(updateInterval)
    {
      RegisterKeepsInvariant(registry, delay, eps);
      var i := LowerBound(registry, delay - eps);
      if i == |registry| || Abs(delay - registry[i].t) > eps {
        registry := registry[..i] + [ExtendedEntry(delay, 0.0, 1)] + registry[i..];
      } else {
        registry := registry[i := registry[i].(accessCounter := registry[i].accessCounter + 1)];
      }
    }

    /** `register_update(t_lastupdate, t_update)`: park the synapse on the
        checkpoint at `tUpdate`, then take it off the one at `tLastUpdate`,
        erasing that checkpoint when it was the last synapse on it. A missing
        old checkpoint is reported through `found` and changes nothing else. */
    method RegisterUpdate(tLastUpdate: real, tUpdate: real) returns (found: bool)
      requires Valid()
      modifies this`registry
      ensures Valid()
      ensures Released(registry, found) == EpropRegistry.RegisterUpdate(old(registry), tLastUpdate, tUpdate, eps)
      ensures Total(registry) == if found then Total(old(registry)) else Total(old(registry)) + 1
      ensures old(registry) != [] ==> registry != []
      ensures epropHistory == old(epropHistory) && spikeHistory == old(spikeHistory)
      ensures nIncoming == old(nIncoming) && dampeningFactor == old(dampeningFactor)
      ensures updateInterval == old(updateInterval)
    {
      RegisterUpdateBalance(registry, tLastUpdate, tUpdate, eps);
      if registry != [] {
        RegisterUpdateKeepsSome(registry, tLastUpdate, tUpdate, eps);
      }
      InitEpropBuffers(tUpdate);
      registry, found := ReleaseCheckpoint(registry, tLastUpdate, eps);
    }

    /** `get_eprop_history(t1, t2, t3, t4)`: move the caller's checkpoint
        from `t3` to `t4`, then locate the slice of the history for
        `[t1, t2)`. */
    method GetEpropHistory(t1: real, t2: real, t3: real, t4: real) returns (s: Slice, found: bool)
      requires Valid()
      modifies this`registry
      ensures Valid()
      ensures Released(registry, found) == EpropRegistry.RegisterUpdate(old(registry), t3, t4, eps)
      ensures old(registry) != [] ==> registry != []
      ensures s == FindEntries(epropHistory, t1, t2, h)
      ensures 0 <= s.start <= s.finish <= |epropHistory|
      ensures t1 <= t2 && (epropHistory != [] ==> GridIndex(t1, epropHistory[0].t, h) <= |epropHistory|)
        ==> s == FindEpropHistEntries(epropHistory, t1, t2, h)
      ensures epropHistory == old(epropHistory) && spikeHistory == old(spikeHistory)
      ensures nIncoming == old(nIncoming) && dampeningFactor == old(dampeningFactor)
      ensures updateInterval == old(updateInterval)
    {
      found := RegisterUpdate(t3, t4);
      s := FindEntries(epropHistory, t1, t2, h);
      if t1 <= t2 && (epropHistory != [] ==> GridIndex(t1, epropHistory[0].t, h) <= |epropHistory|) {
        FindEntriesAgreesInside(epropHistory, t1, t2, h);
      }
    }

    /** `tidy_eprop_history(t1)`: the argument is ignored; the watermark is
        the earliest checkpoint, which the registry must hold. The e-prop
        history loses its head up to the watermark's grid position and the
        spike history the spikes more than 1e-6 before it. */
    method TidyEpropHistory(t1: real)
      requires Valid() && registry != []
      modifies this`epropHistory, this`spikeHistory
      ensures Valid()
      ensures registry == old(registry) && nIncoming == old(nIncoming)
      ensures forall j :: 0 <= j < |registry| ==> registry[0].t <= registry[j].t
      ensures epropHistory == TidyHistory(old(epropHistory), registry[0].t, h)
      ensures spikeHistory == DropSpikesBefore(old(spikeHistory), registry[0].t)
      ensures dampeningFactor == old(dampeningFactor) && updateInterval == old(updateInterval)
    {
      var smallestTimeToKeep := registry[0].t;
      var hist := epropHistory;
      if hist != [] {
        var s := FindEntries(hist, 0.0, smallestTimeToKeep, h);
        DenseSuffix(hist, h, s.finish);
        hist := hist[s.finish..];
      }
      assert hist == TidyHistory(epropHistory, smallestTimeToKeep, h) && Dense(hist, h);
      EarliestCheckpoint(registry);
      DropKeepsSorted(spikeHistory, smallestTimeToKeep);
      var spikes := PopSpikesBefore(spikeHistory, smallestTimeToKeep);
      epropHistory := hist;
      spikeHistory := spikes;
    }

    /** `write_eprop_history(t, diff, V_th)`: with incoming synapses, append
        the entry `{t, pseudo_deriv / V_th, 0, 0}`; the neuron writes once per
        step, so `t` is one step after the last entry. */
    method WriteEpropHistory(t: real, diffVmVth: real, vTh: real)
      requires Valid()
      requires nIncoming != 0 && epropHistory != [] ==> t == epropHistory[|epropHistory| - 1].t + h
      modifies this`epropHistory
      ensures Valid()
      ensures epropHistory == if old(nIncoming) == 0 then old(epropHistory)
        else old(epropHistory) + [EpropEntry(t, ScaledPseudoDeriv(diffVmVth, vTh, dampeningFactor), 0.0, 0)]
      ensures registry == old(registry) && spikeHistory == old(spikeHistory)
      ensures nIncoming == old(nIncoming) && dampeningFactor == old(dampeningFactor)
      ensures updateInterval == old(updateInterval)
    {
      if nIncoming != 0 {
        var pd := if vTh == 0.0 then NaN else Finite(PseudoDeriv(diffVmVth, vTh, dampeningFactor) / vTh);
        var e := EpropEntry(t, pd, 0.0, 0);
        if epropHistory != [] {
          assert e.t == GridTime(epropHistory[|epropHistory| - 1].t, 1, h);
        }
        DenseAppend(epropHistory, h, e);
        epropHistory := epropHistory + [e];
      }
    }

    /** `write_spike_history(t)`: always append `t`. The neuron writes its
        spikes as they happen, so `t` is no earlier than the last one, and
        the spike history stays sorted. */
    method WriteSpikeHistory(t: real)
      requires Valid()
      requires spikeHistory != [] ==> spikeHistory[|spikeHistory| - 1] <= t
      modifies this`spikeHistory
      ensures Valid()
      ensures spikeHistory == old(spikeHistory) + [t]
      ensures registry == old(registry) && epropHistory == old(epropHistory)
      ensures nIncoming == old(nIncoming) && dampeningFactor == old(dampeningFactor)
      ensures updateInterval == old(updateInterval)
    {
      AppendKeepsSorted(spikeHistory, t);
      spikeHistory := spikeHistory + [t];
    }

    /** `add_learning_to_hist(e)`: add `weight` times the event's learning
        signal, its second coefficient, to the learning signal of the entry
        two steps before the event's stamp, when the looked-up positions
        differ, the start is an entry of the history and the event carries
        the time step and the signal. No other entry, and no time, changes. */
    method AddLearningToHist(stamp: real, delaySteps: int, weight: real, coeffs: seq<real>)
      requires Valid()
      modifies this`epropHistory
      ensures Valid()
      ensures epropHistory == AddLearningSignal(old(epropHistory), stamp, delaySteps, weight, coeffs, h)
      ensures registry == old(registry) && spikeHistory == old(spikeHistory)
      ensures nIncoming == old(nIncoming) && dampeningFactor == old(dampeningFactor)
      ensures updateInterval == old(updateInterval)
    {
      var s := LearningWindow(epropHistory, stamp, delaySteps, h);
      if s.start != s.finish && s.start < |epropHistory| && |coeffs| >= 2 {
        var e := epropHistory[s.start];
        DenseSameTimes(epropHistory, epropHistory[s.start := e.(learningSignal := e.learningSignal + weight * coeffs[1])], h);
        epropHistory := epropHistory[s.start := e.(learningSignal := e.learningSignal + weight * coeffs[1])];
      }
    }

    /** `set_status`: take the given dampening factor and update interval;
        neither is validated. */
    method SetStatus(dampening: Option<real>, interval: Option<real>)
      modifies this`dampeningFactor, this`updateInterval
      ensures dampeningFactor == OrElse(dampening, old(dampeningFactor))
      ensures updateInterval == OrElse(interval, old(updateInterval))
      ensures registry == old(registry) && epropHistory == old(epropHistory)
      ensures spikeHistory == old(spikeHistory) && nIncoming == old(nIncoming)
    {
      var newDampeningFactor := dampeningFactor;
      var newUpdateInterval := updateInterval;
      if dampening.Some? {
        newDampeningFactor := dampening.value;
      }
      if interval.Some? {
        newUpdateInterval := interval.value;
      }
      dampeningFactor := newDampeningFactor;
      updateInterval := newUpdateInterval;
    }
  }
}
