# History archives of NEST's e-prop and Urbanczik-Senn plasticity

This project is a Dafny model of the neuron-side history archives behind two
plasticity rules in this NEST fork, together with the synapses that read them.

**e-prop archiving node** (`EpropArchive`, over the values in `EpropHistory`
and `EpropRegistry`). The node keeps three things:

- `eprop_history_` holds one entry per simulation step: the time, the
  pseudo-derivative and the learning signal. It is addressed by grid
  arithmetic, not by search.
- `spike_history_` holds the neuron's own spike times.
- `last_spike_per_synapse_` is the checkpoint registry. It is sorted by time
  and keeps one entry per distinct checkpoint time, whose access counter says
  how many synapses are parked there.

**e-prop synapse** (`EpropSynapse`). On a spike past its next update time, the
synapse does the following:

1. It asks the target to move its checkpoint and to locate the history slice
   since its last update.
2. It applies the weight change computed over that slice.
3. It moves its own schedule on and restarts its spike buffer.
4. It lets the target tidy both histories up to the earliest checkpoint.

**Urbanczik archiving node** (`UrbanczikArchive`). The dendritic compartment
keeps a raw history of weight-change samples and a compressed history. The
compressed history holds one record of four decayed integrals per time at
which a presynaptic spike compressed the samples.

**Urbanczik synapse** (`UrbanczikSynapse`). On every spike, the synapse does
the following:

1. It has the target compress up to the dendritic arrival time of the spike.
2. It reads the record left by its own previous spike.
3. It folds that record into its PI integrals.
4. It sets its weight, clipped to `[Wmin, Wmax]`, and advances its traces.

**Shared definitions** (`Entries`). The record types and their time ordering
`operator<` live here, along with `std::lower_bound` and the wrap-around
decrement of the unsigned `size_t` access counters.

**What the model works with:**

- Times are reals in ms.
- The kernel's stdp tolerance `eps` and the resolution `h` are fixed
  parameters of a node.
- The literal `1.0e-6` of the source is the constant `Tolerance`.
- Node and synapse state live in classes whose methods update their fields.
  Each method is proved against a specification function on sequences, and
  the properties the source relies on are lemmas about those functions.

**Where the model follows the code over a declaration or comment:**

- `get_eprop_history` follows its four-time definition
  (`nestkernel/eprop_archiving_node.cpp:224-234`). That definition moves the
  checkpoint from `t3` to `t4`, then locates the slice for `[t1, t2)`.
  - The declaration in `nestkernel/eprop_archiving_node.h:70-74` takes three
    times.
  - The call in `models/eprop_connection.h:236-239` passes two.
  - The synapse model passes `(t_lastupdate - d, t_update - d)` as both the
    slice bounds and the checkpoint move.
- On a grid-aligned query, the e-prop slice holds the entries with
  `t1 <= t < t2`. The comment at `models/eprop_connection.h:218` speaks of
  `(t1, t2]`; the model follows the grid arithmetic
  (`EpropHistory.FindEntriesOnGrid`).
- The e-prop entry's extra factor is named `learningSignal`, after the field
  `learning_signal_` that the code reads and writes. The declaration in
  `nestkernel/histentry.h:69-84` lists readout, normalisation and target
  fields instead.
- `compress_urbanczik_history` uses `tau_syn_ex` whatever the sign of the
  weight (`nestkernel/urbanczik_archiving_node_impl.h:186`). The synapse
  chooses between `tau_syn_ex` and `tau_syn_in`
  (`models/urbanczik_connection_bc.h:213`). Both are modelled as written.

## Model

| member | source | states |
|---|---|---|
| Entries.BeforeIgnoresPayload | nestkernel/histentry.h:86-94 | both `operator<` compare times only: two entries with the same time are ordered alike against any time, whatever their payload and counter |
| Entries.ExtendedBefore | nestkernel/histentry.h:86-89 | `operator<` for `histentry_extended` compares the entry's time with the key strictly, so an entry is never before its own time or an earlier one |
| Entries.EpropBefore | nestkernel/histentry.h:91-94 | `operator<` for `histentry_eprop` is the same strict comparison of times |
| Entries.LowerBound | nestkernel/eprop_archiving_node.cpp:79-82 | the `std::lower_bound` contract: every entry before the returned position is before the key, and the entry at it, if any, is not |
| Entries.LowerBoundSorted | nestkernel/eprop_archiving_node.cpp:189-192 | on a time-sorted registry, the positions from the lower bound on are exactly the entries with `t >= key` (both directions) |
| Entries.LowerBoundUnique | nestkernel/eprop_archiving_node.cpp:79-82 | the lower bound is the only position meeting that contract |
| Entries.LowerBoundSameTimes | nestkernel/eprop_archiving_node.cpp:204-207 | the lower bound depends on the times alone, so the counter change between the two searches of `register_update` does not move it |
| Entries.DecrementCounter | nestkernel/eprop_archiving_node.cpp:215 | the `size_t` decrement is the modular predecessor: the result stays in range and one increment modulo 2^64 gives the counter back |
| Entries.DecrementUndoesIncrement | nestkernel/urbanczik_archiving_node_impl.h:134 | decrementing a counter that was just incremented restores it; a zero counter wraps to 2^64 - 1 instead of failing |
| EpropHistory.Round | nestkernel/eprop_archiving_node.cpp:173-176 | `std::round` lies within one half of its argument, and halves round away from zero |
| EpropHistory.GridTime | nestkernel/eprop_archiving_node.cpp:167-170 | the time of step `k` after the first entry lies after it exactly when `k > 0`, and is the first entry's time exactly when `k == 0` |
| EpropHistory.GridIndex | nestkernel/eprop_archiving_node.cpp:172-176 | the rounded grid position `round((t - t_first) / h)`: the grid time at that position lies within half a step of `t` |
| EpropHistory.GridIndexMonotone | nestkernel/eprop_archiving_node.cpp:172-176 | a later time never rounds to an earlier grid position |
| EpropHistory.GridTimeMonotone | nestkernel/eprop_archiving_node.cpp:167-170 | grid times strictly increase with the step, in both directions of the comparison |
| EpropHistory.GridIndexOfGridTime | nestkernel/eprop_archiving_node.cpp:172-176 | the rounded grid position of a grid time is its step, so the grid lookup finds grid-aligned times exactly |
| EpropHistory.GridIndexBracket | nestkernel/eprop_archiving_node.cpp:172-176 | steps below the rounded position of `t` lie before `t`; the others lie at most half a step before it |
| EpropHistory.GridIndexFromLaterPoint | nestkernel/eprop_archiving_node.cpp:172-176 | measured from the grid point it rounds to, a time rounds to position 0 or below |
| EpropHistory.DenseSuffix | nestkernel/eprop_archiving_node.cpp:278 | erasing a head of the history keeps one entry per step |
| EpropHistory.DenseAppend | nestkernel/eprop_archiving_node.cpp:297 | appending the entry one step after the last keeps one entry per step |
| EpropHistory.DenseSameTimes | nestkernel/eprop_archiving_node.cpp:332 | changing payloads only keeps one entry per step |
| EpropHistory.FindEpropHistEntries | nestkernel/eprop_archiving_node.cpp:152-182 | as written: an empty history gives `start == finish == end`; otherwise `finish` is the grid position of `t2` clamped to `[0, size]`, but `start` is clamped only below |
| EpropHistory.StartPastEnd | nestkernel/eprop_archiving_node.cpp:173-179 | counterexample: on a one-entry history, the query `[3, 4)` gives `start == 3` past `finish == end == 1` |
| EpropHistory.FindEntries | nestkernel/eprop_archiving_node.cpp:152-182 | corrected lookup: `0 <= start <= finish <= size`, with the same `finish` as written |
| EpropHistory.FindEntriesAgreesInside | nestkernel/eprop_archiving_node.cpp:173-180 | for `t1 <= t2`, when `t1` rounds to a position no further than the end of the history, the corrected and the as-written lookups agree |
| EpropHistory.FindEntriesOnGrid | nestkernel/eprop_archiving_node.cpp:167-180 | on a dense history and grid-aligned bounds, the slice holds exactly the entries with `t1 <= t < t2` |
| EpropHistory.TidyHistory | nestkernel/eprop_archiving_node.cpp:268-279 | tidying keeps a suffix of the history; it erases as many head entries as the grid position of the watermark, clamped to `[0, size]` |
| EpropHistory.TidyKeepsWatermark | nestkernel/eprop_archiving_node.cpp:271-278 | no erased entry is at or after the watermark, and every kept entry lies at most half a step before it |
| EpropHistory.TidyIdempotent | nestkernel/eprop_archiving_node.cpp:266-279 | tidying again with the same watermark erases nothing more |
| EpropHistory.LearningWindow | nestkernel/eprop_archiving_node.cpp:316-324 | as written: the window of a learning-signal event starts at the rounded position of `stamp - 2h`, clamped only below, and ends within the history; a non-negative delay keeps that start at or before the end of the window whenever the start lies inside the history |
| EpropHistory.AddLearningSignal | nestkernel/eprop_archiving_node.cpp:309-335 | the length, every time, every pseudo-derivative and every counter stay the same; an entry that changes is the first one of the as-written window, and it gains `weight * coeffs[1]`, the event's learning signal (the second value read; the first is the time step), only when the event carries both values |
| EpropHistory.AddLearningSignalOnGrid | nestkernel/eprop_archiving_node.cpp:316-333 | for a grid-stamped event carrying a time step and a learning signal, exactly the entry two steps before the stamp gains `weight` times that signal (`coeffs[1]`) and every other entry is unchanged |
| EpropHistory.PseudoDeriv | nestkernel/eprop_archiving_node.cpp:337-346 | defined for every `V_th`: a non-negative dampening gives a value in `[0, dampening]`; the value is zero once `abs(diff) >= abs(V_th)`, which includes `V_th == 0`, and positive strictly inside |
| EpropHistory.QuotientBelowOne | nestkernel/eprop_archiving_node.cpp:344 | `abs(diff / V_th) < 1` exactly when `abs(diff) < abs(V_th)` |
| EpropHistory.ScaledPseudoDeriv | nestkernel/eprop_archiving_node.cpp:295-296 | the value written, `pseudo_deriv / V_th`, is the NaN of `0.0 / 0.0` exactly when `V_th == 0`; otherwise it times `V_th` gives the pseudo-derivative back, and it is zero once `abs(diff) >= abs(V_th)` |
| EpropHistory.LowerBoundFrom | nestkernel/eprop_archiving_node.cpp:251-260 | `std::lower_bound` on spike times from a start position: everything skipped is below the key, and the position reached, if any, is not |
| EpropHistory.GetSpikeHistory | nestkernel/eprop_archiving_node.cpp:236-263 | the result is a valid slice; an empty history gives `start == finish == end` |
| EpropHistory.SpikeHistoryRange | nestkernel/eprop_archiving_node.cpp:251-261 | on a sorted spike history, the slice holds exactly the spikes with `t1 + eps <= t < t2 + eps` |
| EpropHistory.SpikesBefore | nestkernel/eprop_archiving_node.cpp:280-283 | the number of spikes popped: each of them is more than 1e-6 before the watermark, and the next one is not |
| EpropHistory.DropSpikesBefore | nestkernel/eprop_archiving_node.cpp:280-283 | the spike history after popping is a suffix; every spike dropped lies more than 1e-6 before the watermark, and the first spike kept does not |
| EpropHistory.DropSpikesIdempotent | nestkernel/eprop_archiving_node.cpp:280-283 | popping again with the same watermark drops nothing |
| EpropHistory.PopSpikesBefore | nestkernel/eprop_archiving_node.cpp:280-283 | the `pop_front` loop computes `DropSpikesBefore` |
| EpropHistory.DropKeepsSorted | nestkernel/eprop_archiving_node.cpp:280-283 | popping spikes from the front keeps a sorted spike history sorted |
| EpropHistory.AppendKeepsSorted | nestkernel/eprop_archiving_node.cpp:302-307 | appending a spike time not before the last keeps the spike history sorted |
| EpropRegistry.EarliestCheckpoint | nestkernel/eprop_archiving_node.cpp:268 | the first checkpoint of an ascending registry is its earliest, so `begin()->t_` is the smallest time to keep |
| EpropRegistry.InsertKeepsAscending | nestkernel/eprop_archiving_node.cpp:196 | inserting between the smaller and the larger checkpoints keeps times strictly ascending |
| EpropRegistry.Register | nestkernel/eprop_archiving_node.cpp:189-201 | insert-or-increment: the registry grows by at most one checkpoint, parks exactly one more synapse, keeps counters positive, and afterwards holds a checkpoint within eps of the key |
| EpropRegistry.Release | nestkernel/eprop_archiving_node.cpp:204-221 | decrement-and-erase: at most one checkpoint disappears; when nothing is found the registry is unchanged; a found checkpoint lies within eps of the key, and with positive counters exactly one synapse is released |
| EpropRegistry.ReleaseCheckpoint | nestkernel/eprop_archiving_node.cpp:204-221 | the search, decrement and erase steps compute `Release` |
| EpropRegistry.RegisterUpdate | nestkernel/eprop_archiving_node.cpp:184-222 | register-then-release changes the registry by at most one checkpoint; with positive counters the parked total stays the same when the old checkpoint is found and grows by one when it is not |
| EpropRegistry.AbsentSplit | nestkernel/eprop_archiving_node.cpp:189-196 | with no checkpoint within eps of the key, the lower bound of `key - eps` separates the checkpoints below the key from those above it |
| EpropRegistry.RegisterWhenAbsent | nestkernel/eprop_archiving_node.cpp:193-197 | with no checkpoint near the key, registering inserts `{key, 1}` in sorted position: the result holds the old checkpoints plus the new one (as multisets) and stays strictly ascending |
| EpropRegistry.RegisterInsertsAt | nestkernel/eprop_archiving_node.cpp:193-196 | when the entry at the lower bound is not near the key, the new checkpoint goes in at the lower bound |
| EpropRegistry.RegisterWhenPresent | nestkernel/eprop_archiving_node.cpp:198-201 | with a checkpoint near the key, exactly the first such checkpoint gains one synapse |
| EpropRegistry.RegisterKeepsInvariant | nestkernel/eprop_archiving_node.cpp:79-91 | insert-or-increment keeps the registry ascending with positive counters and parks exactly one more synapse |
| EpropRegistry.ReleaseWhenAbsent | nestkernel/eprop_archiving_node.cpp:208-212 | with no checkpoint near the old time, releasing changes nothing and reports that nothing was found |
| EpropRegistry.ReleaseWhenPresent | nestkernel/eprop_archiving_node.cpp:213-221 | releasing the first checkpoint near the old time takes one synapse off it and erases it when that was its last one |
| EpropRegistry.ReleaseKeepsInvariant | nestkernel/eprop_archiving_node.cpp:204-221 | releasing keeps the registry well formed; a found checkpoint loses exactly one synapse, and a missing one leaves the total as it was |
| EpropRegistry.EraseKeepsWellFormed | nestkernel/eprop_archiving_node.cpp:217-220 | erasing a checkpoint keeps the registry well formed and removes its synapses from the total |
| EpropRegistry.SetCounterKeepsWellFormed | nestkernel/eprop_archiving_node.cpp:215 | setting a counter to another positive value keeps the registry well formed and shifts the total by the difference |
| EpropRegistry.RegisterUpdateBalance | nestkernel/eprop_archiving_node.cpp:184-222 | `register_update` keeps the registry well formed; the number of parked synapses is unchanged when the old checkpoint is found and grows by one when it is not |
| EpropRegistry.RegisterUpdateSameTime | nestkernel/eprop_archiving_node.cpp:184-222 | moving a checkpoint to its own time leaves the registry exactly as it was |
| EpropRegistry.RegisterUpdateKeepsSome | nestkernel/eprop_archiving_node.cpp:184-222 | moving a checkpoint never empties a registry that held one, so `tidy_eprop_history` can read `begin()` |
| EpropRegistry.ThreeSynapsesScenario | nestkernel/eprop_archiving_node.cpp:75-92 | three synapses seeded at -1000 ms share one checkpoint; after each moves to 5 ms, one checkpoint at 5 ms holds all three and the seed is gone |
| EpropRegistry.SeedSentinel | nestkernel/eprop_archiving_node.cpp:75-92 | three registrations at the same time give a single checkpoint with counter 3 |
| EpropRegistry.FirstMove | nestkernel/eprop_archiving_node.cpp:184-222 | the first synapse to move opens a new checkpoint after the seed |
| EpropRegistry.LaterMove | nestkernel/eprop_archiving_node.cpp:184-222 | a later synapse joins the existing checkpoint, and the seed disappears with its last synapse |
| EpropArchive.EpropArchivingNode.constructor | nestkernel/eprop_archiving_node.cpp:36-41 | a new node has dampening 0.3, update interval 100 ms, empty histories and registry |
| EpropArchive.EpropArchivingNode.RegisterStdpConnection | models/eprop_connection.h:147-158 | a synapse connecting to the node raises its count of incoming plastic synapses by one and changes nothing else the node keeps |
| EpropArchive.EpropArchivingNode.InitEpropBuffers | nestkernel/eprop_archiving_node.cpp:75-92 | the registry becomes insert-or-increment of the delay; one more synapse is parked, the registry stays well formed, nothing else changes |
| EpropArchive.EpropArchivingNode.RegisterUpdate | nestkernel/eprop_archiving_node.cpp:184-222 | the registry and `found` are the specified register-then-release; the parked total is balanced; a non-empty registry stays non-empty; the histories are unchanged |
| EpropArchive.EpropArchivingNode.GetEpropHistory | nestkernel/eprop_archiving_node.cpp:224-234 | the checkpoint moves from `t3` to `t4` as specified, and the slice returned is the corrected lookup of `[t1, t2)` on the unchanged history; for `t1 <= t2` with `t1` rounding no further than the end, it is also the as-written lookup |
| EpropArchive.EpropArchivingNode.TidyEpropHistory | nestkernel/eprop_archiving_node.cpp:266-284 | with the earliest checkpoint as watermark, the e-prop history is `TidyHistory` and the spike history is `DropSpikesBefore`; the registry is unchanged and the history stays one entry per step |
| EpropArchive.EpropArchivingNode.WriteEpropHistory | nestkernel/eprop_archiving_node.cpp:287-299 | with incoming synapses, appends `{t, pseudo_deriv / V_th, 0, 0}`, NaN when `V_th == 0`; without them nothing changes; the history stays one entry per step |
| EpropArchive.EpropArchivingNode.WriteSpikeHistory | nestkernel/eprop_archiving_node.cpp:302-307 | appends the spike time; the spike history stays sorted and nothing else changes |
| EpropArchive.EpropArchivingNode.AddLearningToHist | nestkernel/eprop_archiving_node.cpp:309-335 | the e-prop history becomes `AddLearningSignal`, whose properties are proved above; nothing else changes |
| EpropArchive.EpropArchivingNode.SetStatus | nestkernel/eprop_archiving_node.cpp:60-73 | dampening factor and update interval take the given values, or keep their own, without validation; the histories are untouched |
| EpropSynapse.WholeSteps | models/eprop_connection.h:230 | `floor(x / h)` is the integer `f` with `f * h <= x < f * h + h`, non-negative for non-negative `x` |
| EpropSynapse.FloorToInterval | models/eprop_connection.h:230 | `t_update` is the interval boundary at or before the spike, less than one interval before it |
| EpropSynapse.StepsToNextUpdate | models/eprop_connection.h:346 | the number of intervals `t_nextupdate_` advances by is at least 1 and brackets the spike |
| EpropSynapse.NextUpdate | models/eprop_connection.h:346 | the new `t_nextupdate_` lies after the spike, by at most one interval |
| EpropSynapse.NextUpdateOnGrid | models/eprop_connection.h:345-346 | from a schedule on the interval grid, the next update is one interval after the new `t_lastupdate_`, so the schedule stays on the grid |
| EpropSynapse.CheckEpropStatus | models/eprop_connection.h:437-459 | an error exactly when `tau_alpha` or the update interval is not positive, `tau_alpha` reported first; the commented-out sign checks never fail |
| EpropSynapse.EpropConnection.constructor | models/eprop_connection.h:365-382 | the default parameters and state of a new synapse |
| EpropSynapse.EpropConnection.Send | models/eprop_connection.h:194-362 | up to the next update, the spike is buffered and neither the weight nor the target changes; past it, the weight and traces come from the slice since the last update, the checkpoint moves, `t_lastupdate_` is at or before the spike and `t_nextupdate_` after it, the buffer restarts with the spike, and the target's histories are tidied to its earliest checkpoint; the target's synapse count, dampening factor and update interval never change |
| EpropSynapse.EpropConnection.Update | models/eprop_connection.h:211-350 | the update branch: traces reset when `keep_traces < 1`, the weight change over the slice is applied, the checkpoint moves, the schedule advances, and the target is tidied; the target's synapse count, dampening factor and update interval are untouched |
| EpropSynapse.EpropConnection.Advance | models/eprop_connection.h:331-349 | the synapse fields an update writes: weight plus `dw`, the new traces, `t_lastupdate_`, `t_nextupdate_`, and the buffer holding only the spike |
| EpropSynapse.EpropConnection.SetStatus | models/eprop_connection.h:420-460 | every given parameter is taken, `t_nextupdate_` restarts at one interval, and the error reported is `CheckEpropStatus` of the new values, which are kept even then |
| EpropSynapse.Exchange | models/eprop_connection.h:236-239 | the target's side of an update: the checkpoint moves, the slice handed back is the one before tidying, and both histories are tidied to the earliest checkpoint, which still exists; the target's other fields are untouched |
| UrbanczikArchive.ScanPast | nestkernel/urbanczik_archiving_node_impl.h:77-91 | each scan stops at the first sample not more than 1e-6 before its bound, having passed only samples before it |
| UrbanczikArchive.UrbanczikWindow | nestkernel/urbanczik_archiving_node_impl.h:78-91 | on a sorted history, `[start, finish)` holds exactly the samples with `t1 <= t - 1e-6 < t2`: the one at `t1` is left out and the one at `t2` taken |
| UrbanczikArchive.MarkWindow | nestkernel/urbanczik_archiving_node_impl.h:77-91 | the two scan loops stop where `ScanPast` says and add one reader to exactly the samples in `[start, finish)` |
| UrbanczikArchive.MarkedWindow | nestkernel/urbanczik_archiving_node_impl.h:78-91 | after marking a sorted history it stays sorted, and `[start, finish)` holds exactly the samples with `t1 <= t - 1e-6 < t2` |
| UrbanczikArchive.FindRecord | nestkernel/urbanczik_archiving_node_impl.h:119-124 | the search stops at the first record within 1e-6 of the time, having passed only records further away |
| UrbanczikArchive.AsWrittenValueReads | nestkernel/urbanczik_archiving_node_impl.h:119-124 | as written, the loop reads `runner->t_` at the start position first |
| UrbanczikArchive.AsWrittenValueReadsUpTo | nestkernel/urbanczik_archiving_node_impl.h:120-121 | the as-written loop reads every position up to the record found, and reads at `end()` exactly when no record is within 1e-6 |
| UrbanczikArchive.FirstSpikeReadsEnd | nestkernel/urbanczik_archiving_node_impl.h:120-121 | counterexample: a synapse's first spike looks up its initial time in a one-record history and reads past the end |
| UrbanczikArchive.ValueAt | nestkernel/urbanczik_archiving_node_impl.h:95-141 | corrected lookup, comparing with the end before reading; the compressed history keeps its length |
| UrbanczikArchive.ValueAtShape | nestkernel/urbanczik_archiving_node_impl.h:95-141 | with no record within 1e-6, zeros are returned and nothing changes; otherwise the first such record hands back its integrals and loses one reader; every other record, and every time and integral, is kept |
| UrbanczikArchive.Prune | nestkernel/urbanczik_archiving_node_impl.h:158-174 | pruning keeps only records with readers |
| UrbanczikArchive.PruneAppend | nestkernel/urbanczik_archiving_node_impl.h:162-173 | pruning works record by record and keeps their order |
| UrbanczikArchive.PruneMembers | nestkernel/urbanczik_archiving_node_impl.h:162-173 | a record survives pruning exactly when it was there with a non-zero counter |
| UrbanczikArchive.PruneKeepsRead | nestkernel/urbanczik_archiving_node_impl.h:162-173 | a history whose every record has readers is left as it is |
| UrbanczikArchive.PruneIdempotent | nestkernel/urbanczik_archiving_node_impl.h:162-173 | pruning twice prunes nothing more |
| UrbanczikArchive.PruneKeepsLastRead | nestkernel/urbanczik_archiving_node_impl.h:177-179 | when the last record still has readers, it is still last after pruning, so the duplicate branch increments the record whose time matched |
| UrbanczikArchive.LastCompression | nestkernel/urbanczik_archiving_node_impl.h:154-161 | `t_last_update`: on records in time order, no record is later than it |
| UrbanczikArchive.DueCount | nestkernel/urbanczik_archiving_node_impl.h:191-192 | the samples popped are less than 1e-6 after the compression end, and the next sample is not |
| UrbanczikArchive.Contribution | nestkernel/urbanczik_archiving_node_impl.h:196-204 | one popped sample's part of the four sums; a sample without a weight change contributes nothing |
| UrbanczikArchive.Plus | nestkernel/urbanczik_archiving_node_impl.h:201-204 | the sums add part-wise, with no accrual as the neutral element on either side |
| UrbanczikArchive.Accrue | nestkernel/urbanczik_archiving_node_impl.h:187-206 | the four sums over the popped samples start at zero, so samples that all lack a weight change leave them at zero |
| UrbanczikArchive.Integrate | nestkernel/urbanczik_archiving_node_impl.h:215-227 | updating a record keeps its time and its counter |
| UrbanczikArchive.IntegrateAll | nestkernel/urbanczik_archiving_node_impl.h:215-227 | every kept record, and only those, is updated with the same accrual, in place |
| UrbanczikArchive.IntegrateNothing | nestkernel/urbanczik_archiving_node_impl.h:218-225 | with no sample due, a record's `I1` stay and its `I2` only decay by `exp((t_last - t_end) / tau_Delta)` |
| UrbanczikArchive.CompressionShape | nestkernel/urbanczik_archiving_node_impl.h:143-232 | without incoming synapses nothing changes; otherwise every record left has a reader; a repeated spike only adds a reader to the last record; else the due samples leave the raw history, kept records keep times and readers, and `{t_end, 0, 0, 0, 0, 1}` is appended |
| UrbanczikArchive.Compression | nestkernel/urbanczik_archiving_node_impl.h:143-232 | without incoming synapses both histories are as they were; otherwise the raw history keeps a suffix of itself, every compressed record has a reader, and a non-repeated spike leaves `t_end` as the new `t_last_update` |
| UrbanczikArchive.PruneRecords | nestkernel/urbanczik_archiving_node_impl.h:162-173 | the in-place erase loop computes `Prune` |
| UrbanczikArchive.PopDue | nestkernel/urbanczik_archiving_node_impl.h:191-206 | the pop loop leaves the samples after the due ones and returns the summed contributions of exactly those popped |
| UrbanczikArchive.IntegrateRecords | nestkernel/urbanczik_archiving_node_impl.h:215-227 | the update loop computes `IntegrateAll` |
| UrbanczikArchive.Compress | nestkernel/urbanczik_archiving_node_impl.h:152-231 | the prune, pop, update and append steps, in the source's order, compute `Compression` |
| UrbanczikArchive.Retire | nestkernel/urbanczik_archiving_node_impl.h:252-262 | retiring keeps a suffix and never the empty one; every dropped sample was read by all synapses, and a kept head with a successor was not |
| UrbanczikArchive.RetireIdempotent | nestkernel/urbanczik_archiving_node_impl.h:252-262 | retiring twice retires nothing more |
| UrbanczikArchive.WriteKeepsSorted | nestkernel/urbanczik_archiving_node_impl.h:248-267 | writing a sample no earlier than the last keeps the raw history time-sorted |
| UrbanczikArchive.UrbanczikArchivingNode.constructor | nestkernel/urbanczik_archiving_node_impl.h:36-39 | a new node has no incoming synapses and empty histories |
| UrbanczikArchive.UrbanczikArchivingNode.RegisterStdpConnection | models/urbanczik_connection_bc.h:150-157 | a synapse connecting to the node raises its count of incoming plastic synapses by one; the histories stay time-sorted |
| UrbanczikArchive.UrbanczikArchivingNode.GetUrbanczikHistory | nestkernel/urbanczik_archiving_node_impl.h:61-93 | `start` and `finish` are the two scans; exactly the samples in `[start, finish)` gain a reader and nothing else changes; that window holds exactly the samples with `t1 <= t - 1e-6 < t2`, and the history stays time-sorted |
| UrbanczikArchive.UrbanczikArchivingNode.GetUrbanczikValue | nestkernel/urbanczik_archiving_node_impl.h:95-141 | the compressed history and the integrals returned are `ValueAt`; the raw history is untouched |
| UrbanczikArchive.UrbanczikArchivingNode.CompressUrbanczikHistory | nestkernel/urbanczik_archiving_node_impl.h:143-232 | both histories become `Compression` of the old ones, with `tau_L`, `tau_syn_ex` and `tau_Delta` |
| UrbanczikArchive.UrbanczikArchivingNode.WriteUrbanczikHistory | nestkernel/urbanczik_archiving_node_impl.h:234-268 | with incoming synapses, the raw history is retired and `{t, dPI, 0}` is appended; without them nothing changes; the history stays time-sorted |
| UrbanczikSynapse.Clamp | models/urbanczik_connection_bc.h:230-237 | the clipped weight lies in `[Wmin, Wmax]` when that is an interval; a weight inside is kept; above `Wmax` gives `Wmax`, else below `Wmin` gives `Wmin` |
| UrbanczikSynapse.SignFrom | models/urbanczik_connection_bc.h:318 | the sign used for the weight and `Wmin` is `+1` exactly for non-negative values, otherwise `-1` |
| UrbanczikSynapse.StrictSign | models/urbanczik_connection_bc.h:324 | the sign used for `Wmax` is `+1` exactly for positive values, otherwise `-1` |
| UrbanczikSynapse.CheckUrbanczikStatus | models/urbanczik_connection_bc.h:316-327 | no error exactly when the weight has the sign of `Wmin` and of `Wmax`; the `Wmin` mismatch is reported first |
| UrbanczikSynapse.ZeroWeightNeedsPositiveWmax | models/urbanczik_connection_bc.h:318-327 | a zero weight with `Wmin = 0` and `Wmax <= 0` is refused with the `Wmax` error |
| UrbanczikSynapse.RawWeight | models/urbanczik_connection_bc.h:227-228 | the unclipped weight equals the initial weight when the summed integrals cancel or the learning rate is zero |
| UrbanczikSynapse.SpikeTrace | models/urbanczik_connection_bc.h:247-248 | a trace after a spike is at least 1 when the old trace and the decay factor are non-negative |
| UrbanczikSynapse.AccumulatePI | models/urbanczik_connection_bc.h:219-224 | reading zeros with no decay leaves the integrals unchanged; with zero traces, the `I1` parts stay and the exponential parts only decay |
| UrbanczikSynapse.NothingReadNothingLearnt | models/urbanczik_connection_bc.h:219-224 | a spike that finds no record, with no decay, leaves the integrals as they were |
| UrbanczikSynapse.Exchange | models/urbanczik_connection_bc.h:208-218 | the target compresses up to the spike's dendritic time, then the integrals read are those of the record at the previous spike's dendritic time, in the compressed history |
| UrbanczikSynapse.UrbanczikConnection.constructor | models/urbanczik_connection_bc.h:254-271 | the default parameters and state of a new synapse |
| UrbanczikSynapse.UrbanczikConnection.Send | models/urbanczik_connection_bc.h:190-251 | the target compresses to `t_spike - d` and hands back the record of `t_lastspike - d`; the integrals, the clipped weight (in `[Wmin, Wmax]`) and the two traces follow from it, with `tau_s` chosen by the sign of the old weight; `t_lastspike_` becomes the spike |
| UrbanczikSynapse.UrbanczikConnection.Learn | models/urbanczik_connection_bc.h:219-250 | the synapse side of `send`: the integrals accumulate, the weight is the clipped raw weight, and the traces decay and gain one |
| UrbanczikSynapse.UrbanczikConnection.SetStatus | models/urbanczik_connection_bc.h:305-328 | every given value is taken and the weight becomes the initial weight; the error is `CheckUrbanczikStatus` of the new values, which are kept even then |

## Left out

- Spike delivery to the target (`e.set_receiver`, `e()` at
  `models/eprop_connection.h:353-359` and
  `models/urbanczik_connection_bc.h:239-244`) is not modelled. It belongs to
  the kernel's event system, not to the archives.
- The e-prop eligibility-trace and weight-change numerics
  (`models/eprop_connection.h:247-328`) are not modelled: the readout branch,
  the recurrent branch, `exp` and `pow`. They enter as a parameter function
  `learn`, applied to the history slice, the spike buffer and the two traces.
  The model states how its result is used, not how it is computed.
- `exp` is a parameter of the Urbanczik members. The sample value `dPI`
  (`phi`, `h`, `V_W*` at `nestkernel/urbanczik_archiving_node_impl.h:241-246,264-265`)
  is an input to `WriteUrbanczikHistory`. Floating point is modelled by exact
  reals.
- Only the dendritic compartment (`comp == 1`) is modelled, because the
  synapse supports only two-compartment neurons. The arrays indexed by
  `comp - 1` hold a single history.
- The `register_update` message "found nothing" is not printed; the model
  returns it as the `found` flag. The print and debug members, `get_status`,
  the length getters, `get_update_interval_steps` and the copy constructors
  are not modelled.
- Access-counter increments past 2^64 - 1 do not wrap in the model. Only the
  decrement's wrap-around is modelled (`Entries.DecrementCounter`).
- EpropSynapse.EpropConnection.Send: requires a positive update interval and
  a target holding at least one checkpoint.
  - The source divides by the interval. `set_status` reports a non-positive
    interval but keeps it.
  - `tidy_eprop_history` dereferences `begin()` of the registry, which is
    undefined on an empty registry.
- EpropSynapse.EpropConnection.Send: the synapse's own writes and the calls
  into the target happen in a different order than in the source. The
  target never reads the synapse, so the final state is the same.
- UrbanczikArchive.UrbanczikArchivingNode.CompressUrbanczikHistory: requires
  non-zero `g_L`, `tau_L`, `tau_syn_ex` and `tau_Delta`, the values
  compression divides by (`tau_L = C_m / g_L`, and
  `nestkernel/urbanczik_archiving_node_impl.h:199-204,218-225`). The
  infinities and NaNs the source would compute otherwise are not modelled.
- UrbanczikSynapse.Exchange: the same requirement as
  `CompressUrbanczikHistory`, which it calls.
- UrbanczikSynapse.UrbanczikConnection.Send: requires what
  `CompressUrbanczikHistory` does, plus, for the synaptic time constant
  `tau_s` that the sign of the weight selects, `tau_s != 0` and
  `tau_L != tau_s`. It also requires a compressed history that the
  duplicate branch can increment (`UrbanczikArchive.CompressDefined`).
  - `send` divides by `tau_s` (`models/urbanczik_connection_bc.h:248`) and by
    `tau_L - tau_s` (`:228`); the other synaptic time constant is not used.
  - On a history that pruning empties, the duplicate branch dereferences
    `rbegin()`, which is undefined.
- UrbanczikArchive.UrbanczikArchivingNode.GetUrbanczikValue: compares with the
  end before reading a record. The source reads at `end()` first; that
  behaviour is captured only by `UrbanczikArchive.AsWrittenValueReads` (see
  Findings).
- EpropHistory.GridIndex: the `(int)` cast of `std::round` at
  `nestkernel/eprop_archiving_node.cpp:173-176` is modelled as exact. A
  quotient beyond the range of `int` is undefined behaviour in the source and
  an unbounded integer here.
- EpropArchive.EpropArchivingNode.GetEpropHistory: returns the corrected
  slice (`EpropHistory.FindEntries`), not the as-written one (see Findings).
  The two agree when `t1 <= t2` and `t1` rounds to a position no further than
  the end of the history (`EpropHistory.FindEntriesAgreesInside`). Otherwise
  the source's start lies past the end of the history or after its finish.
- EpropSynapse.Exchange: hands on the slice of `GetEpropHistory`, so it
  shares that corrected lookup and agrees with the source under the same
  conditions.
- EpropSynapse.EpropConnection.Update: the same corrected slice as
  `EpropSynapse.Exchange`.
- EpropSynapse.EpropConnection.Send: the same corrected slice as
  `EpropSynapse.Exchange`.
- EpropHistory.LearningWindow: follows the as-written lookup for every delay,
  negative ones included. It does not bound a start that lies past the end
  of the history, where the source forms an iterator past `end()`.
- EpropHistory.AddLearningSignal: when the window's start lies past the end
  of the history but differs from its finish, the source writes through that
  iterator (undefined behaviour); the model writes nothing then. Every other
  window, whatever the delay's sign, is handled as written.
- EpropHistory.AddLearningSignal: an event with exactly one coefficient makes
  the source's second `get_coeffvalue` read past the coefficients (undefined
  behaviour); the model writes nothing then. The sending error neuron always
  writes the time step and the learning signal in pairs
  (`models/error_neuron.cpp:277,334`).
- EpropArchive.EpropArchivingNode.AddLearningToHist: the same two cases as
  `EpropHistory.AddLearningSignal`, which it applies to the node's history.
- EpropArchive.EpropArchivingNode.WriteEpropHistory: of the floating-point
  special values, only the NaN that `V_th == 0` produces (`0.0 / 0.0`) is
  distinguished (`Entries.Double`). Every other value is an exact real.
- EpropArchive.EpropArchivingNode.WriteSpikeHistory: requires a time not
  before the last spike written. The neuron writes as simulation time
  advances, and `std::lower_bound` in `get_spike_history` relies on the
  order.
- UrbanczikArchive.UrbanczikArchivingNode.WriteUrbanczikHistory: requires a
  time not before the last sample written, for the same reason; the scans of
  `get_urbanczik_history` rely on the order.

## Findings

| source | as written | input that shows it | evidently intended | confidence | as-written member | corrected member |
|---|---|---|---|---|---|---|
| nestkernel/eprop_archiving_node.cpp:173-179 | `start` is clamped to `>= 0` but not to the history's size, nor to `finish` | one entry at 0 ms, `h = 1`, query `[3, 4)`: `start = 3`, `finish = 1` | `0 <= start <= finish <= size`, so that `[start, finish)` is a slice | not executed | EpropHistory.FindEpropHistEntries, EpropHistory.StartPastEnd | EpropHistory.FindEntries, EpropHistory.FindEntriesOnGrid |
| nestkernel/urbanczik_archiving_node_impl.h:120-121 | the loop guard reads `runner->t_` before comparing `runner` with `end()`, so a lookup that finds no record dereferences `end()` | a record at 4 ms, and the first spike of a synapse with delay 1 ms looking up its initial `t_lastspike - d = -2` ms | compare with `end()` first, then return zeros | not executed | UrbanczikArchive.AsWrittenValueReads, UrbanczikArchive.FirstSpikeReadsEnd | UrbanczikArchive.ValueAt, UrbanczikArchive.ValueAtShape |
