# Heartbeat-driven replication coordinator, in Dafny

This project models the coordinator of a small failover simulation. In the
simulation, node agents send heartbeats with an availability score to a
coordinator. Once every node has reported, the coordinator picks the
`replication_factor` best-scoring nodes. It hands each of them a payload
("Replication Data") and keeps metrics.

The repository has three versions of the coordinator, and each one is a module here:

- `HafTesting` (`HAFwithGUITesting.py`) is the instrumented coordinator. It counts heartbeats, logs latencies, times the intervals
  between assignments, counts replications per node and reports the figures.
- `HafGui` (`HAFwithGUI.py`) is the same loop without metrics. Its
  dashboard callback sees one live update per heartbeat, and then the targets when a round completes.
- `Haf` (`HAF.py`) is the first version. It drains the queue, checks completion once per
  drain, and only announces the targets.

The shared parts are separate modules:

- `ScoreTable` is the score dictionary. It is an insertion-ordered list of `(id, score)`
  items, because Python dictionaries keep insertion order and the stable sort depends on it.
- `Selection` is the stable descending sort and the `[:k]` slice.
- `Metrics` holds the averages and the throughput.
- `NodeColour` is the dashboard's colour rule.
- `Cluster` is the node agents' payload slot and the callback arguments.

Each step of each coordinator has two forms.

- A pure function on a state value. Most lemmas are stated about these functions.
- A class whose methods change fields in place and deliver the payload to `Node` objects. Their contracts state that the new fields equal the pure function of the old ones, and exactly which nodes' `replicatedMemory` changes.

The queue is a sequence of poll outcomes. Each outcome is a heartbeat, or a time-out. The clock is
three readings per heartbeat, because the code calls `time.time()` separately:

- for the latency;
- for the interval;
- for the new assignment stamp.

Scores and times are `real`.

## Model

| member | source | states |
|---|---|---|
| ScoreTable.Put | HAFwithGUITesting.py:64 | `node_scores[id] = s`: the id gets score s, an existing id keeps its slot and a new id is appended |
| ScoreTable.PutKeepsOthers | HAFwithGUITesting.py:64 | storing under one id leaves the value of every other id unchanged |
| ScoreTable.Get | HAFwithGUITesting.py:183 | `dict.get`: a value exactly for stored ids, and that value is the stored item's score |
| ScoreTable.PutKeepsDistinct | HAFwithGUITesting.py:64 | storing keeps keys distinct, the key set becomes old keys plus id, the size grows by at most one |
| ScoreTable.PutAllLastWins | HAF.py:35-38 | after draining a batch in FIFO order each id holds the score of its last heartbeat in the batch, others are unchanged |
| ScoreTable.PutAllOnlyGrows | HAF.py:35-38 | draining never removes or reorders keys: old key order is a prefix, new keys are old keys plus the batch's ids |
| ScoreTable.DistinctCount | HAFwithGUITesting.py:74 | `len(node_scores)` equals the number of distinct ids |
| ScoreTable.AllReported | HAFwithGUITesting.py:74 | when only known nodes report and the length equals their number, every known node has reported |
| ScoreTable.PutAll | HAF.py:35-38 | the drain loop's effect, `Put` applied to the batch in FIFO order; its meaning is stated by `PutAllLastWins` and `PutAllOnlyGrows` |
| ScoreTable.LastScore | HAF.py:35-38 | the last score of an id in a batch exists exactly when the id occurs in it |
| Selection.Insert | HAFwithGUITesting.py:89 | one insertion step of the stable sort yields one more item |
| Selection.SortDesc | HAFwithGUITesting.py:89 | `sorted(..., reverse=True)` keeps the number of items |
| Selection.InsertPermutes | HAFwithGUITesting.py:89 | an insertion step is a permutation (multisets agree) |
| Selection.InsertDescending | HAFwithGUITesting.py:89 | inserting into a descending list keeps it descending |
| Selection.InsertStable | HAFwithGUITesting.py:89 | inserting keeps the relative order of items with equal scores |
| Selection.SortDescPermutes | HAFwithGUITesting.py:89 | the sorted list is a permutation of the dictionary's items |
| Selection.SortDescDescending | HAFwithGUITesting.py:89 | the sorted list is descending by score |
| Selection.SortDescStable | HAFwithGUITesting.py:89 | for every score, the items with that score appear in dictionary order (stability under `reverse=True`) |
| Selection.SortDescKeys | HAFwithGUITesting.py:89 | sorting preserves the set of ids and their distinctness |
| Selection.SortKeepsTieOrder | HAFwithGUITesting.py:89 | two equal-score items keep their insertion order in the sorted list |
| Selection.SliceLength | HAFwithGUITesting.py:90 | the length of `[:k]` for any int k, never more than the list's length; its meaning is stated by `SliceLengthCounts` |
| Selection.SliceLengthCounts | HAFwithGUITesting.py:90 | against Python's index-by-index slice rule (position i survives exactly when it is before the stop, a negative stop counting from the end): the slice length is the number of surviving positions, and a position survives exactly when it lies below that length |
| Selection.KeptBelowPrefix | HAFwithGUITesting.py:90 | among the first u positions, exactly `min(u, SliceLength(n, k))` survive Python's slice rule |
| Selection.SelectIsPrefix | HAFwithGUITesting.py:89-90 | the targets are the first `SliceLength` ids of the sorted list |
| Selection.Select | HAFwithGUITesting.py:89-90 | the number of targets is the slice length of the item count and `replication_factor` |
| Selection.SelectDistinct | HAFwithGUITesting.py:89-90 | targets are distinct ids that have reported |
| Selection.TargetPosition | HAFwithGUITesting.py:89-90 | an id is a target exactly when its place in the sorted order is before the cut |
| Selection.SelectTakesHighest | HAFwithGUITesting.py:89-90 | every target's score is at least every non-target's score |
| Selection.SelectOrdered | HAFwithGUITesting.py:89-90 | targets come in descending score order |
| Selection.SelectPrefersEarlierTies | HAFwithGUITesting.py:89-90 | of two nodes with equal score, the one inserted later is a target only if the earlier one is too |
| Selection.FourNodesTwoReplicas | HAFwithGUITesting.py:89-90 | scores A .9, B .7, C .95, D .4 with factor 2 select C then A |
| Selection.TieGoesToFirstReported | HAFwithGUITesting.py:89-90 | equal scores with factor 1 select whichever node reported first |
| Metrics.Sum | HAFwithGUITesting.py:115 | Python's `sum` of a list; `Mean`, `Throughput` and `MeanBelow` state their results through it |
| Metrics.Mean | HAFwithGUITesting.py:114-119 | an average exists exactly for a non-empty list, and times the length it gives the sum |
| Metrics.Throughput | HAFwithGUITesting.py:120-122 | no figure for no intervals, a division error exactly for a zero sum, otherwise rate × sum = assignments |
| Metrics.MeanBelow | HAFwithGUITesting.py:114-116 | the average of samples below a bound is below it |
| Metrics.ThroughputDefined | HAFwithGUITesting.py:120-122 | with positive intervals the rate is defined, and positive once an assignment happened |
| NodeColour.TargetList | HAFwithGUITesting.py:184 | `replication_targets or []`; `GreenIffTarget` states that green means membership in it |
| NodeColour.ColourOf | HAFwithGUITesting.py:182-190 | `_get_node_color`: the colour of a node from its score and the targets; its meaning is stated by `GreenIffTarget`, `MissingIsGray`, `Bands` and `Monotone` |
| NodeColour.GreenIffTarget | HAFwithGUITesting.py:184-185 | green exactly for targets, whatever the score |
| NodeColour.MissingIsGray | HAFwithGUITesting.py:183-190 | a node without a score (default int 0, no float) is gray, not red |
| NodeColour.Bands | HAFwithGUITesting.py:186-190 | a reported non-target is red below 0.5, orange below 0.8, gray from 0.8 |
| NodeColour.Monotone | HAFwithGUITesting.py:186-190 | among non-targets a higher score never gets a less healthy colour |
| Cluster.Node.constructor | HAFwithGUITesting.py:10-16 | a new node is running with an empty payload slot |
| Cluster.Node.ReceiveReplication | HAFwithGUITesting.py:30-31 | the payload slot is overwritten with the new memory, the running flag is untouched |
| Cluster.Node.Stop | HAFwithGUITesting.py:33-34 | clears running, keeps the payload |
| Cluster.Receivers | HAFwithGUITesting.py:93-95 | the node objects the delivery loop hands the payload to; `ReceiversNamed` states exactly which they are |
| Cluster.LiveUpdates | HAFwithGUITesting.py:71-72 | the number of callbacks that are live updates (`targets` is `None`); `LiveUpdatesConcat` and the two `OneLiveUpdatePerHeartbeat` lemmas use it |
| Cluster.LiveUpdatesConcat | HAFwithGUITesting.py:71-72 | the live updates of two callback sequences in a row add up |
| Cluster.ReceiversNamed | HAFwithGUITesting.py:93-95 | a node receives the payload exactly when some target id names it in the node directory |
| HafTesting.Init | HAFwithGUITesting.py:50-55 | the fields `__init__` sets; `InitInv` states that they satisfy the invariant with exact intervals |
| HafTesting.Receive | HAFwithGUITesting.py:63-69 | heartbeat intake; its meaning is stated by `HeartbeatIntake` and `ReceiveKeepsInv` |
| HafTesting.Deliver | HAFwithGUITesting.py:93-96 | the delivery loop's effect on the counts; its meaning is stated by `DeliverCounts` and `DeliverKeys`, and `Coordinator.Replicate` is proved equal to it |
| HafTesting.Assign | HAFwithGUITesting.py:82-99 | `assign_replication_task` on the fields; its meaning is stated by `AssignBookkeeping`, `AssignCounts` and `AssignKeepsInv` |
| HafTesting.HandleHeartbeat | HAFwithGUITesting.py:63-75 | one received heartbeat: intake, then an assignment if the round is complete; its meaning is stated by `FiresIffAllReported` and `CompleteStaysComplete` |
| HafTesting.Step | HAFwithGUITesting.py:60-79 | one loop iteration, a time-out changing nothing; its meaning is stated by `StepKeepsInv`, `StepKeepsIntervalsExact` and `RunCountsHeartbeats` |
| HafTesting.ReportOf | HAFwithGUITesting.py:109-122 | the figures `report_metrics` prints; its meaning is stated by `ReportFacts` |
| HafTesting.AssignNotes | HAFwithGUITesting.py:102-103 | the callback `assign_replication_task` makes with the scores and the targets; `CallbackSequence` states it |
| HafTesting.HeartbeatNotes | HAFwithGUITesting.py:71-75 | the callbacks of one received heartbeat; `CallbackSequence` states their order, number and contents |
| HafTesting.StepNotes | HAFwithGUITesting.py:60-79 | the callbacks of one loop iteration, none for a time-out; `StepLiveUpdates` and `OneLiveUpdatePerHeartbeat` count them |
| HafTesting.StepTargets | HAFwithGUITesting.py:74-75 | the ids one iteration delivers to, the selection when the round completes and none otherwise; `CallbackSequence` shows they are the ids the callback reports |
| HafTesting.RunState | HAFwithGUITesting.py:57-80 | the fields after the loop has handled the polls in order; its meaning is stated by `RunKeepsInv`, `RunCountsHeartbeats` and `RunIntervalsExact` |
| HafTesting.RunNotes | HAFwithGUITesting.py:57-80 | the callbacks of a whole run; `OneLiveUpdatePerHeartbeat` counts their live updates |
| HafTesting.RunTargets | HAFwithGUITesting.py:57-80 | every id the payload was handed to during a run; `Coordinator.Run` states that exactly the nodes they name receive the payload |
| HafTesting.HasPrevious | HAFwithGUITesting.py:84 | Python truthiness of the previous stamp: `None` and `0.0` read as absent; `AssignBookkeeping` states that an interval is appended exactly when it holds, and `ZeroStampLosesInterval` shows the consequence of a `0.0` stamp |
| HafTesting.RoundComplete | HAFwithGUITesting.py:74 | `len(node_scores) == num_nodes`; `CallbackSequence` states that the second callback comes exactly when it holds, `CompleteStaysComplete` that it stays true, and `FiresIffAllReported` that the assignment it triggers happens exactly when every known node has reported |
| HafTesting.Targets | HAFwithGUITesting.py:89-90 | the selection an assignment makes in a state; `CallbackSequence` and `AssignCounts` use it, and the `Selection` lemmas give its meaning |
| HafTesting.HeartbeatIntake | HAFwithGUITesting.py:63-69 | the node's score is set and others unchanged, a repeat id adds no key, one heartbeat is counted, the latency is logged exactly when below 10 (negative kept) |
| HafTesting.FiresIffAllReported | HAFwithGUITesting.py:74-75 | an assignment happens exactly when, after the update, every known node has a score |
| HafTesting.CompleteStaysComplete | HAFwithGUITesting.py:64-75 | once complete, any heartbeat from a reported node triggers another assignment, since scores are never cleared |
| HafTesting.RepeatedReporterNeverCompletes | HAFwithGUITesting.py:63-75 | three heartbeats from one of three nodes: no assignment, its latest score kept, three heartbeats counted |
| HafTesting.CallbackSequence | HAFwithGUITesting.py:71-75 | with a callback, one received heartbeat gives exactly one live update with the updated scores, followed exactly on round completion by one callback carrying the delivered targets, distinct ids that have reported; without a callback nothing; a time-out emits nothing and changes nothing |
| HafTesting.StepLiveUpdates | HAFwithGUITesting.py:60-79 | with a callback, one iteration emits one live update exactly when it received a heartbeat |
| HafTesting.OneLiveUpdatePerHeartbeat | HAFwithGUITesting.py:57-80 | with a callback, a run emits one live update per received heartbeat, as many as `total_heartbeats` grows by |
| HafTesting.AssignBookkeeping | HAFwithGUITesting.py:84-99 | one more assignment, the new stamp is the clock, an interval is appended exactly when the previous stamp is truthy |
| HafTesting.DeliverCounts | HAFwithGUITesting.py:93-96 | with distinct targets, each known node's count rises by one exactly when it is a target, keys unchanged |
| HafTesting.DeliverKeys | HAFwithGUITesting.py:93-96 | delivery neither adds nor removes count keys |
| HafTesting.AssignCounts | HAFwithGUITesting.py:93-96 | an assignment raises each target's count by exactly one and leaves the others |
| HafTesting.InitInv | HAFwithGUITesting.py:50-55 | the initial state (all counts 0 for the node ids) satisfies the invariant, with exact intervals |
| HafTesting.ReceiveKeepsInv | HAFwithGUITesting.py:63-69 | intake keeps the invariant |
| HafTesting.AssignKeepsInv | HAFwithGUITesting.py:82-99 | an assignment keeps the invariant |
| HafTesting.StepKeepsInv | HAFwithGUITesting.py:60-79 | every loop iteration, timeout or heartbeat, keeps the invariant |
| HafTesting.RunKeepsInv | HAFwithGUITesting.py:57-80 | the invariant holds after any sequence of polls: latencies below 10, at most one per heartbeat, count keys are the node ids, counts ≤ assignments, at most max(0, done − 1) intervals |
| HafTesting.RunCountsHeartbeats | HAFwithGUITesting.py:60-79 | `total_heartbeats` equals the number of received heartbeats; timeouts count nothing |
| HafTesting.StepKeepsIntervalsExact | HAFwithGUITesting.py:84-86 | with no zero stamp, one iteration keeps `len(execution_times) == max(0, done − 1)` |
| HafTesting.RunIntervalsExact | HAFwithGUITesting.py:84-86 | with no clock reading of 0.0 as a stamp, `len(execution_times) == max(0, assignments_done − 1)` after any run |
| HafTesting.ZeroStampLosesInterval | HAFwithGUITesting.py:84-85 | a previous stamp of exactly 0.0 reads as absent and the next interval is lost |
| HafTesting.ReportFacts | HAFwithGUITesting.py:109-122 | all node ids have a count; average latency exactly when samples exist and then below 10; average interval exactly when intervals exist; no throughput before a second assignment |
| HafTesting.Coordinator.constructor | HAFwithGUITesting.py:37-55 | the initial fields: empty logs, counts 0 for every node id, no stamp, running |
| HafTesting.Coordinator.AssignReplicationTask | HAFwithGUITesting.py:82-103 | the fields become the pure assignment of the old ones; exactly the targets' nodes get the payload; the callback gets scores and targets |
| HafTesting.Coordinator.Replicate | HAFwithGUITesting.py:93-96 | the delivery loop: counts as `Deliver`, memory set exactly on the nodes the targets name, no node's running flag touched |
| HafTesting.Coordinator.ReplicateTo | HAFwithGUITesting.py:94-96 | one target: its node gets the payload and its count rises by one |
| HafTesting.Coordinator.ProcessHeartbeat | HAFwithGUITesting.py:63-75 | intake then assignment if complete, as the pure step; the invariant is kept |
| HafTesting.Coordinator.Run | HAFwithGUITesting.py:57-80 | the loop applies the polls while running, delivers to exactly the nodes all rounds named, and leaves running false |
| HafTesting.Coordinator.Stop | HAFwithGUITesting.py:105-106 | clears running and changes no other field |
| HafTesting.Coordinator.ReportMetrics | HAFwithGUITesting.py:109-122 | the figures of the current state, with the facts of `ReportFacts` |
| HafGui.Step | HAFwithGUI.py:52-53 | the scores after one loop iteration; `RunAppliesHeartbeats` states the effect of a run |
| HafGui.StepTargets | HAFwithGUI.py:57-58 | the ids one iteration hands the payload to; `CallbackSequence` states that they are none for an incomplete round and otherwise exactly the targets the second callback carries, distinct ids that have reported |
| HafGui.StepNotes | HAFwithGUI.py:54-58 | the callbacks one iteration makes; `CallbackSequence` and `StepLiveUpdates` state their order and number |
| HafGui.RunScores | HAFwithGUI.py:48-62 | the scores after the loop has handled the polls; `RunAppliesHeartbeats` states them |
| HafGui.RunNotes | HAFwithGUI.py:48-62 | the callbacks of a whole run; `OneLiveUpdatePerHeartbeat` counts their live updates |
| HafGui.RunTargets | HAFwithGUI.py:48-62 | every id the payload was handed to during a run; `GuiCoordinator.Run` states that exactly the nodes they name receive it |
| HafGui.Heartbeats | HAFwithGUI.py:52 | the heartbeats among the polls in arrival order, time-outs dropped; used by `RunAppliesHeartbeats` and `OneLiveUpdatePerHeartbeat` |
| HafGui.CallbackSequence | HAFwithGUI.py:54-58 | one live update (no targets) per heartbeat, followed exactly when the round completes by one callback carrying the targets the same iteration delivers to (`StepTargets`), distinct reported ids of slice length; an incomplete round delivers to no one; a timeout emits nothing and changes nothing |
| HafGui.OneLiveUpdatePerHeartbeat | HAFwithGUI.py:52-55 | over a run, the number of live updates equals the number of heartbeats received |
| HafGui.RunAppliesHeartbeats | HAFwithGUI.py:52-53 | the scores after a run are the heartbeats applied in order, the last per id winning |
| HafGui.GuiCoordinator.constructor | HAFwithGUI.py:36-46 | empty scores (keys trivially distinct), running |
| HafGui.GuiCoordinator.AssignReplicationTask | HAFwithGUI.py:64-76 | exactly the nodes the selected targets name get the payload, others keep theirs; the callback gets the targets |
| HafGui.GuiCoordinator.ProcessHeartbeat | HAFwithGUI.py:52-60 | the score is stored, keys stay distinct, the callbacks and deliveries are those of the pure step |
| HafGui.GuiCoordinator.Run | HAFwithGUI.py:48-62 | the loop applies the polls while running, keeps the keys distinct and never clears running itself |
| HafGui.GuiCoordinator.Stop | HAFwithGUI.py:78-79 | clears running, scores unchanged |
| Haf.RunScores | HAF.py:33-45 | the scores after the outer iterations that drained the batches; `OnceCompleteAlwaysAnnounces` and `HafCoordinator.Run` use it |
| Haf.RunChecks | HAF.py:33-45 | one result of the completion check per outer iteration; `OnceCompleteAlwaysAnnounces` states that all of them fire once the round is complete |
| Haf.Check | HAF.py:42-43 | the completion check after a drain; `CompleteDrainStaysComplete` and `OnceCompleteAlwaysAnnounces` state when it fires |
| Haf.CompleteDrainStaysComplete | HAF.py:35-43 | a drain of already-reported ids (even an empty one) keeps the round complete, so the check fires again |
| Haf.OnceCompleteAlwaysAnnounces | HAF.py:33-45 | once complete, every later outer iteration announces targets |
| Haf.HafCoordinator.constructor | HAF.py:25-31 | empty scores, running |
| Haf.HafCoordinator.Drain | HAF.py:35-38 | the drain loop leaves the scores as the batch applied in FIFO order |
| Haf.HafCoordinator.AssignReplicationTask | HAF.py:47-51 | changes nothing; yields distinct reported ids, the slice length of scores and factor |
| Haf.HafCoordinator.RunIteration | HAF.py:35-45 | drain, then targets exactly when the dictionary has `num_nodes` entries |
| Haf.HafCoordinator.Run | HAF.py:33-45 | the outer loop over the drains while running, with the announcements of each |
| Haf.HafCoordinator.Stop | HAF.py:53-54 | clears running |

### Behaviour of the code worth noting

- **Ties.** There is no explicit tie-break. The code relies on the stability of `sorted`, so equal scores keep dictionary insertion order. `Selection.SortDescStable`, `Selection.SelectPrefersEarlierTies` and `Selection.TieGoesToFirstReported` state that behaviour.
- **Replication factor.** Nothing checks the replication factor or the node count at start-up. A factor above the number of reported nodes yields fewer targets, and a negative factor drops items from the end (`Selection.SliceLengthCounts`).
- **Negative latency.** Only `< 10` is checked, so negative latencies from clock skew are kept (`HafTesting.HeartbeatIntake`).
- **Zero-sum throughput.** The throughput divides without a guard, so a zero interval sum raises `ZeroDivisionError`: that is the `DivisionByZero` outcome of `Metrics.Throughput`.
- **Interval count.** The exact count `len(execution_times) == assignments_done - 1` needs every assignment stamp to be non-zero, because of the truthiness test (`HafTesting.ZeroStampLosesInterval`).

## Left out

- Threads, the blocking `Queue` with its one-second timeout, `start`/`join` and the `monitor` shutdown cascade. Their effect is the input: a sequence of polls, each a heartbeat or a time-out. A `stop()` from another thread is modelled only before or after a run.
- The default `replication_factor=2` of the three constructors (HAFwithGUITesting.py:37, HAFwithGUI.py:36, HAF.py:25). The factor is always an explicit input to the model, so the default value is not modelled.
- The 20-second wall-clock budget of the instrumented `run`. The polls given to `Run` are the ones that arrive within it.
- `Node.run`: random silences, `random.uniform` scores, `round(..., 2)` and the sleeps. Scores and send times are inputs.
- The `time.sleep(5)` cooldowns. They have no effect on state.
- The tkinter `Dashboard`: its constructor, `update` and the canvas drawing. Only `_get_node_color` is modelled.
- `print` output, including the formatting in `report_metrics` and `HAF.py`. The printed figures are the `Report` value.
- Python float arithmetic. Scores, times and averages are exact reals.
- Module-level setup code in all three files.
- Aliasing of the callback's dictionary: the callback receives the live dictionary, and the model passes a snapshot of its items.
- A concurrent `stop()` that clears `running` while a `Run` loop is under way. The flag and `Stop` are modelled, but `Stop` runs only before or after a `Run`, since no other thread exists in the model; the loop's exit in the middle of the polls is not modelled.
- HafTesting.Coordinator.Replicate: the `replication_count[node_id] += 1` would raise `KeyError` for a node that has no count. That cannot happen, because the counts are set up for exactly the node ids (`AssignCounts`). The pure `Deliver` therefore guards the update instead of modelling the exception.
- HafTesting.RunIntervalsExact: it states the exact interval count only for runs with no stamp of exactly 0.0. For other runs, the invariant gives only the upper bound `max(0, done − 1)`.
