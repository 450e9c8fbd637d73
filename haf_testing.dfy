/**
  The instrumented coordinator of HAFwithGUITesting.py.

  The coordinator thread takes heartbeats off a queue one at a time.  Each one
  overwrites that node's score, is counted, and contributes a latency sample
  when the sample is below the ceiling.  When the score dictionary holds as
  many entries as there are nodes, the coordinator assigns a replication
  task: it records the time since the previous assignment, selects the
  best-scoring nodes, hands each of them the payload and counts it.

  The pure functions below give the meaning of one step on the coordinator's
  state; the class `Coordinator` performs the same steps in place and is
  proved to agree with them.  The queue becomes a sequence of poll outcomes
  and the clock becomes the readings each step takes.
 */
module HafTesting {
  import opened Wrappers
  import opened ScoreTable
  import opened Selection
  import opened Metrics
  import opened Cluster

  /** `(node_id, score, sent_time)` as a node puts it on the queue. */
  datatype Heartbeat = Heartbeat(nodeId: NodeId, score: real, sentAt: real)

  /**
    The clock readings taken while one heartbeat is handled: `time.time()`
    when the latency is computed, and the two separate readings
    `assign_replication_task` takes for the interval and for the new stamp.
   */
  datatype Clock = Clock(atReceipt: real, atInterval: real, atStamp: real)

  /** One outcome of `heartbeat_queue.get(timeout=1)`: a heartbeat, or `Empty` after the timeout. */
  datatype Poll = Received(heartbeat: Heartbeat, clock: Clock) | TimedOut

  /** The coordinator's constructor arguments. */
  datatype Config = Config(numNodes: int, replicationFactor: int, nodes: set<NodeId>, hasCallback: bool)

  /** The fields the coordinator updates. */
  datatype State = State(
    nodeScores: seq<Entry>,
    totalHeartbeats: nat,
    replicationCount: map<NodeId, nat>,
    latencyLog: seq<real>,
    executionTimes: seq<real>,
    lastAssignmentTime: Option<real>,
    assignmentsDone: nat)

  /** The state `__init__` sets up: every node's replication count starts at 0. */
  function Init(cfg: Config): State
  {
    State([], 0, map id | id in cfg.nodes :: 0, [], [], None, 0)
  }

  /** `if self.last_assignment_time:` is Python truthiness: `None` and `0.0` both read as absent. */
  predicate HasPrevious(t: Option<real>)
  {
    t.Some? && t.value != 0.0
  }

  /** `len(self.node_scores) == self.num_nodes`. */
  predicate RoundComplete(cfg: Config, scores: seq<Entry>)
  {
    |scores| == cfg.numNodes
  }

  /**
    The delivery loop's effect on the counts: each target that is a known node
    gets one more replication, in target order.
   */
  function Deliver(counts: map<NodeId, nat>, nodes: set<NodeId>, targets: seq<NodeId>): map<NodeId, nat>
    decreases |targets|
  {
    if targets == [] then counts
    else
      var before := Deliver(counts, nodes, targets[..|targets| - 1]);
      var id := targets[|targets| - 1];
      if id in nodes && id in before then before[id := before[id] + 1] else before
  }

  /** The targets `assign_replication_task` picks in state `st`. */
  function Targets(cfg: Config, st: State): seq<NodeId>
  {
    Select(st.nodeScores, cfg.replicationFactor)
  }

  /** `assign_replication_task`: interval bookkeeping, delivery and the assignment counter. */
  function Assign(cfg: Config, st: State, clock: Clock): State
  {
    st.(executionTimes := if HasPrevious(st.lastAssignmentTime)
                          then st.executionTimes + [clock.atInterval - st.lastAssignmentTime.value]
                          else st.executionTimes,
        lastAssignmentTime := Some(clock.atStamp),
        replicationCount := Deliver(st.replicationCount, cfg.nodes, Targets(cfg, st)),
        assignmentsDone := st.assignmentsDone + 1)
  }

  /** The callback `assign_replication_task` makes, if there is a callback. */
  function AssignNotes(cfg: Config, st: State): seq<Notification>
  {
    if cfg.hasCallback then [Notification(st.nodeScores, Some(Targets(cfg, st)))] else []
  }

  /** Heartbeat intake: store the score, count the heartbeat, keep the latency sample if it is plausible. */
  function Receive(st: State, hb: Heartbeat, now: real): State
  {
    var latency := now - hb.sentAt;
    st.(nodeScores := Put(st.nodeScores, hb.nodeId, hb.score),
        totalHeartbeats := st.totalHeartbeats + 1,
        latencyLog := if latency < LatencyCeiling then st.latencyLog + [latency] else st.latencyLog)
  }

  /** One received heartbeat: intake, then an assignment if the round is now complete. */
  function HandleHeartbeat(cfg: Config, st: State, hb: Heartbeat, clock: Clock): State
  {
    var received := Receive(st, hb, clock.atReceipt);
    if RoundComplete(cfg, received.nodeScores) then Assign(cfg, received, clock) else received
  }

  /** The callbacks one received heartbeat causes: a live update, then the assignment's. */
  function HeartbeatNotes(cfg: Config, st: State, hb: Heartbeat, clock: Clock): seq<Notification>
  {
    var received := Receive(st, hb, clock.atReceipt);
    (if cfg.hasCallback then [Notification(received.nodeScores, None)] else [])
    + (if RoundComplete(cfg, received.nodeScores) then AssignNotes(cfg, received) else [])
  }

  /** One iteration of the `run` loop; a timed-out poll changes nothing. */
  function Step(cfg: Config, st: State, p: Poll): State
  {
    match p
    case TimedOut => st
    case Received(hb, clock) => HandleHeartbeat(cfg, st, hb, clock)
  }

  function StepNotes(cfg: Config, st: State, p: Poll): seq<Notification>
  {
    match p
    case TimedOut => []
    case Received(hb, clock) => HeartbeatNotes(cfg, st, hb, clock)
  }

  /** The ids an iteration hands the payload to (before the node directory is consulted). */
  function StepTargets(cfg: Config, st: State, p: Poll): seq<NodeId>
  {
    match p
    case TimedOut => []
    case Received(hb, clock) =>
      var received := Receive(st, hb, clock.atReceipt);
      if RoundComplete(cfg, received.nodeScores) then Targets(cfg, received) else []
  }

  /** The state after the `run` loop has handled the polls in order. */
  function RunState(cfg: Config, st: State, polls: seq<Poll>): State
    decreases |polls|
  {
    if polls == [] then st
    else Step(cfg, RunState(cfg, st, polls[..|polls| - 1]), polls[|polls| - 1])
  }

  function RunNotes(cfg: Config, st: State, polls: seq<Poll>): seq<Notification>
    decreases |polls|
  {
    if polls == [] then []
    else
      var front := polls[..|polls| - 1];
      RunNotes(cfg, st, front) + StepNotes(cfg, RunState(cfg, st, front), polls[|polls| - 1])
  }

  /** Every id the payload was handed to during the polls. */
  function RunTargets(cfg: Config, st: State, polls: seq<Poll>): seq<NodeId>
    decreases |polls|
  {
    if polls == [] then []
    else
      var front := polls[..|polls| - 1];
      RunTargets(cfg, st, front) + StepTargets(cfg, RunState(cfg, st, front), polls[|polls| - 1])
  }

  /** What `report_metrics` prints, with `None` for a figure it skips. */
  datatype Report = Report(
    totalHeartbeats: nat,
    replicationCount: map<NodeId, nat>,
    averageLatency: Option<real>,
    averageInterval: Option<real>,
    throughput: Rate)

  /** The figures `report_metrics` prints for state `st`. */
  function ReportOf(st: State): Report
  {
    Report(st.totalHeartbeats, st.replicationCount, Mean(st.latencyLog), Mean(st.executionTimes),
           Throughput(st.assignmentsDone, st.executionTimes))
  }

  /** The number of intervals a state with `n` assignments can have recorded at most. */
  function IntervalSlots(n: nat): nat
  {
    if n == 0 then 0 else n - 1
  }

  /**
    What holds of the coordinator's state at every point of a run:
    the dictionary is well formed, the count keys are the node ids, every
    latency sample is below the ceiling and there is at most one per
    heartbeat, a previous assignment time exists exactly after the first
    assignment, there is at most one interval per assignment after the
    first, and no node was counted more often than there were assignments.
   */
  ghost predicate Inv(cfg: Config, st: State)
  {
    && Distinct(Ids(st.nodeScores))
    && st.replicationCount.Keys == cfg.nodes
    && (forall i :: 0 <= i < |st.latencyLog| ==> st.latencyLog[i] < LatencyCeiling)
    && |st.latencyLog| <= st.totalHeartbeats
    && (st.lastAssignmentTime.None? <==> st.assignmentsDone == 0)
    && |st.executionTimes| <= IntervalSlots(st.assignmentsDone)
    && (forall id :: id in st.replicationCount ==> st.replicationCount[id] <= st.assignmentsDone)
  }

  /** Exactly one interval per assignment after the first (no stamp read as absent). */
  ghost predicate IntervalsExact(st: State)
  {
    |st.executionTimes| == IntervalSlots(st.assignmentsDone)
  }

  /** How many polls delivered a heartbeat. */
  function ReceivedCount(polls: seq<Poll>): nat
    decreases |polls|
  {
    if polls == [] then 0
    else ReceivedCount(polls[..|polls| - 1]) + (if polls[|polls| - 1].Received? then 1 else 0)
  }

  lemma DistinctSnoc(ids: seq<NodeId>)
    requires ids != [] && Distinct(ids)
    ensures Distinct(ids[..|ids| - 1]) && ids[|ids| - 1] !in ids[..|ids| - 1]
  {
    var front := ids[..|ids| - 1];
    forall i | 0 <= i < |front| ensures front[i] != ids[|ids| - 1] {
      assert front[i] == ids[i];
    }
  }

  /**
    With distinct targets, delivery raises the count of every target that is a
    known node by exactly one and leaves every other count as it was.
   */
  lemma {:induction false} DeliverCounts(counts: map<NodeId, nat>, nodes: set<NodeId>, targets: seq<NodeId>)
    requires Distinct(targets) && counts.Keys == nodes
    ensures Deliver(counts, nodes, targets).Keys == nodes
    ensures forall id :: id in nodes ==>
              Deliver(counts, nodes, targets)[id] == counts[id] + (if id in targets then 1 else 0)
    decreases |targets|
  {
    if targets != [] {
      var front := targets[..|targets| - 1];
      var last := targets[|targets| - 1];
      DistinctSnoc(targets);
      DeliverCounts(counts, nodes, front);
      assert targets == front + [last];
      forall id | id in nodes
        ensures Deliver(counts, nodes, targets)[id] == counts[id] + (if id in targets then 1 else 0)
      {
        assert id in targets <==> id in front || id == last;
      }
    }
  }

  /** One more iteration of the delivery loop. */
  lemma DeliverPrefix(counts: map<NodeId, nat>, nodes: set<NodeId>, targets: seq<NodeId>, i: nat)
    requires i < |targets|
    ensures var before := Deliver(counts, nodes, targets[..i]);
            Deliver(counts, nodes, targets[..i + 1])
            == if targets[i] in nodes && targets[i] in before then before[targets[i] := before[targets[i]] + 1]
               else before
  {
    assert targets[..i + 1][..i] == targets[..i];
  }

  /** Delivery never adds or removes a count key. */
  lemma {:induction false} DeliverKeys(counts: map<NodeId, nat>, nodes: set<NodeId>, targets: seq<NodeId>)
    ensures Deliver(counts, nodes, targets).Keys == counts.Keys
    decreases |targets|
  {
    if targets != [] {
      DeliverKeys(counts, nodes, targets[..|targets| - 1]);
    }
  }

  /**
    Heartbeat intake: the node's entry gets the new score and no other entry
    changes; a node that already reported keeps its slot and adds no key; the
    heartbeat is counted once; its latency is logged exactly when it is below
    the ceiling (negative latencies from clock skew are kept).
   */
  lemma HeartbeatIntake(st: State, hb: Heartbeat, now: real)
    ensures Get(Receive(st, hb, now).nodeScores, hb.nodeId) == Some(hb.score)
    ensures forall k :: k != hb.nodeId ==> Get(Receive(st, hb, now).nodeScores, k) == Get(st.nodeScores, k)
    ensures Ids(st.nodeScores) <= Ids(Receive(st, hb, now).nodeScores)
    ensures hb.nodeId in Ids(st.nodeScores) ==> Ids(Receive(st, hb, now).nodeScores) == Ids(st.nodeScores)
    ensures Receive(st, hb, now).totalHeartbeats == st.totalHeartbeats + 1
    ensures Receive(st, hb, now).latencyLog
         == st.latencyLog + (if now - hb.sentAt < LatencyCeiling then [now - hb.sentAt] else [])
    ensures Receive(st, hb, now).(nodeScores := st.nodeScores, totalHeartbeats := st.totalHeartbeats,
                                  latencyLog := st.latencyLog) == st
  {
    forall k | k != hb.nodeId
      ensures Get(Receive(st, hb, now).nodeScores, k) == Get(st.nodeScores, k)
    {
      PutKeepsOthers(st.nodeScores, hb.nodeId, hb.score, k);
    }
  }

  /**
    Assignment bookkeeping: the counter rises by one, the new stamp is the
    clock, and an interval is appended exactly when the previous stamp is
    present and non-zero; scores, heartbeat count and latencies are untouched.
   */
  lemma AssignBookkeeping(cfg: Config, st: State, clock: Clock)
    ensures Assign(cfg, st, clock).assignmentsDone == st.assignmentsDone + 1
    ensures Assign(cfg, st, clock).lastAssignmentTime == Some(clock.atStamp)
    ensures |Assign(cfg, st, clock).executionTimes|
         == |st.executionTimes| + (if HasPrevious(st.lastAssignmentTime) then 1 else 0)
    ensures st.executionTimes <= Assign(cfg, st, clock).executionTimes
    ensures Assign(cfg, st, clock).nodeScores == st.nodeScores
    ensures Assign(cfg, st, clock).totalHeartbeats == st.totalHeartbeats
    ensures Assign(cfg, st, clock).latencyLog == st.latencyLog
  {
  }

  /**
    Delivery: every target that is a known node is counted once more, every
    other node keeps its count, and the count keys stay the node ids.
   */
  lemma AssignCounts(cfg: Config, st: State, clock: Clock)
    requires Inv(cfg, st)
    ensures Assign(cfg, st, clock).replicationCount.Keys == cfg.nodes
    ensures forall id :: id in cfg.nodes ==>
              Assign(cfg, st, clock).replicationCount[id]
              == st.replicationCount[id] + (if id in Targets(cfg, st) then 1 else 0)
  {
    SelectDistinct(st.nodeScores, cfg.replicationFactor);
    DeliverCounts(st.replicationCount, cfg.nodes, Targets(cfg, st));
  }

  lemma AssignKeepsInv(cfg: Config, st: State, clock: Clock)
    requires Inv(cfg, st)
    ensures Inv(cfg, Assign(cfg, st, clock))
  {
    AssignCounts(cfg, st, clock);
  }

  lemma ReceiveKeepsInv(cfg: Config, st: State, hb: Heartbeat, now: real)
    requires Inv(cfg, st)
    ensures Inv(cfg, Receive(st, hb, now))
  {
    PutKeepsDistinct(st.nodeScores, hb.nodeId, hb.score);
    var r := Receive(st, hb, now);
    forall i | 0 <= i < |r.latencyLog| ensures r.latencyLog[i] < LatencyCeiling {
      if i < |st.latencyLog| {
        assert r.latencyLog[i] == st.latencyLog[i];
      }
    }
  }

  /** Every iteration of the `run` loop keeps the invariant. */
  lemma StepKeepsInv(cfg: Config, st: State, p: Poll)
    requires Inv(cfg, st)
    ensures Inv(cfg, Step(cfg, st, p))
  {
    if p.Received? {
      ReceiveKeepsInv(cfg, st, p.heartbeat, p.clock.atReceipt);
      var received := Receive(st, p.heartbeat, p.clock.atReceipt);
      if RoundComplete(cfg, received.nodeScores) {
        AssignKeepsInv(cfg, received, p.clock);
      }
    }
  }

  /** One more iteration of the `run` loop. */
  lemma RunPrefix(cfg: Config, st: State, polls: seq<Poll>, i: nat)
    requires i < |polls|
    ensures RunState(cfg, st, polls[..i + 1]) == Step(cfg, RunState(cfg, st, polls[..i]), polls[i])
    ensures RunNotes(cfg, st, polls[..i + 1])
         == RunNotes(cfg, st, polls[..i]) + StepNotes(cfg, RunState(cfg, st, polls[..i]), polls[i])
    ensures RunTargets(cfg, st, polls[..i + 1])
         == RunTargets(cfg, st, polls[..i]) + StepTargets(cfg, RunState(cfg, st, polls[..i]), polls[i])
  {
    assert polls[..i + 1][..i] == polls[..i];
  }

  /** The invariant holds from `__init__` on, through any sequence of polls. */
  lemma {:induction false} RunKeepsInv(cfg: Config, st: State, polls: seq<Poll>)
    requires Inv(cfg, st)
    ensures Inv(cfg, RunState(cfg, st, polls))
    decreases |polls|
  {
    if polls != [] {
      RunKeepsInv(cfg, st, polls[..|polls| - 1]);
      StepKeepsInv(cfg, RunState(cfg, st, polls[..|polls| - 1]), polls[|polls| - 1]);
    }
  }

  lemma InitInv(cfg: Config)
    ensures Inv(cfg, Init(cfg)) && IntervalsExact(Init(cfg))
  {
  }

  /** `total_heartbeats` counts exactly the heartbeats received; timeouts count nothing. */
  lemma {:induction false} RunCountsHeartbeats(cfg: Config, st: State, polls: seq<Poll>)
    ensures RunState(cfg, st, polls).totalHeartbeats == st.totalHeartbeats + ReceivedCount(polls)
    decreases |polls|
  {
    if polls != [] {
      RunCountsHeartbeats(cfg, st, polls[..|polls| - 1]);
    }
  }

  /**
    The callbacks of one received heartbeat.  With a callback: first exactly
    one live update carrying the updated scores, then, exactly when the round
    is complete, one callback carrying the targets the assignment delivers
    to, distinct ids that have reported.  Without a callback nothing is
    emitted.  A timeout emits nothing and changes nothing.
   */
  lemma CallbackSequence(cfg: Config, st: State, hb: Heartbeat, clock: Clock)
    requires Distinct(Ids(st.nodeScores))
    ensures var received := Receive(st, hb, clock.atReceipt);
            var notes := HeartbeatNotes(cfg, st, hb, clock);
            && (!cfg.hasCallback ==> notes == [])
            && (cfg.hasCallback ==>
                  && |notes| == (if RoundComplete(cfg, received.nodeScores) then 2 else 1)
                  && notes[0] == Notification(received.nodeScores, None)
                  && (|notes| == 2 ==>
                        && notes[1].scores == received.nodeScores
                        && notes[1].targets == Some(StepTargets(cfg, st, Received(hb, clock)))
                        && Distinct(notes[1].targets.value)
                        && forall id :: id in notes[1].targets.value ==> id in Ids(received.nodeScores)))
    ensures StepNotes(cfg, st, TimedOut) == [] && Step(cfg, st, TimedOut) == st
  {
    var received := Receive(st, hb, clock.atReceipt);
    var notes := HeartbeatNotes(cfg, st, hb, clock);
    PutKeepsDistinct(st.nodeScores, hb.nodeId, hb.score);
    SelectDistinct(received.nodeScores, cfg.replicationFactor);
    if cfg.hasCallback {
      if RoundComplete(cfg, received.nodeScores) {
        assert notes == [Notification(received.nodeScores, None),
                         Notification(received.nodeScores, Some(Targets(cfg, received)))];
      } else {
        assert notes == [Notification(received.nodeScores, None)];
      }
    }
  }

  /** With a callback, one iteration emits one live update if it received a heartbeat. */
  lemma StepLiveUpdates(cfg: Config, st: State, p: Poll)
    requires cfg.hasCallback
    ensures LiveUpdates(StepNotes(cfg, st, p)) == if p.Received? then 1 else 0
  {
    var notes := StepNotes(cfg, st, p);
    if p.Received? {
      var first := notes[0];
      assert first.targets.None?;
      if |notes| == 2 {
        assert notes[..1] == [first];
        assert LiveUpdates([first]) == 1 by {
          assert [first][..0] == [];
        }
      } else {
        assert notes[..0] == [];
      }
    }
  }

  /**
    With a callback, a run emits exactly one live update per received
    heartbeat, so the live updates keep pace with `total_heartbeats`.
   */
  lemma {:induction false} OneLiveUpdatePerHeartbeat(cfg: Config, st: State, polls: seq<Poll>)
    requires cfg.hasCallback
    ensures LiveUpdates(RunNotes(cfg, st, polls)) == ReceivedCount(polls)
    ensures st.totalHeartbeats + LiveUpdates(RunNotes(cfg, st, polls)) == RunState(cfg, st, polls).totalHeartbeats
    decreases |polls|
  {
    RunCountsHeartbeats(cfg, st, polls);
    if polls != [] {
      var front := polls[..|polls| - 1];
      var p := polls[|polls| - 1];
      OneLiveUpdatePerHeartbeat(cfg, st, front);
      LiveUpdatesConcat(RunNotes(cfg, st, front), StepNotes(cfg, RunState(cfg, st, front), p));
      StepLiveUpdates(cfg, RunState(cfg, st, front), p);
    }
  }

  /**
    Once every node has reported, the scores are never cleared, so every
    further heartbeat from a node that already reported completes a round
    again and triggers another assignment, on possibly stale scores.
   */
  lemma CompleteStaysComplete(cfg: Config, st: State, hb: Heartbeat, clock: Clock)
    requires Inv(cfg, st) && RoundComplete(cfg, st.nodeScores) && hb.nodeId in Ids(st.nodeScores)
    ensures HandleHeartbeat(cfg, st, hb, clock).assignmentsDone == st.assignmentsDone + 1
    ensures RoundComplete(cfg, HandleHeartbeat(cfg, st, hb, clock).nodeScores)
  {
  }

  /**
    The assignment fires exactly when, after the update, every known node has
    a score (given that only known nodes report and `num_nodes` is their number).
   */
  lemma FiresIffAllReported(cfg: Config, st: State, hb: Heartbeat, clock: Clock)
    requires Inv(cfg, st) && cfg.numNodes == |cfg.nodes|
    requires Keys(st.nodeScores) <= cfg.nodes && hb.nodeId in cfg.nodes
    ensures var after := HandleHeartbeat(cfg, st, hb, clock);
            && (after.assignmentsDone == st.assignmentsDone + 1
                <==> Keys(Receive(st, hb, clock.atReceipt).nodeScores) == cfg.nodes)
            && (after.assignmentsDone == st.assignmentsDone
                <==> Keys(Receive(st, hb, clock.atReceipt).nodeScores) != cfg.nodes)
  {
    var scores := Receive(st, hb, clock.atReceipt).nodeScores;
    PutKeepsDistinct(st.nodeScores, hb.nodeId, hb.score);
    if |scores| == cfg.numNodes {
      AllReported(scores, cfg.nodes);
    } else {
      DistinctCount(scores);
    }
  }

  /** Without a zero stamp, each assignment after the first appends one interval. */
  lemma StepKeepsIntervalsExact(cfg: Config, st: State, p: Poll)
    requires Inv(cfg, st) && IntervalsExact(st) && st.lastAssignmentTime != Some(0.0)
    requires p.Received? ==> p.clock.atStamp != 0.0
    ensures IntervalsExact(Step(cfg, st, p)) && Step(cfg, st, p).lastAssignmentTime != Some(0.0)
  {
  }

  /** With no clock reading of 0.0 as a stamp, `len(execution_times) == max(0, assignments_done - 1)`. */
  lemma {:induction false} RunIntervalsExact(cfg: Config, st: State, polls: seq<Poll>)
    requires Inv(cfg, st) && IntervalsExact(st) && st.lastAssignmentTime != Some(0.0)
    requires forall i :: 0 <= i < |polls| && polls[i].Received? ==> polls[i].clock.atStamp != 0.0
    ensures IntervalsExact(RunState(cfg, st, polls)) && RunState(cfg, st, polls).lastAssignmentTime != Some(0.0)
    decreases |polls|
  {
    if polls != [] {
      var front := polls[..|polls| - 1];
      RunIntervalsExact(cfg, st, front);
      RunKeepsInv(cfg, st, front);
      StepKeepsIntervalsExact(cfg, RunState(cfg, st, front), polls[|polls| - 1]);
    }
  }

  /** A stamp of exactly 0.0 reads as "no previous assignment": the next interval is lost. */
  lemma ZeroStampLosesInterval(cfg: Config, st: State, clock: Clock)
    requires IntervalsExact(st) && st.lastAssignmentTime == Some(0.0) && st.assignmentsDone > 0
    ensures !IntervalsExact(Assign(cfg, st, clock))
  {
  }

  /**
    The report: every node id has a count; an average latency is given
    exactly when a sample was kept, and it is below the ceiling; an average
    interval exactly when an interval was recorded; and no throughput before
    the second assignment.
   */
  lemma ReportFacts(cfg: Config, st: State)
    requires Inv(cfg, st)
    ensures ReportOf(st).replicationCount.Keys == cfg.nodes
    ensures ReportOf(st).averageLatency.Some? <==> st.latencyLog != []
    ensures ReportOf(st).averageLatency.Some? ==> ReportOf(st).averageLatency.value < LatencyCeiling
    ensures ReportOf(st).averageInterval.Some? <==> st.executionTimes != []
    ensures st.assignmentsDone <= 1 ==> ReportOf(st).throughput == NoData
  {
    MeanBelow(st.latencyLog, LatencyCeiling);
  }

  /**
    Three heartbeats from the same node never complete a round of three
    nodes: nothing is assigned, the node's entry holds its latest score and
    all three heartbeats are counted.
   */
  lemma RepeatedReporterNeverCompletes()
    ensures var cfg := Config(3, 2, {"A", "B", "C"}, false);
            var polls := [Received(Heartbeat("A", 0.3, 0.0), Clock(0.1, 0.1, 0.1)),
                          Received(Heartbeat("A", 0.6, 1.0), Clock(1.1, 1.1, 1.1)),
                          Received(Heartbeat("A", 0.9, 2.0), Clock(2.1, 2.1, 2.1))];
            var final := RunState(cfg, Init(cfg), polls);
            && final.assignmentsDone == 0
            && final.nodeScores == [Entry("A", 0.9)]
            && final.totalHeartbeats == 3
            && |final.latencyLog| == 3
  {
    var cfg := Config(3, 2, {"A", "B", "C"}, false);
    var p1 := Received(Heartbeat("A", 0.3, 0.0), Clock(0.1, 0.1, 0.1));
    var p2 := Received(Heartbeat("A", 0.6, 1.0), Clock(1.1, 1.1, 1.1));
    var p3 := Received(Heartbeat("A", 0.9, 2.0), Clock(2.1, 2.1, 2.1));
    var polls := [p1, p2, p3];
    assert polls[..2][..1] == [p1] && polls[..2] == [p1, p2] && polls[..2][..1][..0] == [];
    var s1 := Step(cfg, Init(cfg), p1);
    assert s1.nodeScores == [Entry("A", 0.3)];
    assert RunState(cfg, Init(cfg), [p1]) == s1;
    var s2 := Step(cfg, s1, p2);
    assert s2.nodeScores == [Entry("A", 0.6)];
    assert RunState(cfg, Init(cfg), [p1, p2]) == s2;
    var s3 := Step(cfg, s2, p3);
    assert s3.nodeScores == [Entry("A", 0.9)];
  }

  /**
    The coordinator thread.  Its fields are the dictionary, the metrics and
    the `running` flag; the node directory and the constructor arguments do
    not change after construction.
   */
  class Coordinator {
    const numNodes: int
    const replicationFactor: int
    const nodeThreads: map<NodeId, Node>
    const hasCallback: bool
    const memoryState: string := ReplicationData

    var running: bool
    var nodeScores: seq<Entry>
    var totalHeartbeats: nat
    var replicationCount: map<NodeId, nat>
    var latencyLog: seq<real>
    var executionTimes: seq<real>
    var lastAssignmentTime: Option<real>
    var assignmentsDone: nat

    function Cfg(): Config
    {
      Config(numNodes, replicationFactor, nodeThreads.Keys, hasCallback)
    }

    function Snapshot(): State
      reads this
    {
      State(nodeScores, totalHeartbeats, replicationCount, latencyLog, executionTimes,
            lastAssignmentTime, assignmentsDone)
    }

    ghost predicate Valid()
      reads this
    {
      Inv(Cfg(), Snapshot())
    }

    constructor (numNodes: int, nodeThreads: map<NodeId, Node>, replicationFactor: int, hasCallback: bool)
      ensures this.numNodes == numNodes && this.nodeThreads == nodeThreads
      ensures this.replicationFactor == replicationFactor && this.hasCallback == hasCallback
      ensures running && Snapshot() == Init(Cfg()) && Valid()
    {
      this.numNodes := numNodes;
      this.replicationFactor := replicationFactor;
      this.nodeThreads := nodeThreads;
      this.hasCallback := hasCallback;
      running := true;
      nodeScores := [];
      totalHeartbeats := 0;
      replicationCount := map id | id in nodeThreads :: 0;
      latencyLog := [];
      executionTimes := [];
      lastAssignmentTime := None;
      assignmentsDone := 0;
    }

    /**
      `assign_replication_task`: the state becomes `Assign` of the old one;
      exactly the nodes the targets name receive the payload, and no node's
      `running` flag changes.
     */
    method AssignReplicationTask(clock: Clock) returns (notes: seq<Notification>)
      requires Valid()
      modifies this, nodeThreads.Values
      ensures Snapshot() == Assign(Cfg(), old(Snapshot()), clock) && Valid()
      ensures notes == AssignNotes(Cfg(), old(Snapshot()))
      ensures running == old(running)
      ensures forall n :: n in nodeThreads.Values ==>
                && n.running == old(n.running)
                && n.replicatedMemory
                   == if n in Receivers(nodeThreads, Targets(Cfg(), old(Snapshot())))
                      then Some(memoryState) else old(n.replicatedMemory)
    {
      ghost var before := Snapshot();
      AssignKeepsInv(Cfg(), before, clock);
      if lastAssignmentTime.Some? && lastAssignmentTime.value != 0.0 {
        executionTimes := executionTimes + [clock.atInterval - lastAssignmentTime.value];
      }
      lastAssignmentTime := Some(clock.atStamp);
      var targets := Select(nodeScores, replicationFactor);
      assert targets == Targets(Cfg(), before) && nodeScores == before.nodeScores;
      Replicate(targets);
      assignmentsDone := assignmentsDone + 1;
      notes := if hasCallback then [Notification(nodeScores, Some(targets))] else [];
      assert notes == AssignNotes(Cfg(), before);
    }

    /**
      The delivery loop: every target that names a node hands it the
      payload and is counted, in target order.
     */
    method Replicate(targets: seq<NodeId>)
      requires replicationCount.Keys == nodeThreads.Keys
      modifies this`replicationCount, nodeThreads.Values
      ensures replicationCount == Deliver(old(replicationCount), nodeThreads.Keys, targets)
      ensures replicationCount.Keys == nodeThreads.Keys
      ensures forall n :: n in nodeThreads.Values ==>
                && n.running == old(n.running)
                && n.replicatedMemory
                   == if n in Receivers(nodeThreads, targets) then Some(memoryState) else old(n.replicatedMemory)
    {
      var i := 0;
      ghost var counts := replicationCount;
      ghost var delivered: set<Node> := {};
      while i < |targets|
        invariant 0 <= i <= |targets|
        invariant replicationCount == Deliver(counts, nodeThreads.Keys, targets[..i])
        invariant delivered == Receivers(nodeThreads, targets[..i])
        invariant forall n :: n in nodeThreads.Values ==>
                    && n.running == old(n.running)
                    && n.replicatedMemory == if n in delivered then Some(memoryState) else old(n.replicatedMemory)
      {
        var id := targets[i];
        DeliverPrefix(counts, nodeThreads.Keys, targets, i);
        DeliverKeys(counts, nodeThreads.Keys, targets[..i]);
        ReceiversPrefix(nodeThreads, targets, i);
        if id in nodeThreads {
          ReplicateTo(id);
          delivered := delivered + {nodeThreads[id]};
        }
        i := i + 1;
      }
      assert targets[..|targets|] == targets;
      DeliverKeys(counts, nodeThreads.Keys, targets);
    }

    /** One iteration of the delivery loop, for a target that names a node. */
    method ReplicateTo(id: NodeId)
      requires id in nodeThreads && id in replicationCount
      modifies this`replicationCount, nodeThreads[id]
      ensures replicationCount == old(replicationCount)[id := old(replicationCount)[id] + 1]
      ensures nodeThreads[id].replicatedMemory == Some(memoryState)
      ensures nodeThreads[id].running == old(nodeThreads[id].running)
    {
      nodeThreads[id].ReceiveReplication(memoryState);
      replicationCount := replicationCount[id := replicationCount[id] + 1];
    }

    /** One received heartbeat: intake, the live update, then an assignment if the round is complete. */
    method ProcessHeartbeat(hb: Heartbeat, clock: Clock) returns (notes: seq<Notification>)
      requires Valid()
      modifies this, nodeThreads.Values
      ensures Snapshot() == HandleHeartbeat(Cfg(), old(Snapshot()), hb, clock) && Valid()
      ensures notes == HeartbeatNotes(Cfg(), old(Snapshot()), hb, clock)
      ensures running == old(running)
      ensures forall n :: n in nodeThreads.Values ==>
                && n.running == old(n.running)
                && n.replicatedMemory
                   == if n in Receivers(nodeThreads, StepTargets(Cfg(), old(Snapshot()), Received(hb, clock)))
                      then Some(memoryState) else old(n.replicatedMemory)
    {
      ghost var st := Snapshot();
      ghost var received := Receive(st, hb, clock.atReceipt);
      ReceiveKeepsInv(Cfg(), st, hb, clock.atReceipt);
      nodeScores := Put(nodeScores, hb.nodeId, hb.score);
      totalHeartbeats := totalHeartbeats + 1;
      var latency := clock.atReceipt - hb.sentAt;
      if latency < LatencyCeiling {
        latencyLog := latencyLog + [latency];
      }
      assert Snapshot() == received;
      notes := if hasCallback then [Notification(nodeScores, None)] else [];
      if |nodeScores| == numNodes {
        assert StepTargets(Cfg(), st, Received(hb, clock)) == Targets(Cfg(), received);
        assert HandleHeartbeat(Cfg(), st, hb, clock) == Assign(Cfg(), received, clock);
        var more := AssignReplicationTask(clock);
        notes := notes + more;
      } else {
        assert StepTargets(Cfg(), st, Received(hb, clock)) == [];
        assert HandleHeartbeat(Cfg(), st, hb, clock) == received;
      }
    }

    /**
      The `run` loop over the polls it gets while it is running; each
      heartbeat is handled as `Step` says, timeouts are skipped, and the
      thread marks itself stopped at the end.
     */
    method Run(polls: seq<Poll>) returns (notes: seq<Notification>)
      requires Valid()
      modifies this, nodeThreads.Values
      ensures var handled := if old(running) then polls else [];
              && Snapshot() == RunState(Cfg(), old(Snapshot()), handled)
              && notes == RunNotes(Cfg(), old(Snapshot()), handled)
              && forall n :: n in nodeThreads.Values ==>
                   && n.running == old(n.running)
                   && n.replicatedMemory
                      == if n in Receivers(nodeThreads, RunTargets(Cfg(), old(Snapshot()), handled))
                         then Some(memoryState) else old(n.replicatedMemory)
      ensures Valid() && !running
    {
      var i := 0;
      notes := [];
      ghost var start := Snapshot();
      ghost var delivered: set<Node> := {};
      var handling := running;
      while running && i < |polls|
        invariant 0 <= i <= |polls|
        invariant running == old(running) && (i > 0 ==> running)
        invariant Valid()
        invariant Snapshot() == RunState(Cfg(), start, polls[..i])
        invariant notes == RunNotes(Cfg(), start, polls[..i])
        invariant delivered == Receivers(nodeThreads, RunTargets(Cfg(), start, polls[..i]))
        invariant forall n :: n in nodeThreads.Values ==> n.running == old(n.running)
        invariant forall n :: n in nodeThreads.Values ==>
                    n.replicatedMemory == if n in delivered then Some(memoryState) else old(n.replicatedMemory)
      {
        var p := polls[i];
        ghost var before := Snapshot();
        ghost var targets := StepTargets(Cfg(), before, p);
        RunPrefix(Cfg(), start, polls, i);
        ReceiversConcat(nodeThreads, RunTargets(Cfg(), start, polls[..i]), targets);
        match p {
          case TimedOut =>
          case Received(hb, clock) =>
            var more := ProcessHeartbeat(hb, clock);
            notes := notes + more;
        }
        delivered := delivered + Receivers(nodeThreads, targets);
        i := i + 1;
      }
      if handling {
        assert polls[..i] == polls;
      }
      running := false;
    }

    method Stop()
      modifies this
      ensures !running && Snapshot() == old(Snapshot())
    {
      running := false;
    }

    /** `report_metrics`, as the figures it prints; it changes nothing. */
    method ReportMetrics() returns (r: Report)
      requires Valid()
      ensures r == ReportOf(Snapshot())
      ensures r.replicationCount.Keys == nodeThreads.Keys
      ensures r.averageLatency.Some? <==> latencyLog != []
      ensures r.averageLatency.Some? ==> r.averageLatency.value < LatencyCeiling
      ensures r.averageInterval.Some? <==> executionTimes != []
      ensures assignmentsDone <= 1 ==> r.throughput == NoData
    {
      ReportFacts(Cfg(), Snapshot());
      r := ReportOf(Snapshot());
    }
  }
}
