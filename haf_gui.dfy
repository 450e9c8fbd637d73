/**
  The dashboard coordinator of HAFwithGUI.py: the same heartbeat-driven
  replication loop without metrics.  A heartbeat is a `(node_id, score)`
  pair; after every heartbeat the dashboard callback gets a live update, and
  an assignment that completes a round is followed by a second callback that
  carries the chosen targets.
 */
module HafGui {
  import opened Wrappers
  import opened ScoreTable
  import opened Selection
  import opened Cluster

  /** One outcome of `heartbeat_queue.get(timeout=1)`: a `(node_id, score)` pair, or `Empty`. */
  datatype GuiPoll = Got(heartbeat: Entry) | TimedOut

  /** The constructor arguments the loop consults. */
  datatype GuiConfig = GuiConfig(numNodes: int, replicationFactor: int, hasCallback: bool)

  /** The scores after one iteration of `run`; a timed-out poll changes nothing. */
  function Step(scores: seq<Entry>, p: GuiPoll): seq<Entry>
  {
    match p
    case TimedOut => scores
    case Got(e) => Put(scores, e.id, e.score)
  }

  /** The ids one iteration hands the payload to. */
  function StepTargets(cfg: GuiConfig, scores: seq<Entry>, p: GuiPoll): seq<NodeId>
  {
    match p
    case TimedOut => []
    case Got(e) =>
      var after := Put(scores, e.id, e.score);
      if |after| == cfg.numNodes then Select(after, cfg.replicationFactor) else []
  }

  /** The callbacks one iteration makes: the live update, then the assignment's. */
  function StepNotes(cfg: GuiConfig, scores: seq<Entry>, p: GuiPoll): seq<Notification>
  {
    match p
    case TimedOut => []
    case Got(e) =>
      var after := Put(scores, e.id, e.score);
      if !cfg.hasCallback then []
      else if |after| == cfg.numNodes then
        [Notification(after, None), Notification(after, Some(Select(after, cfg.replicationFactor)))]
      else [Notification(after, None)]
  }

  function RunScores(scores: seq<Entry>, polls: seq<GuiPoll>): seq<Entry>
    decreases |polls|
  {
    if polls == [] then scores
    else Step(RunScores(scores, polls[..|polls| - 1]), polls[|polls| - 1])
  }

  function RunTargets(cfg: GuiConfig, scores: seq<Entry>, polls: seq<GuiPoll>): seq<NodeId>
    decreases |polls|
  {
    if polls == [] then []
    else
      var front := polls[..|polls| - 1];
      RunTargets(cfg, scores, front) + StepTargets(cfg, RunScores(scores, front), polls[|polls| - 1])
  }

  function RunNotes(cfg: GuiConfig, scores: seq<Entry>, polls: seq<GuiPoll>): seq<Notification>
    decreases |polls|
  {
    if polls == [] then []
    else
      var front := polls[..|polls| - 1];
      RunNotes(cfg, scores, front) + StepNotes(cfg, RunScores(scores, front), polls[|polls| - 1])
  }

  /** The heartbeats among the polls, in arrival order. */
  function Heartbeats(polls: seq<GuiPoll>): seq<Entry>
    decreases |polls|
  {
    if polls == [] then []
    else
      var last := polls[|polls| - 1];
      Heartbeats(polls[..|polls| - 1]) + (if last.Got? then [last.heartbeat] else [])
  }

  /**
    The callback sequence of one heartbeat: with a callback, first exactly
    one live update with the updated scores, then, exactly when the round is
    complete, one callback with the targets the same iteration delivers the
    payload to: distinct ids that have reported.  An incomplete round
    delivers to no one.  Without a callback, nothing is emitted.  A timeout
    emits nothing and changes nothing.
   */
  lemma CallbackSequence(cfg: GuiConfig, scores: seq<Entry>, e: Entry)
    requires Distinct(Ids(scores))
    ensures var after := Put(scores, e.id, e.score);
            var notes := StepNotes(cfg, scores, Got(e));
            && (!cfg.hasCallback ==> notes == [])
            && (cfg.hasCallback ==>
                  && |notes| == (if |after| == cfg.numNodes then 2 else 1)
                  && notes[0] == Notification(after, None)
                  && (|notes| == 2 ==> notes[1].scores == after
                                       && notes[1].targets == Some(StepTargets(cfg, scores, Got(e)))
                                       && Distinct(notes[1].targets.value)
                                       && (forall id :: id in notes[1].targets.value ==> id in Ids(after))
                                       && |notes[1].targets.value| == SliceLength(|after|, cfg.replicationFactor)))
    ensures var after := Put(scores, e.id, e.score);
            |after| != cfg.numNodes ==> StepTargets(cfg, scores, Got(e)) == []
    ensures StepNotes(cfg, scores, TimedOut) == [] && Step(scores, TimedOut) == scores
  {
    var after := Put(scores, e.id, e.score);
    var notes := StepNotes(cfg, scores, Got(e));
    PutKeepsDistinct(scores, e.id, e.score);
    SelectDistinct(after, cfg.replicationFactor);
    if cfg.hasCallback {
      if |after| == cfg.numNodes {
        assert notes == [Notification(after, None), Notification(after, Some(Select(after, cfg.replicationFactor)))];
      } else {
        assert notes == [Notification(after, None)];
      }
    }
  }

  /** With a callback, one iteration emits one live update if it received a heartbeat. */
  lemma StepLiveUpdates(cfg: GuiConfig, scores: seq<Entry>, p: GuiPoll)
    requires cfg.hasCallback
    ensures LiveUpdates(StepNotes(cfg, scores, p)) == if p.Got? then 1 else 0
  {
    var notes := StepNotes(cfg, scores, p);
    if p.Got? {
      var first := notes[0];
      assert first.targets.None?;
      if |notes| == 2 {
        assert notes[..1] == [first];
        assert LiveUpdates([first]) == 1 by {
          assert [first][..0] == [];
        }
      } else {
        assert notes[..0] == [];
      }
    }
  }

  /** With a callback, a run emits exactly one live update per received heartbeat. */
  lemma {:induction false} OneLiveUpdatePerHeartbeat(cfg: GuiConfig, scores: seq<Entry>, polls: seq<GuiPoll>)
    requires cfg.hasCallback
    ensures LiveUpdates(RunNotes(cfg, scores, polls)) == |Heartbeats(polls)|
    decreases |polls|
  {
    if polls != [] {
      var front := polls[..|polls| - 1];
      var p := polls[|polls| - 1];
      OneLiveUpdatePerHeartbeat(cfg, scores, front);
      LiveUpdatesConcat(RunNotes(cfg, scores, front), StepNotes(cfg, RunScores(scores, front), p));
      StepLiveUpdates(cfg, RunScores(scores, front), p);
    }
  }

  /** The scores after a run are the heartbeats applied in arrival order, the last score per id winning. */
  lemma {:induction false} RunAppliesHeartbeats(scores: seq<Entry>, polls: seq<GuiPoll>)
    ensures RunScores(scores, polls) == PutAll(scores, Heartbeats(polls))
    decreases |polls|
  {
    if polls != [] {
      var front := polls[..|polls| - 1];
      var p := polls[|polls| - 1];
      var hs := Heartbeats(polls);
      RunAppliesHeartbeats(scores, front);
      match p {
        case TimedOut =>
          assert hs == Heartbeats(front) + [];
          assert Heartbeats(front) + [] == Heartbeats(front);
        case Got(e) =>
          assert hs == Heartbeats(front) + [e];
          assert hs[..|hs| - 1] == Heartbeats(front);
          assert PutAll(scores, hs) == Put(PutAll(scores, Heartbeats(front)), e.id, e.score);
      }
    }
  }

  /** One more iteration of the `run` loop. */
  lemma RunPrefix(cfg: GuiConfig, scores: seq<Entry>, polls: seq<GuiPoll>, i: nat)
    requires i < |polls|
    ensures RunScores(scores, polls[..i + 1]) == Step(RunScores(scores, polls[..i]), polls[i])
    ensures RunNotes(cfg, scores, polls[..i + 1])
         == RunNotes(cfg, scores, polls[..i]) + StepNotes(cfg, RunScores(scores, polls[..i]), polls[i])
    ensures RunTargets(cfg, scores, polls[..i + 1])
         == RunTargets(cfg, scores, polls[..i]) + StepTargets(cfg, RunScores(scores, polls[..i]), polls[i])
  {
    assert polls[..i + 1][..i] == polls[..i];
  }

  /** The coordinator thread of the dashboard version. */
  class GuiCoordinator {
    const numNodes: int
    const replicationFactor: int
    const nodeThreads: map<NodeId, Node>
    const hasCallback: bool
    const memoryState: string := ReplicationData

    var running: bool
    var nodeScores: seq<Entry>

    function Cfg(): GuiConfig
    {
      GuiConfig(numNodes, replicationFactor, hasCallback)
    }

    /** The dictionary's items have distinct keys. */
    ghost predicate Valid()
      reads this
    {
      Distinct(Ids(nodeScores))
    }

    constructor (numNodes: int, nodeThreads: map<NodeId, Node>, replicationFactor: int, hasCallback: bool)
      ensures this.numNodes == numNodes && this.nodeThreads == nodeThreads
      ensures this.replicationFactor == replicationFactor && this.hasCallback == hasCallback
      ensures running && nodeScores == [] && Valid()
    {
      this.numNodes := numNodes;
      this.replicationFactor := replicationFactor;
      this.nodeThreads := nodeThreads;
      this.hasCallback := hasCallback;
      running := true;
      nodeScores := [];
    }

    /**
      `assign_replication_task`: the coordinator's own fields stay as they
      are; exactly the nodes the targets name receive the payload.
     */
    method AssignReplicationTask() returns (notes: seq<Notification>)
      modifies nodeThreads.Values
      ensures notes == if hasCallback then [Notification(nodeScores, Some(Select(nodeScores, replicationFactor)))] else []
      ensures forall n :: n in nodeThreads.Values ==>
                && n.running == old(n.running)
                && n.replicatedMemory
                   == if n in Receivers(nodeThreads, Select(nodeScores, replicationFactor))
                      then Some(memoryState) else old(n.replicatedMemory)
    {
      var targets := Select(nodeScores, replicationFactor);
      var i := 0;
      ghost var delivered: set<Node> := {};
      while i < |targets|
        invariant 0 <= i <= |targets|
        invariant delivered == Receivers(nodeThreads, targets[..i])
        invariant forall n :: n in nodeThreads.Values ==> n.running == old(n.running)
        invariant forall n :: n in nodeThreads.Values ==>
                    n.replicatedMemory == if n in delivered then Some(memoryState) else old(n.replicatedMemory)
      {
        var id := targets[i];
        ReceiversPrefix(nodeThreads, targets, i);
        if id in nodeThreads {
          var node := nodeThreads[id];
          node.ReceiveReplication(memoryState);
          delivered := delivered + {node};
        }
        i := i + 1;
      }
      assert targets[..|targets|] == targets;
      notes := if hasCallback then [Notification(nodeScores, Some(targets))] else [];
    }

    /** One received heartbeat: intake, the live update, then an assignment if the round is complete. */
    method ProcessHeartbeat(e: Entry) returns (notes: seq<Notification>)
      requires Valid()
      modifies this, nodeThreads.Values
      ensures nodeScores == Step(old(nodeScores), Got(e)) && Valid()
      ensures notes == StepNotes(Cfg(), old(nodeScores), Got(e))
      ensures running == old(running)
      ensures forall n :: n in nodeThreads.Values ==>
                && n.running == old(n.running)
                && n.replicatedMemory
                   == if n in Receivers(nodeThreads, StepTargets(Cfg(), old(nodeScores), Got(e)))
                      then Some(memoryState) else old(n.replicatedMemory)
    {
      ghost var before := nodeScores;
      assert Distinct(Ids(Put(nodeScores, e.id, e.score))) by {
        PutKeepsDistinct(nodeScores, e.id, e.score);
      }
      nodeScores := Put(nodeScores, e.id, e.score);
      notes := if hasCallback then [Notification(nodeScores, None)] else [];
      if |nodeScores| == numNodes {
        assert StepTargets(Cfg(), before, Got(e)) == Select(nodeScores, replicationFactor);
        var more := AssignReplicationTask();
        notes := notes + more;
      } else {
        assert StepTargets(Cfg(), before, Got(e)) == [];
      }
    }

    /**
      The `run` loop over the polls it gets while it is running.  The loop
      has no time budget and does not clear `running` itself.
     */
    method Run(polls: seq<GuiPoll>) returns (notes: seq<Notification>)
      requires Valid()
      modifies this, nodeThreads.Values
      ensures var handled := if old(running) then polls else [];
              && nodeScores == RunScores(old(nodeScores), handled)
              && notes == RunNotes(Cfg(), old(nodeScores), handled)
              && forall n :: n in nodeThreads.Values ==>
                   && n.running == old(n.running)
                   && n.replicatedMemory
                      == if n in Receivers(nodeThreads, RunTargets(Cfg(), old(nodeScores), handled))
                         then Some(memoryState) else old(n.replicatedMemory)
      ensures running == old(running) && Valid()
    {
      var i := 0;
      notes := [];
      ghost var start := nodeScores;
      ghost var delivered: set<Node> := {};
      while running && i < |polls|
        invariant 0 <= i <= |polls|
        invariant running == old(running) && (i > 0 ==> running)
        invariant Valid()
        invariant nodeScores == RunScores(start, polls[..i])
        invariant notes == RunNotes(Cfg(), start, polls[..i])
        invariant delivered == Receivers(nodeThreads, RunTargets(Cfg(), start, polls[..i]))
        invariant forall n :: n in nodeThreads.Values ==> n.running == old(n.running)
        invariant forall n :: n in nodeThreads.Values ==>
                    n.replicatedMemory == if n in delivered then Some(memoryState) else old(n.replicatedMemory)
      {
        var p := polls[i];
        ghost var targets := StepTargets(Cfg(), nodeScores, p);
        RunPrefix(Cfg(), start, polls, i);
        ReceiversConcat(nodeThreads, RunTargets(Cfg(), start, polls[..i]), targets);
        match p {
          case TimedOut =>
          case Got(e) =>
            var more := ProcessHeartbeat(e);
            notes := notes + more;
        }
        delivered := delivered + Receivers(nodeThreads, targets);
        i := i + 1;
      }
      if old(running) {
        assert polls[..i] == polls;
      }
    }

    /** `stop` clears `running` and nothing else. */
    method Stop()
      modifies this
      ensures !running && nodeScores == old(nodeScores)
    {
      running := false;
    }
  }
}
