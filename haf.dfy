/**
  The first coordinator, in HAF.py: every outer iteration drains whatever
  heartbeats are queued, then checks once whether every node has reported
  and, if so, selects the replication targets.  It delivers nothing; the
  targets are only announced.
 */
module Haf {
  import opened Wrappers
  import opened ScoreTable
  import opened Selection

  /** The constructor arguments the loop consults. */
  datatype HafConfig = HafConfig(numNodes: int, replicationFactor: int)

  /** What the completion check after a drain yields: the announced targets, or nothing. */
  function Check(cfg: HafConfig, scores: seq<Entry>): Option<seq<NodeId>>
  {
    if |scores| == cfg.numNodes then Some(Select(scores, cfg.replicationFactor)) else None
  }

  /** The scores after the outer iterations that drained `batches`, in order. */
  function RunScores(scores: seq<Entry>, batches: seq<seq<Entry>>): seq<Entry>
    decreases |batches|
  {
    if batches == [] then scores
    else PutAll(RunScores(scores, batches[..|batches| - 1]), batches[|batches| - 1])
  }

  /** What each of those outer iterations announced. */
  function RunChecks(cfg: HafConfig, scores: seq<Entry>, batches: seq<seq<Entry>>): (r: seq<Option<seq<NodeId>>>)
    ensures |r| == |batches|
    decreases |batches|
  {
    if batches == [] then []
    else RunChecks(cfg, scores, batches[..|batches| - 1]) + [Check(cfg, RunScores(scores, batches))]
  }

  /** One more outer iteration. */
  lemma RunPrefix(cfg: HafConfig, scores: seq<Entry>, batches: seq<seq<Entry>>, i: nat)
    requires i < |batches|
    ensures RunScores(scores, batches[..i + 1]) == PutAll(RunScores(scores, batches[..i]), batches[i])
    ensures RunChecks(cfg, scores, batches[..i + 1])
         == RunChecks(cfg, scores, batches[..i]) + [Check(cfg, RunScores(scores, batches[..i + 1]))]
  {
    assert batches[..i + 1][..i] == batches[..i];
  }

  /**
    A drain of heartbeats from nodes that already reported adds no key, so a
    complete round stays complete: the check fires again, even for an empty
    drain.
   */
  lemma CompleteDrainStaysComplete(cfg: HafConfig, scores: seq<Entry>, batch: seq<Entry>)
    requires Distinct(Ids(scores)) && |scores| == cfg.numNodes && Keys(batch) <= Keys(scores)
    ensures Distinct(Ids(PutAll(scores, batch))) && |PutAll(scores, batch)| == cfg.numNodes
    ensures Check(cfg, PutAll(scores, batch)).Some?
  {
    var after := PutAll(scores, batch);
    PutAllOnlyGrows(scores, batch);
    assert Keys(after) == Keys(scores);
    DistinctCount(scores);
    DistinctCount(after);
  }

  /**
    Once every node has reported, every later outer iteration announces
    targets, whether or not new heartbeats arrived, as long as they come
    from nodes that already reported.
   */
  lemma {:induction false} OnceCompleteAlwaysAnnounces(cfg: HafConfig, scores: seq<Entry>, batches: seq<seq<Entry>>)
    requires Distinct(Ids(scores)) && |scores| == cfg.numNodes
    requires forall i :: 0 <= i < |batches| ==> Keys(batches[i]) <= Keys(scores)
    ensures Distinct(Ids(RunScores(scores, batches)))
    ensures Keys(RunScores(scores, batches)) == Keys(scores) && |RunScores(scores, batches)| == cfg.numNodes
    ensures forall i :: 0 <= i < |batches| ==> RunChecks(cfg, scores, batches)[i].Some?
    decreases |batches|
  {
    if batches != [] {
      var front := batches[..|batches| - 1];
      var last := batches[|batches| - 1];
      var before := RunScores(scores, front);
      OnceCompleteAlwaysAnnounces(cfg, scores, front);
      CompleteDrainStaysComplete(cfg, before, last);
      PutAllOnlyGrows(before, last);
      var checks := RunChecks(cfg, scores, batches);
      forall i | 0 <= i < |batches| ensures checks[i].Some? {
        if i < |front| {
          assert checks[i] == RunChecks(cfg, scores, front)[i];
        }
      }
    }
  }

  /** The coordinator thread of HAF.py. */
  class HafCoordinator {
    const numNodes: int
    const replicationFactor: int

    var running: bool
    var nodeScores: seq<Entry>

    function Cfg(): HafConfig
    {
      HafConfig(numNodes, replicationFactor)
    }

    /** The dictionary's items have distinct keys. */
    ghost predicate Valid()
      reads this
    {
      Distinct(Ids(nodeScores))
    }

    constructor (numNodes: int, replicationFactor: int)
      ensures this.numNodes == numNodes && this.replicationFactor == replicationFactor
      ensures running && nodeScores == [] && Valid()
    {
      this.numNodes := numNodes;
      this.replicationFactor := replicationFactor;
      running := true;
      nodeScores := [];
    }

    /** The inner loop: apply the queued heartbeats in FIFO order. */
    method Drain(queue: seq<Entry>)
      modifies this`nodeScores
      ensures nodeScores == PutAll(old(nodeScores), queue)
    {
      var i := 0;
      while i < |queue|
        invariant 0 <= i <= |queue|
        invariant nodeScores == PutAll(old(nodeScores), queue[..i])
      {
        assert queue[..i + 1][..i] == queue[..i];
        nodeScores := Put(nodeScores, queue[i].id, queue[i].score);
        i := i + 1;
      }
      assert queue[..i] == queue;
    }

    /**
      `assign_replication_task` only computes the targets: distinct node ids
      that reported, `replication_factor` of them when there are enough.
     */
    method AssignReplicationTask() returns (targets: seq<NodeId>)
      requires Valid()
      ensures targets == Select(nodeScores, replicationFactor)
      ensures |targets| == SliceLength(|nodeScores|, replicationFactor)
      ensures Distinct(targets) && forall id :: id in targets ==> id in Ids(nodeScores)
    {
      SelectDistinct(nodeScores, replicationFactor);
      targets := Select(nodeScores, replicationFactor);
    }

    /** One outer iteration: drain, then check completion once. */
    method RunIteration(queue: seq<Entry>) returns (announced: Option<seq<NodeId>>)
      requires Valid()
      modifies this`nodeScores
      ensures nodeScores == PutAll(old(nodeScores), queue) && Valid()
      ensures announced == Check(Cfg(), nodeScores)
    {
      PutAllOnlyGrows(nodeScores, queue);
      Drain(queue);
      if |nodeScores| == numNodes {
        var targets := AssignReplicationTask();
        announced := Some(targets);
      } else {
        announced := None;
      }
    }

    /** The outer loop over one drain per iteration, while running. */
    method Run(batches: seq<seq<Entry>>) returns (announced: seq<Option<seq<NodeId>>>)
      requires Valid()
      modifies this`nodeScores
      ensures var handled := if old(running) then batches else [];
              && nodeScores == RunScores(old(nodeScores), handled)
              && announced == RunChecks(Cfg(), old(nodeScores), handled)
      ensures Valid()
    {
      var i := 0;
      announced := [];
      while running && i < |batches|
        invariant 0 <= i <= |batches| && (i > 0 ==> running)
        invariant Valid()
        invariant nodeScores == RunScores(old(nodeScores), batches[..i])
        invariant announced == RunChecks(Cfg(), old(nodeScores), batches[..i])
      {
        RunPrefix(Cfg(), old(nodeScores), batches, i);
        var a := RunIteration(batches[i]);
        announced := announced + [a];
        i := i + 1;
      }
      if running {
        assert batches[..i] == batches;
      }
    }

    method Stop()
      modifies this`running
      ensures !running
    {
      running := false;
    }
  }
}
