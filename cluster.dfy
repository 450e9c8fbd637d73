/**
  What the coordinator shares with the rest of the system: the node agents
  whose `replicated_memory` slot it writes, and the notifications it passes
  to the dashboard callback.
 */
module Cluster {
  import opened Wrappers
  import opened ScoreTable

  /** The payload the coordinator replicates (`self.memory_state`). */
  const ReplicationData: string := "Replication Data"

  /**
    A node agent.  Its heartbeat loop (`Node.run`) is random and timed and is
    not part of this model; the coordinator only touches the payload slot.
   */
  class Node {
    const nodeId: NodeId
    var running: bool
    var replicatedMemory: Option<string>

    constructor (nodeId: NodeId)
      ensures this.nodeId == nodeId && running && replicatedMemory == None
    {
      this.nodeId := nodeId;
      running := true;
      replicatedMemory := None;
    }

    /** The payload slot is overwritten, never merged. */
    method ReceiveReplication(memory: string)
      modifies this
      ensures replicatedMemory == Some(memory)
      ensures running == old(running)
    {
      replicatedMemory := Some(memory);
    }

    method Stop()
      modifies this
      ensures !running
      ensures replicatedMemory == old(replicatedMemory)
    {
      running := false;
    }
  }

  /**
    The node objects that the ids in `targets` name in the node directory,
    gathered in target order as the delivery loop visits them.
   */
  function Receivers(nodes: map<NodeId, Node>, targets: seq<NodeId>): set<Node>
    decreases |targets|
  {
    if targets == [] then {}
    else
      var id := targets[|targets| - 1];
      Receivers(nodes, targets[..|targets| - 1]) + (if id in nodes then {nodes[id]} else {})
  }

  /** A node receives exactly when some target id names it. */
  lemma {:induction false} ReceiversNamed(nodes: map<NodeId, Node>, targets: seq<NodeId>, n: Node)
    ensures n in Receivers(nodes, targets) <==> exists id :: id in targets && id in nodes && nodes[id] == n
    decreases |targets|
  {
    if targets != [] {
      var front := targets[..|targets| - 1];
      var id := targets[|targets| - 1];
      ReceiversNamed(nodes, front, n);
      assert targets == front + [id];
      if n in Receivers(nodes, targets) {
        if n !in Receivers(nodes, front) {
          assert id in targets && id in nodes && nodes[id] == n;
        }
      } else {
        forall other | other in targets && other in nodes ensures nodes[other] != n {
          assert other in front || other == id;
        }
      }
    }
  }

  lemma ReceiversPrefix(nodes: map<NodeId, Node>, targets: seq<NodeId>, i: nat)
    requires i < |targets|
    ensures Receivers(nodes, targets[..i + 1])
         == Receivers(nodes, targets[..i]) + (if targets[i] in nodes then {nodes[targets[i]]} else {})
  {
    assert targets[..i + 1][..i] == targets[..i];
  }

  lemma {:induction false} ReceiversConcat(nodes: map<NodeId, Node>, a: seq<NodeId>, b: seq<NodeId>)
    ensures Receivers(nodes, a + b) == Receivers(nodes, a) + Receivers(nodes, b)
    decreases |b|
  {
    if b == [] {
      assert a + b == a;
    } else {
      var front := b[..|b| - 1];
      assert (a + b)[..|a + b| - 1] == a + front;
      ReceiversConcat(nodes, a, front);
    }
  }

  /**
    The arguments of one `gui_callback(node_scores, targets, node_threads)`
    call: the scores at that moment and the targets, `None` for a live update.
   */
  datatype Notification = Notification(scores: seq<Entry>, targets: Option<seq<NodeId>>)

  /** How many callbacks are live updates (no targets). */
  function LiveUpdates(notes: seq<Notification>): nat
    decreases |notes|
  {
    if notes == [] then 0
    else LiveUpdates(notes[..|notes| - 1]) + (if notes[|notes| - 1].targets.None? then 1 else 0)
  }

  lemma {:induction false} LiveUpdatesConcat(a: seq<Notification>, b: seq<Notification>)
    ensures LiveUpdates(a + b) == LiveUpdates(a) + LiveUpdates(b)
    decreases |b|
  {
    if b == [] {
      assert a + b == a;
    } else {
      assert (a + b)[..|a + b| - 1] == a + b[..|b| - 1];
      LiveUpdatesConcat(a, b[..|b| - 1]);
    }
  }
}
