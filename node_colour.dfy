/**
  `Dashboard._get_node_color`: the colour the dashboard draws a node in.

  The lookup `node_scores.get(node_id, 0)` falls back to the integer `0` for
  a node that has not reported; that value fails `isinstance(score, float)`,
  so a missing node is drawn gray, not red.  Reported scores are floats.
 */
module NodeColour {
  import opened Wrappers
  import opened ScoreTable

  datatype Colour = Green | Red | Orange | Gray

  /** `replication_targets or []`: no targets when the callback passed `None`. */
  function TargetList(targets: Option<seq<NodeId>>): seq<NodeId>
  {
    if targets.Some? then targets.value else []
  }

  function ColourOf(id: NodeId, scores: seq<Entry>, targets: Option<seq<NodeId>>): Colour
  {
    var score := Get(scores, id);
    if id in TargetList(targets) then Green
    else if score.Some? && score.value < 0.5 then Red
    else if score.Some? && score.value < 0.8 then Orange
    else Gray
  }

  /** How healthy a colour reads: red, then orange, then gray. */
  function Rank(c: Colour): nat
  {
    match c
    case Red => 0
    case Orange => 1
    case Gray => 2
    case Green => 3
  }

  /** A node is green exactly when it is a replication target, whatever its score. */
  lemma GreenIffTarget(id: NodeId, scores: seq<Entry>, targets: Option<seq<NodeId>>)
    ensures ColourOf(id, scores, targets) == Green <==> id in TargetList(targets)
  {
  }

  /** A node that has not reported and is no target is gray. */
  lemma MissingIsGray(id: NodeId, scores: seq<Entry>, targets: Option<seq<NodeId>>)
    requires id !in Ids(scores) && id !in TargetList(targets)
    ensures ColourOf(id, scores, targets) == Gray
  {
  }

  /** The bands below 0.5, below 0.8 and from 0.8 up, for a reported node that is no target. */
  lemma Bands(id: NodeId, scores: seq<Entry>, targets: Option<seq<NodeId>>)
    requires id in Ids(scores) && id !in TargetList(targets)
    ensures ColourOf(id, scores, targets) == Red <==> Get(scores, id).value < 0.5
    ensures ColourOf(id, scores, targets) == Orange <==> 0.5 <= Get(scores, id).value < 0.8
    ensures ColourOf(id, scores, targets) == Gray <==> 0.8 <= Get(scores, id).value
  {
  }

  /** Among non-targets, a higher score never reads less healthy. */
  lemma Monotone(a: NodeId, b: NodeId, scores: seq<Entry>, targets: Option<seq<NodeId>>)
    requires a in Ids(scores) && b in Ids(scores)
    requires a !in TargetList(targets) && b !in TargetList(targets)
    requires Get(scores, a).value <= Get(scores, b).value
    ensures Rank(ColourOf(a, scores, targets)) <= Rank(ColourOf(b, scores, targets))
  {
  }
}
