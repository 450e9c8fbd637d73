/**
  The statistics that `Coordinator.report_metrics` derives from the
  coordinator's logs.  Each figure is printed only when its input list is
  non-empty; here an absent figure is `None`.
 */
module Metrics {
  import opened Wrappers

  /** Latency samples at or above this many seconds are dropped as clock skew or stale entries. */
  const LatencyCeiling: real := 10.0

  /** `sum(xs)`. */
  function Sum(xs: seq<real>): real
  {
    if xs == [] then 0.0 else Sum(xs[..|xs| - 1]) + xs[|xs| - 1]
  }

  /** `sum(xs) / len(xs)`, evaluated only when `xs` is non-empty (`if xs:`). */
  function Mean(xs: seq<real>): (r: Option<real>)
    ensures r.Some? <==> xs != []
    ensures r.Some? ==> r.value * (|xs| as real) == Sum(xs)
  {
    if xs == [] then None else Some(Sum(xs) / (|xs| as real))
  }

  /** The outcome of the throughput computation. */
  datatype Rate = NoData | Rate(value: real) | DivisionByZero

  /**
    `assignments_done / sum(execution_times)`, evaluated only when the list is
    non-empty.  The source does not guard a zero sum, which raises
    `ZeroDivisionError` in Python: that outcome is `DivisionByZero`.
   */
  function Throughput(assignmentsDone: nat, intervals: seq<real>): (r: Rate)
    ensures r.NoData? <==> intervals == []
    ensures r.DivisionByZero? <==> intervals != [] && Sum(intervals) == 0.0
    ensures r.Rate? ==> r.value * Sum(intervals) == assignmentsDone as real
  {
    if intervals == [] then NoData
    else if Sum(intervals) == 0.0 then DivisionByZero
    else Rate(assignmentsDone as real / Sum(intervals))
  }

  /** A sum of values all below `c` is below `|xs| * c`. */
  lemma {:induction false} SumBelow(xs: seq<real>, c: real)
    requires xs != []
    requires forall i :: 0 <= i < |xs| ==> xs[i] < c
    ensures Sum(xs) < (|xs| as real) * c
    decreases |xs|
  {
    var front := xs[..|xs| - 1];
    if front != [] {
      SumBelow(front, c);
    }
    assert (|xs| as real) * c == (|front| as real) * c + c;
  }

  /** A sum of positive values is positive. */
  lemma {:induction false} SumPositive(xs: seq<real>)
    requires xs != []
    requires forall i :: 0 <= i < |xs| ==> xs[i] > 0.0
    ensures Sum(xs) > 0.0
    decreases |xs|
  {
    var front := xs[..|xs| - 1];
    if front != [] {
      SumPositive(front);
    }
  }

  /** The mean of samples all below `c` is below `c`: the average latency respects the ceiling. */
  lemma MeanBelow(xs: seq<real>, c: real)
    requires forall i :: 0 <= i < |xs| ==> xs[i] < c
    ensures Mean(xs).Some? ==> Mean(xs).value < c
  {
    if xs != [] {
      SumBelow(xs, c);
      var n := |xs| as real;
      assert Mean(xs).value * n < c * n;
    }
  }

  /** With positive intervals the throughput is a real, positive rate whenever assignments happened. */
  lemma ThroughputDefined(assignmentsDone: nat, intervals: seq<real>)
    requires intervals != []
    requires forall i :: 0 <= i < |intervals| ==> intervals[i] > 0.0
    ensures Throughput(assignmentsDone, intervals).Rate?
    ensures assignmentsDone > 0 ==> Throughput(assignmentsDone, intervals).value > 0.0
  {
    SumPositive(intervals);
  }
}
