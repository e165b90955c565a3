/**
 * The selection step of NetworkOptimizer.apply_hybrid_optimization: the
 * candidate spanning trees, each with its total cost and average latency,
 * are filtered down to the Pareto front (the solutions no other solution
 * dominates), and the front member with the lowest equal-weight blend of
 * cost and latency, each normalised by its maximum over the front, is
 * returned.
 */
module Hybrid {
  import opened PyOptimizer
  import SpanningTrees

  datatype Solution = Solution(tree: seq<TreeEdge>, cost: real, latency: real)

  /** a is no worse than b on either objective and better on one. */
  predicate Dominates(a: Solution, b: Solution) {
    a.cost <= b.cost && a.latency <= b.latency && (a.cost < b.cost || a.latency < b.latency)
  }

  /** Some other solution in the list dominates solution i. */
  ghost predicate Dominated(sols: seq<Solution>, i: int)
    requires 0 <= i < |sols|
  {
    exists j :: 0 <= j < |sols| && i != j && Dominates(sols[j], sols[i])
  }

  /** The non-dominated solutions among the first k, in their order. */
  ghost function Front(sols: seq<Solution>, k: nat): seq<Solution>
    requires k <= |sols|
  {
    if k == 0 then []
    else Front(sols, k - 1) + (if Dominated(sols, k - 1) then [] else [sols[k - 1]])
  }

  /** The inner loop: i is dominated when some j other than i dominates it; the scan stops at the first. */
  method IsDominated(sols: seq<Solution>, i: int) returns (dominated: bool)
    requires 0 <= i < |sols|
    ensures dominated <==> Dominated(sols, i)
  {
    dominated := false;
    var j := 0;
    while j < |sols|
      invariant 0 <= j <= |sols|
      invariant forall k :: 0 <= k < j && k != i ==> !Dominates(sols[k], sols[i])
    {
      if i != j && Dominates(sols[j], sols[i]) {
        dominated := true;
        break;
      }
      j := j + 1;
    }
  }

  /** The outer loop: the Pareto front, in the order of the solutions. */
  method ParetoFront(sols: seq<Solution>) returns (front: seq<Solution>)
    ensures front == Front(sols, |sols|)
  {
    front := [];
    for i := 0 to |sols|
      invariant front == Front(sols, i)
    {
      var dominated := IsDominated(sols, i);
      if !dominated {
        front := front + [sols[i]];
      }
    }
  }

  /** A solution is on the front exactly when it is one of the solutions that nothing dominates. */
  lemma {:induction false} FrontMembers(sols: seq<Solution>, k: nat, x: Solution)
    requires k <= |sols|
    ensures x in Front(sols, k) <==> exists i :: 0 <= i < k && sols[i] == x && !Dominated(sols, i)
  {
    if k > 0 {
      FrontMembers(sols, k - 1, x);
      if !Dominated(sols, k - 1) && sols[k - 1] == x {
        assert x in Front(sols, k);
      }
    }
  }

  lemma DominatesTransitive(a: Solution, b: Solution, c: Solution)
    requires Dominates(a, b) && Dominates(b, c)
    ensures Dominates(a, c)
  {
  }

  /** The solutions that dominate solution i. */
  ghost function Dominators(sols: seq<Solution>, i: int): set<int>
    requires 0 <= i < |sols|
  {
    set j | 0 <= j < |sols| && Dominates(sols[j], sols[i])
  }

  /**
   * Every solution is on the front or dominated by a solution on the
   * front: climbing to a dominator always leaves fewer dominators.
   */
  lemma {:induction false} FrontCovers(sols: seq<Solution>, i: int)
    requires 0 <= i < |sols|
    ensures exists j :: 0 <= j < |sols| && !Dominated(sols, j) && (j == i || Dominates(sols[j], sols[i]))
    decreases |Dominators(sols, i)|
  {
    if Dominated(sols, i) {
      var j :| 0 <= j < |sols| && i != j && Dominates(sols[j], sols[i]);
      forall k | k in Dominators(sols, j) ensures k in Dominators(sols, i) {
        DominatesTransitive(sols[k], sols[j], sols[i]);
      }
      assert j in Dominators(sols, i) - Dominators(sols, j);
      SubsetSize(Dominators(sols, j), Dominators(sols, i) - {j});
      FrontCovers(sols, j);
      var m :| 0 <= m < |sols| && !Dominated(sols, m) && (m == j || Dominates(sols[m], sols[j]));
      if m != j {
        DominatesTransitive(sols[m], sols[j], sols[i]);
      }
    }
  }

  /** Some solution survives whenever there are solutions at all. */
  lemma FrontNonEmpty(sols: seq<Solution>)
    requires sols != []
    ensures Front(sols, |sols|) != []
  {
    FrontCovers(sols, 0);
    var j :| 0 <= j < |sols| && !Dominated(sols, j);
    FrontMembers(sols, |sols|, sols[j]);
  }

  /** No solution on the front dominates another one on it. */
  lemma FrontIncomparable(sols: seq<Solution>, a: Solution, b: Solution)
    requires a in Front(sols, |sols|) && b in Front(sols, |sols|)
    ensures !Dominates(a, b)
  {
    FrontMembers(sols, |sols|, a);
    FrontMembers(sols, |sols|, b);
    var i :| 0 <= i < |sols| && sols[i] == a && !Dominated(sols, i);
    var j :| 0 <= j < |sols| && sols[j] == b && !Dominated(sols, j);
  }

  function Costs(front: seq<Solution>): (r: seq<real>)
    ensures |r| == |front| && forall i :: 0 <= i < |front| ==> r[i] == front[i].cost
  {
    seq(|front|, i requires 0 <= i < |front| => front[i].cost)
  }

  function Latencies(front: seq<Solution>): (r: seq<real>)
    ensures |r| == |front| && forall i :: 0 <= i < |front| ==> r[i] == front[i].latency
  {
    seq(|front|, i requires 0 <= i < |front| => front[i].latency)
  }

  /** x over its maximum, or 0 when the maximum is not positive. */
  function Normalized(x: real, max: real): real {
    if max > 0.0 then x / max else 0.0
  }

  /** The balance score of front member i: half its normalised cost plus half its normalised latency. */
  function Score(front: seq<Solution>, i: int): real
    requires 0 <= i < |front|
  {
    0.5 * Normalized(front[i].cost, SpanningTrees.MaxOf(Costs(front))) +
    0.5 * Normalized(front[i].latency, SpanningTrees.MaxOf(Latencies(front)))
  }

  /** Both objectives non-negative. */
  predicate NonNegative(front: seq<Solution>) {
    forall i :: 0 <= i < |front| ==> front[i].cost >= 0.0 && front[i].latency >= 0.0
  }

  lemma NormalizedRange(x: real, max: real)
    requires 0.0 <= x <= max
    ensures 0.0 <= Normalized(x, max) <= 1.0
  {
    if max > 0.0 {
      Ratio(x, max);
    }
  }

  /** With non-negative objectives every score lies between 0 and 1. */
  lemma ScoreRange(front: seq<Solution>, i: int)
    requires 0 <= i < |front| && NonNegative(front)
    ensures 0.0 <= Score(front, i) <= 1.0
  {
    var costs, latencies := Costs(front), Latencies(front);
    assert costs[i] == front[i].cost && latencies[i] == front[i].latency;
    NormalizedRange(front[i].cost, SpanningTrees.MaxOf(costs));
    NormalizedRange(front[i].latency, SpanningTrees.MaxOf(latencies));
  }

  lemma NormalizedMonotone(x: real, y: real, max: real)
    requires x <= y
    ensures Normalized(x, max) <= Normalized(y, max)
  {
    if max > 0.0 {
      DivMonotone(x, y, max);
    }
  }

  /** A member no worse on both objectives scores no worse. */
  lemma ScoreMonotone(front: seq<Solution>, i: int, j: int)
    requires 0 <= i < |front| && 0 <= j < |front|
    requires front[i].cost <= front[j].cost && front[i].latency <= front[j].latency
    ensures Score(front, i) <= Score(front, j)
  {
    var mc, ml := SpanningTrees.MaxOf(Costs(front)), SpanningTrees.MaxOf(Latencies(front));
    NormalizedMonotone(front[i].cost, front[j].cost, mc);
    NormalizedMonotone(front[i].latency, front[j].latency, ml);
  }

  /**
   * The selection loop: a strictly lower score replaces the best so far,
   * so the first member of least score is chosen; an empty front gives
   * None.
   */
  method BestBalance(front: seq<Solution>) returns (best: Option<seq<TreeEdge>>, ghost chosen: int)
    ensures best.None? <==> front == []
    ensures best.Some? ==>
      0 <= chosen < |front| && best.value == front[chosen].tree &&
      (forall k :: 0 <= k < |front| ==> Score(front, chosen) <= Score(front, k)) &&
      (forall k :: 0 <= k < chosen ==> Score(front, chosen) < Score(front, k))
  {
    best := None;
    var bestScore := Inf;
    chosen := -1;
    for i := 0 to |front|
      invariant best.None? <==> i == 0
      invariant best.None? ==> bestScore == Inf
      invariant best.Some? ==>
        0 <= chosen < i && best.value == front[chosen].tree && bestScore == Fin(Score(front, chosen)) &&
        (forall k :: 0 <= k < i ==> Score(front, chosen) <= Score(front, k)) &&
        (forall k :: 0 <= k < chosen ==> Score(front, chosen) < Score(front, k))
    {
      var maxCost := SpanningTrees.MaxOf(Costs(front));
      var maxLatency := SpanningTrees.MaxOf(Latencies(front));
      var normCost := if maxCost > 0.0 then front[i].cost / maxCost else 0.0;
      var normLatency := if maxLatency > 0.0 then front[i].latency / maxLatency else 0.0;
      var score := 0.5 * normCost + 0.5 * normLatency;
      if ExtLt(Fin(score), bestScore) {
        bestScore := Fin(score);
        best := Some(front[i].tree);
        chosen := i;
      }
    }
  }

  /**
   * The selection of apply_hybrid_optimization over the solutions it
   * computed: a tree is returned whenever there is a solution; it is the
   * tree of a solution nothing dominates, and of the front member with
   * the least balance score, the earliest among ties.
   */
  method SelectSolution(sols: seq<Solution>) returns (best: Option<seq<TreeEdge>>)
    ensures best.None? <==> sols == []
    ensures best.Some? ==> exists i :: 0 <= i < |sols| && !Dominated(sols, i) && best.value == sols[i].tree
    ensures best.Some? ==>
      var front := Front(sols, |sols|);
      exists c :: 0 <= c < |front| && best.value == front[c].tree &&
        (forall k :: 0 <= k < |front| ==> Score(front, c) <= Score(front, k)) &&
        (forall k :: 0 <= k < c ==> Score(front, c) < Score(front, k))
  {
    var front := ParetoFront(sols);
    ghost var chosen;
    best, chosen := BestBalance(front);
    if sols != [] {
      FrontNonEmpty(sols);
    }
    if best.Some? {
      FrontMembers(sols, |sols|, front[chosen]);
    }
  }
}
