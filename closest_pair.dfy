/**
 * ClosestPair.java: the brute-force search for the two points, by index,
 * with the least Manhattan distance, ties going to the lexicographically
 * smallest pair of indices.
 */
module Closest {

  /** Integer.MAX_VALUE, the starting best distance. */
  const INT_MAX := 0x7fff_ffff

  function Abs(x: int): int {
    if x < 0 then -x else x
  }

  function Manhattan(xs: seq<int>, ys: seq<int>, i: int, j: int): int
    requires 0 <= i < |xs| && 0 <= j < |xs| && |xs| <= |ys|
  {
    Abs(xs[i] - xs[j]) + Abs(ys[i] - ys[j])
  }

  /** (i, j) comes before (a, b) in the order the nested loops visit pairs. */
  predicate Before(i: int, j: int, a: int, b: int) {
    i < a || (i == a && j < b)
  }

  /** An ordered pair of two distinct points. */
  predicate Pair(n: int, i: int, j: int) {
    0 <= i < n && 0 <= j < n && i != j
  }

  /** (a, b) has the least distance of all pairs, and is the first such pair in visiting order. */
  ghost predicate IsClosest(xs: seq<int>, ys: seq<int>, a: int, b: int)
    requires |xs| <= |ys|
  {
    Pair(|xs|, a, b) &&
    forall i, j :: Pair(|xs|, i, j) ==>
      Manhattan(xs, ys, a, b) <= Manhattan(xs, ys, i, j) &&
      (Manhattan(xs, ys, a, b) == Manhattan(xs, ys, i, j) ==> (i == a && j == b) || Before(a, b, i, j))
  }

  /** There is only one closest pair. */
  lemma ClosestUnique(xs: seq<int>, ys: seq<int>, a: int, b: int, c: int, d: int)
    requires |xs| <= |ys| && IsClosest(xs, ys, a, b) && IsClosest(xs, ys, c, d)
    ensures a == c && b == d
  {
    assert Manhattan(xs, ys, a, b) == Manhattan(xs, ys, c, d);
  }

  /** Some pair is closer than the starting best distance. */
  ghost predicate SomeBelowMax(xs: seq<int>, ys: seq<int>)
    requires |xs| <= |ys|
  {
    exists i, j :: Pair(|xs|, i, j) && Manhattan(xs, ys, i, j) < INT_MAX
  }

  /**
   * The scan state before pair (i, j): best is no larger than any pair
   * visited so far; below Integer.MAX_VALUE it is the distance of (a, b),
   * a visited pair that comes first among the visited pairs at that
   * distance; at Integer.MAX_VALUE (a, b) is still (0, 0).
   */
  ghost predicate Scanned(xs: seq<int>, ys: seq<int>, i: int, j: int, best: int, a: int, b: int)
    requires |xs| <= |ys|
  {
    best <= INT_MAX &&
    (forall i', j' :: Pair(|xs|, i', j') && Before(i', j', i, j) ==> best <= Manhattan(xs, ys, i', j')) &&
    (best < INT_MAX ==>
      Pair(|xs|, a, b) && Before(a, b, i, j) && best == Manhattan(xs, ys, a, b) &&
      forall i', j' :: Pair(|xs|, i', j') && Before(i', j', i, j) && Manhattan(xs, ys, i', j') == best ==>
        (i' == a && j' == b) || Before(a, b, i', j')) &&
    (best == INT_MAX ==> a == 0 && b == 0)
  }

  /** Passing over a pair that is the same point twice, or no closer than the best, keeps the state. */
  lemma ScanSkip(xs: seq<int>, ys: seq<int>, i: int, j: int, best: int, a: int, b: int)
    requires |xs| <= |ys| && 0 <= i < |xs| && 0 <= j < |xs| && Scanned(xs, ys, i, j, best, a, b)
    requires i != j ==>
      var d := Manhattan(xs, ys, i, j);
      !(d < best || (d == best && Before(i, j, a, b)))
    ensures Scanned(xs, ys, i, j + 1, best, a, b)
  {
  }

  /** Taking a strictly closer pair, or an equally close earlier one, keeps the state. */
  lemma ScanTake(xs: seq<int>, ys: seq<int>, i: int, j: int, best: int, a: int, b: int)
    requires |xs| <= |ys| && 0 <= i < |xs| && 0 <= j < |xs| && i != j && Scanned(xs, ys, i, j, best, a, b)
    requires var d := Manhattan(xs, ys, i, j); d < best || (d == best && Before(i, j, a, b))
    ensures Scanned(xs, ys, i, j + 1, Manhattan(xs, ys, i, j), i, j)
  {
  }

  /** After the last pair of row i comes the first pair of row i + 1. */
  lemma ScanRow(xs: seq<int>, ys: seq<int>, i: int, best: int, a: int, b: int)
    requires |xs| <= |ys| && Scanned(xs, ys, i, |xs|, best, a, b)
    ensures Scanned(xs, ys, i + 1, 0, best, a, b)
  {
    forall i', j' | Pair(|xs|, i', j') ensures Before(i', j', i, |xs|) == Before(i', j', i + 1, 0) {
    }
  }

  /** Once every pair is visited, the state has the closest pair, or (0, 0) when no pair is below Integer.MAX_VALUE. */
  lemma ScanDone(xs: seq<int>, ys: seq<int>, best: int, a: int, b: int)
    requires |xs| <= |ys| && Scanned(xs, ys, |xs|, 0, best, a, b)
    ensures SomeBelowMax(xs, ys) ==> IsClosest(xs, ys, a, b)
    ensures !SomeBelowMax(xs, ys) ==> a == 0 && b == 0
  {
    if SomeBelowMax(xs, ys) {
      var i, j :| Pair(|xs|, i, j) && Manhattan(xs, ys, i, j) < INT_MAX;
      assert Before(i, j, |xs|, 0);
    }
  }

  /**
   * findClosestPair.  When any pair is closer than Integer.MAX_VALUE the
   * result is the closest pair; otherwise, in particular with fewer than
   * two points, it stays [0, 0].
   */
  method FindClosestPair(xCoords: seq<int>, yCoords: seq<int>) returns (result: array<int>)
    requires |xCoords| <= |yCoords|
    ensures result.Length == 2
    ensures SomeBelowMax(xCoords, yCoords) ==> IsClosest(xCoords, yCoords, result[0], result[1])
    ensures !SomeBelowMax(xCoords, yCoords) ==> result[0] == 0 && result[1] == 0
    ensures |xCoords| < 2 ==> result[0] == 0 && result[1] == 0
    ensures |xCoords| >= 2 && SomeBelowMax(xCoords, yCoords) ==> result[0] != result[1]
  {
    var n := |xCoords|;
    var minDistance := INT_MAX;
    result := new int[2](_ => 0);
    for i := 0 to n
      invariant result.Length == 2
      invariant Scanned(xCoords, yCoords, i, 0, minDistance, result[0], result[1])
    {
      for j := 0 to n
        invariant Scanned(xCoords, yCoords, i, j, minDistance, result[0], result[1])
      {
        if i == j {
          ScanSkip(xCoords, yCoords, i, j, minDistance, result[0], result[1]);
          continue;
        }
        var distance := Manhattan(xCoords, yCoords, i, j);
        if distance < minDistance || (distance == minDistance && (i < result[0] || (i == result[0] && j < result[1]))) {
          ScanTake(xCoords, yCoords, i, j, minDistance, result[0], result[1]);
          minDistance := distance;
          result[0] := i;
          result[1] := j;
        } else {
          ScanSkip(xCoords, yCoords, i, j, minDistance, result[0], result[1]);
        }
      }
      ScanRow(xCoords, yCoords, i, minDistance, result[0], result[1]);
    }
    ScanDone(xCoords, yCoords, minDistance, result[0], result[1]);
  }

  /** [1, 2, 3, 2, 4], [2, 3, 1, 2, 3]: points 0 and 3 are one apart, as are 1 and 3, and (0, 3) comes first. */
  lemma SampleOne(a: int, b: int)
    requires IsClosest([1, 2, 3, 2, 4], [2, 3, 1, 2, 3], a, b)
    ensures a == 0 && b == 3
  {
    var xs, ys := [1, 2, 3, 2, 4], [2, 3, 1, 2, 3];
    assert Pair(5, 0, 3) && Manhattan(xs, ys, 0, 3) == 1;
    assert IsClosest(xs, ys, 0, 3);
    ClosestUnique(xs, ys, a, b, 0, 3);
  }

  /** Five points one apart on a vertical line: (0, 1) is the first pair at distance 1. */
  lemma SampleTwo(a: int, b: int)
    requires IsClosest([1, 1, 1, 1, 1], [1, 2, 3, 4, 5], a, b)
    ensures a == 0 && b == 1
  {
    var xs, ys := [1, 1, 1, 1, 1], [1, 2, 3, 4, 5];
    assert IsClosest(xs, ys, 0, 1);
    ClosestUnique(xs, ys, a, b, 0, 1);
  }

  /** Three points on a diagonal, 20 apart from each neighbour: (0, 1) is the first closest pair. */
  lemma SampleThree(a: int, b: int)
    requires IsClosest([0, 10, 20], [0, 10, 20], a, b)
    ensures a == 0 && b == 1
  {
    var xs, ys := [0, 10, 20], [0, 10, 20];
    assert IsClosest(xs, ys, 0, 1);
    ClosestUnique(xs, ys, a, b, 0, 1);
  }
}
