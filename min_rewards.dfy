/**
 * MinimumRewards.java: hand out rewards so that everyone gets at least one
 * and anyone rated above a neighbour gets more than that neighbour, with a
 * left-to-right and a right-to-left pass; the answer is the total.
 */
module Rewards {

  function Max(a: int, b: int): int {
    if a >= b then a else b
  }

  function Sum(s: seq<int>): int {
    if s == [] then 0 else Sum(s[..|s| - 1]) + s[|s| - 1]
  }

  /** Everyone gets at least one, and a higher rating than a neighbour means a larger reward than theirs. */
  ghost predicate Fair(ratings: seq<int>, a: seq<int>) {
    |a| == |ratings| &&
    (forall i :: 0 <= i < |a| ==> a[i] >= 1) &&
    (forall i :: 1 <= i < |a| && ratings[i] > ratings[i - 1] ==> a[i] > a[i - 1]) &&
    (forall i :: 0 <= i < |a| - 1 && ratings[i] > ratings[i + 1] ==> a[i] > a[i + 1])
  }

  /** The length of the strictly rising run of ratings that ends at i. */
  function Left(ratings: seq<int>, i: nat): (r: int)
    requires i < |ratings|
    ensures r >= 1
  {
    if i > 0 && ratings[i] > ratings[i - 1] then Left(ratings, i - 1) + 1 else 1
  }

  /** The length of the strictly falling run of ratings that starts at i. */
  function Right(ratings: seq<int>, i: nat): (r: int)
    requires i < |ratings|
    ensures r >= 1
    decreases |ratings| - i
  {
    if i + 1 < |ratings| && ratings[i] > ratings[i + 1] then Right(ratings, i + 1) + 1 else 1
  }

  /** The rewards the two passes hand out: the longer of the two runs through each position. */
  function Best(ratings: seq<int>): (a: seq<int>)
    ensures |a| == |ratings|
  {
    seq(|ratings|, i requires 0 <= i < |ratings| => Max(Left(ratings, i), Right(ratings, i)))
  }

  lemma BestFair(ratings: seq<int>)
    ensures Fair(ratings, Best(ratings))
  {
  }

  /** Any fair reward is at least the rising run ending at i. */
  lemma {:induction false} LeftBound(ratings: seq<int>, a: seq<int>, i: nat)
    requires Fair(ratings, a) && i < |ratings|
    ensures a[i] >= Left(ratings, i)
  {
    if i > 0 && ratings[i] > ratings[i - 1] {
      LeftBound(ratings, a, i - 1);
    }
  }

  /** Any fair reward is at least the falling run starting at i. */
  lemma {:induction false} RightBound(ratings: seq<int>, a: seq<int>, i: nat)
    requires Fair(ratings, a) && i < |ratings|
    ensures a[i] >= Right(ratings, i)
    decreases |ratings| - i
  {
    if i + 1 < |ratings| && ratings[i] > ratings[i + 1] {
      RightBound(ratings, a, i + 1);
    }
  }

  lemma {:induction false} SumMonotone(s: seq<int>, t: seq<int>)
    requires |s| == |t| && forall i :: 0 <= i < |s| ==> s[i] <= t[i]
    ensures Sum(s) <= Sum(t)
  {
    if s != [] {
      SumMonotone(s[..|s| - 1], t[..|t| - 1]);
    }
  }

  lemma {:induction false} SumAtLeastLength(s: seq<int>)
    requires forall i :: 0 <= i < |s| ==> s[i] >= 1
    ensures Sum(s) >= |s|
  {
    if s != [] {
      SumAtLeastLength(s[..|s| - 1]);
    }
  }

  /** No fair assignment hands out fewer rewards than the two passes. */
  lemma BestLeast(ratings: seq<int>, a: seq<int>)
    requires Fair(ratings, a)
    ensures Sum(Best(ratings)) <= Sum(a)
  {
    forall i | 0 <= i < |a| ensures Best(ratings)[i] <= a[i] {
      LeftBound(ratings, a, i);
      RightBound(ratings, a, i);
    }
    SumMonotone(Best(ratings), a);
  }

  /** The two passes give the least total of any fair assignment, itself fair and never below the number of people. */
  lemma BestIsLeast(ratings: seq<int>)
    ensures Fair(ratings, Best(ratings))
    ensures forall a :: Fair(ratings, a) ==> Sum(Best(ratings)) <= Sum(a)
    ensures Sum(Best(ratings)) >= |ratings|
  {
    BestFair(ratings);
    forall a | Fair(ratings, a) ensures Sum(Best(ratings)) <= Sum(a) {
      BestLeast(ratings, a);
    }
    SumAtLeastLength(Best(ratings));
  }

  /** The array after the starting ones and the two passes: the rewards of Best. */
  method Passes(ratings: seq<int>) returns (rewards: array<int>)
    requires |ratings| > 0
    ensures fresh(rewards) && rewards[..] == Best(ratings)
  {
    var n := |ratings|;
    rewards := new int[n];
    for i := 0 to n
      invariant forall j :: 0 <= j < i ==> rewards[j] == 1
    {
      rewards[i] := 1;
    }
    for i := 1 to n
      invariant forall j :: 0 <= j < i ==> rewards[j] == Left(ratings, j)
      invariant forall j :: i <= j < n ==> rewards[j] == 1
    {
      if ratings[i] > ratings[i - 1] {
        rewards[i] := rewards[i - 1] + 1;
      }
    }
    var i := n - 2;
    while i >= 0
      invariant -1 <= i <= n - 2
      invariant forall j :: 0 <= j <= i ==> rewards[j] == Left(ratings, j)
      invariant forall j :: i < j < n ==> rewards[j] == Max(Left(ratings, j), Right(ratings, j))
    {
      if ratings[i] > ratings[i + 1] {
        rewards[i] := Max(rewards[i], rewards[i + 1] + 1);
      }
      i := i - 1;
    }
    assert rewards[..] == Best(ratings);
  }

  /**
   * minRewards: the least total over all fair assignments (one of which
   * reaches it), which is never
   * below the number of people and is 0 for nobody.
   */
  method MinRewards(ratings: seq<int>) returns (minRewards: int)
    ensures minRewards == Sum(Best(ratings))
    ensures exists a :: Fair(ratings, a) && Sum(a) == minRewards
    ensures forall a :: Fair(ratings, a) ==> minRewards <= Sum(a)
    ensures minRewards >= |ratings|
  {
    var n := |ratings|;
    if n == 0 {
      BestIsLeast(ratings);
      assert Best(ratings) == [];
      return 0;
    }
    var rewards := Passes(ratings);
    minRewards := 0;
    for k := 0 to n
      invariant minRewards == Sum(rewards[..k])
    {
      assert rewards[..k + 1][..k] == rewards[..k];
      minRewards := minRewards + rewards[k];
    }
    assert rewards[..n] == rewards[..];
    BestIsLeast(ratings);
    assert Fair(ratings, Best(ratings)) && Sum(Best(ratings)) == minRewards;
  }

  /** Each prefix sum extends the previous one by the next element. */
  lemma SumOfPrefixes(s: seq<int>)
    ensures forall k :: 0 <= k < |s| ==> Sum(s[..k + 1]) == Sum(s[..k]) + s[k]
    ensures s[..|s|] == s
  {
    forall k | 0 <= k < |s| ensures Sum(s[..k + 1]) == Sum(s[..k]) + s[k] {
      assert s[..k + 1][..k] == s[..k];
    }
  }

  /** [1, 0, 2]: 2, 1, 2. */
  lemma SampleOne()
    ensures Sum(Best([1, 0, 2])) == 5
  {
    var r := [1, 0, 2];
    assert Left(r, 2) == 2 && Right(r, 0) == 2;
    assert Best(r) == [2, 1, 2];
    SumOfPrefixes([2, 1, 2]);
  }

  /** [1, 2, 2]: 1, 2, 1, as equal ratings need not be equal rewards. */
  lemma SampleTwo()
    ensures Sum(Best([1, 2, 2])) == 4
  {
    var r := [1, 2, 2];
    assert Left(r, 1) == 2;
    assert Best(r) == [1, 2, 1];
    SumOfPrefixes([1, 2, 1]);
  }

  /** [4, 3, 2, 1, 2, 3, 4]: 4, 3, 2, 1, 2, 3, 4. */
  lemma SampleThree()
    ensures Sum(Best([4, 3, 2, 1, 2, 3, 4])) == 19
  {
    var r := [4, 3, 2, 1, 2, 3, 4];
    assert Right(r, 0) == 4 && Right(r, 1) == 3 && Right(r, 2) == 2;
    assert Left(r, 6) == 4 && Left(r, 5) == 3 && Left(r, 4) == 2;
    assert Best(r) == [4, 3, 2, 1, 2, 3, 4];
    SumOfPrefixes([4, 3, 2, 1, 2, 3, 4]);
  }
}
