/**
 * CriticalTemperature.java: the least number of measurements that finds
 * the critical temperature among n levels with k samples in the worst
 * case, filled into a (k + 1) x (n + 1) table by dynamic programming.
 */
module Critical {

  /** Integer.MAX_VALUE, the starting value of each cell before the minimum is taken. */
  const INT_MAX := 0x7fff_ffff

  function Max(a: int, b: int): int {
    if a >= b then a else b
  }

  function Min(a: int, b: int): int {
    if a <= b then a else b
  }

  /**
   * The worst case with i samples and j levels.  One sample means trying
   * every level from the bottom; no levels need no measurement.  Row 0 is
   * never filled and keeps the table's default 0.
   */
  function Drops(i: nat, j: nat): (r: int)
    decreases i, j, j + 1
  {
    if j == 0 || i == 0 then 0
    else if i == 1 then j
    else MinUpTo(i, j, j)
  }

  /** Measuring first at level x: the sample reacts (x - 1 levels below, one sample fewer) or not (j - x levels above). */
  function Cost(i: nat, j: nat, x: nat): int
    requires 2 <= i && 1 <= x <= j
    decreases i, j, 0
  {
    1 + Max(Drops(i - 1, x - 1), Drops(i, j - x))
  }

  /** The least Cost over the first levels 1 .. m. */
  function MinUpTo(i: nat, j: nat, m: nat): int
    requires 2 <= i && 1 <= m <= j
    decreases i, j, m
  {
    if m == 1 then Cost(i, j, 1)
    else Min(MinUpTo(i, j, m - 1), Cost(i, j, m))
  }

  /** MinUpTo is the minimum: no Cost below it, and one Cost equal to it. */
  lemma {:induction false} MinUpToIsMin(i: nat, j: nat, m: nat)
    requires 2 <= i && 1 <= m <= j
    ensures forall x :: 1 <= x <= m ==> MinUpTo(i, j, m) <= Cost(i, j, x)
    ensures exists x :: 1 <= x <= m && MinUpTo(i, j, m) == Cost(i, j, x)
  {
    if m > 1 {
      MinUpToIsMin(i, j, m - 1);
      if MinUpTo(i, j, m - 1) <= Cost(i, j, m) {
        var x :| 1 <= x <= m - 1 && MinUpTo(i, j, m - 1) == Cost(i, j, x);
        assert MinUpTo(i, j, m) == Cost(i, j, x);
      } else {
        assert MinUpTo(i, j, m) == Cost(i, j, m);
      }
    } else {
      assert MinUpTo(i, j, m) == Cost(i, j, 1);
    }
  }

  /** Fewer than j + 1 measurements always suffice, and at least one is needed once there is a level. */
  lemma {:induction false} DropsBounds(i: nat, j: nat)
    requires i >= 1
    ensures 0 <= Drops(i, j) <= j
    ensures j >= 1 ==> 1 <= Drops(i, j)
    decreases i, j
  {
    if i >= 2 && j >= 1 {
      DropsBounds(i, j - 1);
      MinUpToIsMin(i, j, j);
      assert Drops(i, j) <= Cost(i, j, 1);
      var x :| 1 <= x <= j && Drops(i, j) == Cost(i, j, x);
      DropsBounds(i - 1, x - 1);
    }
  }

  /** findMinMeasurements; Java fails on new int[0 + 1][n + 1] with n >= 1, as dp[1] does not exist. */
  method FindMinMeasurements(k: nat, n: nat) returns (result: int)
    requires k >= 1 || n == 0
    requires k < INT_MAX && n < INT_MAX
    ensures result == Drops(k, n)
    ensures k >= 1 ==> 0 <= result <= n
  {
    var dp := new int[k + 1, n + 1]((_, _) => 0);
    for i := 1 to n + 1
      invariant forall a, b :: 0 <= a <= k && 0 <= b <= n ==>
        dp[a, b] == if a == 1 && 1 <= b < i then b else 0
    {
      dp[1, i] := i;
    }
    for i := 1 to k + 1
      invariant forall a, b :: 0 <= a <= k && 0 <= b <= n ==>
        dp[a, b] == if a == 1 && 1 <= b then b else 0
    {
      dp[i, 0] := 0;
    }
    var i := 2;
    while i <= k
      invariant 2 <= i <= Max(k + 1, 2)
      invariant forall a, b :: 0 <= a < i && a <= k && 0 <= b <= n ==> dp[a, b] == Drops(a, b)
      invariant forall a :: i <= a <= k ==> dp[a, 0] == 0
    {
      for j := 1 to n + 1
        invariant forall a, b :: 0 <= a < i && 0 <= b <= n ==> dp[a, b] == Drops(a, b)
        invariant forall a :: i <= a <= k ==> dp[a, 0] == 0
        invariant forall b :: 0 <= b < j ==> dp[i, b] == Drops(i, b)
      {
        dp[i, j] := INT_MAX;
        for x := 1 to j + 1
          invariant forall a, b :: 0 <= a < i && 0 <= b <= n ==> dp[a, b] == Drops(a, b)
          invariant forall a :: i <= a <= k ==> dp[a, 0] == 0
          invariant forall b :: 0 <= b < j ==> dp[i, b] == Drops(i, b)
          invariant x == 1 ==> dp[i, j] == INT_MAX
          invariant x > 1 ==> dp[i, j] == MinUpTo(i, j, x - 1)
        {
          if x == 1 {
            DropsBounds(i, j - 1);
          }
          var res := 1 + Max(dp[i - 1, x - 1], dp[i, j - x]);
          dp[i, j] := Min(dp[i, j], res);
        }
      }
      i := i + 1;
    }
    result := dp[k, n];
    if k >= 1 {
      DropsBounds(k, n);
    }
  }

  /** One sample, two levels: both are tried in turn. */
  lemma SampleOne()
    ensures Drops(1, 2) == 2
  {
  }

  /** Two samples, six levels: three measurements. */
  lemma SampleTwo()
    ensures Drops(2, 6) == 3
  {
  }

}
