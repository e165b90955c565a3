/**
 * The k-th smallest product of KthSmallestInvestment.java: a binary search
 * over the range of products, steered by the number of pairs whose product
 * is at most the midpoint.  Products are 64-bit in the source and never
 * overflow there; the answer is cast back to a 32-bit int.
 */
module KthSmallest {

  function Min(a: int, b: int): int {
    if a <= b then a else b
  }

  function Max(a: int, b: int): int {
    if a >= b then a else b
  }

  /** The (int) cast of a long: the low 32 bits, read as two's complement. */
  function Wrap32(x: int): (r: int)
    ensures -0x8000_0000 <= r < 0x8000_0000
    ensures -0x8000_0000 <= x < 0x8000_0000 ==> r == x
  {
    (x + 0x8000_0000) % 0x1_0000_0000 - 0x8000_0000
  }

  predicate Ascending(s: seq<int>) {
    forall i, j :: 0 <= i < j < |s| ==> s[i] <= s[j]
  }

  predicate NonNegative(s: seq<int>) {
    forall i :: 0 <= i < |s| ==> s[i] >= 0
  }

  // ---------------------------------------------------------------------
  // The number of pairs with a product at most mid
  // ---------------------------------------------------------------------

  /** The positions j with a * b[j] <= mid. */
  ghost function RowAtMost(a: int, b: seq<int>, mid: int): (c: nat)
    ensures c <= |b|
  {
    if b == [] then 0
    else RowAtMost(a, b[..|b| - 1], mid) + (if a * b[|b| - 1] <= mid then 1 else 0)
  }

  /** The pairs (i, j) with r1[i] * r2[j] <= mid. */
  ghost function PairsAtMost(r1: seq<int>, r2: seq<int>, mid: int): (c: nat)
    ensures c <= |r1| * |r2|
  {
    if r1 == [] then 0
    else PairsAtMost(r1[..|r1| - 1], r2, mid) + RowAtMost(r1[|r1| - 1], r2, mid)
  }

  /** Products at most mid in the first p positions only: the row count is p. */
  lemma {:induction false} RowPrefix(a: int, b: seq<int>, mid: int, p: int)
    requires 0 <= p <= |b|
    requires forall j :: 0 <= j < p ==> a * b[j] <= mid
    requires forall j :: p <= j < |b| ==> a * b[j] > mid
    ensures RowAtMost(a, b, mid) == p
  {
    if b != [] {
      var n := |b|;
      if p == n {
        RowPrefix(a, b[..n - 1], mid, p - 1);
      } else {
        RowPrefix(a, b[..n - 1], mid, p);
      }
    }
  }

  /** Products at most mid from position p on only: the row count is |b| - p. */
  lemma {:induction false} RowSuffix(a: int, b: seq<int>, mid: int, p: int)
    requires 0 <= p <= |b|
    requires forall j :: 0 <= j < p ==> a * b[j] > mid
    requires forall j :: p <= j < |b| ==> a * b[j] <= mid
    ensures RowAtMost(a, b, mid) == |b| - p
  {
    if b != [] {
      var n := |b|;
      if p == n {
        RowSuffix(a, b[..n - 1], mid, p - 1);
      } else {
        RowSuffix(a, b[..n - 1], mid, p);
      }
    }
  }

  lemma {:induction false} RowMonotone(a: int, b: seq<int>, v: int, w: int)
    requires v <= w
    ensures RowAtMost(a, b, v) <= RowAtMost(a, b, w)
  {
    if b != [] {
      RowMonotone(a, b[..|b| - 1], v, w);
    }
  }

  /** A larger bound covers at least as many pairs. */
  lemma {:induction false} PairsMonotone(r1: seq<int>, r2: seq<int>, v: int, w: int)
    requires v <= w
    ensures PairsAtMost(r1, r2, v) <= PairsAtMost(r1, r2, w)
  {
    if r1 != [] {
      PairsMonotone(r1[..|r1| - 1], r2, v, w);
      RowMonotone(r1[|r1| - 1], r2, v, w);
    }
  }

  /** v is a k-th smallest product: at least k products are at most v, fewer than k below it. */
  ghost predicate IsKth(r1: seq<int>, r2: seq<int>, k: int, v: int) {
    PairsAtMost(r1, r2, v) >= k && PairsAtMost(r1, r2, v - 1) < k
  }

  /** There is only one k-th smallest product. */
  lemma KthUnique(r1: seq<int>, r2: seq<int>, k: int, v: int, w: int)
    requires IsKth(r1, r2, k, v) && IsKth(r1, r2, k, w)
    ensures v == w
  {
    if v < w {
      PairsMonotone(r1, r2, v, w - 1);
    } else if w < v {
      PairsMonotone(r1, r2, w, v - 1);
    }
  }

  lemma {:induction false} RowHit(a: int, b: seq<int>, v: int)
    requires RowAtMost(a, b, v) > RowAtMost(a, b, v - 1)
    ensures exists j :: 0 <= j < |b| && a * b[j] == v
  {
    var n := |b|;
    if a * b[n - 1] == v {
      assert 0 <= n - 1 < |b| && a * b[n - 1] == v;
    } else {
      RowHit(a, b[..n - 1], v);
      var j :| 0 <= j < n - 1 && a * b[..n - 1][j] == v;
      assert a * b[j] == v;
    }
  }

  /** The k-th smallest product is the product of some pair. */
  lemma {:induction false} KthIsProduct(r1: seq<int>, r2: seq<int>, k: int, v: int)
    requires IsKth(r1, r2, k, v)
    ensures exists i, j :: 0 <= i < |r1| && 0 <= j < |r2| && r1[i] * r2[j] == v
    decreases |r1|
  {
    var m := |r1|;
    var front, last := r1[..m - 1], r1[m - 1];
    if RowAtMost(last, r2, v) > RowAtMost(last, r2, v - 1) {
      RowHit(last, r2, v);
      var j :| 0 <= j < |r2| && last * r2[j] == v;
      assert r1[m - 1] * r2[j] == v;
    } else {
      var k' := k - RowAtMost(last, r2, v - 1);
      assert IsKth(front, r2, k', v);
      KthIsProduct(front, r2, k', v);
      var i, j :| 0 <= i < |front| && 0 <= j < |r2| && front[i] * r2[j] == v;
      assert r1[i] * r2[j] == v;
    }
  }

  // ---------------------------------------------------------------------
  // countPairs as written: one pointer shared by all rows
  // ---------------------------------------------------------------------

  /** The inner loop of countPairs: j moves left while the product at j exceeds mid. */
  ghost function Drop(a: int, b: seq<int>, mid: int, j: int): (j': int)
    requires -1 <= j < |b|
    ensures -1 <= j' <= j
    decreases j + 1
  {
    if j >= 0 && a * b[j] > mid then Drop(a, b, mid, j - 1) else j
  }

  /** The pointer and the count after the rows of r1, the pointer starting at the last column. */
  ghost function Scan(r1: seq<int>, r2: seq<int>, mid: int): (s: (int, int))
    ensures -1 <= s.0 < |r2| && 0 <= s.1 <= |r1| * |r2|
  {
    if r1 == [] then (|r2| - 1, 0)
    else
      var (j, count) := Scan(r1[..|r1| - 1], r2, mid);
      var j' := Drop(r1[|r1| - 1], r2, mid, j);
      (j', count + j' + 1)
  }

  lemma MulMonotone(a: int, x: int, y: int)
    requires a >= 0 && x <= y
    ensures a * x <= a * y
  {
  }

  lemma MulSucc(k: int, n: int)
    ensures k * n + n == (k + 1) * n
  {
  }

  lemma MulAntitone(a: int, x: int, y: int)
    requires a <= 0 && x <= y
    ensures a * x >= a * y
  {
  }

  /** Everything right of where Drop stops has a product above mid; everything up to it, at most mid. */
  lemma {:induction false} DropSplit(a: int, b: seq<int>, mid: int, j: int)
    requires -1 <= j < |b| && a >= 0 && Ascending(b)
    requires forall j' :: j < j' < |b| ==> a * b[j'] > mid
    ensures var d := Drop(a, b, mid, j);
      (forall j' :: d < j' < |b| ==> a * b[j'] > mid) && (forall j' :: 0 <= j' <= d ==> a * b[j'] <= mid)
    decreases j + 1
  {
    if j >= 0 && a * b[j] > mid {
      DropSplit(a, b, mid, j - 1);
    } else if j >= 0 {
      forall j' | 0 <= j' <= j ensures a * b[j'] <= mid {
        MulMonotone(a, b[j'], b[j]);
      }
    }
  }

  /**
   * For ascending, non-negative rows the shared pointer is right: the
   * count is the number of pairs with a product at most mid.
   */
  lemma {:induction false} ScanCounts(r1: seq<int>, r2: seq<int>, mid: int)
    requires Ascending(r1) && Ascending(r2) && NonNegative(r1) && NonNegative(r2)
    ensures Scan(r1, r2, mid).1 == PairsAtMost(r1, r2, mid)
    ensures r1 != [] ==> forall j :: Scan(r1, r2, mid).0 < j < |r2| ==> r1[|r1| - 1] * r2[j] > mid
  {
    if r1 != [] {
      var m := |r1|;
      var front, a := r1[..m - 1], r1[m - 1];
      ScanCounts(front, r2, mid);
      var (j, count) := Scan(front, r2, mid);
      forall j' | j < j' < |r2| ensures a * r2[j'] > mid {
        if front != [] {
          MulMonotone(r2[j'], front[|front| - 1], a);
        }
      }
      DropSplit(a, r2, mid, j);
      var d := Drop(a, r2, mid, j);
      RowPrefix(a, r2, mid, d + 1);
    }
  }

  /**
   * A negative value b in returns2 makes a * b fall as a rises along
   * returns1, so a column the pointer dropped for an earlier row can
   * qualify for a later one: ([1, 3], [-2]) has one product at most -3
   * (3 * -2), but 1 * -2 already moved the pointer past it.
   */
  lemma ScanMissesNegative()
    ensures Scan([1, 3], [-2], -3).1 == 0
    ensures PairsAtMost([1, 3], [-2], -3) == 1
  {
    assert [1, 3][..1] == [1];
    assert [1][..0] == [];
    assert [-2][..0] == [];
  }

  /**
   * A negative value a in returns1 makes its row's products fall along
   * returns2, so the products at most mid form a suffix of the row, not the
   * prefix j + 1 counts: ([-4, -2, 0, 3], [2, 4]) has one product at most
   * -10 (-4 * 4), but the scan counts -4 * 2 = -8 as well.
   */
  lemma ScanOvercountsNegative()
    ensures Scan([-4, -2, 0, 3], [2, 4], -10).1 == 2
    ensures PairsAtMost([-4, -2, 0, 3], [2, 4], -10) == 1
  {
    assert [-4, -2, 0, 3][..3] == [-4, -2, 0];
    assert [-4, -2, 0][..2] == [-4, -2];
    assert [-4, -2][..1] == [-4];
    assert [-4][..0] == [];
    assert [2, 4][..1] == [2];
    assert [2][..0] == [];
  }

  /** countPairs as written. */
  method CountPairsAsWritten(returns1: seq<int>, returns2: seq<int>, mid: int) returns (count: int)
    ensures count == Scan(returns1, returns2, mid).1
    ensures 0 <= count <= |returns1| * |returns2|
    ensures Ascending(returns1) && Ascending(returns2) && NonNegative(returns1) && NonNegative(returns2) ==>
      count == PairsAtMost(returns1, returns2, mid)
  {
    count := 0;
    var m, n := |returns1|, |returns2|;
    var j := n - 1;
    for i := 0 to m
      invariant (j, count) == Scan(returns1[..i], returns2, mid)
    {
      assert returns1[..i + 1][..i] == returns1[..i];
      ghost var start := j;
      while j >= 0 && returns1[i] * returns2[j] > mid
        invariant -1 <= j <= start
        invariant Drop(returns1[i], returns2, mid, j) == Drop(returns1[i], returns2, mid, start)
      {
        j := j - 1;
      }
      count := count + (j + 1);
    }
    assert returns1[..m] == returns1;
    if Ascending(returns1) && Ascending(returns2) && NonNegative(returns1) && NonNegative(returns2) {
      ScanCounts(returns1, returns2, mid);
    }
  }

  // ---------------------------------------------------------------------
  // countPairs as intended: each row counted from the end where its products are small
  // ---------------------------------------------------------------------

  /**
   * The pairs of one row with a product at most mid.  For a >= 0 the
   * products ascend with j and the count is a prefix; for a < 0 they
   * descend and it is a suffix.
   */
  method CountRow(a: int, b: seq<int>, mid: int) returns (c: int)
    ensures 0 <= c <= |b|
    ensures Ascending(b) ==> c == RowAtMost(a, b, mid)
  {
    if a >= 0 {
      var j := |b| - 1;
      while j >= 0 && a * b[j] > mid
        invariant -1 <= j < |b|
        invariant forall j' :: j < j' < |b| ==> a * b[j'] > mid
      {
        j := j - 1;
      }
      if Ascending(b) {
        forall j' | 0 <= j' <= j ensures a * b[j'] <= mid {
          MulMonotone(a, b[j'], b[j]);
        }
        RowPrefix(a, b, mid, j + 1);
      }
      c := j + 1;
    } else {
      var j := 0;
      while j < |b| && a * b[j] > mid
        invariant 0 <= j <= |b|
        invariant forall j' :: 0 <= j' < j ==> a * b[j'] > mid
      {
        j := j + 1;
      }
      if Ascending(b) {
        forall j' | j <= j' < |b| ensures a * b[j'] <= mid {
          MulAntitone(a, b[j], b[j']);
        }
        RowSuffix(a, b, mid, j);
      }
      c := |b| - j;
    }
  }

  /** The number of pairs with a product at most mid, for any ascending second array. */
  method CountPairs(returns1: seq<int>, returns2: seq<int>, mid: int) returns (count: int)
    ensures 0 <= count <= |returns1| * |returns2|
    ensures Ascending(returns2) ==> count == PairsAtMost(returns1, returns2, mid)
  {
    count := 0;
    for i := 0 to |returns1|
      invariant 0 <= count <= i * |returns2|
      invariant Ascending(returns2) ==> count == PairsAtMost(returns1[..i], returns2, mid)
    {
      assert returns1[..i + 1][..i] == returns1[..i];
      var c := CountRow(returns1[i], returns2, mid);
      count := count + c;
    }
    assert returns1[..|returns1|] == returns1;
  }

  // ---------------------------------------------------------------------
  // The search
  // ---------------------------------------------------------------------

  /** The least of the four corner products. */
  function Low(r1: seq<int>, r2: seq<int>): int
    requires |r1| > 0 && |r2| > 0
  {
    var a0, a1, b0, b1 := r1[0], r1[|r1| - 1], r2[0], r2[|r2| - 1];
    Min(Min(a0 * b0, a0 * b1), Min(a1 * b0, a1 * b1))
  }

  /** The greatest of the four corner products. */
  function High(r1: seq<int>, r2: seq<int>): int
    requires |r1| > 0 && |r2| > 0
  {
    var a0, a1, b0, b1 := r1[0], r1[|r1| - 1], r2[0], r2[|r2| - 1];
    Max(Max(a1 * b1, a0 * b1), Max(a1 * b0, a0 * b0))
  }

  /** The lower end of the search range as written: three corners, r1[m-1] * r2[n-1] left out. */
  function LowAsWritten(r1: seq<int>, r2: seq<int>): int
    requires |r1| > 0 && |r2| > 0
  {
    var a0, a1, b0, b1 := r1[0], r1[|r1| - 1], r2[0], r2[|r2| - 1];
    Min(Min(a0 * b0, a0 * b1), a1 * b0)
  }

  /** The upper end of the search range as written: three corners, r1[0] * r2[0] left out. */
  function HighAsWritten(r1: seq<int>, r2: seq<int>): int
    requires |r1| > 0 && |r2| > 0
  {
    var a0, a1, b0, b1 := r1[0], r1[|r1| - 1], r2[0], r2[|r2| - 1];
    Max(Max(a1 * b1, a0 * b1), a1 * b0)
  }

  /**
   * When both arrays are negative the smallest product is the last corner,
   * which the range as written leaves out: for ([-2, -1], [-2, -1]) it starts
   * at 2 while the smallest product, the answer for k = 1, is 1.
   */
  lemma RangeMissesCorner()
    ensures LowAsWritten([-2, -1], [-2, -1]) == 2
    ensures HighAsWritten([-2, -1], [-2, -1]) == 2
    ensures IsKth([-2, -1], [-2, -1], 1, 1)
  {
    var r := [-2, -1];
    assert r[..1] == [-2] && [-2][..0] == [];
    assert RowAtMost(-2, r, 0) == 0 && RowAtMost(-1, r, 0) == 0;
    assert RowAtMost(-2, r, 1) == 0 && RowAtMost(-1, r, 1) == 1;
  }

  /** x * c lies between x0 * c and x1 * c when x lies between x0 and x1. */
  lemma Between(x: int, x0: int, x1: int, c: int)
    requires x0 <= x <= x1
    ensures Min(x0 * c, x1 * c) <= x * c <= Max(x0 * c, x1 * c)
  {
    if c >= 0 {
      MulMonotone(c, x0, x);
      MulMonotone(c, x, x1);
    } else {
      MulAntitone(c, x0, x);
      MulAntitone(c, x, x1);
    }
  }

  /** For ascending arrays every product lies between the least and the greatest corner product. */
  lemma ProductsInRange(r1: seq<int>, r2: seq<int>, i: int, j: int)
    requires Ascending(r1) && Ascending(r2) && 0 <= i < |r1| && 0 <= j < |r2|
    ensures Low(r1, r2) <= r1[i] * r2[j] <= High(r1, r2)
  {
    var a0, a1, b0, b1 := r1[0], r1[|r1| - 1], r2[0], r2[|r2| - 1];
    var a, b := r1[i], r2[j];
    Between(a, a0, a1, b);
    Between(b, b0, b1, a0);
    Between(b, b0, b1, a1);
    assert a0 * b == b * a0 && a1 * b == b * a1;
    assert a0 * b0 == b0 * a0 && a0 * b1 == b1 * a0 && a1 * b0 == b0 * a1 && a1 * b1 == b1 * a1;
  }

  lemma {:induction false} RowAll(a: int, b: seq<int>, v: int)
    requires forall j :: 0 <= j < |b| ==> a * b[j] <= v
    ensures RowAtMost(a, b, v) == |b|
  {
    RowPrefix(a, b, v, |b|);
  }

  lemma {:induction false} RowNone(a: int, b: seq<int>, v: int)
    requires forall j :: 0 <= j < |b| ==> a * b[j] > v
    ensures RowAtMost(a, b, v) == 0
  {
    RowPrefix(a, b, v, 0);
  }

  /** When every product is at most v, every pair is counted. */
  lemma {:induction false} PairsAll(r1: seq<int>, r2: seq<int>, v: int)
    requires forall i, j :: 0 <= i < |r1| && 0 <= j < |r2| ==> r1[i] * r2[j] <= v
    ensures PairsAtMost(r1, r2, v) == |r1| * |r2|
  {
    if r1 != [] {
      var m := |r1|;
      var front, a := r1[..m - 1], r1[m - 1];
      assert forall i, j :: 0 <= i < |front| && 0 <= j < |r2| ==> front[i] * r2[j] <= v by {
        forall i, j | 0 <= i < |front| && 0 <= j < |r2| ensures front[i] * r2[j] <= v {
          assert front[i] == r1[i];
        }
      }
      PairsAll(front, r2, v);
      assert forall j :: 0 <= j < |r2| ==> a * r2[j] <= v;
      RowAll(a, r2, v);
      MulSucc(m - 1, |r2|);
    }
  }

  /** When every product is above v, no pair is counted. */
  lemma {:induction false} PairsNone(r1: seq<int>, r2: seq<int>, v: int)
    requires forall i, j :: 0 <= i < |r1| && 0 <= j < |r2| ==> r1[i] * r2[j] > v
    ensures PairsAtMost(r1, r2, v) == 0
  {
    if r1 != [] {
      var m := |r1|;
      var front, a := r1[..m - 1], r1[m - 1];
      assert forall i, j :: 0 <= i < |front| && 0 <= j < |r2| ==> front[i] * r2[j] > v by {
        forall i, j | 0 <= i < |front| && 0 <= j < |r2| ensures front[i] * r2[j] > v {
          assert front[i] == r1[i];
        }
      }
      PairsNone(front, r2, v);
      assert forall j :: 0 <= j < |r2| ==> a * r2[j] > v;
      RowNone(a, r2, v);
    }
  }

  /** Every pair is at most High, none at most Low - 1. */
  lemma RangeCounts(r1: seq<int>, r2: seq<int>, lo: int, hi: int)
    requires forall i, j :: 0 <= i < |r1| && 0 <= j < |r2| ==> lo <= r1[i] * r2[j] <= hi
    ensures PairsAtMost(r1, r2, hi) == |r1| * |r2|
    ensures PairsAtMost(r1, r2, lo - 1) == 0
  {
    PairsAll(r1, r2, hi);
    PairsNone(r1, r2, lo - 1);
  }

  /**
   * kthSmallestProduct, counting each row from its own end and starting
   * from all four corner products: the search runs from the least to the
   * greatest corner product and always ends inside that range.  For ascending
   * arrays and 1 <= k <= m * n the value it ends on is the k-th smallest
   * product, which the (int) cast then narrows to 32 bits.
   */
  method KthSmallestProduct(returns1: seq<int>, returns2: seq<int>, k: int) returns (result: int, left: int)
    requires |returns1| > 0 && |returns2| > 0
    ensures Low(returns1, returns2) <= left <= High(returns1, returns2)
    ensures result == Wrap32(left)
    ensures Ascending(returns1) && Ascending(returns2) && 1 <= k <= |returns1| * |returns2| ==>
      IsKth(returns1, returns2, k, left)
  {
    var m, n := |returns1|, |returns2|;
    var lo := returns1[0] * returns2[0];
    var hi := returns1[m - 1] * returns2[n - 1];
    lo := Min(lo, returns1[0] * returns2[n - 1]);
    lo := Min(lo, returns1[m - 1] * returns2[0]);
    hi := Max(hi, returns1[0] * returns2[n - 1]);
    hi := Max(hi, returns1[m - 1] * returns2[0]);
    // the two corners the adjustment above leaves out
    lo := Min(lo, returns1[m - 1] * returns2[n - 1]);
    hi := Max(hi, returns1[0] * returns2[0]);
    assert lo == Low(returns1, returns2) && hi == High(returns1, returns2);
    ghost var sorted := Ascending(returns1) && Ascending(returns2) && 1 <= k <= m * n;
    if sorted {
      forall i, j | 0 <= i < m && 0 <= j < n ensures lo <= returns1[i] * returns2[j] <= hi {
        ProductsInRange(returns1, returns2, i, j);
      }
      RangeCounts(returns1, returns2, lo, hi);
    }
    var l, r := lo, hi;
    while l < r
      invariant lo <= l <= r <= hi
      invariant sorted ==> PairsAtMost(returns1, returns2, r) >= k && PairsAtMost(returns1, returns2, l - 1) < k
      decreases r - l
    {
      var mid := l + (r - l) / 2;
      var count := CountPairs(returns1, returns2, mid);
      if count < k {
        l := mid + 1;
      } else {
        r := mid;
      }
    }
    left := l;
    result := Wrap32(l);
  }

  /** ([2, 5], [3, 4], k = 2): the products are 6, 8, 15 and 20, and the second smallest is 8. */
  lemma SampleOne(v: int)
    requires IsKth([2, 5], [3, 4], 2, v)
    ensures v == 8
  {
    var r1, r2 := [2, 5], [3, 4];
    assert r1[..1] == [2] && [2][..0] == [] && r2[..1] == [3] && [3][..0] == [];
    assert PairsAtMost(r1, r2, 8) == 2;
    assert PairsAtMost(r1, r2, 7) == 1;
    KthUnique(r1, r2, 2, v, 8);
  }

  /** ([-4, -2, 0, 3], [2, 4]): six products are at most 0. */
  lemma SampleTwoAtZero()
    ensures PairsAtMost([-4, -2, 0, 3], [2, 4], 0) == 6
  {
    var r1, r2 := [-4, -2, 0, 3], [2, 4];
    assert r1[..3] == [-4, -2, 0] && r1[..3][..2] == [-4, -2] && r1[..3][..2][..1] == [-4] && [-4][..0] == [];
    assert r2[..1] == [2] && [2][..0] == [];
    assert RowAtMost(-4, r2, 0) == 2 && RowAtMost(-2, r2, 0) == 2 && RowAtMost(0, r2, 0) == 2 && RowAtMost(3, r2, 0) == 0;
    assert PairsAtMost([-4], r2, 0) == 2 && PairsAtMost([-4, -2], r2, 0) == 4 && PairsAtMost([-4, -2, 0], r2, 0) == 6;
  }

  /** ([-4, -2, 0, 3], [2, 4]): four products are below 0. */
  lemma SampleTwoBelowZero()
    ensures PairsAtMost([-4, -2, 0, 3], [2, 4], -1) == 4
  {
    var r1, r2 := [-4, -2, 0, 3], [2, 4];
    assert r1[..3] == [-4, -2, 0] && r1[..3][..2] == [-4, -2] && r1[..3][..2][..1] == [-4] && [-4][..0] == [];
    assert r2[..1] == [2] && [2][..0] == [];
    assert RowAtMost(-4, r2, -1) == 2 && RowAtMost(-2, r2, -1) == 2 && RowAtMost(0, r2, -1) == 0 && RowAtMost(3, r2, -1) == 0;
    assert PairsAtMost([-4], r2, -1) == 2 && PairsAtMost([-4, -2], r2, -1) == 4 && PairsAtMost([-4, -2, 0], r2, -1) == 4;
  }

  /** ([-4, -2, 0, 3], [2, 4], k = 6): six products are at most 0 and four below it, so the answer is 0. */
  lemma SampleTwo(v: int)
    requires IsKth([-4, -2, 0, 3], [2, 4], 6, v)
    ensures v == 0
  {
    SampleTwoAtZero();
    SampleTwoBelowZero();
    KthUnique([-4, -2, 0, 3], [2, 4], 6, v, 0);
  }
}
