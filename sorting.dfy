/**
 * Stable sorting, the behaviour of Java's List.sort and Python's sorted:
 * the functional insertion sort here is the reference for every sort in
 * the model.  An element is inserted after every element it does not
 * precede, so elements that compare equal keep their input order.
 */
module Sorting {

  /** le is a total preorder: any two elements compare, and transitively. */
  ghost predicate TotalPreorder<T(!new)>(le: (T, T) -> bool) {
    (forall a, b :: le(a, b) || le(b, a)) &&
    (forall a, b, c :: le(a, b) && le(b, c) ==> le(a, c))
  }

  predicate SortedBy<T>(s: seq<T>, le: (T, T) -> bool) {
    forall i, j :: 0 <= i < j < |s| ==> le(s[i], s[j])
  }

  /** s with x placed after the last element that does not follow it. */
  function Insert<T>(s: seq<T>, x: T, le: (T, T) -> bool): (r: seq<T>)
    ensures multiset(r) == multiset(s) + multiset{x}
    decreases |s|
  {
    if s == [] || le(s[|s| - 1], x) then s + [x]
    else
      assert s == s[..|s| - 1] + [s[|s| - 1]];
      Insert(s[..|s| - 1], x, le) + [s[|s| - 1]]
  }

  function SortBy<T>(s: seq<T>, le: (T, T) -> bool): (r: seq<T>)
    ensures multiset(r) == multiset(s)
    decreases |s|
  {
    if s == [] then []
    else
      assert s == s[..|s| - 1] + [s[|s| - 1]];
      Insert(SortBy(s[..|s| - 1], le), s[|s| - 1], le)
  }

  lemma {:induction false} InsertSorted<T(!new)>(s: seq<T>, x: T, le: (T, T) -> bool)
    requires TotalPreorder(le) && SortedBy(s, le)
    ensures SortedBy(Insert(s, x, le), le)
    decreases |s|
  {
    if s != [] && !le(s[|s| - 1], x) {
      var front, last := s[..|s| - 1], s[|s| - 1];
      assert SortedBy(front, le);
      InsertSorted(front, x, le);
      var ins := Insert(front, x, le);
      forall i | 0 <= i < |ins| ensures le(ins[i], last) {
        assert ins[i] in multiset(ins);
        if ins[i] != x {
          assert ins[i] in multiset(front);
          var j :| 0 <= j < |front| && front[j] == ins[i];
          assert s[j] == ins[i];
        }
      }
    }
  }

  /** The sort puts its input in order. */
  lemma {:induction false} SortSorted<T(!new)>(s: seq<T>, le: (T, T) -> bool)
    requires TotalPreorder(le)
    ensures SortedBy(SortBy(s, le), le)
    decreases |s|
  {
    if s != [] {
      SortSorted(s[..|s| - 1], le);
      InsertSorted(SortBy(s[..|s| - 1], le), s[|s| - 1], le);
    }
  }

  /** The nodes 0..n-1 in order. */
  function Range(n: nat): (r: seq<nat>)
    ensures |r| == n && forall i :: 0 <= i < n ==> r[i] == i
  {
    seq(n, i => i)
  }

  /** Index a before index b when its key is smaller, or equal and a comes first. */
  predicate KeyLe(keys: seq<real>, a: nat, b: nat) {
    var ka := if a < |keys| then keys[a] else 0.0;
    var kb := if b < |keys| then keys[b] else 0.0;
    ka < kb || (ka == kb && a <= b)
  }

  lemma KeyLeTotal(keys: seq<real>)
    ensures TotalPreorder((a: nat, b: nat) => KeyLe(keys, a, b))
  {
  }

  /**
   * The positions 0..|keys|-1 in the order a stable sort by key puts the
   * elements in: the result is a permutation of the positions, ordered by
   * key, and positions of equal key keep their order.
   */
  function KeyOrder(keys: seq<real>): (order: seq<nat>)
    ensures multiset(order) == multiset(Range(|keys|)) && |order| == |keys|
    ensures forall i :: 0 <= i < |order| ==> order[i] < |keys|
    ensures forall i, j :: 0 <= i < j < |order| ==>
      keys[order[i]] < keys[order[j]] || (keys[order[i]] == keys[order[j]] && order[i] < order[j])
  {
    var le := (a: nat, b: nat) => KeyLe(keys, a, b);
    var order := SortBy<nat>(Range(|keys|), le);
    KeyLeTotal(keys);
    SortSorted<nat>(Range(|keys|), le);
    assert |order| == |multiset(order)| == |keys|;
    forall i | 0 <= i < |order| ensures order[i] < |keys| {
      assert order[i] in multiset(Range(|keys|));
    }
    DistinctOf(order, |keys|);
    order
  }

  /** A selection from 0..n-1 that repeats nothing of it has no repeated element. */
  lemma DistinctOf(s: seq<nat>, n: nat)
    requires multiset(s) <= multiset(Range(n))
    ensures forall i, j :: 0 <= i < j < |s| ==> s[i] != s[j]
  {
    forall i, j | 0 <= i < j < |s| ensures s[i] != s[j] {
      if s[i] == s[j] {
        var x := s[i];
        assert multiset(s)[x] >= 2 by {
          assert s == s[..i] + [s[i]] + s[i + 1..j] + [s[j]] + s[j + 1..];
        }
        assert multiset(Range(n))[x] <= 1 by {
          RangeCount(n, x);
        }
        assert false;
      }
    }
  }

  lemma RangeCount(n: nat, x: nat)
    ensures multiset(Range(n))[x] <= 1
  {
    if n > 0 {
      assert Range(n) == Range(n - 1) + [n - 1];
      RangeCount(n - 1, x);
      if x == n - 1 {
        assert x !in Range(n - 1);
      }
    }
  }

  /** Removing the element at m, as a poll does: one occurrence of s[m] goes, the rest stays. */
  lemma RemoveAt<T>(s: seq<T>, m: nat)
    requires m < |s|
    ensures |s[..m] + s[m + 1..]| == |s| - 1
    ensures multiset(s[..m] + s[m + 1..]) == multiset(s) - multiset{s[m]}
    ensures forall x :: x in s[..m] + s[m + 1..] ==> x in s
    ensures forall x :: x in s && x != s[m] ==> x in s[..m] + s[m + 1..]
  {
    var rest := s[..m] + s[m + 1..];
    assert s == s[..m] + [s[m]] + s[m + 1..];
    assert multiset(s) == multiset(rest) + multiset{s[m]};
    forall x | x in s && x != s[m] ensures x in rest {
      assert x in multiset(rest);
    }
    forall x | x in rest ensures x in s {
      assert x in multiset(s);
    }
  }
}
