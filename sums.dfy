/** Sums of a real-valued measure over a sequence, as Java's stream sum. */
module Sums {

  function Sum<T>(s: seq<T>, f: T -> real): real
    decreases |s|
  {
    if s == [] then 0.0 else Sum(s[..|s| - 1], f) + f(s[|s| - 1])
  }

  lemma {:induction false} SumAppend<T>(s: seq<T>, t: seq<T>, f: T -> real)
    ensures Sum(s + t, f) == Sum(s, f) + Sum(t, f)
    decreases |t|
  {
    if t == [] {
      assert s + t == s;
    } else {
      var front := t[..|t| - 1];
      SumAppend(s, front, f);
      assert (s + t)[..|s + t| - 1] == s + front;
    }
  }

  /** The sum does not depend on the order of the elements. */
  lemma {:induction false} SumPermutation<T>(s: seq<T>, t: seq<T>, f: T -> real)
    requires multiset(s) == multiset(t)
    ensures Sum(s, f) == Sum(t, f)
    decreases |s|
  {
    if s == [] {
      assert |t| == |multiset(t)| == 0;
    } else {
      var front, x := s[..|s| - 1], s[|s| - 1];
      assert s == front + [x];
      assert x in multiset(t);
      var k :| 0 <= k < |t| && t[k] == x;
      var t' := t[..k] + t[k + 1..];
      assert t == t[..k] + [x] + t[k + 1..];
      assert multiset(t) == multiset(t[..k]) + multiset{x} + multiset(t[k + 1..]);
      assert multiset(s) == multiset(front) + multiset{x};
      assert multiset(t') == multiset(t[..k]) + multiset(t[k + 1..]);
      assert multiset(t') == multiset(t) - multiset{x};
      assert multiset(front) == multiset(s) - multiset{x};
      SumPermutation(front, t', f);
      SumAppend(t[..k] + [x], t[k + 1..], f);
      SumAppend(t[..k], [x], f);
      SumAppend(t[..k], t[k + 1..], f);
      assert Sum([x], f) == f(x) by {
        assert [x][..0] == [];
      }
    }
  }
}
