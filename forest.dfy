/**
 * Connectivity of an undirected graph on the nodes 0..m-1 as links are added
 * one at a time, described by "quick-find" labels: every node carries the
 * label of its component, and a link relabels the whole component of its
 * second endpoint with the label of its first.  This is the reference
 * definition that the union-find structures are proved against, and the
 * language in which acyclicity and spanning are stated.
 */
module Forest {

  /** An undirected link between two node indices. */
  datatype Link = Link(u: nat, v: nat)

  function Identity(m: nat): (l: seq<nat>)
    ensures |l| == m
    ensures forall i :: 0 <= i < m ==> l[i] == i
  {
    seq(m, i => i)
  }

  /** The labels after linking k: the component of k.v takes the label of k.u. */
  function Merge(l: seq<nat>, k: Link): (l': seq<nat>)
    ensures |l'| == |l|
  {
    if k.u < |l| && k.v < |l| then
      seq(|l|, i requires 0 <= i < |l| => if l[i] == l[k.v] then l[k.u] else l[i])
    else l
  }

  /** Component labels of the nodes 0..m-1 after adding the links in order. */
  function Labels(m: nat, links: seq<Link>): (l: seq<nat>)
    ensures |l| == m
    ensures forall i :: 0 <= i < m ==> l[i] < m
    decreases |links|
  {
    if links == [] then Identity(m)
    else Merge(Labels(m, links[..|links| - 1]), links[|links| - 1])
  }

  predicate InRange(m: nat, k: Link) {
    k.u < m && k.v < m
  }

  /** Nodes i and j lie in one component of the graph (0..m-1, links). */
  predicate Same(m: nat, links: seq<Link>, i: nat, j: nat)
    requires i < m && j < m
  {
    Labels(m, links)[i] == Labels(m, links)[j]
  }

  /** Adding k to links merges two different components. */
  predicate Joins(m: nat, links: seq<Link>, k: Link) {
    InRange(m, k) && !Same(m, links, k.u, k.v)
  }

  /** No link closes a cycle: each one joins two components of the links before it. */
  predicate Acyclic(m: nat, links: seq<Link>) {
    forall i :: 0 <= i < |links| ==> Joins(m, links[..i], links[i])
  }

  /** All m nodes lie in one component. */
  predicate Connected(m: nat, links: seq<Link>) {
    forall i :: 0 <= i < m ==> Same(m, links, i, 0)
  }

  /** The labels in use, one per component. */
  function Classes(l: seq<nat>): set<nat> {
    set i | 0 <= i < |l| :: l[i]
  }

  /** The number of links that joined two components when they were added. */
  function JoinCount(m: nat, links: seq<Link>): (c: nat)
    ensures c <= |links|
    decreases |links|
  {
    if links == [] then 0
    else
      var pre := links[..|links| - 1];
      JoinCount(m, pre) + if Joins(m, pre, links[|links| - 1]) then 1 else 0
  }

  lemma LabelsSnoc(m: nat, links: seq<Link>, k: Link)
    ensures Labels(m, links + [k]) == Merge(Labels(m, links), k)
    ensures JoinCount(m, links + [k]) == JoinCount(m, links) + if Joins(m, links, k) then 1 else 0
  {
    assert (links + [k])[..|links|] == links;
  }

  /** Linking merges exactly the two components of its endpoints. */
  lemma {:induction false} MergeSame(l: seq<nat>, k: Link, i: nat, j: nat)
    requires k.u < |l| && k.v < |l| && i < |l| && j < |l|
    ensures Merge(l, k)[i] == Merge(l, k)[j] <==>
      l[i] == l[j] || (l[i] == l[k.u] && l[j] == l[k.v]) || (l[i] == l[k.v] && l[j] == l[k.u])
  {
    var l' := Merge(l, k);
    assert l'[i] == if l[i] == l[k.v] then l[k.u] else l[i];
    assert l'[j] == if l[j] == l[k.v] then l[k.u] else l[j];
  }

  /** Same as MergeSame, phrased over the link sequence. */
  lemma SameSnoc(m: nat, links: seq<Link>, k: Link, i: nat, j: nat)
    requires InRange(m, k) && i < m && j < m
    ensures Same(m, links + [k], i, j) <==>
      Same(m, links, i, j) || (Same(m, links, i, k.u) && Same(m, links, j, k.v)) ||
      (Same(m, links, i, k.v) && Same(m, links, j, k.u))
  {
    LabelsSnoc(m, links, k);
    MergeSame(Labels(m, links), k, i, j);
  }

  /** Adding links never separates nodes. */
  lemma {:induction false} SameGrows(m: nat, links: seq<Link>, more: seq<Link>, i: nat, j: nat)
    requires i < m && j < m && Same(m, links, i, j)
    ensures Same(m, links + more, i, j)
    decreases |more|
  {
    if more != [] {
      var pre := more[..|more| - 1];
      SameGrows(m, links, pre, i, j);
      assert links + more == (links + pre) + [more[|more| - 1]];
      LabelsSnoc(m, links + pre, more[|more| - 1]);
      var l := Labels(m, links + pre);
      var k := more[|more| - 1];
      if InRange(m, k) {
        MergeSame(l, k, i, j);
      }
    } else {
      assert links + more == links;
    }
  }

  lemma RangeCard(m: nat)
    ensures |Classes(Identity(m))| == m
  {
    var s := Classes(Identity(m));
    if m > 0 {
      RangeCard(m - 1);
      var s' := Classes(Identity(m - 1));
      assert s == s' + {m - 1} by {
        forall c | c in s ensures c in s' + {m - 1} {
          var i :| 0 <= i < m && Identity(m)[i] == c;
          if i < m - 1 { assert Identity(m - 1)[i] == c; }
        }
        forall c | c in s' ensures c in s {
          var i :| 0 <= i < m - 1 && Identity(m - 1)[i] == c;
          assert Identity(m)[i] == c;
        }
        assert Identity(m)[m - 1] == m - 1;
      }
      assert forall c | c in s' :: c < m - 1;
    } else {
      assert s == {};
    }
  }

  /** A joining link removes exactly one label; any other link changes nothing. */
  lemma MergeClasses(l: seq<nat>, k: Link)
    requires k.u < |l| && k.v < |l|
    ensures l[k.u] != l[k.v] ==> Classes(Merge(l, k)) == Classes(l) - {l[k.v]}
    ensures l[k.u] != l[k.v] ==> l[k.v] in Classes(l)
    ensures l[k.u] == l[k.v] ==> Merge(l, k) == l
  {
    var l' := Merge(l, k);
    if l[k.u] != l[k.v] {
      forall c | c in Classes(l') ensures c in Classes(l) - {l[k.v]} {
        var i :| 0 <= i < |l'| && l'[i] == c;
        if l[i] == l[k.v] { assert c == l[k.u]; } else { assert c == l[i]; }
      }
      forall c | c in Classes(l) - {l[k.v]} ensures c in Classes(l') {
        var i :| 0 <= i < |l| && l[i] == c;
        assert l'[i] == c;
      }
    } else {
      assert forall i :: 0 <= i < |l| ==> l'[i] == l[i];
    }
  }

  /** Every joining link lowers the number of components by one. */
  lemma {:induction false} ClassCount(m: nat, links: seq<Link>)
    ensures JoinCount(m, links) <= m
    ensures |Classes(Labels(m, links))| == m - JoinCount(m, links)
    decreases |links|
  {
    if links == [] {
      RangeCard(m);
    } else {
      var pre := links[..|links| - 1];
      var k := links[|links| - 1];
      assert links == pre + [k];
      ClassCount(m, pre);
      LabelsSnoc(m, pre, k);
      if InRange(m, k) {
        MergeClasses(Labels(m, pre), k);
      }
    }
  }

  lemma {:induction false} JoinCountFull(m: nat, links: seq<Link>)
    ensures JoinCount(m, links) == |links| <==> Acyclic(m, links)
    decreases |links|
  {
    if links != [] {
      var pre := links[..|links| - 1];
      var k := links[|links| - 1];
      JoinCountFull(m, pre);
      assert forall i :: 0 <= i < |pre| ==> pre[..i] == links[..i] && pre[i] == links[i];
      assert links[..|pre|] == pre;
    }
  }

  lemma ClassesNonEmpty(l: seq<nat>)
    requires |l| > 0
    ensures l[0] in Classes(l)
  {
  }

  /** An acyclic set of links on m nodes has at most m - 1 links (none when m == 0). */
  lemma AcyclicSize(m: nat, links: seq<Link>)
    requires Acyclic(m, links)
    ensures |links| <= if m == 0 then 0 else m - 1
  {
    JoinCountFull(m, links);
    ClassCount(m, links);
    if m > 0 {
      ClassesNonEmpty(Labels(m, links));
    }
  }

  lemma ConnectedClasses(m: nat, links: seq<Link>)
    requires m > 0
    ensures Connected(m, links) <==> Classes(Labels(m, links)) == {Labels(m, links)[0]}
  {
    var l := Labels(m, links);
    if Classes(l) == {l[0]} {
      forall i | 0 <= i < m ensures Same(m, links, i, 0) {
        assert l[i] in Classes(l);
      }
    }
    if Connected(m, links) {
      forall c | c in Classes(l) ensures c == l[0] {
        var i :| 0 <= i < m && l[i] == c;
        assert Same(m, links, i, 0);
      }
    }
  }

  /**
   * On m > 0 nodes, m - 1 links are acyclic exactly when they connect all
   * nodes: the two halves of "spanning tree".
   */
  lemma TreeCharacterization(m: nat, links: seq<Link>)
    requires m > 0 && |links| == m - 1
    ensures Acyclic(m, links) <==> Connected(m, links)
  {
    var l := Labels(m, links);
    JoinCountFull(m, links);
    ClassCount(m, links);
    ConnectedClasses(m, links);
    ClassesNonEmpty(l);
    if Acyclic(m, links) {
      assert |Classes(l)| == 1;
      var c := l[0];
      assert Classes(l) == {c} by {
        if exists d :: d in Classes(l) && d != c {
          var d :| d in Classes(l) && d != c;
          assert {c, d} <= Classes(l);
          assert |{c, d}| == 2;
          SubsetCard({c, d}, Classes(l));
        }
      }
    }
  }

  lemma SubsetCard(a: set<nat>, b: set<nat>)
    requires a <= b
    ensures |a| <= |b|
  {
    assert b == a + (b - a);
  }

  /** Maps the items to the links their endpoints form. */
  function LinksOf<T>(s: seq<T>, ends: T -> Link): (r: seq<Link>)
    ensures |r| == |s|
    ensures forall i :: 0 <= i < |s| ==> r[i] == ends(s[i])
  {
    seq(|s|, i requires 0 <= i < |s| => ends(s[i]))
  }

  lemma LinksOfSnoc<T>(s: seq<T>, e: T, ends: T -> Link)
    ensures LinksOf(s + [e], ends) == LinksOf(s, ends) + [ends(e)]
  {
  }

  /**
   * The reference union-find sweep (Kruskal's selection rule): scan the items in
   * order and keep an item when fewer than m - 1 are kept so far and its link
   * joins two components of the links kept before it.
   */
  function Sweep<T>(m: nat, items: seq<T>, ends: T -> Link): (sel: seq<T>)
    decreases |items|
  {
    if items == [] then []
    else
      var acc := Sweep(m, items[..|items| - 1], ends);
      var e := items[|items| - 1];
      if |acc| < m - 1 && Joins(m, LinksOf(acc, ends), ends(e)) then acc + [e] else acc
  }

  lemma SweepSnoc<T>(m: nat, items: seq<T>, e: T, ends: T -> Link)
    ensures var acc := Sweep(m, items, ends);
      Sweep(m, items + [e], ends) ==
        if |acc| < m - 1 && Joins(m, LinksOf(acc, ends), ends(e)) then acc + [e] else acc
  {
    assert (items + [e])[..|items|] == items;
  }

  /** The sweep keeps an acyclic set of links. */
  lemma {:induction false} SweepAcyclic<T>(m: nat, items: seq<T>, ends: T -> Link)
    ensures Acyclic(m, LinksOf(Sweep(m, items, ends), ends))
    decreases |items|
  {
    if items != [] {
      var pre := items[..|items| - 1];
      var e := items[|items| - 1];
      SweepAcyclic(m, pre, ends);
      var acc := Sweep(m, pre, ends);
      var links := LinksOf(acc, ends);
      if |acc| < m - 1 && Joins(m, links, ends(e)) {
        var links' := LinksOf(acc + [e], ends);
        assert links' == links + [ends(e)];
        forall i | 0 <= i < |links'| ensures Joins(m, links'[..i], links'[i]) {
          if i < |links| {
            assert links'[..i] == links[..i];
          } else {
            assert links'[..i] == links;
          }
        }
      }
    }
  }

  /** The sweep keeps at most m - 1 items (none on an empty node set). */
  lemma SweepSize<T>(m: nat, items: seq<T>, ends: T -> Link)
    ensures |Sweep(m, items, ends)| <= if m == 0 then 0 else m - 1
  {
    SweepAcyclic(m, items, ends);
    AcyclicSize(m, LinksOf(Sweep(m, items, ends), ends));
  }

  predicate Sorted<T>(s: seq<T>, key: T -> real) {
    forall i, j :: 0 <= i < j < |s| ==> key(s[i]) <= key(s[j])
  }

  /** The sweep only keeps scanned items, each at most as often as it occurs. */
  lemma {:induction false} SweepDrawsFrom<T>(m: nat, items: seq<T>, ends: T -> Link)
    ensures multiset(Sweep(m, items, ends)) <= multiset(items)
    decreases |items|
  {
    if items != [] {
      var pre := items[..|items| - 1];
      var e := items[|items| - 1];
      assert items == pre + [e];
      SweepDrawsFrom(m, pre, ends);
    }
  }

  /** Elements drawn from a sequence whose keys are at most a bound have keys at most that bound. */
  lemma DrawnAtMost<T>(acc: seq<T>, pre: seq<T>, key: T -> real, bound: real)
    requires multiset(acc) <= multiset(pre)
    requires forall j :: 0 <= j < |pre| ==> key(pre[j]) <= bound
    ensures forall i :: 0 <= i < |acc| ==> key(acc[i]) <= bound
  {
    forall i | 0 <= i < |acc| ensures key(acc[i]) <= bound {
      assert acc[i] in multiset(acc);
      var j :| 0 <= j < |pre| && pre[j] == acc[i];
    }
  }

  /** Scanning in key order keeps the items in key order. */
  lemma {:induction false} SweepSorted<T>(m: nat, items: seq<T>, ends: T -> Link, key: T -> real)
    requires Sorted(items, key)
    ensures Sorted(Sweep(m, items, ends), key)
    decreases |items|
  {
    if items != [] {
      var pre := items[..|items| - 1];
      var e := items[|items| - 1];
      assert Sorted(pre, key);
      SweepSorted(m, pre, ends, key);
      var acc := Sweep(m, pre, ends);
      if Sweep(m, items, ends) == acc + [e] {
        SweepDrawsFrom(m, pre, ends);
        assert forall j :: 0 <= j < |pre| ==> key(pre[j]) <= key(e) by {
          forall j | 0 <= j < |pre| ensures key(pre[j]) <= key(e) {
            assert pre[j] == items[j];
          }
        }
        DrawnAtMost(acc, pre, key, key(e));
      }
    }
  }

  /**
   * The sweep is maximal: once all items are scanned, the two endpoints of
   * every scanned item lie in one component of the kept links, so on a
   * connected input the result is a spanning tree.
   */
  lemma {:induction false} SweepSpans<T>(m: nat, items: seq<T>, ends: T -> Link, q: nat)
    requires forall i :: 0 <= i < |items| ==> InRange(m, ends(items[i]))
    requires q < |items|
    ensures InRange(m, ends(items[q]))
    ensures Same(m, LinksOf(Sweep(m, items, ends), ends), ends(items[q]).u, ends(items[q]).v)
    decreases |items|
  {
    var pre := items[..|items| - 1];
    var e := items[|items| - 1];
    assert items == pre + [e];
    assert InRange(m, ends(items[q]));
    if q < |pre| {
      assert pre[q] == items[q];
      assert forall i :: 0 <= i < |pre| ==> pre[i] == items[i];
      SweepSpans(m, pre, ends, q);
      SpansKept(m, pre, e, ends, ends(pre[q]));
    } else {
      SpansLast(m, pre, e, ends);
    }
  }

  /** Scanning one more item keeps connected pairs connected. */
  lemma SpansKept<T>(m: nat, pre: seq<T>, e: T, ends: T -> Link, k: Link)
    requires InRange(m, k)
    requires Same(m, LinksOf(Sweep(m, pre, ends), ends), k.u, k.v)
    ensures Same(m, LinksOf(Sweep(m, pre + [e], ends), ends), k.u, k.v)
  {
    var acc := Sweep(m, pre, ends);
    SweepSnoc(m, pre, e, ends);
    LinksOfSnoc(acc, e, ends);
    SameGrows(m, LinksOf(acc, ends), [ends(e)], k.u, k.v);
  }

  /** After scanning an item, its endpoints are connected. */
  lemma SpansLast<T>(m: nat, pre: seq<T>, e: T, ends: T -> Link)
    requires InRange(m, ends(e))
    ensures Same(m, LinksOf(Sweep(m, pre + [e], ends), ends), ends(e).u, ends(e).v)
  {
    var acc := Sweep(m, pre, ends);
    var links := LinksOf(acc, ends);
    var k := ends(e);
    SweepSnoc(m, pre, e, ends);
    if |acc| < m - 1 {
      if Joins(m, links, k) {
        LinksOfSnoc(acc, e, ends);
        SameSnoc(m, links, k, k.u, k.v);
      }
    } else {
      SweepAcyclic(m, pre, ends);
      AcyclicSize(m, links);
      TreeCharacterization(m, links);
      assert Same(m, links, k.u, 0) && Same(m, links, k.v, 0);
    }
  }

  /** Once m - 1 items are kept, scanning more keeps nothing else. */
  lemma {:induction false} SweepSaturated<T>(m: nat, items: seq<T>, more: seq<T>, ends: T -> Link)
    requires |Sweep(m, items, ends)| >= m - 1
    ensures Sweep(m, items + more, ends) == Sweep(m, items, ends)
    decreases |more|
  {
    if more == [] {
      assert items + more == items;
    } else {
      var pre := more[..|more| - 1];
      SweepSaturated(m, items, pre, ends);
      assert items + more == (items + pre) + [more[|more| - 1]];
      SweepSnoc(m, items + pre, more[|more| - 1], ends);
    }
  }

  /** A spanning acyclic link set on m > 0 nodes has exactly m - 1 links. */
  lemma SpanningSize(m: nat, links: seq<Link>)
    requires m > 0 && Acyclic(m, links) && Connected(m, links)
    ensures |links| == m - 1
  {
    JoinCountFull(m, links);
    ClassCount(m, links);
    ConnectedClasses(m, links);
    assert |{Labels(m, links)[0]}| == 1;
  }

  /**
   * If sub connects the endpoints of every link, it connects every pair
   * the links connect.
   */
  lemma {:induction false} CoveredSame(m: nat, links: seq<Link>, sub: seq<Link>, i: nat, j: nat)
    requires forall k :: 0 <= k < |links| ==> InRange(m, links[k]) && Same(m, sub, links[k].u, links[k].v)
    requires i < m && j < m && Same(m, links, i, j)
    ensures Same(m, sub, i, j)
    decreases |links|
  {
    if links != [] {
      var pre, k := links[..|links| - 1], links[|links| - 1];
      assert links == pre + [k];
      SameSnoc(m, pre, k, i, j);
      if Same(m, pre, i, j) {
        CoveredSame(m, pre, sub, i, j);
      } else if Same(m, pre, i, k.u) && Same(m, pre, j, k.v) {
        CoveredSame(m, pre, sub, i, k.u);
        CoveredSame(m, pre, sub, j, k.v);
      } else {
        CoveredSame(m, pre, sub, i, k.v);
        CoveredSame(m, pre, sub, j, k.u);
      }
    }
  }

  /** A node set no link crosses is a union of components. */
  lemma {:induction false} ClosedSame(m: nat, links: seq<Link>, s: set<nat>, i: nat, j: nat)
    requires forall k :: 0 <= k < |links| ==> InRange(m, links[k])
    requires forall k :: 0 <= k < |links| ==> (links[k].u in s <==> links[k].v in s)
    requires i < m && j < m && Same(m, links, i, j)
    ensures i in s <==> j in s
    decreases |links|
  {
    if links != [] {
      var pre, k := links[..|links| - 1], links[|links| - 1];
      assert links == pre + [k];
      SameSnoc(m, pre, k, i, j);
      if Same(m, pre, i, j) {
        ClosedSame(m, pre, s, i, j);
      } else if Same(m, pre, i, k.u) && Same(m, pre, j, k.v) {
        ClosedSame(m, pre, s, i, k.u);
        ClosedSame(m, pre, s, j, k.v);
      } else {
        ClosedSame(m, pre, s, i, k.v);
        ClosedSame(m, pre, s, j, k.u);
      }
    }
  }

  /** A link joining two components keeps a link set acyclic. */
  lemma AcyclicSnoc(m: nat, links: seq<Link>, k: Link)
    requires Acyclic(m, links) && Joins(m, links, k)
    ensures Acyclic(m, links + [k])
  {
    var links' := links + [k];
    forall i | 0 <= i < |links'| ensures Joins(m, links'[..i], links'[i]) {
      if i < |links| {
        assert links'[..i] == links[..i];
      } else {
        assert links'[..i] == links;
      }
    }
  }

  /** A set of nodes below n has at most n members, and all of them when it has n. */
  lemma FullRange(s: set<nat>, n: nat)
    requires forall x :: x in s ==> x < n
    ensures |s| <= n
    ensures |s| == n ==> forall v :: 0 <= v < n ==> v in s
  {
    var r := Classes(Identity(n));
    RangeCard(n);
    assert s <= r by {
      forall x | x in s ensures x in r {
        assert Identity(n)[x] == x;
      }
    }
    SubsetCard(s, r);
    if |s| == n {
      forall v | 0 <= v < n ensures v in s {
        if v !in s {
          assert Identity(n)[v] == v;
          SubsetCard(s, r - {v});
          assert false;
        }
      }
    }
  }
}
