/**
 * The combinatorial engine of the network topology optimiser: the two
 * minimum-spanning-tree builders (Prim's frontier growth and Kruskal's
 * sorted sweep over a disjoint-set forest), the multi-objective variant
 * that reruns the sweep on a blended score, the spanning-tree test, the
 * solution score and the hill-climbing refiner.
 *
 * Nodes are the positions 0..n-1 of the node list.  An edge joins two such
 * positions; a solution is a sequence of positions in the edge list, since
 * the optimiser compares edges by identity.
 */
module SpanningTrees {
  import opened Forest
  import opened Sorting
  import opened Sums
  import opened DisjointSets

  datatype Edge = Edge(src: nat, dst: nat, cost: real, bandwidth: real)

  /** Every edge joins two nodes of the list. */
  predicate WellFormed(n: nat, edges: seq<Edge>) {
    forall i :: 0 <= i < |edges| ==> edges[i].src < n && edges[i].dst < n
  }

  predicate PositiveBandwidths(edges: seq<Edge>) {
    forall i :: 0 <= i < |edges| ==> edges[i].bandwidth > 0.0
  }

  /** A selection names edges of the list. */
  predicate Positions(sel: seq<nat>, edges: seq<Edge>) {
    forall i :: 0 <= i < |sel| ==> sel[i] < |edges|
  }

  function EdgeLink(edges: seq<Edge>, k: nat): Link {
    if k < |edges| then Link(edges[k].src, edges[k].dst) else Link(0, 0)
  }

  function Ends(edges: seq<Edge>): nat -> Link {
    (k: nat) => EdgeLink(edges, k)
  }

  /** The links a selection of edges forms. */
  function Chosen(edges: seq<Edge>, sel: seq<nat>): seq<Link> {
    LinksOf(sel, Ends(edges))
  }

  /** The whole graph. */
  function AllLinks(edges: seq<Edge>): seq<Link> {
    Chosen(edges, Range(|edges|))
  }

  function Pick(edges: seq<Edge>, sel: seq<nat>): (r: seq<Edge>)
    requires Positions(sel, edges)
    ensures |r| == |sel| && forall i :: 0 <= i < |sel| ==> r[i] == edges[sel[i]]
  {
    seq(|sel|, i requires 0 <= i < |sel| => edges[sel[i]])
  }

  /** n - 1 edges that connect all n nodes. */
  ghost predicate IsSpanningTree(n: nat, edges: seq<Edge>, sel: seq<nat>) {
    |sel| == n - 1 && Connected(n, Chosen(edges, sel))
  }

  function Costs(edges: seq<Edge>): (c: seq<real>)
    ensures |c| == |edges| && forall i :: 0 <= i < |edges| ==> c[i] == edges[i].cost
  {
    seq(|edges|, i requires 0 <= i < |edges| => edges[i].cost)
  }

  function Bandwidths(edges: seq<Edge>): (b: seq<real>)
    ensures |b| == |edges| && forall i :: 0 <= i < |edges| ==> b[i] == edges[i].bandwidth
  {
    seq(|edges|, i requires 0 <= i < |edges| => edges[i].bandwidth)
  }

  // ---------------------------------------------------------------------
  // Kruskal's sweep

  /**
   * The union-find sweep shared by kruskalMST and multiObjectiveOptimization:
   * scan the edges in stable ascending key order and take an edge when the
   * roots of its endpoints differ, stopping once n - 1 edges are taken.
   */
  method KeySweep(n: nat, edges: seq<Edge>, order: seq<nat>) returns (sel: seq<nat>)
    requires WellFormed(n, edges) && Positions(order, edges)
    ensures sel == Sweep(n, order, Ends(edges))
  {
    var ds := new DisjointSet(n);
    sel := [];
    var i := 0;
    while i < |order|
      invariant 0 <= i <= |order|
      invariant fresh(ds.parent) && fresh(ds.rank)
      invariant ds.Tracks(Chosen(edges, sel)) && ds.parent.Length == n
      invariant sel == Sweep(n, order[..i], Ends(edges))
      invariant sel == [] || |sel| + 1 < n
    {
      sel := Take(ds, n, edges, order, i, sel);
      if |sel| == n - 1 {
        SweepStops(n, edges, order, i, sel);
        return;
      }
      i := i + 1;
    }
    assert order[..i] == order;
  }

  /** One pass of the loop: order[i] is taken exactly when the sweep takes it. */
  method Take(ds: DisjointSet, n: nat, edges: seq<Edge>, order: seq<nat>, i: nat, sel: seq<nat>)
    returns (sel': seq<nat>)
    requires WellFormed(n, edges) && i < |order| && order[i] < |edges|
    requires ds.Tracks(Chosen(edges, sel)) && ds.parent.Length == n
    requires sel == Sweep(n, order[..i], Ends(edges)) && (sel == [] || |sel| + 1 < n)
    modifies ds.parent, ds.rank
    ensures ds.Tracks(Chosen(edges, sel'))
    ensures sel' == Sweep(n, order[..i + 1], Ends(edges))
    ensures sel' == sel || (sel' == sel + [order[i]] && |sel| + 1 < n)
  {
    var e := order[i];
    SweepStep(n, edges, order, i, sel);
    var joined := Join(ds, n, Chosen(edges, sel), edges[e].src, edges[e].dst);
    sel' := if joined then sel + [e] else sel;
  }

  /** Once n - 1 edges are kept, the rest of the order adds nothing: the break is safe. */
  lemma SweepStops(n: nat, edges: seq<Edge>, order: seq<nat>, i: nat, sel: seq<nat>)
    requires i < |order| && sel == Sweep(n, order[..i + 1], Ends(edges)) && |sel| == n - 1
    ensures sel == Sweep(n, order, Ends(edges))
  {
    SweepSaturated(n, order[..i + 1], order[i + 1..], Ends(edges));
    assert order[..i + 1] + order[i + 1..] == order;
  }

  /** find on both endpoints, and union when the roots differ: the edge is taken exactly when it joins two sets. */
  method Join(ds: DisjointSet, n: nat, ghost links: seq<Link>, u: nat, v: nat) returns (joined: bool)
    requires ds.Tracks(links) && ds.parent.Length == n && u < n && v < n
    modifies ds.parent, ds.rank
    ensures ds.Tracks(if joined then links + [Link(u, v)] else links)
    ensures joined <==> !Same(n, links, u, v)
  {
    var ru := ds.Find(u);
    var rv := ds.Find(v);
    ghost var reps := ds.Reps();
    joined := ru != rv;
    if joined {
      ds.Union(u, v);
      ds.UnionTracks(links, u, v, reps);
    }
  }

  /** One step of the sweep, stated on the edge list. */
  lemma SweepStep(n: nat, edges: seq<Edge>, order: seq<nat>, i: nat, sel: seq<nat>)
    requires WellFormed(n, edges) && i < |order| && order[i] < |edges|
    requires sel == Sweep(n, order[..i], Ends(edges))
    ensures InRange(n, Link(edges[order[i]].src, edges[order[i]].dst))
    ensures Sweep(n, order[..i + 1], Ends(edges)) ==
      if |sel| < n - 1 && !Same(n, Chosen(edges, sel), edges[order[i]].src, edges[order[i]].dst)
      then sel + [order[i]] else sel
    ensures Chosen(edges, sel + [order[i]]) ==
      Chosen(edges, sel) + [Link(edges[order[i]].src, edges[order[i]].dst)]
  {
    var e := order[i];
    assert Ends(edges)(e) == Link(edges[e].src, edges[e].dst);
    SweepSnoc(n, order[..i], e, Ends(edges));
    assert order[..i + 1] == order[..i] + [e];
    LinksOfSnoc(sel, e, Ends(edges));
  }

  /** kruskalMST: the sweep in ascending cost order. */
  method KruskalMST(n: nat, edges: seq<Edge>) returns (mst: seq<nat>)
    requires WellFormed(n, edges)
    ensures mst == Sweep(n, KeyOrder(Costs(edges)), Ends(edges))
    ensures Positions(mst, edges) && Acyclic(n, Chosen(edges, mst))
    ensures |mst| <= if n == 0 then 0 else n - 1
    ensures forall i, j :: 0 <= i < j < |mst| ==> edges[mst[i]].cost <= edges[mst[j]].cost
    ensures n > 0 && Connected(n, AllLinks(edges)) ==> IsSpanningTree(n, edges, mst)
  {
    mst := KeySweep(n, edges, KeyOrder(Costs(edges)));
    SweepForest(n, edges, Costs(edges));
    if n > 0 && Connected(n, AllLinks(edges)) {
      SweepSpanning(n, edges, Costs(edges));
    }
  }

  /**
   * What the sweep keeps: distinct edges of the list, in ascending key
   * order, forming an acyclic graph with at most n - 1 edges.
   */
  lemma SweepForest(n: nat, edges: seq<Edge>, keys: seq<real>)
    requires WellFormed(n, edges) && |keys| == |edges|
    ensures var sel := Sweep(n, KeyOrder(keys), Ends(edges));
      Positions(sel, edges) && Acyclic(n, Chosen(edges, sel)) &&
      (|sel| <= if n == 0 then 0 else n - 1) &&
      (forall i, j :: 0 <= i < j < |sel| ==> sel[i] != sel[j]) &&
      (forall i, j :: 0 <= i < j < |sel| ==> keys[sel[i]] <= keys[sel[j]])
  {
    var order := KeyOrder(keys);
    SweepAcyclic(n, order, Ends(edges));
    SweepSize(n, order, Ends(edges));
    SweepDistinct(n, edges, keys);
    SweepAscending(n, edges, keys);
  }

  /** The sweep keeps positions of the list, none twice. */
  lemma SweepDistinct(n: nat, edges: seq<Edge>, keys: seq<real>)
    requires |keys| == |edges|
    ensures var sel := Sweep(n, KeyOrder(keys), Ends(edges));
      Positions(sel, edges) && forall i, j :: 0 <= i < j < |sel| ==> sel[i] != sel[j]
  {
    var order := KeyOrder(keys);
    var sel: seq<nat> := Sweep<nat>(n, order, Ends(edges));
    SweepDrawsFrom(n, order, Ends(edges));
    forall i | 0 <= i < |sel| ensures sel[i] < |edges| {
      assert sel[i] in multiset(order);
    }
    DistinctOf(sel, |keys|);
  }

  /** The sweep keeps its edges in ascending key order. */
  lemma SweepAscending(n: nat, edges: seq<Edge>, keys: seq<real>)
    requires |keys| == |edges|
    ensures var sel := Sweep(n, KeyOrder(keys), Ends(edges));
      Positions(sel, edges) && forall i, j :: 0 <= i < j < |sel| ==> keys[sel[i]] <= keys[sel[j]]
  {
    var order := KeyOrder(keys);
    SweepDistinct(n, edges, keys);
    var key := (k: nat) => if k < |keys| then keys[k] else 0.0;
    assert Forest.Sorted(order, key);
    SweepSorted(n, order, Ends(edges), key);
  }

  /** On a connected graph the sweep keeps a spanning tree. */
  lemma SweepSpanning(n: nat, edges: seq<Edge>, keys: seq<real>)
    requires WellFormed(n, edges) && |keys| == |edges|
    requires n > 0 && Connected(n, AllLinks(edges))
    ensures IsSpanningTree(n, edges, Sweep(n, KeyOrder(keys), Ends(edges)))
  {
    var order := KeyOrder(keys);
    var sub := Chosen(edges, Sweep<nat>(n, order, Ends(edges)));
    var all := AllLinks(edges);
    forall k | 0 <= k < |all|
      ensures InRange(n, all[k]) && Same(n, sub, all[k].u, all[k].v)
    {
      SweepCovers(n, edges, keys, k);
    }
    forall i | 0 <= i < n ensures Same(n, sub, i, 0) {
      CoveredSame(n, all, sub, i, 0);
    }
    SweepAcyclic(n, order, Ends(edges));
    SpanningSize(n, sub);
  }

  /** The sweep connects the endpoints of every edge of the list. */
  lemma SweepCovers(n: nat, edges: seq<Edge>, keys: seq<real>, k: nat)
    requires WellFormed(n, edges) && |keys| == |edges| && k < |edges|
    ensures InRange(n, EdgeLink(edges, k))
    ensures Same(n, Chosen(edges, Sweep(n, KeyOrder(keys), Ends(edges))), EdgeLink(edges, k).u, EdgeLink(edges, k).v)
  {
    var order := KeyOrder(keys);
    forall q | 0 <= q < |order| ensures InRange(n, Ends(edges)(order[q])) {
      assert order[q] < |edges|;
    }
    assert Range(|keys|)[k] == k;
    assert k in multiset(Range(|keys|));
    assert k in multiset(order);
    var q :| 0 <= q < |order| && order[q] == k;
    SweepSpans<nat>(n, order, Ends(edges), q);
  }

  // ---------------------------------------------------------------------
  // The multi-objective variant

  /** Stream max, or 1.0 for no elements. */
  function MaxOf(xs: seq<real>): (r: real)
    ensures xs == [] ==> r == 1.0
    ensures xs != [] ==> r in xs && forall i :: 0 <= i < |xs| ==> xs[i] <= r
    decreases |xs|
  {
    if |xs| == 0 then 1.0
    else if |xs| == 1 then xs[0]
    else
      var m := MaxOf(xs[..|xs| - 1]);
      assert forall i :: 0 <= i < |xs| - 1 ==> xs[..|xs| - 1][i] == xs[i];
      if xs[|xs| - 1] > m then xs[|xs| - 1] else m
  }

  /** The maxima are nonzero, so the normalising divisions are defined. */
  predicate Scorable(edges: seq<Edge>) {
    MaxOf(Costs(edges)) != 0.0 && MaxOf(Bandwidths(edges)) != 0.0
  }

  /** Normalised cost blended with normalised bandwidth shortfall; lower is better. */
  function Score(e: Edge, maxCost: real, maxBandwidth: real): real
    requires maxCost != 0.0 && maxBandwidth != 0.0
  {
    0.5 * (e.cost / maxCost) + 0.5 * (1.0 - e.bandwidth / maxBandwidth)
  }

  function Scores(edges: seq<Edge>): (s: seq<real>)
    requires Scorable(edges)
    ensures |s| == |edges|
  {
    var mc, mb := MaxOf(Costs(edges)), MaxOf(Bandwidths(edges));
    seq(|edges|, i requires 0 <= i < |edges| => Score(edges[i], mc, mb))
  }

  /** With non-negative costs and positive bandwidths every score lies in [0, 1]. */
  lemma ScoreRange(edges: seq<Edge>, i: nat)
    requires PositiveBandwidths(edges) && i < |edges|
    requires forall j :: 0 <= j < |edges| ==> edges[j].cost >= 0.0
    requires MaxOf(Costs(edges)) > 0.0
    ensures Scorable(edges) && 0.0 <= Scores(edges)[i] <= 1.0
  {
    var mc, mb := MaxOf(Costs(edges)), MaxOf(Bandwidths(edges));
    assert Costs(edges)[i] <= mc && Bandwidths(edges)[i] <= mb;
    assert mb > 0.0 by {
      assert Bandwidths(edges)[0] > 0.0;
    }
    DivUnit(edges[i].cost, mc);
    DivUnit(edges[i].bandwidth, mb);
  }

  lemma DivUnit(a: real, b: real)
    requires 0.0 <= a <= b && b > 0.0
    ensures 0.0 <= a / b <= 1.0
  {
  }

  /** A cheaper edge with at least as much bandwidth never scores worse. */
  lemma ScoreMonotone(a: Edge, b: Edge, maxCost: real, maxBandwidth: real)
    requires maxCost > 0.0 && maxBandwidth > 0.0
    requires a.cost <= b.cost && a.bandwidth >= b.bandwidth
    ensures Score(a, maxCost, maxBandwidth) <= Score(b, maxCost, maxBandwidth)
  {
    assert a.cost / maxCost <= b.cost / maxCost by {
      assert (b.cost - a.cost) / maxCost >= 0.0;
    }
    assert a.bandwidth / maxBandwidth >= b.bandwidth / maxBandwidth by {
      assert (a.bandwidth - b.bandwidth) / maxBandwidth >= 0.0;
    }
  }

  /** multiObjectiveOptimization: the same sweep, in ascending score order. */
  method MultiObjectiveOptimization(n: nat, edges: seq<Edge>) returns (sel: seq<nat>)
    requires WellFormed(n, edges) && Scorable(edges)
    ensures sel == Sweep(n, KeyOrder(Scores(edges)), Ends(edges))
    ensures Positions(sel, edges) && Acyclic(n, Chosen(edges, sel))
    ensures |sel| <= if n == 0 then 0 else n - 1
    ensures forall i, j :: 0 <= i < j < |sel| ==> Scores(edges)[sel[i]] <= Scores(edges)[sel[j]]
    ensures n > 0 && Connected(n, AllLinks(edges)) ==> IsSpanningTree(n, edges, sel)
  {
    sel := KeySweep(n, edges, KeyOrder(Scores(edges)));
    SweepForest(n, edges, Scores(edges));
    if n > 0 && Connected(n, AllLinks(edges)) {
      SweepSpanning(n, edges, Scores(edges));
    }
  }

  // ---------------------------------------------------------------------
  // Prim's frontier growth

  /** Exactly one endpoint of e is in the set. */
  predicate Crossing(e: Edge, included: set<nat>) {
    (e.src in included) != (e.dst in included)
  }

  /**
   * primMST.  Grows the tree from node 0, always polling a cheapest queued
   * edge; an edge with both or neither endpoint included is skipped.
   * The tree reaches exactly the nodes of `included`, one more than its
   * edges, and no edge leaves the tree's component, so on a connected graph
   * it spans.
   */
  method PrimMST(n: nat, edges: seq<Edge>) returns (mst: seq<nat>)
    requires WellFormed(n, edges)
    ensures Positions(mst, edges) && Acyclic(n, Chosen(edges, mst))
    ensures n == 0 ==> mst == []
    ensures n > 0 ==> forall i :: 0 <= i < |edges| ==>
      (Same(n, Chosen(edges, mst), edges[i].src, 0) <==> Same(n, Chosen(edges, mst), edges[i].dst, 0))
    ensures n > 0 && Connected(n, AllLinks(edges)) ==> IsSpanningTree(n, edges, mst)
  {
    mst := [];
    if n == 0 {
      return;
    }
    var included: set<nat> := {0};
    var pq := PushIncident(edges, 0, {}, []);
    PrimStart(n, edges, pq);
    while pq != [] && |included| < n
      invariant PrimInvariant(n, edges, mst, included, pq)
      decreases n - |included|, |pq|
    {
      FullRange(included, n);
      var minEdge, rest := Poll(edges, pq);
      var e := edges[minEdge];
      var next: nat;
      if e.src in included && e.dst !in included {
        next := e.dst;
      } else if e.src !in included && e.dst in included {
        next := e.src;
      } else {
        PrimSkip(n, edges, mst, included, pq, minEdge, rest);
        pq := rest;
        continue;
      }
      var pq' := PushIncident(edges, next, included + {next}, rest);
      PrimStep(n, edges, mst, included, pq, minEdge, rest, next, pq');
      included, mst, pq := included + {next}, mst + [minEdge], pq';
    }
    PrimDone(n, edges, mst, included, pq);
  }

  /**
   * The state of primMST's loop: the tree's edges lie inside `included`,
   * which is exactly the tree's component of node 0 and has one node more
   * than the tree has edges; every edge leaving `included` is queued.
   */
  ghost predicate PrimInvariant(n: nat, edges: seq<Edge>, mst: seq<nat>, included: set<nat>, pq: seq<nat>) {
    WellFormed(n, edges) && Positions(pq, edges) && Positions(mst, edges) &&
    0 in included && (forall x :: x in included ==> x < n) &&
    |included| == |mst| + 1 &&
    Acyclic(n, Chosen(edges, mst)) &&
    (forall i :: 0 <= i < |mst| ==> edges[mst[i]].src in included && edges[mst[i]].dst in included) &&
    included == Component(n, Chosen(edges, mst)) &&
    (forall i :: 0 <= i < |edges| && Crossing(edges[i], included) ==> i in pq)
  }

  /** The nodes connected to node 0. */
  ghost function Component(n: nat, links: seq<Link>): set<nat> {
    set v | 0 <= v < n && Same(n, links, v, 0)
  }

  lemma PrimStart(n: nat, edges: seq<Edge>, pq: seq<nat>)
    requires WellFormed(n, edges) && n > 0 && Positions(pq, edges)
    requires forall i :: 0 <= i < |edges| && (edges[i].src == 0 || edges[i].dst == 0) ==> i in pq
    ensures PrimInvariant(n, edges, [], {0}, pq)
  {
    assert Chosen(edges, []) == [];
    forall v | 0 <= v < n ensures v in {0} <==> Same(n, [], v, 0) {
      assert Labels(n, []) == Identity(n);
    }
    assert {0} == Component(n, []);
  }

  /** Skipping a polled edge that does not leave `included` keeps the loop state. */
  lemma PrimSkip(n: nat, edges: seq<Edge>, mst: seq<nat>, included: set<nat>, pq: seq<nat>, k: nat, rest: seq<nat>)
    requires PrimInvariant(n, edges, mst, included, pq)
    requires k < |edges| && !Crossing(edges[k], included) && Positions(rest, edges)
    requires forall x :: x in pq && x != k ==> x in rest
    ensures PrimInvariant(n, edges, mst, included, rest)
  {
  }

  /** Admitting a polled edge that leaves `included`, and queueing its new frontier, keeps the loop state. */
  lemma PrimStep(n: nat, edges: seq<Edge>, mst: seq<nat>, included: set<nat>, pq: seq<nat>,
                 k: nat, rest: seq<nat>, next: nat, pq': seq<nat>)
    requires PrimInvariant(n, edges, mst, included, pq)
    requires k < |edges| && Crossing(edges[k], included) && Positions(pq', edges)
    requires next == if edges[k].src in included then edges[k].dst else edges[k].src
    requires forall x :: x in pq && x != k ==> x in rest
    requires forall i :: 0 <= i < |edges| && Crossing(edges[i], included + {next}) ==>
      (edges[i].src == next || edges[i].dst == next) ==> i in pq'
    requires forall x :: x in rest ==> x in pq'
    ensures PrimInvariant(n, edges, mst + [k], included + {next}, pq')
  {
    PrimGrow(n, edges, mst, included, k, next);
    PrimEnds(edges, mst, included, k, next);
    PrimQueued(edges, included, pq, rest, k, next, pq');
  }

  /** The newly admitted edge joins two included nodes, and the new node is one more. */
  lemma PrimEnds(edges: seq<Edge>, mst: seq<nat>, included: set<nat>, k: nat, next: nat)
    requires k < |edges| && Crossing(edges[k], included)
    requires next == if edges[k].src in included then edges[k].dst else edges[k].src
    requires forall i :: 0 <= i < |mst| ==> mst[i] < |edges| && edges[mst[i]].src in included && edges[mst[i]].dst in included
    ensures |included + {next}| == |included| + 1
    ensures forall i :: 0 <= i < |mst + [k]| ==>
      (mst + [k])[i] < |edges| && edges[(mst + [k])[i]].src in included + {next} && edges[(mst + [k])[i]].dst in included + {next}
  {
    var mst' := mst + [k];
    forall i | 0 <= i < |mst'|
      ensures mst'[i] < |edges| && edges[mst'[i]].src in included + {next} && edges[mst'[i]].dst in included + {next}
    {
      if i < |mst| {
        assert mst'[i] == mst[i];
      }
    }
  }

  /** Every edge leaving the grown tree is queued: the old ones stay, the new node's were pushed. */
  lemma PrimQueued(edges: seq<Edge>, included: set<nat>, pq: seq<nat>, rest: seq<nat>, k: nat, next: nat,
                   pq': seq<nat>)
    requires forall i :: 0 <= i < |edges| && Crossing(edges[i], included) ==> i in pq
    requires forall x :: x in pq && x != k ==> x in rest
    requires k < |edges| && (edges[k].src == next || edges[k].dst == next)
    requires forall i :: 0 <= i < |edges| && Crossing(edges[i], included + {next}) ==>
      (edges[i].src == next || edges[i].dst == next) ==> i in pq'
    requires forall x :: x in rest ==> x in pq'
    ensures forall i :: 0 <= i < |edges| && Crossing(edges[i], included + {next}) ==> i in pq'
  {
    forall i | 0 <= i < |edges| && Crossing(edges[i], included + {next}) ensures i in pq' {
      if edges[i].src != next && edges[i].dst != next {
        assert Crossing(edges[i], included) && i != k;
      }
    }
  }

  /**
   * PriorityQueue.poll: removes one occurrence of a cheapest queued edge
   * (which one among equal costs is left open).
   */
  method Poll(edges: seq<Edge>, pq: seq<nat>) returns (minEdge: nat, rest: seq<nat>)
    requires Positions(pq, edges) && pq != []
    ensures minEdge in pq && minEdge < |edges| && Positions(rest, edges)
    ensures forall j :: 0 <= j < |pq| ==> edges[minEdge].cost <= edges[pq[j]].cost
    ensures |rest| == |pq| - 1 && multiset(rest) == multiset(pq) - multiset{minEdge}
    ensures forall x :: x in pq && x != minEdge ==> x in rest
  {
    MinimumExists(edges, pq);
    var m :| 0 <= m < |pq| && forall j :: 0 <= j < |pq| ==> edges[pq[m]].cost <= edges[pq[j]].cost;
    minEdge := pq[m];
    rest := pq[..m] + pq[m + 1..];
    RemoveAt(pq, m);
  }

  /** When the queue runs dry or every node is in, no edge leaves the tree's component. */
  lemma PrimDone(n: nat, edges: seq<Edge>, mst: seq<nat>, included: set<nat>, pq: seq<nat>)
    requires WellFormed(n, edges) && n > 0
    requires pq == [] || |included| >= n
    requires Acyclic(n, Chosen(edges, mst))
    requires included == Component(n, Chosen(edges, mst))
    requires forall i :: 0 <= i < |edges| && Crossing(edges[i], included) ==> i in pq
    ensures forall i :: 0 <= i < |edges| ==>
      (Same(n, Chosen(edges, mst), edges[i].src, 0) <==> Same(n, Chosen(edges, mst), edges[i].dst, 0))
    ensures Connected(n, AllLinks(edges)) ==> IsSpanningTree(n, edges, mst)
  {
    FullRange(included, n);
    forall i | 0 <= i < |edges|
      ensures Same(n, Chosen(edges, mst), edges[i].src, 0) <==> Same(n, Chosen(edges, mst), edges[i].dst, 0)
    {
      assert !Crossing(edges[i], included);
    }
    if Connected(n, AllLinks(edges)) {
      var all := AllLinks(edges);
      forall k | 0 <= k < |all| ensures InRange(n, all[k]) && (all[k].u in included <==> all[k].v in included) {
        assert all[k] == Link(edges[k].src, edges[k].dst);
        assert !Crossing(edges[k], included);
      }
      forall v | 0 <= v < n ensures Same(n, Chosen(edges, mst), v, 0) {
        ClosedSame(n, all, included, v, 0);
      }
      SpanningSize(n, Chosen(edges, mst));
    }
  }

  /**
   * Queues, in list order, every edge with one endpoint at `node` and the
   * other outside `included` (for node 0 at the start, with nothing
   * included yet, every edge touching node 0).
   */
  method PushIncident(edges: seq<Edge>, node: nat, included: set<nat>, pq: seq<nat>) returns (pq': seq<nat>)
    requires Positions(pq, edges)
    ensures Positions(pq', edges)
    ensures forall i :: i in pq' <==> (i in pq ||
      (0 <= i < |edges| && ((edges[i].src == node && edges[i].dst !in included) ||
                            (edges[i].dst == node && edges[i].src !in included))))
  {
    pq' := pq;
    var k := 0;
    while k < |edges|
      invariant 0 <= k <= |edges|
      invariant Positions(pq', edges)
      invariant forall i :: i in pq' <==> (i in pq ||
        (0 <= i < k && ((edges[i].src == node && edges[i].dst !in included) ||
                        (edges[i].dst == node && edges[i].src !in included))))
    {
      if (edges[k].src == node && edges[k].dst !in included) ||
         (edges[k].dst == node && edges[k].src !in included) {
        pq' := pq' + [k];
      }
      k := k + 1;
    }
  }

  /** Admitting a crossing edge keeps the tree acyclic and extends its component by one node. */
  lemma PrimGrow(n: nat, edges: seq<Edge>, mst: seq<nat>, included: set<nat>, k: nat, next: nat)
    requires WellFormed(n, edges) && k < |edges|
    requires Positions(mst, edges) && Acyclic(n, Chosen(edges, mst))
    requires forall i :: 0 <= i < |mst| ==> edges[mst[i]].src in included && edges[mst[i]].dst in included
    requires included == Component(n, Chosen(edges, mst))
    requires 0 in included && Crossing(edges[k], included)
    requires next == if edges[k].src in included then edges[k].dst else edges[k].src
    ensures Acyclic(n, Chosen(edges, mst + [k]))
    ensures included + {next} == Component(n, Chosen(edges, mst + [k]))
  {
    var links := Chosen(edges, mst);
    var link := Link(edges[k].src, edges[k].dst);
    assert Ends(edges)(k) == link;
    LinksOfSnoc(mst, k, Ends(edges));
    assert Same(n, links, 0, 0);
    assert Joins(n, links, link);
    AcyclicSnoc(n, links, link);
    assert edges[k].src in included <==> Same(n, links, edges[k].src, 0);
    assert edges[k].dst in included <==> Same(n, links, edges[k].dst, 0);
    forall j | 0 <= j < |links| ensures InRange(n, links[j]) && links[j].u in included && links[j].v in included {
      assert links[j] == Link(edges[mst[j]].src, edges[mst[j]].dst);
    }
    GrowComponent(n, links, link, included, next);
  }

  /**
   * A link from the component of node 0 to a node outside it adds exactly
   * that node to the component, when every other link stays inside.
   */
  lemma GrowComponent(n: nat, links: seq<Link>, link: Link, included: set<nat>, next: nat)
    requires forall j :: 0 <= j < |links| ==> InRange(n, links[j]) && links[j].u in included && links[j].v in included
    requires included == Component(n, links)
    requires InRange(n, link) && (link.u in included) != (link.v in included)
    requires next == if link.u in included then link.v else link.u
    ensures included + {next} == Component(n, links + [link])
  {
    forall v | 0 <= v < n
      ensures v in included + {next} <==> Same(n, links + [link], v, 0)
    {
      SameSnoc(n, links, link, v, 0);
      if Same(n, links, v, next) {
        ClosedSame(n, links, {next}, v, next);
      }
    }
  }

  /** A non-empty queue has a cheapest element. */
  lemma MinimumExists(edges: seq<Edge>, pq: seq<nat>)
    requires Positions(pq, edges) && pq != []
    ensures exists m :: 0 <= m < |pq| && forall j :: 0 <= j < |pq| ==> edges[pq[m]].cost <= edges[pq[j]].cost
    decreases |pq|
  {
    if |pq| > 1 {
      var front := pq[..|pq| - 1];
      assert forall x :: x in front ==> x in pq;
      MinimumExists(edges, front);
      var m :| 0 <= m < |front| && forall j :: 0 <= j < |front| ==> edges[front[m]].cost <= edges[front[j]].cost;
      if edges[pq[|pq| - 1]].cost < edges[pq[m]].cost {
        assert forall j :: 0 <= j < |pq| ==> edges[pq[|pq| - 1]].cost <= edges[pq[j]].cost;
      } else {
        assert forall j :: 0 <= j < |pq| ==> edges[pq[m]].cost <= edges[pq[j]].cost;
      }
    } else {
      assert forall j :: 0 <= j < |pq| ==> edges[pq[0]].cost <= edges[pq[j]].cost;
    }
  }

  // ---------------------------------------------------------------------
  // The spanning-tree test

  /**
   * isValidSpanningTree: the selection has n - 1 edges and, after a union
   * for each of them, every node has node 0's root.
   */
  method IsValidSpanningTree(n: nat, edges: seq<Edge>, sol: seq<nat>) returns (r: bool)
    requires WellFormed(n, edges) && Positions(sol, edges)
    ensures r <==> IsSpanningTree(n, edges, sol)
  {
    if |sol| != n - 1 {
      return false;
    }
    var ds := UnionAll(n, edges, sol);
    var root := ds.Find(0);
    r := AllWithRoot(ds, n, root);
  }

  /** The loop of isValidSpanningTree: every node from 1 on has root as its root. */
  method AllWithRoot(ds: DisjointSet, n: nat, root: int) returns (ok: bool)
    requires ds.Valid() && ds.parent.Length == n && n > 0 && root == ds.Reps()[0]
    modifies ds.parent
    ensures ds.Valid() && ds.Reps() == old(ds.Reps())
    ensures ok <==> forall v :: 0 <= v < n ==> ds.Reps()[v] == root
  {
    var j := 1;
    while j < n
      invariant 1 <= j <= n
      invariant ds.Valid() && ds.Reps() == old(ds.Reps())
      invariant forall v :: 0 <= v < j ==> ds.Reps()[v] == root
    {
      var rj := ds.Find(j);
      if rj != root {
        return false;
      }
      j := j + 1;
    }
    return true;
  }

  /** A fresh disjoint-set forest after a union for every selected edge. */
  method UnionAll(n: nat, edges: seq<Edge>, sol: seq<nat>) returns (ds: DisjointSet)
    requires WellFormed(n, edges) && Positions(sol, edges)
    ensures fresh(ds) && fresh(ds.parent) && fresh(ds.rank)
    ensures ds.Tracks(Chosen(edges, sol)) && ds.parent.Length == n
  {
    ds := new DisjointSet(n);
    var i := 0;
    while i < |sol|
      invariant 0 <= i <= |sol|
      invariant fresh(ds) && fresh(ds.parent) && fresh(ds.rank)
      invariant ds.Tracks(Chosen(edges, sol[..i])) && ds.parent.Length == n
    {
      var e := sol[i];
      var u, v := edges[e].src, edges[e].dst;
      ChosenSnoc(edges, sol, i);
      ghost var reps := ds.Reps();
      ds.Union(u, v);
      ds.UnionTracks(Chosen(edges, sol[..i]), u, v, reps);
      i := i + 1;
    }
    assert sol[..i] == sol;
  }

  lemma ChosenSnoc(edges: seq<Edge>, sol: seq<nat>, i: nat)
    requires i < |sol| && sol[i] < |edges|
    ensures Chosen(edges, sol[..i + 1]) == Chosen(edges, sol[..i]) + [Link(edges[sol[i]].src, edges[sol[i]].dst)]
  {
    assert sol[..i + 1] == sol[..i] + [sol[i]];
    LinksOfSnoc(sol[..i], sol[i], Ends(edges));
  }

  /** A spanning selection of n - 1 edges is a tree: it has no cycle. */
  lemma SpanningTreeAcyclic(n: nat, edges: seq<Edge>, sol: seq<nat>)
    requires n > 0 && IsSpanningTree(n, edges, sol)
    ensures Acyclic(n, Chosen(edges, sol))
  {
    TreeCharacterization(n, Chosen(edges, sol));
  }

  // ---------------------------------------------------------------------
  // The solution score

  function CostOf(e: Edge): real { e.cost }

  function BandwidthOf(e: Edge): real { e.bandwidth }

  /** Stream average of the bandwidths, or 1.0 for no edges. */
  function AverageBandwidth(s: seq<Edge>): (r: real)
    ensures (forall i :: 0 <= i < |s| ==> s[i].bandwidth > 0.0) ==> r > 0.0
  {
    if s == [] then 1.0
    else
      SumPositive(s);
      Sum(s, BandwidthOf) / (|s| as real)
  }

  lemma {:induction false} SumPositive(s: seq<Edge>)
    ensures s != [] && (forall i :: 0 <= i < |s| ==> s[i].bandwidth > 0.0) ==> Sum(s, BandwidthOf) > 0.0
    decreases |s|
  {
    if |s| > 1 {
      SumPositive(s[..|s| - 1]);
    } else if |s| == 1 {
      assert s[..0] == [];
    }
  }

  /** evaluateSolution: 0.7 * total cost + 0.3 * 1000 / average bandwidth; lower is better. */
  function Evaluate(s: seq<Edge>): real
    requires AverageBandwidth(s) != 0.0
  {
    0.7 * Sum(s, CostOf) + 0.3 * (1.0 / AverageBandwidth(s)) * 1000.0
  }

  /** The score of a solution depends only on which edges it holds, not their order. */
  lemma EvaluatePermutation(s: seq<Edge>, t: seq<Edge>)
    requires multiset(s) == multiset(t) && AverageBandwidth(s) != 0.0
    ensures AverageBandwidth(t) == AverageBandwidth(s) && Evaluate(t) == Evaluate(s)
  {
    SumPermutation(s, t, CostOf);
    SumPermutation(s, t, BandwidthOf);
    assert |s| == |multiset(s)| == |t|;
  }

  /** Exchanging an edge for a cheaper one of equal bandwidth lowers the score. */
  lemma EvaluateCheaper(a: seq<Edge>, x: Edge, y: Edge, b: seq<Edge>)
    requires y.cost < x.cost && y.bandwidth == x.bandwidth
    requires AverageBandwidth(a + [x] + b) != 0.0
    ensures AverageBandwidth(a + [y] + b) == AverageBandwidth(a + [x] + b)
    ensures Evaluate(a + [y] + b) < Evaluate(a + [x] + b)
  {
    SumAppend(a + [x], b, CostOf);
    SumAppend(a, [x], CostOf);
    SumAppend(a + [y], b, CostOf);
    SumAppend(a, [y], CostOf);
    SumAppend(a + [x], b, BandwidthOf);
    SumAppend(a, [x], BandwidthOf);
    SumAppend(a + [y], b, BandwidthOf);
    SumAppend(a, [y], BandwidthOf);
    assert [x][..0] == [] && [y][..0] == [];
  }

  // ---------------------------------------------------------------------
  // Hill climbing

  /** List.remove: drop the first occurrence of x, if any. */
  function RemoveFirst(s: seq<nat>, x: nat): (r: seq<nat>)
    ensures x in s ==> |r| == |s| - 1 && multiset(r) == multiset(s) - multiset{x}
    ensures x !in s ==> r == s
    ensures forall i :: 0 <= i < |r| ==> r[i] in s
    decreases |s|
  {
    if s == [] then []
    else if s[0] == x then
      assert s == [s[0]] + s[1..];
      s[1..]
    else
      assert s == [s[0]] + s[1..];
      [s[0]] + RemoveFirst(s[1..], x)
  }

  /** The candidate that swaps the p-th solution edge for edge k. */
  function Swap(sol: seq<nat>, p: nat, k: nat): (c: seq<nat>)
    requires p < |sol|
    ensures |c| == |sol| && multiset(c) == multiset(sol) - multiset{sol[p]} + multiset{k}
  {
    RemoveFirst(sol, sol[p]) + [k]
  }

  /** Swapping sol[p] for edge k does not give a better valid tree. */
  ghost predicate NoGain(n: nat, edges: seq<Edge>, sol: seq<nat>, p: nat, k: nat)
    requires Positions(sol, edges) && PositiveBandwidths(edges) && p < |sol| && k < |edges|
  {
    k in sol || !IsSpanningTree(n, edges, Swap(sol, p, k)) ||
    Evaluate(Pick(edges, Swap(sol, p, k))) >= Evaluate(Pick(edges, sol))
  }

  /** No single-edge swap gives a better valid tree. */
  ghost predicate LocallyOptimal(n: nat, edges: seq<Edge>, sol: seq<nat>)
    requires Positions(sol, edges) && PositiveBandwidths(edges)
  {
    forall p, k :: 0 <= p < |sol| && 0 <= k < |edges| ==> NoGain(n, edges, sol, p, k)
  }

  /**
   * The refinement loop of hillClimbingOptimization: at most 100 passes,
   * each taking the first swap that yields a valid tree of lower score.
   * The score never rises, the size never changes, every accepted solution
   * is a spanning tree, and fewer than 100 passes mean no swap helps.
   */
  method Refine(n: nat, edges: seq<Edge>, initial: seq<nat>) returns (sol: seq<nat>, ghost passes: nat)
    requires WellFormed(n, edges) && PositiveBandwidths(edges) && Positions(initial, edges)
    ensures Positions(sol, edges) && |sol| == |initial|
    ensures Evaluate(Pick(edges, sol)) <= Evaluate(Pick(edges, initial))
    ensures sol == initial || IsSpanningTree(n, edges, sol)
    ensures 1 <= passes <= 100
    ensures passes < 100 ==> LocallyOptimal(n, edges, sol)
  {
    sol := initial;
    var score := Evaluate(Pick(edges, sol));
    var improved := true;
    var iterations := 0;
    while improved && iterations < 100
      invariant 0 <= iterations <= 100
      invariant Positions(sol, edges) && |sol| == |initial|
      invariant score == Evaluate(Pick(edges, sol)) <= Evaluate(Pick(edges, initial))
      invariant sol == initial || IsSpanningTree(n, edges, sol)
      invariant iterations == 0 ==> improved
      invariant !improved ==> LocallyOptimal(n, edges, sol)
      decreases 100 - iterations
    {
      iterations := iterations + 1;
      improved, sol, score := Pass(n, edges, sol, score);
    }
    passes := iterations;
  }

  /**
   * One pass of the refinement: the first swap, scanning solution edges
   * and then list edges in order, that gives a valid tree of lower score.
   */
  method Pass(n: nat, edges: seq<Edge>, cur: seq<nat>, score: real)
    returns (improved: bool, sol: seq<nat>, score': real)
    requires WellFormed(n, edges) && PositiveBandwidths(edges) && Positions(cur, edges)
    requires score == Evaluate(Pick(edges, cur))
    ensures Positions(sol, edges) && |sol| == |cur| && score' == Evaluate(Pick(edges, sol))
    ensures improved ==> IsSpanningTree(n, edges, sol) && score' < score
    ensures improved ==>
      exists p, k :: 0 <= p < |cur| && 0 <= k < |edges| && k !in cur && sol == Swap(cur, p, k) &&
        (forall q, j :: 0 <= q < p && 0 <= j < |edges| ==> NoGain(n, edges, cur, q, j)) &&
        (forall j :: 0 <= j < k ==> NoGain(n, edges, cur, p, j))
    ensures !improved ==> sol == cur && score' == score && LocallyOptimal(n, edges, cur)
  {
    var p := 0;
    while p < |cur|
      invariant 0 <= p <= |cur|
      invariant forall q, k :: 0 <= q < p && 0 <= k < |edges| ==> NoGain(n, edges, cur, q, k)
    {
      improved, sol, score' := SwapsAt(n, edges, cur, p, score);
      if improved {
        return;
      }
      p := p + 1;
    }
    improved, sol, score' := false, cur, score;
  }

  /** The first edge k, in list order, whose swap for cur[p] gives a valid tree of lower score. */
  method SwapsAt(n: nat, edges: seq<Edge>, cur: seq<nat>, p: nat, score: real)
    returns (improved: bool, sol: seq<nat>, score': real)
    requires WellFormed(n, edges) && PositiveBandwidths(edges) && Positions(cur, edges) && p < |cur|
    requires score == Evaluate(Pick(edges, cur))
    ensures Positions(sol, edges) && |sol| == |cur| && score' == Evaluate(Pick(edges, sol))
    ensures improved ==> IsSpanningTree(n, edges, sol) && score' < score
    ensures improved ==>
      exists k :: 0 <= k < |edges| && k !in cur && sol == Swap(cur, p, k) &&
        forall j :: 0 <= j < k ==> NoGain(n, edges, cur, p, j)
    ensures !improved ==> sol == cur && score' == score && forall k :: 0 <= k < |edges| ==> NoGain(n, edges, cur, p, k)
  {
    var k := 0;
    while k < |edges|
      invariant 0 <= k <= |edges|
      invariant forall j :: 0 <= j < k ==> NoGain(n, edges, cur, p, j)
    {
      if k !in cur {
        var candidate := Swap(cur, p, k);
        var valid := IsValidSpanningTree(n, edges, candidate);
        if valid {
          var candidateScore := Evaluate(Pick(edges, candidate));
          if candidateScore < score {
            return true, candidate, candidateScore;
          }
        }
      }
      k := k + 1;
    }
    return false, cur, score;
  }

  /** hillClimbingOptimization: Kruskal's tree, then refinement. */
  method HillClimbingOptimization(n: nat, edges: seq<Edge>) returns (sol: seq<nat>)
    requires WellFormed(n, edges) && PositiveBandwidths(edges)
    ensures var start := Sweep(n, KeyOrder(Costs(edges)), Ends(edges));
      Positions(start, edges) && Positions(sol, edges) && |sol| == |start| &&
      Evaluate(Pick(edges, sol)) <= Evaluate(Pick(edges, start)) &&
      (sol == start || IsSpanningTree(n, edges, sol))
  {
    var start := KruskalMST(n, edges);
    ghost var passes;
    sol, passes := Refine(n, edges, start);
  }
}
