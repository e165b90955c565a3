/**
 * MinimumNetworkCost: the cheapest way to power n devices, each either
 * fitted with its own module (an edge from a virtual node 0 to the device,
 * at the module's price) or cabled to a powered device.  Kruskal's
 * algorithm over the module and cable edges, in ascending stable cost
 * order, with a union-find structure whose ranks start at 1.
 */
module MinNetworkCost {
  import opened Forest
  import opened Roots
  import opened Sorting

  /** An edge {u, v, cost}: either a module edge from node 0 or a cable between devices. */
  datatype Wire = Wire(u: nat, v: nat, cost: int)

  class UnionFind {
    var parent: array<int>
    var rank: array<int>

    ghost predicate Valid()
      reads this, parent, rank
    {
      parent != rank && Ranked(parent[..], rank[..])
    }

    /** The representative of every element's set. */
    ghost function Reps(): (r: seq<nat>)
      reads this, parent, rank
      requires Valid()
      ensures |r| == parent.Length
    {
      RootsOf(parent[..], rank[..])
    }

    /** The sets are the components of the graph with these links. */
    ghost predicate Tracks(links: seq<Link>)
      reads this, parent, rank
    {
      Valid() && Represents(Reps(), parent.Length, links)
    }

    /** The elements 0..n, each in a set of its own, with rank 1. */
    constructor (n: nat)
      ensures Valid() && parent.Length == n + 1 && fresh(parent) && fresh(rank)
      ensures Reps() == Identity(n + 1) && Tracks([])
      ensures forall i :: 0 <= i <= n ==> parent[i] == i && rank[i] == 1
    {
      parent := new int[n + 1];
      rank := new int[n + 1];
      new;
      var i := 0;
      while i <= n
        invariant 0 <= i <= n + 1
        invariant forall j :: 0 <= j < i ==> parent[j] == j && rank[j] == 1
        modifies parent, rank
      {
        parent[i] := i;
        rank[i] := 1;
        i := i + 1;
      }
      assert Valid();
      assert Reps() == Identity(n + 1);
      IdentityRepresents(n + 1);
    }

    /** find: the representative of x's set; path compression keeps every representative and points x at its own. */
    method Find(x: int) returns (r: int)
      requires Valid() && 0 <= x < parent.Length
      modifies parent
      ensures Valid() && Reps() == old(Reps())
      ensures r == Reps()[x] && parent[x] == r
      decreases MaxRank(rank[..]) - rank[x]
    {
      if parent[x] != x {
        ghost var p := parent[..];
        var root := Find(parent[x]);
        ghost var p' := parent[..];
        assert Root(p', rank[..], x) == root;
        parent[x] := root;
        assert parent[..] == p'[x := root];
        CompressRanked(p', parent[..], rank[..]);
        forall i | 0 <= i < parent.Length
          ensures Root(parent[..], rank[..], i) == Root(p, rank[..], i)
        {
          CompressRoot(p', parent[..], rank[..], i);
        }
      }
      return parent[x];
    }

    /**
     * union: false, with the sets unchanged, when x and y already share a
     * set; otherwise true, and the lower-ranked root is hung under the
     * other (y's under x's on a tie, whose rank then grows by one).
     */
    method Union(x: int, y: int) returns (joined: bool)
      requires Valid() && 0 <= x < parent.Length && 0 <= y < parent.Length
      modifies parent, rank
      ensures Valid()
      ensures joined <==> old(Reps())[x] != old(Reps())[y]
      ensures var rx, ry := old(Reps())[x], old(Reps())[y];
        Reps() ==
          if rx != ry && old(rank[rx]) < old(rank[ry]) then Merge(old(Reps()), Link(y, x))
          else Merge(old(Reps()), Link(x, y))
      ensures var rx, ry := old(Reps())[x], old(Reps())[y];
        rank[..] ==
          if rx != ry && old(rank[rx]) == old(rank[ry]) then old(rank[..])[rx := old(rank[rx]) + 1]
          else old(rank[..])
    {
      ghost var reps := Reps();
      var rootX := Find(x);
      var rootY := Find(y);
      if rootX == rootY {
        assert Merge(reps, Link(x, y)) == reps;
        return false;
      }
      ghost var p := parent[..];
      ghost var rk := rank[..];
      if rank[rootX] > rank[rootY] {
        parent[rootY] := rootX;
        LinkRoots(p, rk, rank[..], x, y);
      } else if rank[rootX] < rank[rootY] {
        parent[rootX] := rootY;
        LinkRoots(p, rk, rank[..], y, x);
      } else {
        parent[rootY] := rootX;
        rank[rootX] := rank[rootX] + 1;
        LinkRoots(p, rk, rank[..], x, y);
      }
      return true;
    }

    /** The merge of Union, stated on the graph the sets describe. */
    lemma UnionTracks(links: seq<Link>, x: nat, y: nat, reps: seq<nat>)
      requires Represents(reps, parent.Length, links) && x < parent.Length && y < parent.Length
      requires Valid()
      requires Reps() == Merge(reps, Link(x, y)) || Reps() == Merge(reps, Link(y, x))
      ensures Tracks(links + [Link(x, y)])
    {
      MergeRepresents(reps, parent.Length, links, Link(x, y));
    }
  }

  function WireEnds(w: Wire): Link {
    Link(w.u, w.v)
  }

  predicate CostLe(a: Wire, b: Wire) {
    a.cost <= b.cost
  }

  /** The module edges (0, i + 1, modules[i]) followed by the cables. */
  function AllWires(n: nat, modules: seq<int>, connections: seq<Wire>): seq<Wire>
    requires n <= |modules|
  {
    seq(n, i requires 0 <= i < n => Wire(0, i + 1, modules[i])) + connections
  }

  /** The cheapest edges first; edges of equal cost keep their list order. */
  function ByCost(wires: seq<Wire>): seq<Wire> {
    SortBy(wires, CostLe)
  }

  /** The total cost of the edges. */
  function Total(wires: seq<Wire>): int
    decreases |wires|
  {
    if wires == [] then 0 else Total(wires[..|wires| - 1]) + wires[|wires| - 1].cost
  }

  /** The edges whose union succeeds: the Kruskal sweep over the nodes 0..n. */
  ghost function Taken(n: nat, modules: seq<int>, connections: seq<Wire>): seq<Wire>
    requires n <= |modules|
  {
    Sweep(n + 1, ByCost(AllWires(n, modules, connections)), WireEnds)
  }

  /** Every cable joins two of the nodes 0..n. */
  predicate Cabled(n: nat, connections: seq<Wire>) {
    forall i :: 0 <= i < |connections| ==> connections[i].u <= n && connections[i].v <= n
  }

  /** The edge list as the two loops build it. */
  method BuildEdges(n: nat, modules: seq<int>, connections: seq<Wire>) returns (edges: seq<Wire>)
    requires n <= |modules|
    ensures edges == AllWires(n, modules, connections)
  {
    edges := [];
    for i := 0 to n
      invariant edges == seq(i, j requires 0 <= j < i => Wire(0, j + 1, modules[j]))
    {
      edges := edges + [Wire(0, i + 1, modules[i])];
    }
    for i := 0 to |connections|
      invariant edges == seq(n, j requires 0 <= j < n => Wire(0, j + 1, modules[j])) + connections[..i]
    {
      edges := edges + [connections[i]];
    }
    assert connections[..|connections|] == connections;
  }

  /** One step of the sweep: the edge is taken exactly when it joins two components and fewer than m - 1 edges are taken. */
  lemma SweepOne(m: nat, sorted: seq<Wire>, i: nat, taken: seq<Wire>, joined: bool)
    requires i < |sorted| && InRange(m, WireEnds(sorted[i]))
    requires taken == Sweep(m, sorted[..i], WireEnds) && (|taken| < m - 1 || (m == 1 && taken == []))
    requires joined <==> Joins(m, LinksOf(taken, WireEnds), WireEnds(sorted[i]))
    ensures Sweep(m, sorted[..i + 1], WireEnds) == if joined then taken + [sorted[i]] else taken
  {
    assert sorted[..i + 1] == sorted[..i] + [sorted[i]];
    SweepSnoc(m, sorted[..i], sorted[i], WireEnds);
  }

  /** Once m - 1 edges are taken from a prefix, the rest of the list adds none. */
  lemma SweepFull(m: nat, items: seq<Wire>, k: nat)
    requires k <= |items| && |Sweep(m, items[..k], WireEnds)| >= m - 1
    ensures Sweep(m, items, WireEnds) == Sweep(m, items[..k], WireEnds)
  {
    SweepSaturated(m, items[..k], items[k..], WireEnds);
    assert items[..k] + items[k..] == items;
  }

  lemma TotalSnoc(wires: seq<Wire>, w: Wire)
    ensures Total(wires + [w]) == Total(wires) + w.cost
  {
    assert (wires + [w])[..|wires|] == wires;
  }

  lemma SortedInRange(n: nat, modules: seq<int>, connections: seq<Wire>)
    requires n <= |modules| && Cabled(n, connections)
    ensures forall i :: 0 <= i < |ByCost(AllWires(n, modules, connections))| ==>
      InRange(n + 1, WireEnds(ByCost(AllWires(n, modules, connections))[i]))
  {
    var all := AllWires(n, modules, connections);
    var sorted := ByCost(all);
    forall i | 0 <= i < |sorted| ensures InRange(n + 1, WireEnds(sorted[i])) {
      assert sorted[i] in multiset(all);
      var j :| 0 <= j < |all| && all[j] == sorted[i];
      if j >= n {
        assert all[j] == connections[j - n];
      }
    }
  }

  /**
   * minCostToConnectDevices: the total cost of the edges Kruskal's
   * algorithm takes, stopping once n edges are taken.
   */
  method MinCostToConnectDevices(n: nat, modules: seq<int>, connections: seq<Wire>) returns (totalCost: int)
    requires n <= |modules| && Cabled(n, connections)
    ensures totalCost == Total(Taken(n, modules, connections))
  {
    var edges := BuildEdges(n, modules, connections);
    var sorted := ByCost(edges);
    SortedInRange(n, modules, connections);
    totalCost := Kruskal(n + 1, sorted);
  }

  /** One union of the Kruskal loop: it succeeds exactly when the edge joins two components of the edges taken. */
  method Connect(uf: UnionFind, m: nat, ghost taken: seq<Wire>, e: Wire) returns (joined: bool)
    requires uf.Tracks(LinksOf(taken, WireEnds)) && uf.parent.Length == m && InRange(m, WireEnds(e))
    modifies uf.parent, uf.rank
    ensures uf.parent.Length == m
    ensures joined <==> Joins(m, LinksOf(taken, WireEnds), WireEnds(e))
    ensures uf.Tracks(LinksOf(if joined then taken + [e] else taken, WireEnds))
  {
    ghost var links := LinksOf(taken, WireEnds);
    ghost var reps := uf.Reps();
    joined := uf.Union(e.u, e.v);
    if joined {
      uf.UnionTracks(links, e.u, e.v, reps);
      LinksOfSnoc(taken, e, WireEnds);
    } else {
      assert uf.Reps() == reps by {
        assert Merge(reps, Link(e.u, e.v)) == reps;
      }
    }
  }

  /**
   * The Kruskal loop over the sorted edges on the m = n + 1 nodes 0..n
   * (UnionFind(n) covers n + 1 indices); it stops once m - 1 = n edges
   * are taken.
   */
  method Kruskal(m: nat, sorted: seq<Wire>) returns (totalCost: int)
    requires m >= 1
    requires forall i :: 0 <= i < |sorted| ==> InRange(m, WireEnds(sorted[i]))
    ensures totalCost == Total(Sweep(m, sorted, WireEnds))
  {
    var uf := new UnionFind(m - 1);
    totalCost := 0;
    var edgesUsed := 0;
    ghost var taken: seq<Wire> := [];
    assert LinksOf(taken, WireEnds) == [];
    assert sorted[..0] == [];
    var i := 0;
    while i < |sorted|
      invariant 0 <= i <= |sorted|
      invariant fresh(uf.parent) && fresh(uf.rank)
      invariant Sweeping(uf, m, sorted, i, taken, totalCost, edgesUsed)
    {
      var joined;
      joined, taken, totalCost, edgesUsed := KruskalStep(uf, m, sorted, i, taken, totalCost, edgesUsed);
      if joined && edgesUsed == m - 1 {
        SweepFull(m, sorted, i + 1);
        return;
      }
      i := i + 1;
    }
    assert sorted[..i] == sorted;
  }

  /**
   * The Kruskal loop state after the first i edges: the union-find sets
   * are the components of the edges taken, which are the sweep of those
   * edges, counted by edgesUsed and summed in totalCost.
   */
  ghost predicate Sweeping(uf: UnionFind, m: nat, sorted: seq<Wire>, i: nat, taken: seq<Wire>,
                           totalCost: int, edgesUsed: int)
    reads uf, uf.parent, uf.rank
  {
    i <= |sorted| && uf.Tracks(LinksOf(taken, WireEnds)) && uf.parent.Length == m &&
    taken == Sweep(m, sorted[..i], WireEnds) &&
    edgesUsed == |taken| && (|taken| < m - 1 || (m == 1 && taken == [])) && totalCost == Total(taken)
  }

  /** One pass of the Kruskal loop: union the edge's ends, and on success count it and add its cost. */
  method KruskalStep(uf: UnionFind, m: nat, sorted: seq<Wire>, i: nat, ghost taken: seq<Wire>,
                     totalCost: int, edgesUsed: int)
    returns (joined: bool, ghost taken': seq<Wire>, totalCost': int, edgesUsed': int)
    requires i < |sorted| && InRange(m, WireEnds(sorted[i])) && m >= 1
    requires Sweeping(uf, m, sorted, i, taken, totalCost, edgesUsed)
    modifies uf.parent, uf.rank
    ensures edgesUsed' == |taken'| <= m - 1 && taken' == Sweep(m, sorted[..i + 1], WireEnds)
    ensures !(joined && edgesUsed' == m - 1) ==> Sweeping(uf, m, sorted, i + 1, taken', totalCost', edgesUsed')
    ensures totalCost' == Total(taken')
  {
    var e := sorted[i];
    joined := Connect(uf, m, taken, e);
    SweepOne(m, sorted, i, taken, joined);
    taken', totalCost', edgesUsed' := taken, totalCost, edgesUsed;
    if joined {
      TotalSnoc(taken, e);
      totalCost' := totalCost + e.cost;
      edgesUsed' := edgesUsed + 1;
      taken' := taken + [e];
    }
  }

  /** Sorting keeps a module edge for every device. */
  lemma AllPowered(n: nat, modules: seq<int>, connections: seq<Wire>)
    requires n <= |modules|
    ensures forall d :: 0 < d <= n ==> Powered(ByCost(AllWires(n, modules, connections)), d)
  {
    var all := AllWires(n, modules, connections);
    var sorted := ByCost(all);
    forall d | 0 < d <= n ensures Powered(sorted, d) {
      assert all[d - 1] == Wire(0, d, modules[d - 1]);
      assert all[d - 1] in multiset(sorted);
      var q :| 0 <= q < |sorted| && sorted[q] == all[d - 1];
      assert WireEnds(sorted[q]) == Link(0, d);
    }
  }

  /**
   * The edges taken always connect every device to the virtual node
   * without a cycle, so exactly n edges are taken: one per device.
   */
  lemma TakenSpans(n: nat, modules: seq<int>, connections: seq<Wire>)
    requires n <= |modules| && Cabled(n, connections)
    ensures var links := LinksOf(Taken(n, modules, connections), WireEnds);
      Acyclic(n + 1, links) && Connected(n + 1, links) && |links| == n
  {
    var all := AllWires(n, modules, connections);
    var sorted := ByCost(all);
    SortedInRange(n, modules, connections);
    SweepAcyclic(n + 1, sorted, WireEnds);
    AllPowered(n, modules, connections);
    SweepConnects(n, sorted);
    SpanningSize(n + 1, LinksOf(Sweep(n + 1, sorted, WireEnds), WireEnds));
  }

  /** Some edge of the list joins device d to the virtual node. */
  ghost predicate Powered(wires: seq<Wire>, d: nat) {
    exists q :: 0 <= q < |wires| && WireEnds(wires[q]) == Link(0, d)
  }

  /** A sorted list holding a module edge for every device: the sweep connects all nodes. */
  lemma SweepConnects(n: nat, sorted: seq<Wire>)
    requires forall i :: 0 <= i < |sorted| ==> InRange(n + 1, WireEnds(sorted[i]))
    requires forall d :: 0 < d <= n ==> Powered(sorted, d)
    ensures Connected(n + 1, LinksOf(Sweep(n + 1, sorted, WireEnds), WireEnds))
  {
    var m := n + 1;
    var links := LinksOf(Sweep(m, sorted, WireEnds), WireEnds);
    forall d | 0 <= d < m ensures Same(m, links, d, 0) {
      if d > 0 {
        assert Powered(sorted, d);
        var q :| 0 <= q < |sorted| && WireEnds(sorted[q]) == Link(0, d);
        SweepSpans(m, sorted, WireEnds, q);
      }
    }
  }

  /** The edges taken are cheapest first. */
  lemma TakenAscending(n: nat, modules: seq<int>, connections: seq<Wire>)
    requires n <= |modules|
    ensures var t := Taken(n, modules, connections);
      forall i, j :: 0 <= i < j < |t| ==> t[i].cost <= t[j].cost
  {
    var sorted := ByCost(AllWires(n, modules, connections));
    var key := (w: Wire) => w.cost as real;
    SortSorted(AllWires(n, modules, connections), CostLe);
    assert Forest.Sorted(sorted, key);
    SweepSorted(n + 1, sorted, WireEnds, key);
  }
}
