/**
 * PackageDelivery.java: pick the start node from which every package node
 * is within two roads, minimising the round trips to them.  Distances come
 * from a breadth-first search over an undirected graph of adjacency lists.
 */
module Delivery {

  /** Integer.MAX_VALUE, the "no start found yet" sentinel. */
  const INT_MAX := 0x7fff_ffff

  /** Adjacency lists: graph[u] lists the nodes u has a road to. */
  type Graph = seq<seq<int>>

  ghost predicate WellFormed(graph: Graph) {
    forall u, i :: 0 <= u < |graph| && 0 <= i < |graph[u]| ==> 0 <= graph[u][i] < |graph|
  }

  /** Both ends of every road are nodes; the source indexes its lists by them. */
  predicate ValidRoads(n: int, roads: seq<(int, int)>) {
    forall r :: 0 <= r < |roads| ==> 0 <= roads[r].0 < n && 0 <= roads[r].1 < n
  }

  // ---------------------------------------------------------------------
  // The graph
  // ---------------------------------------------------------------------

  /** u's adjacency list after the roads: road (a, b) appends b to a's list and then a to b's. */
  function Neighbours(roads: seq<(int, int)>, u: int): seq<int> {
    if roads == [] then []
    else
      var (a, b) := roads[|roads| - 1];
      Neighbours(roads[..|roads| - 1], u) + (if a == u then [b] else []) + (if b == u then [a] else [])
  }

  /** v is adjacent to u exactly when some road joins them, in either direction. */
  lemma {:induction false} NeighboursRoads(roads: seq<(int, int)>, u: int, v: int)
    ensures v in Neighbours(roads, u) <==> exists r :: 0 <= r < |roads| && (roads[r] == (u, v) || roads[r] == (v, u))
  {
    if roads != [] {
      var front := roads[..|roads| - 1];
      NeighboursRoads(front, u, v);
      if exists r :: 0 <= r < |front| && (front[r] == (u, v) || front[r] == (v, u)) {
        var r :| 0 <= r < |front| && (front[r] == (u, v) || front[r] == (v, u));
        assert roads[r] == front[r];
      }
      if exists r :: 0 <= r < |roads| && (roads[r] == (u, v) || roads[r] == (v, u)) {
        var r :| 0 <= r < |roads| && (roads[r] == (u, v) || roads[r] == (v, u));
        if r < |front| {
          assert front[r] == roads[r];
        }
      }
    }
  }

  /** Roads are undirected: adjacency is symmetric. */
  lemma NeighboursSymmetric(roads: seq<(int, int)>, u: int, v: int)
    ensures v in Neighbours(roads, u) <==> u in Neighbours(roads, v)
  {
    NeighboursRoads(roads, u, v);
    NeighboursRoads(roads, v, u);
  }

  lemma {:induction false} NeighboursBounded(n: int, roads: seq<(int, int)>, u: int)
    requires ValidRoads(n, roads)
    ensures forall i :: 0 <= i < |Neighbours(roads, u)| ==> 0 <= Neighbours(roads, u)[i] < n
  {
    if roads != [] {
      NeighboursBounded(n, roads[..|roads| - 1], u);
    }
  }

  ghost function Adjacency(n: nat, roads: seq<(int, int)>): (graph: Graph)
    requires ValidRoads(n, roads)
    ensures |graph| == n && WellFormed(graph)
  {
    var graph := seq(n, u => Neighbours(roads, u));
    assert WellFormed(graph) by {
      forall u | 0 <= u < n {
        NeighboursBounded(n, roads, u);
      }
    }
    graph
  }

  /** The graph lists of minRoadsToTraverse: one empty list per node, then both directions of every road. */
  method BuildGraph(n: nat, roads: seq<(int, int)>) returns (graph: Graph)
    requires ValidRoads(n, roads)
    ensures graph == Adjacency(n, roads)
  {
    graph := [];
    for i := 0 to n
      invariant graph == seq(i, _ => [])
    {
      graph := graph + [[]];
    }
    for r := 0 to |roads|
      invariant |graph| == n
      invariant forall u :: 0 <= u < n ==> graph[u] == Neighbours(roads[..r], u)
    {
      assert roads[..r + 1][..r] == roads[..r];
      var (a, b) := roads[r];
      graph := graph[a := graph[a] + [b]];
      graph := graph[b := graph[b] + [a]];
    }
    assert roads[..|roads|] == roads;
  }

  // ---------------------------------------------------------------------
  // Walks and distances
  // ---------------------------------------------------------------------

  /** There is a walk of exactly d roads from start to v. */
  ghost predicate Reach(graph: Graph, start: int, v: int, d: nat)
    decreases d
  {
    if d == 0 then v == start
    else exists u :: 0 <= u < |graph| && Reach(graph, start, u, d - 1) && v in graph[u]
  }

  /** e is the length of a shortest walk from start to v. */
  ghost predicate Least(graph: Graph, start: int, v: int, e: nat) {
    Reach(graph, start, v, e) && forall f: nat :: f < e ==> !Reach(graph, start, v, f)
  }

  lemma {:induction false} LeastWalk(graph: Graph, start: int, v: int, d: nat)
    requires Reach(graph, start, v, d)
    ensures exists e: nat :: Least(graph, start, v, e)
    decreases d
  {
    if exists f: nat :: f < d && Reach(graph, start, v, f) {
      var f: nat :| f < d && Reach(graph, start, v, f);
      LeastWalk(graph, start, v, f);
    } else {
      assert Least(graph, start, v, d);
    }
  }

  /** The length of a shortest walk from start to v, or -1 when there is none. */
  ghost function Dist(graph: Graph, start: int, v: int): (r: int)
    ensures r >= -1
    ensures r >= 0 <==> exists d: nat :: Reach(graph, start, v, d)
    ensures r >= 0 ==> Least(graph, start, v, r)
  {
    if exists d: nat :: Reach(graph, start, v, d) then
      var d: nat :| Reach(graph, start, v, d);
      LeastWalk(graph, start, v, d);
      var e: nat :| Least(graph, start, v, e);
      assert Reach(graph, start, v, e);
      e
    else
      -1
  }

  /** No edge leaves a node before its distance is settled, and edges run at most one layer outward. */
  ghost predicate Settled(graph: Graph, d: seq<int>) {
    |d| == |graph| && WellFormed(graph) &&
    forall u, i :: 0 <= u < |graph| && d[u] >= 0 && 0 <= i < |graph[u]| ==> 0 <= d[graph[u][i]] <= d[u] + 1
  }

  /** Against a settled table with d[start] == 0, every walk is at least as long as its end's entry. */
  lemma {:induction false} WalkBound(graph: Graph, d: seq<int>, start: int, v: int, f: nat)
    requires Settled(graph, d) && 0 <= start < |graph| && d[start] == 0
    requires Reach(graph, start, v, f)
    ensures 0 <= v < |graph| && 0 <= d[v] <= f
    decreases f
  {
    if f > 0 {
      var u :| 0 <= u < |graph| && Reach(graph, start, u, f - 1) && v in graph[u];
      WalkBound(graph, d, start, u, f - 1);
      var i :| 0 <= i < |graph[u]| && graph[u][i] == v;
    }
  }

  /** Every entry is -1 or the length of some walk from start, and start's entry is 0. */
  ghost predicate Reached(graph: Graph, start: int, d: seq<int>) {
    |d| == |graph| && WellFormed(graph) && 0 <= start < |d| && d[start] == 0 &&
    (forall v :: 0 <= v < |d| ==> d[v] >= -1) &&
    (forall v {:trigger Reach(graph, start, v, d[v])} :: 0 <= v < |d| && d[v] >= 0 ==> Reach(graph, start, v, d[v]))
  }

  /** The queue holds reached nodes in non-decreasing distance, all at lo or lo + 1. */
  ghost predicate Queued(d: seq<int>, queue: seq<int>, lo: int) {
    (forall i :: 0 <= i < |queue| ==> 0 <= queue[i] < |d| && lo <= d[queue[i]] <= lo + 1) &&
    (forall i, j :: 0 <= i <= j < |queue| ==> d[queue[i]] <= d[queue[j]])
  }

  /** Reached nodes off the queue, other than node, have all their neighbours reached one layer out at most. */
  ghost predicate DoneExcept(graph: Graph, d: seq<int>, queue: seq<int>, node: int)
    requires |d| == |graph| && WellFormed(graph)
  {
    forall u, i :: 0 <= u < |graph| && d[u] >= 0 && u !in queue && u != node && 0 <= i < |graph[u]| ==>
      0 <= d[graph[u][i]] <= d[u] + 1
  }

  /** The state of bfs between two polls. */
  ghost predicate Outer(graph: Graph, start: int, d: seq<int>, queue: seq<int>) {
    Reached(graph, start, d) && DoneExcept(graph, d, queue, -1) &&
    (queue != [] ==>
       0 <= queue[0] < |d| && d[queue[0]] >= 0 && Queued(d, queue, d[queue[0]]) &&
       forall v :: 0 <= v < |d| ==> d[v] <= d[queue[0]] + 1)
  }

  /** The state of bfs after polling node, at distance du, and visiting its first k neighbours. */
  ghost predicate Inner(graph: Graph, start: int, d: seq<int>, queue: seq<int>, node: int, du: int, k: int) {
    Reached(graph, start, d) && 0 <= node < |d| && d[node] == du >= 0 &&
    Queued(d, queue, du) && DoneExcept(graph, d, queue, node) &&
    (forall v :: 0 <= v < |d| ==> d[v] <= du + 1) &&
    0 <= k <= |graph[node]| &&
    (forall i :: 0 <= i < k ==> 0 <= d[graph[node][i]] <= du + 1)
  }

  lemma Poll(graph: Graph, start: int, d: seq<int>, queue: seq<int>)
    requires Outer(graph, start, d, queue) && queue != []
    ensures Inner(graph, start, d, queue[1..], queue[0], d[queue[0]], 0)
  {
    var q := queue[1..];
    forall i | 0 <= i < |q| ensures d[queue[0]] <= d[q[i]] {
      assert q[i] == queue[i + 1];
    }
    forall i, j | 0 <= i <= j < |q| ensures d[q[i]] <= d[q[j]] {
      assert q[i] == queue[i + 1] && q[j] == queue[j + 1];
    }
    forall u | 0 <= u < |graph| && u !in q && u != queue[0] ensures u !in queue {
    }
  }

  /** Visiting a neighbour that is already reached changes nothing. */
  lemma VisitReached(graph: Graph, start: int, d: seq<int>, queue: seq<int>, node: int, du: int, k: int)
    requires Inner(graph, start, d, queue, node, du, k) && k < |graph[node]| && d[graph[node][k]] != -1
    ensures Inner(graph, start, d, queue, node, du, k + 1)
  {
  }

  lemma ReachedAdd(graph: Graph, start: int, d: seq<int>, w: int, x: int)
    requires Reached(graph, start, d) && 0 <= w < |d| && d[w] == -1 && x >= 0 && Reach(graph, start, w, x)
    ensures Reached(graph, start, d[w := x])
  {
  }

  lemma QueuedAdd(d: seq<int>, queue: seq<int>, lo: int, w: int)
    requires Queued(d, queue, lo) && 0 <= w < |d|
    ensures Queued(d[w := lo + 1], queue + [w], lo) || exists i :: 0 <= i < |queue| && queue[i] == w
  {
    var d', q' := d[w := lo + 1], queue + [w];
    if forall i :: 0 <= i < |queue| ==> queue[i] != w {
      forall i | 0 <= i < |q'| ensures 0 <= q'[i] < |d'| && lo <= d'[q'[i]] <= lo + 1 {
        if i < |queue| {
          assert q'[i] == queue[i];
        }
      }
      forall i, j | 0 <= i <= j < |q'| ensures d'[q'[i]] <= d'[q'[j]] {
        if j < |queue| {
          assert q'[i] == queue[i] && q'[j] == queue[j];
        } else if i < |queue| {
          assert q'[i] == queue[i];
        }
      }
    }
  }

  lemma DoneAdd(graph: Graph, d: seq<int>, queue: seq<int>, node: int, w: int, x: int)
    requires |d| == |graph| && WellFormed(graph) && 0 <= w < |d| && d[w] == -1
    requires DoneExcept(graph, d, queue, node)
    ensures DoneExcept(graph, d[w := x], queue + [w], node)
  {
    var d', q' := d[w := x], queue + [w];
    forall u, i | 0 <= u < |graph| && d'[u] >= 0 && u !in q' && u != node && 0 <= i < |graph[u]|
      ensures 0 <= d'[graph[u][i]] <= d'[u] + 1
    {
      assert u != w && u !in queue;
    }
  }

  /** Visiting a neighbour not yet reached puts it one layer further out, at the back of the queue. */
  lemma VisitNew(graph: Graph, start: int, d: seq<int>, queue: seq<int>, node: int, du: int, k: int)
    requires Inner(graph, start, d, queue, node, du, k) && k < |graph[node]| && d[graph[node][k]] == -1
    ensures var w := graph[node][k];
      Inner(graph, start, d[w := du + 1], queue + [w], node, du, k + 1)
  {
    var w := graph[node][k];
    assert Reach(graph, start, w, du + 1) by {
      assert w in graph[node];
    }
    ReachedAdd(graph, start, d, w, du + 1);
    QueuedAdd(d, queue, du, w);
    DoneAdd(graph, d, queue, node, w, du + 1);
  }

  lemma Close(graph: Graph, start: int, d: seq<int>, queue: seq<int>, node: int, du: int)
    requires 0 <= node < |graph| && Inner(graph, start, d, queue, node, du, |graph[node]|)
    ensures Outer(graph, start, d, queue)
  {
  }

  /** The nodes not yet reached. */
  ghost function Unset(d: seq<int>): (c: nat)
    ensures c <= |d|
  {
    if d == [] then 0 else Unset(d[..|d| - 1]) + (if d[|d| - 1] == -1 then 1 else 0)
  }

  /** Reaching one more node takes it out of the unset count. */
  lemma {:induction false} UnsetUpdate(d: seq<int>, w: int, x: int)
    requires 0 <= w < |d| && d[w] == -1 && x != -1
    ensures Unset(d[w := x]) == Unset(d) - 1
  {
    var n := |d| - 1;
    assert d[w := x][..n] == if w < n then d[..n][w := x] else d[..n];
    if w < n {
      UnsetUpdate(d[..n], w, x);
    }
  }

  /** Once the queue is empty every entry is the shortest distance. */
  lemma Finished(graph: Graph, start: int, d: seq<int>)
    requires Outer(graph, start, d, [])
    ensures forall v :: 0 <= v < |d| ==> d[v] == Dist(graph, start, v)
  {
    assert Settled(graph, d);
    forall v | 0 <= v < |d|
      ensures d[v] == Dist(graph, start, v)
    {
      var r := Dist(graph, start, v);
      if r >= 0 {
        WalkBound(graph, d, start, v, r);
      }
      if d[v] >= 0 {
        assert Reach(graph, start, v, d[v]);
      }
    }
  }

  /**
   * The neighbours in ns that d leaves unreached, in list order, each at its
   * first occurrence only: the ones the inner loop of bfs reaches.
   */
  function Fresh(ns: seq<int>, d: seq<int>): (r: seq<int>)
    ensures forall v :: v in r <==> v in ns && 0 <= v < |d| && d[v] == -1
  {
    FreshUpTo(ns, |ns|, d)
  }

  /** Fresh over the first k neighbours of ns. */
  function FreshUpTo(ns: seq<int>, k: nat, d: seq<int>): (r: seq<int>)
    requires k <= |ns|
    ensures forall v :: v in r <==> (exists i :: 0 <= i < k && ns[i] == v) && 0 <= v < |d| && d[v] == -1
  {
    if k == 0 then []
    else
      var p, last := FreshUpTo(ns, k - 1, d), ns[k - 1];
      if 0 <= last < |d| && d[last] == -1 && last !in p then p + [last] else p
  }

  /** After visiting the first k neighbours, exactly the fresh ones of d0 hold du + 1 in d, the rest their d0 value. */
  ghost predicate VisitedAs(ns: seq<int>, k: nat, d0: seq<int>, du: int, d: seq<int>)
    requires k <= |ns|
  {
    |d| == |d0| && forall v :: 0 <= v < |d| ==> d[v] == if v in FreshUpTo(ns, k, d0) then du + 1 else d0[v]
  }

  /** Visiting neighbour k: reached already, nothing changes; otherwise it gets du + 1 and is fresh. */
  lemma VisitStep(ns: seq<int>, k: nat, d0: seq<int>, du: int, d: seq<int>)
    requires k < |ns| && VisitedAs(ns, k, d0, du, d) && du >= 0 && 0 <= ns[k] < |d|
    ensures d[ns[k]] == -1 ==>
      FreshUpTo(ns, k + 1, d0) == FreshUpTo(ns, k, d0) + [ns[k]] && VisitedAs(ns, k + 1, d0, du, d[ns[k] := du + 1])
    ensures d[ns[k]] != -1 ==> FreshUpTo(ns, k + 1, d0) == FreshUpTo(ns, k, d0) && VisitedAs(ns, k + 1, d0, du, d)
  {
  }

  /** The state of the inner loop of bfs after k neighbours, from distances d0 and queue queue0 at its start. */
  ghost predicate Visiting(graph: Graph, start: int, d: seq<int>, queue: seq<int>, node: int, du: int, k: int,
                           d0: seq<int>, queue0: seq<int>) {
    Inner(graph, start, d, queue, node, du, k) &&
    queue == queue0 + FreshUpTo(graph[node], k, d0) && VisitedAs(graph[node], k, d0, du, d)
  }

  /** The inner loop starts with nothing visited. */
  lemma VisitStart(graph: Graph, start: int, d0: seq<int>, queue0: seq<int>, node: int, du: int)
    requires Inner(graph, start, d0, queue0, node, du, 0)
    ensures Visiting(graph, start, d0, queue0, node, du, 0, d0, queue0)
  {
    assert queue0 + [] == queue0;
  }

  /** One round of the inner loop of bfs: the k-th neighbour, when unreached, gets du + 1 and joins the queue. */
  method VisitOne(graph: Graph, start: int, distance: array<int>, queue: seq<int>, node: int, ghost du: int, k: int,
                  ghost d0: seq<int>, ghost queue0: seq<int>)
    returns (queue': seq<int>)
    requires distance.Length == |graph| && 0 <= node < |graph| && 0 <= k < |graph[node]|
    requires Visiting(graph, start, distance[..], queue, node, du, k, d0, queue0)
    modifies distance
    ensures Visiting(graph, start, distance[..], queue', node, du, k + 1, d0, queue0)
    ensures Unset(distance[..]) <= Unset(old(distance[..]))
    ensures Unset(distance[..]) + |queue'| == Unset(old(distance[..])) + |queue|
  {
    var neighbor := graph[node][k];
    VisitStep(graph[node], k, d0, du, distance[..]);
    if distance[neighbor] == -1 {
      ghost var d := distance[..];
      VisitNew(graph, start, d, queue, node, du, k);
      distance[neighbor] := distance[node] + 1;
      assert distance[..] == d[neighbor := du + 1];
      UnsetUpdate(d, neighbor, du + 1);
      queue' := queue + [neighbor];
    } else {
      VisitReached(graph, start, distance[..], queue, node, du, k);
      queue' := queue;
    }
  }

  /** The inner loop of bfs: every neighbour of node not yet reached gets du + 1 and joins the queue. */
  method VisitNeighbours(graph: Graph, start: int, distance: array<int>, queue: seq<int>, node: int) returns (queue': seq<int>)
    requires distance.Length == |graph| && 0 <= node < |graph|
    requires Inner(graph, start, distance[..], queue, node, distance[node], 0)
    modifies distance
    ensures Outer(graph, start, distance[..], queue')
    ensures Unset(distance[..]) <= Unset(old(distance[..]))
    ensures Unset(distance[..]) + |queue'| == Unset(old(distance[..])) + |queue|
    ensures queue' == queue + Fresh(graph[node], old(distance[..]))
    ensures VisitedAs(graph[node], |graph[node]|, old(distance[..]), old(distance[node]), distance[..])
  {
    ghost var du := distance[node];
    ghost var d0 := distance[..];
    queue' := queue;
    VisitStart(graph, start, d0, queue, node, du);
    for k := 0 to |graph[node]|
      invariant Unset(distance[..]) <= Unset(d0)
      invariant Unset(distance[..]) + |queue'| == Unset(d0) + |queue|
      invariant Visiting(graph, start, distance[..], queue', node, du, k, d0, queue)
    {
      queue' := VisitOne(graph, start, distance, queue', node, du, k, d0, queue);
    }
    Close(graph, start, distance[..], queue', node, du);
  }

  /**
   * bfs: a first-in first-out scan from start.  Every node reached gets the
   * length of a shortest walk from start; the others keep -1.
   */
  method Bfs(start: int, graph: Graph, n: int) returns (distance: array<int>)
    requires n == |graph| && 0 <= start < n && WellFormed(graph)
    ensures distance.Length == n
    ensures forall v :: 0 <= v < n ==> distance[v] == Dist(graph, start, v)
  {
    distance := new int[n](_ => -1);
    distance[start] := 0;
    var queue := [start];
    assert Reach(graph, start, start, 0);
    while queue != []
      invariant distance.Length == n
      invariant Outer(graph, start, distance[..], queue)
      decreases Unset(distance[..]), |queue|
    {
      var node := queue[0];
      Poll(graph, start, distance[..], queue);
      queue := queue[1..];
      queue := VisitNeighbours(graph, start, distance, queue, node);
    }
    Finished(graph, start, distance[..]);
  }

  // ---------------------------------------------------------------------
  // Choosing the start
  // ---------------------------------------------------------------------

  /** The shortest distances from start to every node. */
  ghost function Dists(graph: Graph, start: int): (ds: seq<int>)
    ensures |ds| == |graph|
  {
    seq(|graph|, v => Dist(graph, start, v))
  }

  /** Round trips to the package nodes: twice the distance of each, summed. */
  function Trips(packages: seq<int>, ds: seq<int>): int
    requires |ds| == |packages|
  {
    if packages == [] then 0
    else
      var n := |packages| - 1;
      Trips(packages[..n], ds[..n]) + (if packages[n] == 1 then ds[n] * 2 else 0)
  }

  /** Every term is a doubled distance, so the sum is even. */
  lemma {:induction false} TripsEven(packages: seq<int>, ds: seq<int>)
    requires |ds| == |packages|
    ensures Trips(packages, ds) % 2 == 0
  {
    if packages != [] {
      var n := |packages| - 1;
      TripsEven(packages[..n], ds[..n]);
    }
  }

  /** Package distances within [lo, 2] bound the round trips by [0 or below, 4 per node]. */
  lemma {:induction false} TripsBound(packages: seq<int>, ds: seq<int>, strict: bool)
    requires |ds| == |packages|
    requires forall i :: 0 <= i < |packages| && packages[i] == 1 ==> (strict ==> 0 <= ds[i]) && ds[i] <= 2
    ensures Trips(packages, ds) <= 4 * |packages|
    ensures strict ==> Trips(packages, ds) >= 0
  {
    if packages != [] {
      var n := |packages| - 1;
      TripsBound(packages[..n], ds[..n], strict);
    }
  }

  /**
   * A start is accepted when every package node is within two roads of it;
   * strict adds that the node must be reachable at all, which the source's
   * check "distance > 2" leaves out.
   */
  ghost predicate Accepts(packages: seq<int>, graph: Graph, start: int, strict: bool) {
    |packages| == |graph| &&
    forall i :: 0 <= i < |packages| && packages[i] == 1 ==>
      (strict ==> 0 <= Dist(graph, start, i)) && Dist(graph, start, i) <= 2
  }

  ghost function Total(packages: seq<int>, graph: Graph, start: int): int
    requires |packages| == |graph|
  {
    Trips(packages, Dists(graph, start))
  }

  /** The round trips of one start, as the source sums them. */
  method RoundTrips(packages: seq<int>, distance: array<int>) returns (totalRoads: int)
    requires distance.Length == |packages|
    ensures totalRoads == Trips(packages, distance[..])
  {
    totalRoads := 0;
    for i := 0 to |packages|
      invariant totalRoads == Trips(packages[..i], distance[..i])
    {
      assert packages[..i + 1][..i] == packages[..i] && distance[..i + 1][..i] == distance[..i];
      if packages[i] == 1 {
        totalRoads := totalRoads + distance[i] * 2;
      }
    }
    assert packages[..|packages|] == packages && distance[..|packages|] == distance[..];
  }

  /** The collection test as written: a package node with distance -1 passes it. */
  method AllCollectedAsWritten(packages: seq<int>, distance: array<int>) returns (allCollected: bool)
    requires distance.Length == |packages|
    ensures allCollected <==> forall i :: 0 <= i < |packages| && packages[i] == 1 ==> distance[i] <= 2
  {
    allCollected := true;
    var i := 0;
    while i < |packages|
      invariant 0 <= i <= |packages|
      invariant forall i' :: 0 <= i' < i && packages[i'] == 1 ==> distance[i'] <= 2
    {
      if packages[i] == 1 && distance[i] > 2 {
        allCollected := false;
        break;
      }
      i := i + 1;
    }
  }

  /** The collection test as intended: every package node reached, within two roads. */
  method AllCollected(packages: seq<int>, distance: array<int>) returns (allCollected: bool)
    requires distance.Length == |packages|
    ensures allCollected <==> forall i :: 0 <= i < |packages| && packages[i] == 1 ==> 0 <= distance[i] <= 2
  {
    allCollected := true;
    var i := 0;
    while i < |packages|
      invariant 0 <= i <= |packages|
      invariant forall i' :: 0 <= i' < i && packages[i'] == 1 ==> 0 <= distance[i'] <= 2
    {
      if packages[i] == 1 && (distance[i] < 0 || distance[i] > 2) {
        allCollected := false;
        break;
      }
      i := i + 1;
    }
  }

  /**
   * One start of minRoadsToTraverse: the search from it, the collection test
   * (as written when strict is false) and, when it passes, the round trips.
   */
  method Assess(packages: seq<int>, graph: Graph, start: int, strict: bool) returns (allCollected: bool, totalRoads: int)
    requires |packages| == |graph| && 0 <= start < |graph| && WellFormed(graph)
    ensures allCollected <==> Accepts(packages, graph, start, strict)
    ensures allCollected ==> totalRoads == Total(packages, graph, start)
    ensures allCollected ==> totalRoads <= 4 * |packages| && totalRoads % 2 == 0 && (strict ==> totalRoads >= 0)
  {
    var distance := Bfs(start, graph, |graph|);
    assert distance[..] == Dists(graph, start);
    if strict {
      allCollected := AllCollected(packages, distance);
    } else {
      allCollected := AllCollectedAsWritten(packages, distance);
    }
    totalRoads := 0;
    if allCollected {
      totalRoads := RoundTrips(packages, distance);
      TripsBound(packages, distance[..], strict);
      TripsEven(packages, distance[..]);
    }
  }

  /**
   * minRoadsToTraverse as written.  It returns -1 exactly when no start is
   * accepted, and otherwise the least round-trip total over accepted
   * starts; a package node that cannot be reached counts as accepted and
   * adds -2 to the total.
   */
  method MinRoadsAsWritten(packages: seq<int>, roads: seq<(int, int)>) returns (result: int)
    requires ValidRoads(|packages|, roads)
    requires 4 * |packages| < INT_MAX
    ensures var graph := Adjacency(|packages|, roads);
      (result == -1 <==> forall s :: 0 <= s < |packages| ==> !Accepts(packages, graph, s, false)) &&
      (result != -1 ==> exists s :: 0 <= s < |packages| && Accepts(packages, graph, s, false) && result == Total(packages, graph, s)) &&
      (forall s :: 0 <= s < |packages| && Accepts(packages, graph, s, false) ==> result <= Total(packages, graph, s))
  {
    var n := |packages|;
    var graph := BuildGraph(n, roads);
    var minRoads := INT_MAX;
    for start := 0 to n
      invariant minRoads == INT_MAX <==> forall s :: 0 <= s < start ==> !Accepts(packages, graph, s, false)
      invariant minRoads != INT_MAX ==>
        exists s :: 0 <= s < start && Accepts(packages, graph, s, false) && minRoads == Total(packages, graph, s)
      invariant minRoads <= INT_MAX
      invariant minRoads != INT_MAX ==> minRoads % 2 == 0
      invariant forall s :: 0 <= s < start && Accepts(packages, graph, s, false) ==> minRoads <= Total(packages, graph, s)
    {
      var allCollected, totalRoads := Assess(packages, graph, start, false);
      if allCollected {
        if totalRoads < minRoads {
          minRoads := totalRoads;
        }
      }
    }
    result := if minRoads == INT_MAX then -1 else minRoads;
  }

  /**
   * minRoadsToTraverse with every package node required to be reached: -1
   * exactly when no start collects them all within two roads, otherwise the
   * least round-trip total over the starts that do, never negative.
   */
  method MinRoadsToTraverse(packages: seq<int>, roads: seq<(int, int)>) returns (result: int)
    requires ValidRoads(|packages|, roads)
    requires 4 * |packages| < INT_MAX
    ensures result >= -1
    ensures var graph := Adjacency(|packages|, roads);
      (result == -1 <==> forall s :: 0 <= s < |packages| ==> !Accepts(packages, graph, s, true)) &&
      (result != -1 ==> exists s :: 0 <= s < |packages| && Accepts(packages, graph, s, true) && result == Total(packages, graph, s)) &&
      (forall s :: 0 <= s < |packages| && Accepts(packages, graph, s, true) ==> result <= Total(packages, graph, s))
  {
    var n := |packages|;
    var graph := BuildGraph(n, roads);
    var minRoads := INT_MAX;
    for start := 0 to n
      invariant minRoads == INT_MAX <==> forall s :: 0 <= s < start ==> !Accepts(packages, graph, s, true)
      invariant minRoads != INT_MAX ==>
        exists s :: 0 <= s < start && Accepts(packages, graph, s, true) && minRoads == Total(packages, graph, s)
      invariant 0 <= minRoads <= INT_MAX
      invariant forall s :: 0 <= s < start && Accepts(packages, graph, s, true) ==> minRoads <= Total(packages, graph, s)
    {
      var allCollected, totalRoads := Assess(packages, graph, start, true);
      if allCollected {
        if totalRoads < minRoads {
          minRoads := totalRoads;
        }
      }
    }
    result := if minRoads == INT_MAX then -1 else minRoads;
  }

  /** With no roads nothing but the start itself is reachable. */
  lemma {:induction false} NoRoadsReach(n: nat, start: int, v: int, d: nat)
    requires Reach(Adjacency(n, []), start, v, d)
    ensures d == 0 && v == start
  {
  }

  /**
   * Two package nodes and no roads: each start accepts under the check as
   * written, with a total of 0 + (-1) * 2 = -2, while neither start reaches
   * the other package, so the intended answer is -1.
   */
  lemma UnreachableAccepted()
    ensures Accepts([1, 1], Adjacency(2, []), 0, false)
    ensures Total([1, 1], Adjacency(2, []), 0) == -2
    ensures forall s :: 0 <= s < 2 ==> !Accepts([1, 1], Adjacency(2, []), s, true)
  {
    var graph := Adjacency(2, []);
    forall s, v, d: nat | 0 <= s < 2 && 0 <= v < 2 && v != s
      ensures !Reach(graph, s, v, d)
    {
      if Reach(graph, s, v, d) {
        NoRoadsReach(2, s, v, d);
      }
    }
    assert Reach(graph, 0, 0, 0) && Reach(graph, 1, 1, 0);
    assert Dist(graph, 0, 0) == 0 && Dist(graph, 0, 1) == -1;
    assert Dist(graph, 1, 0) == -1;
    var ds := Dists(graph, 0);
    assert ds == [0, -1];
    assert [1, 1][..1] == [1] && [1][..0] == [] && ds[..1] == [0] && [0][..0] == [];
  }

  /** The demonstration input: a path 0 - 1 - 2 - 3 - 4 - 5 with packages at both ends. */
  const PathRoads: seq<(int, int)> := [(0, 1), (1, 2), (2, 3), (3, 4), (4, 5)]

  lemma PathSteps(u: int, i: int)
    requires 0 <= u < 6 && 0 <= i < |Adjacency(6, PathRoads)[u]|
    ensures Adjacency(6, PathRoads)[u][i] == u - 1 || Adjacency(6, PathRoads)[u][i] == u + 1
  {
    var w := Adjacency(6, PathRoads)[u][i];
    assert w in Neighbours(PathRoads, u);
    NeighboursRoads(PathRoads, u, w);
  }

  lemma {:induction false} PathReach(start: int, v: int, d: nat)
    requires Reach(Adjacency(6, PathRoads), start, v, d)
    ensures v - start <= d && start - v <= d
    decreases d
  {
    if d > 0 {
      var graph := Adjacency(6, PathRoads);
      var u :| 0 <= u < 6 && Reach(graph, start, u, d - 1) && v in graph[u];
      PathReach(start, u, d - 1);
      var i :| 0 <= i < |graph[u]| && graph[u][i] == v;
      PathSteps(u, i);
    }
  }

  /** Nodes 0 and 5 are five roads apart, so no start has both within two: the answer is -1, not 4. */
  lemma PathSample(s: int)
    requires 0 <= s < 6
    ensures !Accepts([1, 0, 0, 0, 0, 1], Adjacency(6, PathRoads), s, false)
    ensures !Accepts([1, 0, 0, 0, 0, 1], Adjacency(6, PathRoads), s, true)
  {
    var graph := Adjacency(6, PathRoads);
    var d0, d5 := Dist(graph, s, 0), Dist(graph, s, 5);
    if d0 >= 0 {
      PathReach(s, 0, d0);
    }
    if d5 >= 0 {
      PathReach(s, 5, d5);
    }
    if 0 <= d0 <= 2 && 0 <= d5 <= 2 {
      assert false;
    }
    // every node of the path is reachable from every other
    PathWalk(s, 0);
    PathWalk(s, 5);
  }

  /** On the path every node reaches every other in |v - start| steps. */
  lemma {:induction false} PathWalk(start: int, v: int)
    requires 0 <= start < 6 && 0 <= v < 6
    ensures Dist(Adjacency(6, PathRoads), start, v) >= 0
    decreases if v < start then start - v else v - start
  {
    var graph := Adjacency(6, PathRoads);
    if v == start {
      assert Reach(graph, start, v, 0);
    } else {
      var u := if v < start then v + 1 else v - 1;
      PathWalk(start, u);
      var d := Dist(graph, start, u);
      var r := if v < start then (v, u) else (u, v);
      assert PathRoads[if v < start then v else u] == r;
      NeighboursRoads(PathRoads, u, v);
      assert v in graph[u];
      assert Reach(graph, start, v, d + 1);
    }
  }
}
