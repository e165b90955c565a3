/**
 * The second, smaller optimisation engine: a network of named nodes whose
 * connection dictionaries and directed edge dictionaries are updated in
 * place, a normalisation of costs and bandwidths, a heap-based Prim's
 * algorithm, Dijkstra's algorithm with lazy deletion and path
 * reconstruction, and the Pareto filter and balanced choice of the hybrid
 * optimisation.  Floating point is modelled by exact reals, with an
 * explicit value for float('inf').
 */
module PyOptimizer {

  datatype Option<T> = None | Some(value: T)

  /** A failed division raises ZeroDivisionError; every other outcome is Ok. */
  datatype Result<T> = Ok(value: T) | ZeroDivisionError

  /** The (cost, bandwidth) pair a node keeps for each neighbour. */
  datatype Conn = Conn(cost: real, bandwidth: real)

  /** A Python float that is either finite or float('inf'). */
  datatype Extended = Fin(r: real) | Inf

  predicate ExtLt(a: Extended, b: Extended) {
    a.Fin? && (b.Inf? || a.r < b.r)
  }

  /** A directed edge key (from_id, to_id) of edge_costs and edge_bandwidths. */
  type Key = (string, string)

  predicate IsMax(m: map<Key, real>, r: real) {
    (exists k :: k in m && m[k] == r) && forall k :: k in m ==> m[k] <= r
  }

  predicate IsMin(m: map<Key, real>, r: real) {
    (exists k :: k in m && m[k] == r) && forall k :: k in m ==> r <= m[k]
  }

  lemma ExtremesExist(m: map<Key, real>)
    requires m != map[]
    ensures (exists r :: IsMax(m, r)) && (exists r :: IsMin(m, r))
    decreases |m|
  {
    var k :| k in m;
    var t := m - {k};
    if t != map[] {
      ExtremesExist(t);
      var hi :| IsMax(t, hi);
      var lo :| IsMin(t, lo);
      var j :| j in t && t[j] == hi;
      var i :| i in t && t[i] == lo;
      forall x | x in m ensures x == k || x in t { }
      if m[k] > hi { assert IsMax(m, m[k]); } else { assert IsMax(m, hi); }
      if m[k] < lo { assert IsMin(m, m[k]); } else { assert IsMin(m, lo); }
    } else {
      forall x | x in m ensures x == k { assert x !in t; }
      assert IsMax(m, m[k]) && IsMin(m, m[k]);
    }
  }

  /** max(d.values()) for a non-empty dictionary d. */
  function MaxValue(m: map<Key, real>): (r: real)
    requires m != map[]
    ensures IsMax(m, r)
  {
    ExtremesExist(m);
    var r :| IsMax(m, r); r
  }

  /** min(d.values()) for a non-empty dictionary d. */
  function MinValue(m: map<Key, real>): (r: real)
    requires m != map[]
    ensures IsMin(m, r)
  {
    ExtremesExist(m);
    var r :| IsMin(m, r); r
  }

  /**
   * cost_weight * cost + bandwidth_weight * (1/bandwidth, or inf when the
   * bandwidth is not positive).  A positive bandwidth weight keeps the
   * infinite case infinite rather than NaN or -inf.
   */
  function CombinedWeight(costWeight: real, bandwidthWeight: real, c: Conn): (w: Extended)
    requires c.bandwidth > 0.0 || bandwidthWeight > 0.0
    ensures w.Inf? <==> c.bandwidth <= 0.0
  {
    if c.bandwidth > 0.0 then Fin(costWeight * c.cost + bandwidthWeight * (1.0 / c.bandwidth))
    else Inf
  }

  /** Higher bandwidth and lower cost never make an edge heavier. */
  lemma CombinedWeightMonotone(costWeight: real, bandwidthWeight: real, a: Conn, b: Conn)
    requires costWeight >= 0.0 && bandwidthWeight >= 0.0
    requires a.cost <= b.cost && b.bandwidth > 0.0 && a.bandwidth >= b.bandwidth
    ensures CombinedWeight(costWeight, bandwidthWeight, a).Fin?
    ensures CombinedWeight(costWeight, bandwidthWeight, a).r <= CombinedWeight(costWeight, bandwidthWeight, b).r
  {
    assert 1.0 / a.bandwidth <= 1.0 / b.bandwidth by {
      assert (1.0 / a.bandwidth) * a.bandwidth == 1.0 == (1.0 / b.bandwidth) * b.bandwidth;
    }
    assert costWeight * a.cost <= costWeight * b.cost;
    assert bandwidthWeight * (1.0 / a.bandwidth) <= bandwidthWeight * (1.0 / b.bandwidth);
  }

  /** A candidate edge on Prim's heap: (combined_weight, u, v). */
  datatype Candidate = Candidate(weight: Extended, u: string, v: string)

  /** An edge of the tree Prim's algorithm returns: (u, v, weight). */
  datatype TreeEdge = TreeEdge(u: string, v: string, weight: Extended)

  /** Some candidate of least weight; the heap's order among equal weights is left open. */
  lemma LightestExists(heap: set<Candidate>)
    requires heap != {}
    ensures exists c :: c in heap && forall e :: e in heap ==> !ExtLt(e.weight, c.weight)
    decreases |heap|
  {
    var c :| c in heap;
    var rest := heap - {c};
    if rest != {} {
      LightestExists(rest);
      var m :| m in rest && forall e :: e in rest ==> !ExtLt(e.weight, m.weight);
      forall x | x in heap ensures x == c || x in rest { }
      if ExtLt(c.weight, m.weight) {
        assert forall e :: e in heap ==> !ExtLt(e.weight, c.weight);
      } else {
        assert forall e :: e in heap ==> !ExtLt(e.weight, m.weight);
      }
    } else {
      forall x | x in heap ensures x == c { assert x !in rest; }
    }
  }

  /** An entry (distance, node) of Dijkstra's heap. */
  datatype Entry = Entry(d: real, node: string)

  lemma NearestExists(heap: set<Entry>)
    requires heap != {}
    ensures exists c :: c in heap && forall e :: e in heap ==> c.d <= e.d
    decreases |heap|
  {
    var c :| c in heap;
    var rest := heap - {c};
    if rest != {} {
      NearestExists(rest);
      var m :| m in rest && forall e :: e in rest ==> m.d <= e.d;
      forall x | x in heap ensures x == c || x in rest { }
      if c.d < m.d {
        assert forall e :: e in heap ==> c.d <= e.d;
      } else {
        assert forall e :: e in heap ==> m.d <= e.d;
      }
    } else {
      forall x | x in heap ensures x == c { assert x !in rest; }
    }
  }

  /** The weight kinds of calculate_shortest_path; any kind other than 'cost' and 'bandwidth' is combined. */
  datatype WeightType = CostWeight | BandwidthWeight | CombinedWeights

  /** The answer of calculate_shortest_path: (path or None, distance), or the division error it raises. */
  datatype PathResult = Answer(path: Option<seq<string>>, distance: Extended) | Raised

  /** Every connection is to a node and is recorded under its directed key. */
  ghost predicate RecordedIn(nodes: map<string, map<string, Conn>>, costs: map<Key, real>, bandwidths: map<Key, real>) {
    costs.Keys == bandwidths.Keys &&
    forall a, b :: a in nodes && b in nodes[a] ==>
      b in nodes && (a, b) in costs &&
      costs[(a, b)] == nodes[a][b].cost && bandwidths[(a, b)] == nodes[a][b].bandwidth
  }

  /** Recording one connection in both directions keeps every connection recorded. */
  lemma ConnectRecorded(nodes: map<string, map<string, Conn>>, costs: map<Key, real>, bandwidths: map<Key, real>,
                        source: string, target: string, c: Conn)
    requires RecordedIn(nodes, costs, bandwidths) && source in nodes && target in nodes
    ensures var once := nodes[source := nodes[source][target := c]];
      RecordedIn(once[target := once[target][source := c]],
                 costs[(source, target) := c.cost][(target, source) := c.cost],
                 bandwidths[(source, target) := c.bandwidth][(target, source) := c.bandwidth])
  {
    var once: map<string, map<string, Conn>> := nodes[source := nodes[source][target := c]];
    var twice: map<string, map<string, Conn>> := once[target := once[target][source := c]];
    var costs' := costs[(source, target) := c.cost][(target, source) := c.cost];
    var bandwidths' := bandwidths[(source, target) := c.bandwidth][(target, source) := c.bandwidth];
    forall a: string, b: string | a in twice && b in twice[a]
      ensures b in twice && (a, b) in costs' &&
        costs'[(a, b)] == twice[a][b].cost && bandwidths'[(a, b)] == twice[a][b].bandwidth
    {
      if (a, b) == (source, target) || (a, b) == (target, source) {
        assert twice[a][b] == c;
      } else {
        assert a in nodes && b in nodes[a] && twice[a][b] == nodes[a][b];
      }
    }
  }

  lemma Ratio(a: real, b: real)
    requires 0.0 <= a <= b && b > 0.0
    ensures 0.0 <= a / b <= 1.0 && (a > 0.0 ==> a / b > 0.0)
  {
    var q := a / b;
    assert q * b == a;
  }

  lemma DivMonotone(a: real, c: real, b: real)
    requires a <= c && b > 0.0
    ensures a / b <= c / b
  {
    var x, y := a / b, c / b;
    assert x * b == a && y * b == c;
  }

  lemma Reciprocal(a: real, b: real, m: real)
    requires a >= b > 0.0 && m >= 0.0
    ensures m / a <= m / b
  {
    var x, y := 1.0 / a, 1.0 / b;
    assert x * a == 1.0 && y * b == 1.0;
    assert m / a == m * x && m / b == m * y;
  }

  lemma SubsetSize<T>(a: set<T>, b: set<T>)
    requires a <= b
    ensures |a| <= |b|
  {
    assert b == a + (b - a);
  }

  /** Every connection can be weighed: infinite bandwidth factors meet a positive bandwidth weight. */
  ghost predicate WeighableIn(nodes: map<string, map<string, Conn>>, bandwidthWeight: real) {
    bandwidthWeight > 0.0 ||
    forall a, b :: a in nodes && b in nodes[a] ==> nodes[a][b].bandwidth > 0.0
  }

  /** The nodes a tree grown from s has reached. */
  function Reached(s: string, tree: seq<TreeEdge>): (r: set<string>)
    ensures s in r && forall k :: 0 <= k < |tree| ==> tree[k].v in r
  {
    {s} + set k | 0 <= k < |tree| :: tree[k].v
  }

  lemma ReachedSnoc(s: string, tree: seq<TreeEdge>, e: TreeEdge)
    ensures Reached(s, tree + [e]) == Reached(s, tree) + {e.v}
  {
    var t := tree + [e];
    forall x | x in Reached(s, t) ensures x in Reached(s, tree) + {e.v} {
      if x != s {
        var k :| 0 <= k < |t| && t[k].v == x;
        if k < |tree| { assert tree[k] == t[k]; }
      }
    }
    forall k | 0 <= k < |tree| ensures tree[k].v in Reached(s, t) {
      assert t[k] == tree[k];
    }
    assert t[|tree|] == e;
  }

  /** The edge follows a connection and carries that connection's combined weight. */
  ghost predicate Weighed(nodes: map<string, map<string, Conn>>, costWeight: real, bandwidthWeight: real, e: TreeEdge) {
    e.u in nodes && e.v in nodes[e.u] &&
    (nodes[e.u][e.v].bandwidth > 0.0 || bandwidthWeight > 0.0) &&
    e.weight == CombinedWeight(costWeight, bandwidthWeight, nodes[e.u][e.v])
  }

  /**
   * Each edge of the tree leads from a node the edges before it reached
   * (the start included) to a node they did not reach, along a weighed
   * connection.
   */
  ghost predicate Grown(nodes: map<string, map<string, Conn>>, s: string, tree: seq<TreeEdge>,
                        costWeight: real, bandwidthWeight: real) {
    forall k :: 0 <= k < |tree| ==>
      tree[k].u in Reached(s, tree[..k]) && tree[k].v !in Reached(s, tree[..k]) &&
      Weighed(nodes, costWeight, bandwidthWeight, tree[k])
  }

  /** No connection leaves the set. */
  ghost predicate Closed(nodes: map<string, map<string, Conn>>, r: set<string>) {
    forall u, v :: u in r && u in nodes && v in nodes[u] ==> v in r
  }

  /** A non-empty sequence of nodes, each connected to the next. */
  ghost predicate Walk(nodes: map<string, map<string, Conn>>, path: seq<string>) {
    |path| > 0 && (forall i :: 0 <= i < |path| ==> path[i] in nodes) &&
    forall i :: 0 <= i < |path| - 1 ==> path[i + 1] in nodes[path[i]]
  }

  /** A set closed under connections holds every node a walk from it reaches. */
  lemma {:induction false} ClosedWalk(nodes: map<string, map<string, Conn>>, r: set<string>, path: seq<string>)
    requires Closed(nodes, r) && Walk(nodes, path) && path[0] in r
    ensures forall i :: 0 <= i < |path| ==> path[i] in r
    decreases |path|
  {
    if |path| > 1 {
      var front := path[..|path| - 1];
      assert Walk(nodes, front) by {
        forall i | 0 <= i < |front| - 1 ensures front[i + 1] in nodes[front[i]] {
          assert front[i] == path[i] && front[i + 1] == path[i + 1];
        }
      }
      ClosedWalk(nodes, r, front);
      forall i | 0 <= i < |path| ensures path[i] in r {
        if i < |path| - 1 { assert path[i] == front[i]; }
        else { assert path[i - 1] == front[i - 1]; }
      }
    }
  }

  /** Every candidate leads from an included node along a connection, with that connection's weight. */
  ghost predicate Candidates(nodes: map<string, map<string, Conn>>, costWeight: real, bandwidthWeight: real,
                             included: set<string>, heap: set<Candidate>) {
    forall c :: c in heap ==>
      c.u in included && Weighed(nodes, costWeight, bandwidthWeight, TreeEdge(c.u, c.v, c.weight))
  }

  /** Every connection out of the included nodes ends inside them or waits on the heap. */
  ghost predicate Frontier(nodes: map<string, map<string, Conn>>, costWeight: real, bandwidthWeight: real,
                           included: set<string>, heap: set<Candidate>)
    requires WeighableIn(nodes, bandwidthWeight)
  {
    forall u, v :: u in included && u in nodes && v in nodes[u] ==>
      v in included || Candidate(CombinedWeight(costWeight, bandwidthWeight, nodes[u][v]), u, v) in heap
  }

  /** The loop state of find_minimum_spanning_tree. */
  ghost predicate PrimState(nodes: map<string, map<string, Conn>>, s: string, costWeight: real, bandwidthWeight: real,
                            included: set<string>, heap: set<Candidate>, mst: seq<TreeEdge>) {
    WeighableIn(nodes, bandwidthWeight) &&
    s in nodes && included <= nodes.Keys && included == Reached(s, mst) && |included| == |mst| + 1 &&
    Grown(nodes, s, mst, costWeight, bandwidthWeight) &&
    Candidates(nodes, costWeight, bandwidthWeight, included, heap) &&
    Frontier(nodes, costWeight, bandwidthWeight, included, heap)
  }

  /** Dropping a candidate whose far end is already included keeps the state. */
  lemma PrimPop(nodes: map<string, map<string, Conn>>, s: string, costWeight: real, bandwidthWeight: real,
                included: set<string>, heap: set<Candidate>, mst: seq<TreeEdge>, c: Candidate)
    requires PrimState(nodes, s, costWeight, bandwidthWeight, included, heap, mst)
    requires c in heap && c.v in included
    ensures PrimState(nodes, s, costWeight, bandwidthWeight, included, heap - {c}, mst)
  {
    var heap' := heap - {c};
    forall u, v | u in included && u in nodes && v in nodes[u]
      ensures v in included || Candidate(CombinedWeight(costWeight, bandwidthWeight, nodes[u][v]), u, v) in heap'
    {
      var d := Candidate(CombinedWeight(costWeight, bandwidthWeight, nodes[u][v]), u, v);
      if v !in included {
        assert d in heap && d != c;
      }
    }
  }

  /** The state after the start node's connections are pushed. */
  lemma TreeStart(nodes: map<string, map<string, Conn>>, s: string, costWeight: real, bandwidthWeight: real,
                  heap: set<Candidate>)
    requires WeighableIn(nodes, bandwidthWeight) && s in nodes
    requires forall c :: c in heap <==>
      c.u == s && c.v in nodes[s] && c.weight == CombinedWeight(costWeight, bandwidthWeight, nodes[s][c.v])
    ensures PrimState(nodes, s, costWeight, bandwidthWeight, {s}, heap, [])
  {
    assert Reached(s, []) == {s};
  }

  /**
   * When the heap runs dry or every node is in, the tree has fewer edges
   * than there are nodes, and it reaches every node or a set no connection
   * leaves.
   */
  lemma TreeDone(nodes: map<string, map<string, Conn>>, s: string, costWeight: real, bandwidthWeight: real,
                 included: set<string>, heap: set<Candidate>, mst: seq<TreeEdge>)
    requires PrimState(nodes, s, costWeight, bandwidthWeight, included, heap, mst)
    requires heap == {} || |included| >= |nodes|
    ensures |mst| < |nodes| && (Reached(s, mst) == nodes.Keys || Closed(nodes, Reached(s, mst)))
  {
    SubsetSize(included, nodes.Keys);
    if |included| >= |nodes| {
      assert |nodes.Keys - included| == |nodes.Keys| - |included|;
      assert nodes.Keys - included == {};
    }
  }

  /**
   * Including the far end of a candidate that leads out of the tree, and
   * pushing that node's outward candidates, keeps the state.
   */
  lemma PrimGrow(nodes: map<string, map<string, Conn>>, s: string, costWeight: real, bandwidthWeight: real,
                 included: set<string>, heap: set<Candidate>, mst: seq<TreeEdge>, c: Candidate, heap': set<Candidate>)
    requires PrimState(nodes, s, costWeight, bandwidthWeight, included, heap, mst)
    requires c in heap && c.v !in included && c.u in nodes && c.v in nodes
    requires forall d :: d in heap' <==>
      d in heap - {c} || (d.u == c.v && d.v in nodes[c.v] && d.v !in included + {c.v} &&
                          d.weight == CombinedWeight(costWeight, bandwidthWeight, nodes[c.v][d.v]))
    ensures PrimState(nodes, s, costWeight, bandwidthWeight, included + {c.v}, heap', mst + [TreeEdge(c.u, c.v, c.weight)])
  {
    var edge := TreeEdge(c.u, c.v, c.weight);
    ReachedSnoc(s, mst, edge);
    GrownSnoc(nodes, s, costWeight, bandwidthWeight, mst, edge);
    GrowCandidates(nodes, costWeight, bandwidthWeight, included, heap, c, heap');
    GrowFrontier(nodes, costWeight, bandwidthWeight, included, heap, c, heap');
  }

  lemma GrowCandidates(nodes: map<string, map<string, Conn>>, costWeight: real, bandwidthWeight: real,
                       included: set<string>, heap: set<Candidate>, c: Candidate, heap': set<Candidate>)
    requires WeighableIn(nodes, bandwidthWeight) && Candidates(nodes, costWeight, bandwidthWeight, included, heap)
    requires c in heap && c.u in nodes && c.v in nodes
    requires forall d :: d in heap' <==>
      d in heap - {c} || (d.u == c.v && d.v in nodes[c.v] && d.v !in included + {c.v} &&
                          d.weight == CombinedWeight(costWeight, bandwidthWeight, nodes[c.v][d.v]))
    ensures Candidates(nodes, costWeight, bandwidthWeight, included + {c.v}, heap')
  {
    forall d | d in heap'
      ensures d.u in included + {c.v} && Weighed(nodes, costWeight, bandwidthWeight, TreeEdge(d.u, d.v, d.weight))
    {
      if d !in heap - {c} {
        assert WeighableIn(nodes, bandwidthWeight);
      }
    }
  }

  lemma GrowFrontier(nodes: map<string, map<string, Conn>>, costWeight: real, bandwidthWeight: real,
                     included: set<string>, heap: set<Candidate>, c: Candidate, heap': set<Candidate>)
    requires WeighableIn(nodes, bandwidthWeight) && Frontier(nodes, costWeight, bandwidthWeight, included, heap)
    requires c in heap && c.v in nodes
    requires forall d :: d in heap' <==>
      d in heap - {c} || (d.u == c.v && d.v in nodes[c.v] && d.v !in included + {c.v} &&
                          d.weight == CombinedWeight(costWeight, bandwidthWeight, nodes[c.v][d.v]))
    ensures Frontier(nodes, costWeight, bandwidthWeight, included + {c.v}, heap')
  {
    var included' := included + {c.v};
    forall u, v | u in included' && u in nodes && v in nodes[u]
      ensures v in included' || Candidate(CombinedWeight(costWeight, bandwidthWeight, nodes[u][v]), u, v) in heap'
    {
      var d := Candidate(CombinedWeight(costWeight, bandwidthWeight, nodes[u][v]), u, v);
      if v !in included' {
        if u == c.v {
          assert d in heap';
        } else {
          assert d in heap && d != c;
        }
      }
    }
  }

  lemma GrownSnoc(nodes: map<string, map<string, Conn>>, s: string, costWeight: real, bandwidthWeight: real,
                  mst: seq<TreeEdge>, edge: TreeEdge)
    requires Grown(nodes, s, mst, costWeight, bandwidthWeight)
    requires edge.u in Reached(s, mst) && edge.v !in Reached(s, mst)
    requires Weighed(nodes, costWeight, bandwidthWeight, edge)
    ensures Grown(nodes, s, mst + [edge], costWeight, bandwidthWeight)
  {
    var t := mst + [edge];
    forall k | 0 <= k < |t|
      ensures t[k].u in Reached(s, t[..k]) && t[k].v !in Reached(s, t[..k]) &&
        Weighed(nodes, costWeight, bandwidthWeight, t[k])
    {
      if k < |mst| {
        assert t[k] == mst[k] && t[..k] == mst[..k];
      } else {
        assert t[k] == edge && t[..k] == mst;
      }
    }
  }

  /** The weight calculate_shortest_path gives the connection a -> b of the given kind. */
  function EdgeWeight(nodes: map<string, map<string, Conn>>, normalized: Result<map<Key, real>>,
                      kind: WeightType, a: string, b: string): Extended
    requires a in nodes && b in nodes[a]
  {
    var c := nodes[a][b];
    match kind
    case CostWeight => Fin(c.cost)
    case BandwidthWeight => if c.bandwidth > 0.0 then Fin(1.0 / c.bandwidth) else Inf
    case CombinedWeights =>
      if normalized.Ok? && (a, b) in normalized.value then Fin(normalized.value[(a, b)]) else Inf
  }

  /** No finite weight is negative, without which the lazy Dijkstra loop need not end. */
  ghost predicate NonNegativeWeights(nodes: map<string, map<string, Conn>>, normalized: Result<map<Key, real>>,
                                     kind: WeightType) {
    forall a, b :: a in nodes && b in nodes[a] && EdgeWeight(nodes, normalized, kind, a, b).Fin? ==>
      EdgeWeight(nodes, normalized, kind, a, b).r >= 0.0
  }

  /** The position at which v was expanded, or one past the last position for a node not yet expanded. */
  function Rank(expanded: map<string, nat>, v: string): nat {
    if v in expanded then expanded[v] else |expanded|
  }

  /** distances and previous cover the nodes; the start is at 0 with no predecessor; no distance is negative. */
  ghost predicate Board(nodes: map<string, map<string, Conn>>, start: string,
                        distances: map<string, Extended>, previous: map<string, Option<string>>) {
    start in nodes && distances.Keys == nodes.Keys && previous.Keys == nodes.Keys &&
    distances[start] == Fin(0.0) && previous[start] == None &&
    forall v :: v in distances && distances[v].Fin? ==> distances[v].r >= 0.0
  }

  /** Every heap entry is for a node at a finite distance no larger than the entry's. */
  ghost predicate Heaped(distances: map<string, Extended>, heap: set<Entry>) {
    forall e :: e in heap ==> e.node in distances && distances[e.node].Fin? && distances[e.node].r <= e.d
  }

  /**
   * Expanded nodes, numbered in expansion order, are at finite distances
   * no larger than any entry left on the heap, and strictly below every
   * entry left for themselves.
   */
  ghost predicate Settled(distances: map<string, Extended>, heap: set<Entry>, expanded: map<string, nat>) {
    (forall x :: x in expanded ==> x in distances && distances[x].Fin? && expanded[x] < |expanded|) &&
    (forall x, e :: x in expanded && e in heap ==>
      distances[x].r <= e.d && (e.node == x ==> distances[x].r < e.d))
  }

  /**
   * A recorded predecessor u of v was expanded before v, is connected to
   * v, and v's distance is u's plus the weight between them.
   */
  ghost predicate Linked(nodes: map<string, map<string, Conn>>, normalized: Result<map<Key, real>>, kind: WeightType,
                         distances: map<string, Extended>, expanded: map<string, nat>, v: string, u: string) {
    u in expanded && u in nodes && v in nodes[u] && u in distances && v in distances &&
    EdgeWeight(nodes, normalized, kind, u, v).Fin? && distances[u].Fin? && distances[v].Fin? &&
    distances[v].r == distances[u].r + EdgeWeight(nodes, normalized, kind, u, v).r &&
    expanded[u] < Rank(expanded, v)
  }

  /** Every predecessor link is Linked; a node other than the start without one is unreached. */
  ghost predicate Chained(nodes: map<string, map<string, Conn>>, normalized: Result<map<Key, real>>, kind: WeightType,
                          start: string, distances: map<string, Extended>, previous: map<string, Option<string>>,
                          expanded: map<string, nat>) {
    forall v :: v in previous ==>
      (previous[v].Some? ==> Linked(nodes, normalized, kind, distances, expanded, v, previous[v].value)) &&
      (previous[v].None? && v != start && v in distances ==> distances[v].Inf?)
  }

  /** The loop state of calculate_shortest_path. */
  ghost predicate Search(nodes: map<string, map<string, Conn>>, normalized: Result<map<Key, real>>, kind: WeightType,
                         start: string, distances: map<string, Extended>, previous: map<string, Option<string>>,
                         heap: set<Entry>, expanded: map<string, nat>) {
    Board(nodes, start, distances, previous) && expanded.Keys <= nodes.Keys &&
    Heaped(distances, heap) && Settled(distances, heap, expanded) &&
    Chained(nodes, normalized, kind, start, distances, previous, expanded)
  }

  /** The starting distances: 0 for start, infinity for every other node. */
  function StartDistances(nodes: map<string, map<string, Conn>>, start: string): (r: map<string, Extended>)
    ensures r.Keys == nodes.Keys
  {
    map v | v in nodes :: if v == start then Fin(0.0) else Inf
  }

  /** The starting predecessors: none for any node. */
  function NoPredecessors(nodes: map<string, map<string, Conn>>): (r: map<string, Option<string>>)
    ensures r.Keys == nodes.Keys
  {
    map v | v in nodes :: None
  }

  lemma SearchStart(nodes: map<string, map<string, Conn>>, normalized: Result<map<Key, real>>, kind: WeightType,
                    start: string)
    requires start in nodes
    ensures Search(nodes, normalized, kind, start, StartDistances(nodes, start), NoPredecessors(nodes),
                   {Entry(0.0, start)}, map[])
  {
  }

  /** Dropping an entry keeps the state. */
  lemma SearchPop(nodes: map<string, map<string, Conn>>, normalized: Result<map<Key, real>>, kind: WeightType,
                  start: string, distances: map<string, Extended>, previous: map<string, Option<string>>,
                  heap: set<Entry>, expanded: map<string, nat>, e: Entry)
    requires Search(nodes, normalized, kind, start, distances, previous, heap, expanded)
    ensures Search(nodes, normalized, kind, start, distances, previous, heap - {e}, expanded)
  {
  }

  /** A nearest entry matching its node's distance is not for an expanded node. */
  lemma SettleFresh(distances: map<string, Extended>, heap: set<Entry>, expanded: map<string, nat>, e: Entry)
    requires Settled(distances, heap, expanded) && e in heap
    requires e.node in distances && distances[e.node].Fin? && e.d == distances[e.node].r
    ensures e.node !in expanded
  {
  }

  /** Numbering the node of a nearest entry next keeps every expanded node no farther than the entries left. */
  lemma SettledNext(distances: map<string, Extended>, heap: set<Entry>, expanded: map<string, nat>, e: Entry)
    requires Settled(distances, heap, expanded) && Heaped(distances, heap) && e in heap
    requires (forall f :: f in heap ==> e.d <= f.d) && e.d == distances[e.node].r && e.node !in expanded
    ensures Settled(distances, heap - {e}, expanded[e.node := |expanded|])
  {
    var cur := e.node;
    var expanded' := expanded[cur := |expanded|];
    var heap' := heap - {e};
    forall x, f | x in expanded' && f in heap'
      ensures distances[x].r <= f.d && (f.node == x ==> distances[x].r < f.d)
    {
      if x == cur && f.node == cur {
        assert f != e;
      }
    }
  }

  /** Numbering a node not yet expanded keeps every predecessor link. */
  lemma ChainedNext(nodes: map<string, map<string, Conn>>, normalized: Result<map<Key, real>>, kind: WeightType,
                    start: string, distances: map<string, Extended>, previous: map<string, Option<string>>,
                    expanded: map<string, nat>, cur: string)
    requires Chained(nodes, normalized, kind, start, distances, previous, expanded) && cur !in expanded
    ensures Chained(nodes, normalized, kind, start, distances, previous, expanded[cur := |expanded|])
  {
    var expanded' := expanded[cur := |expanded|];
    forall v | v in previous && previous[v].Some?
      ensures Linked(nodes, normalized, kind, distances, expanded', v, previous[v].value)
    {
      assert Linked(nodes, normalized, kind, distances, expanded, v, previous[v].value);
    }
  }

  /**
   * A nearest entry matching its node's distance is for a node not yet
   * expanded, and numbering that node next keeps the state.
   */
  lemma SearchSettle(nodes: map<string, map<string, Conn>>, normalized: Result<map<Key, real>>, kind: WeightType,
                     start: string, distances: map<string, Extended>, previous: map<string, Option<string>>,
                     heap: set<Entry>, expanded: map<string, nat>, e: Entry)
    requires Search(nodes, normalized, kind, start, distances, previous, heap, expanded)
    requires e in heap && (forall f :: f in heap ==> e.d <= f.d) && e.d == distances[e.node].r
    ensures e.node !in expanded
    ensures Search(nodes, normalized, kind, start, distances, previous, heap - {e}, expanded[e.node := |expanded|])
  {
    SettleFresh(distances, heap, expanded, e);
    SettledNext(distances, heap, expanded, e);
    ChainedNext(nodes, normalized, kind, start, distances, previous, expanded, e.node);
  }

  /** Every expanded node is at a finite distance no larger than d. */
  ghost predicate Behind(distances: map<string, Extended>, expanded: map<string, nat>, d: real) {
    forall x :: x in expanded ==> x in distances && distances[x].Fin? && distances[x].r <= d
  }

  lemma SettleBehind(distances: map<string, Extended>, heap: set<Entry>, expanded: map<string, nat>, e: Entry)
    requires Settled(distances, heap, expanded) && e in heap
    requires e.node in distances && distances[e.node] == Fin(e.d)
    ensures Behind(distances, expanded[e.node := |expanded|], e.d)
  {
  }

  /**
   * Lowering a neighbour's distance through the node being expanded keeps
   * the state; the neighbour is neither expanded nor the start, and the
   * pushed entry is new to the heap.
   */
  lemma SearchRelax(nodes: map<string, map<string, Conn>>, normalized: Result<map<Key, real>>, kind: WeightType,
                    start: string, distances: map<string, Extended>, previous: map<string, Option<string>>,
                    heap: set<Entry>, expanded: map<string, nat>, cur: string, nb: string, nd: real)
    requires Search(nodes, normalized, kind, start, distances, previous, heap, expanded)
    requires NonNegativeWeights(nodes, normalized, kind)
    requires cur in expanded && cur in nodes && nb in nodes[cur] && nb in nodes
    requires distances[cur].Fin? && Behind(distances, expanded, distances[cur].r)
    requires EdgeWeight(nodes, normalized, kind, cur, nb).Fin?
    requires nd == distances[cur].r + EdgeWeight(nodes, normalized, kind, cur, nb).r
    requires ExtLt(Fin(nd), distances[nb])
    ensures nb !in expanded && nb != start && Entry(nd, nb) !in heap
    ensures Search(nodes, normalized, kind, start, distances[nb := Fin(nd)], previous[nb := Some(cur)],
                   heap + {Entry(nd, nb)}, expanded)
    ensures Behind(distances[nb := Fin(nd)], expanded, distances[cur].r)
  {
    var distances' := distances[nb := Fin(nd)];
    assert EdgeWeight(nodes, normalized, kind, cur, nb).r >= 0.0;
    assert nd >= distances[cur].r;
    assert nb !in expanded;
    assert nb != start;
    RelaxHeaped(distances, heap, nb, nd);
    RelaxBoard(nodes, start, distances, previous, cur, nb, nd);
    assert expanded[cur] < |expanded|;
    LinkNew(nodes, normalized, kind, distances, expanded, cur, nb, nd, EdgeWeight(nodes, normalized, kind, cur, nb));
    RelaxChained(nodes, normalized, kind, start, distances, previous, expanded, cur, nb, nd);
    RelaxSettled(distances, heap, expanded, nb, nd, distances[cur].r);
  }

  lemma LinkNew(nodes: map<string, map<string, Conn>>, normalized: Result<map<Key, real>>, kind: WeightType,
                distances: map<string, Extended>, expanded: map<string, nat>, cur: string, nb: string, nd: real, w: Extended)
    requires cur in expanded && expanded[cur] < |expanded| && nb !in expanded
    requires cur in nodes && nb in nodes[cur] && cur in distances && nb in distances && distances[cur].Fin?
    requires w == EdgeWeight(nodes, normalized, kind, cur, nb) && w.Fin? && nd == distances[cur].r + w.r
    requires nb != cur
    ensures Linked(nodes, normalized, kind, distances[nb := Fin(nd)], expanded, nb, cur)
  {
  }

  lemma RelaxChained(nodes: map<string, map<string, Conn>>, normalized: Result<map<Key, real>>, kind: WeightType,
                     start: string, distances: map<string, Extended>, previous: map<string, Option<string>>,
                     expanded: map<string, nat>, cur: string, nb: string, nd: real)
    requires Chained(nodes, normalized, kind, start, distances, previous, expanded)
    requires nb !in expanded && nb != start
    requires Linked(nodes, normalized, kind, distances[nb := Fin(nd)], expanded, nb, cur)
    ensures Chained(nodes, normalized, kind, start, distances[nb := Fin(nd)], previous[nb := Some(cur)], expanded)
  {
    var distances' := distances[nb := Fin(nd)];
    var previous' := previous[nb := Some(cur)];
    forall v | v in previous' && previous'[v].Some?
      ensures Linked(nodes, normalized, kind, distances', expanded, v, previous'[v].value)
    {
      if v != nb {
        assert Linked(nodes, normalized, kind, distances, expanded, v, previous[v].value);
      }
    }
  }

  lemma RelaxBoard(nodes: map<string, map<string, Conn>>, start: string,
                   distances: map<string, Extended>, previous: map<string, Option<string>>,
                   cur: string, nb: string, nd: real)
    requires Board(nodes, start, distances, previous) && nb in nodes && nb != start && nd >= 0.0
    ensures Board(nodes, start, distances[nb := Fin(nd)], previous[nb := Some(cur)])
  {
  }

  lemma RelaxHeaped(distances: map<string, Extended>, heap: set<Entry>, nb: string, nd: real)
    requires Heaped(distances, heap) && nb in distances && ExtLt(Fin(nd), distances[nb])
    ensures Entry(nd, nb) !in heap && Heaped(distances[nb := Fin(nd)], heap + {Entry(nd, nb)})
  {
  }

  lemma RelaxSettled(distances: map<string, Extended>, heap: set<Entry>, expanded: map<string, nat>,
                     nb: string, nd: real, d: real)
    requires Settled(distances, heap, expanded) && nb !in expanded && Behind(distances, expanded, d) && d <= nd
    ensures Settled(distances[nb := Fin(nd)], heap + {Entry(nd, nb)}, expanded)
    ensures Behind(distances[nb := Fin(nd)], expanded, d)
  {
  }

  /** A non-empty walk along connections whose weights are all finite. */
  ghost predicate FiniteWalk(nodes: map<string, map<string, Conn>>, normalized: Result<map<Key, real>>,
                             kind: WeightType, path: seq<string>) {
    Walk(nodes, path) &&
    forall i :: 0 <= i < |path| - 1 ==> EdgeWeight(nodes, normalized, kind, path[i], path[i + 1]).Fin?
  }

  /** The sum of the weights along a walk. */
  ghost function PathWeight(nodes: map<string, map<string, Conn>>, normalized: Result<map<Key, real>>,
                            kind: WeightType, path: seq<string>): real
    requires FiniteWalk(nodes, normalized, kind, path)
    decreases |path|
  {
    if |path| == 1 then 0.0
    else
      assert FiniteWalk(nodes, normalized, kind, path[1..]) by {
        forall i | 0 <= i < |path[1..]| - 1
          ensures path[1..][i + 1] in nodes[path[1..][i]]
          ensures EdgeWeight(nodes, normalized, kind, path[1..][i], path[1..][i + 1]).Fin?
        {
          assert path[1..][i] == path[i + 1] && path[1..][i + 1] == path[i + 2];
        }
      }
      EdgeWeight(nodes, normalized, kind, path[0], path[1]).r + PathWeight(nodes, normalized, kind, path[1..])
  }

  /**
   * The walk built so far ends at the target; its first node's
   * predecessor is the next node to visit, and the target's distance is
   * the first node's plus the walk's weight.
   */
  ghost predicate Traced(nodes: map<string, map<string, Conn>>, normalized: Result<map<Key, real>>, kind: WeightType,
                         distances: map<string, Extended>, previous: map<string, Option<string>>,
                         target: string, path: seq<string>, current: Option<string>) {
    path != [] && path[|path| - 1] == target && FiniteWalk(nodes, normalized, kind, path) &&
    path[0] in previous && previous[path[0]] == current &&
    target in distances && path[0] in distances && distances[target].Fin? && distances[path[0]].Fin? &&
    distances[target].r == distances[path[0]].r + PathWeight(nodes, normalized, kind, path)
  }

  lemma {:induction false} TracePrepend(nodes: map<string, map<string, Conn>>, normalized: Result<map<Key, real>>,
                                        kind: WeightType, start: string, distances: map<string, Extended>,
                                        previous: map<string, Option<string>>, expanded: map<string, nat>,
                                        target: string, path: seq<string>, c: string)
    requires Chained(nodes, normalized, kind, start, distances, previous, expanded) && previous.Keys == nodes.Keys
    requires path != [] && Traced(nodes, normalized, kind, distances, previous, target, path, Some(c))
    ensures c in nodes && Rank(expanded, c) < Rank(expanded, path[0])
    ensures Traced(nodes, normalized, kind, distances, previous, target, [c] + path, previous[c])
  {
    assert Linked(nodes, normalized, kind, distances, expanded, path[0], c);
    var p := [c] + path;
    assert p[1..] == path;
    forall i | 0 <= i < |p| - 1
      ensures p[i + 1] in nodes[p[i]] && EdgeWeight(nodes, normalized, kind, p[i], p[i + 1]).Fin?
    {
      if i > 0 { assert p[i] == path[i - 1] && p[i + 1] == path[i]; }
    }
    assert FiniteWalk(nodes, normalized, kind, p);
  }

  /**
   * The path reconstruction: from the target, follow predecessors while the
   * current id is truthy, the walk is collected front first (the same list
   * the source gets by appending and reversing).  A falsy id, the empty
   * string, ends the walk early, so the walk reaches back to the start
   * whenever no node is named "".
   */
  method Reconstruct(ghost nodes: map<string, map<string, Conn>>, ghost normalized: Result<map<Key, real>>,
                     ghost kind: WeightType, ghost start: string, ghost distances: map<string, Extended>,
                     previous: map<string, Option<string>>, ghost expanded: map<string, nat>, target: string)
    returns (path: seq<string>)
    requires Board(nodes, start, distances, previous) && Chained(nodes, normalized, kind, start, distances, previous, expanded)
    requires target in nodes && distances[target].Fin?
    ensures target != "" ==>
      path != [] && path[|path| - 1] == target && FiniteWalk(nodes, normalized, kind, path) &&
      path[0] in distances && distances[path[0]].Fin? &&
      distances[target].r == distances[path[0]].r + PathWeight(nodes, normalized, kind, path)
    ensures "" !in nodes ==> path != [] && path[0] == start
    ensures target != "" && previous[target] == None ==> path == [target]
  {
    path := [];
    var current: Option<string> := Some(target);
    while current.Some? && current.value != ""
      invariant current.Some? ==> current.value in nodes
      invariant path == [] ==> current == Some(target)
      invariant path != [] ==> Traced(nodes, normalized, kind, distances, previous, target, path, current)
      invariant path != [] && current.None? ==> path[0] == start
      invariant target != "" && previous[target] == None && path != [] ==> path == [target]
      decreases if current.Some? then Rank(expanded, current.value) + 1 else 0
    {
      var c := current.value;
      if path == [] {
        path := [c];
        assert PathWeight(nodes, normalized, kind, path) == 0.0;
      } else {
        TracePrepend(nodes, normalized, kind, start, distances, previous, expanded, target, path, c);
        path := [c] + path;
      }
      current := previous[c];
    }
  }

  /**
   * The relaxation of calculate_shortest_path: when the way through cur
   * is strictly shorter, the neighbour takes the new distance, cur as its
   * predecessor and a new heap entry.
   */
  method Relax(ghost nodes: map<string, map<string, Conn>>, ghost normalized: Result<map<Key, real>>, ghost kind: WeightType,
               ghost start: string, distances: map<string, Extended>, previous: map<string, Option<string>>,
               heap: set<Entry>, ghost expanded: map<string, nat>, cur: string, d: real, neighbor: string, weight: Extended)
    returns (distances': map<string, Extended>, previous': map<string, Option<string>>, heap': set<Entry>)
    requires NonNegativeWeights(nodes, normalized, kind)
    requires Search(nodes, normalized, kind, start, distances, previous, heap, expanded)
    requires cur in expanded && cur in nodes && neighbor in nodes[cur] && neighbor in nodes && neighbor in distances
    requires distances[cur] == Fin(d) && Behind(distances, expanded, d)
    requires weight == EdgeWeight(nodes, normalized, kind, cur, neighbor)
    ensures Search(nodes, normalized, kind, start, distances', previous', heap', expanded)
    ensures distances'[cur] == Fin(d) && Behind(distances', expanded, d)
  {
    if weight.Fin? && ExtLt(Fin(d + weight.r), distances[neighbor]) {
      var nd := d + weight.r;
      SearchRelax(nodes, normalized, kind, start, distances, previous, heap, expanded, cur, neighbor, nd);
      distances' := distances[neighbor := Fin(nd)];
      previous' := previous[neighbor := Some(cur)];
      heap' := heap + {Entry(nd, neighbor)};
    } else {
      distances', previous', heap' := distances, previous, heap;
    }
  }

  /** heappop: some entry of least distance, and the heap without it. */
  method PopNearest(heap: set<Entry>) returns (entry: Entry, rest: set<Entry>)
    requires heap != {}
    ensures entry in heap && (forall e :: e in heap ==> entry.d <= e.d)
    ensures rest == heap - {entry} && |rest| < |heap|
  {
    NearestExists(heap);
    entry :| entry in heap && forall e :: e in heap ==> entry.d <= e.d;
    rest := heap - {entry};
  }

  /**
   * Expanding a nearest entry that matches its node's distance: the node
   * is numbered next, everything expanded is no farther than it, and one
   * node fewer is left to expand.
   */
  lemma Settle(nodes: map<string, map<string, Conn>>, normalized: Result<map<Key, real>>, kind: WeightType,
               start: string, distances: map<string, Extended>, previous: map<string, Option<string>>,
               heap: set<Entry>, expanded: map<string, nat>, e: Entry)
    requires Search(nodes, normalized, kind, start, distances, previous, heap, expanded)
    requires e in heap && (forall f :: f in heap ==> e.d <= f.d) && e.d == distances[e.node].r
    ensures e.node !in expanded && e.node in nodes
    ensures Search(nodes, normalized, kind, start, distances, previous, heap - {e}, expanded[e.node := |expanded|])
    ensures Behind(distances, expanded[e.node := |expanded|], e.d)
    ensures |nodes.Keys - expanded[e.node := |expanded|].Keys| < |nodes.Keys - expanded.Keys|
  {
    SearchSettle(nodes, normalized, kind, start, distances, previous, heap, expanded, e);
    SettleBehind(distances, heap, expanded, e);
    FewerLeft(nodes.Keys, expanded, e.node);
  }

  /** Numbering one more node leaves one node fewer to expand. */
  lemma FewerLeft(all: set<string>, expanded: map<string, nat>, x: string)
    requires x in all && x !in expanded
    ensures |all - expanded[x := |expanded|].Keys| < |all - expanded.Keys|
  {
    assert all - expanded[x := |expanded|].Keys == (all - expanded.Keys) - {x};
  }

  /**
   * The end of calculate_shortest_path: an end left at infinity gives
   * (None, inf), otherwise the reconstructed path and the end's distance.
   */
  method Finish(ghost nodes: map<string, map<string, Conn>>, ghost normalized: Result<map<Key, real>>,
                ghost kind: WeightType, ghost start: string, distances: map<string, Extended>,
                previous: map<string, Option<string>>, ghost expanded: map<string, nat>, end: string)
    returns (r: PathResult)
    requires Board(nodes, start, distances, previous) && Chained(nodes, normalized, kind, start, distances, previous, expanded)
    requires end in nodes
    ensures r.Answer? && (r.path.None? <==> distances[end].Inf?)
    ensures r.path.None? ==> r.distance == Inf
    ensures r.path.Some? && end != "" ==>
      var path := r.path.value;
      r.distance.Fin? && path != [] && path[|path| - 1] == end &&
      FiniteWalk(nodes, normalized, kind, path) &&
      ("" !in nodes ==> path[0] == start && r.distance.r == PathWeight(nodes, normalized, kind, path))
    ensures start == end && start != "" ==> r == Answer(Some([start]), Fin(0.0))
  {
    if distances[end] == Inf {
      return Answer(None, Inf);
    }
    var path := Reconstruct(nodes, normalized, kind, start, distances, previous, expanded, end);
    return Answer(Some(path), distances[end]);
  }

  class NetworkOptimizer {
    /** The keys of self.nodes in insertion order (list(self.nodes.keys())). */
    var order: seq<string>
    /** Each node id mapped to its connections dictionary. */
    var nodes: map<string, map<string, Conn>>
    var edgeCosts: map<Key, real>
    var edgeBandwidths: map<Key, real>

    /** order lists each node once. */
    ghost predicate Ordered()
      reads this
    {
      nodes.Keys == (set x | x in order) && |order| == |nodes|
    }

    ghost predicate Recorded()
      reads this
    {
      RecordedIn(nodes, edgeCosts, edgeBandwidths)
    }

    ghost predicate Valid()
      reads this
    {
      Ordered() && Recorded()
    }

    constructor ()
      ensures Valid()
      ensures order == [] && nodes == map[] && edgeCosts == map[] && edgeBandwidths == map[]
    {
      order := [];
      nodes := map[];
      edgeCosts := map[];
      edgeBandwidths := map[];
    }

    /**
     * add_node: the id gets a fresh node with no connections, replacing any
     * node of that id; a new id goes to the end of the key order.  Edge
     * dictionaries, and other nodes' connections to the id, are untouched.
     */
    method AddNode(id: string)
      requires Valid()
      modifies this
      ensures Valid()
      ensures nodes == old(nodes)[id := map[]]
      ensures order == if id in old(nodes) then old(order) else old(order) + [id]
      ensures edgeCosts == old(edgeCosts) && edgeBandwidths == old(edgeBandwidths)
    {
      if id !in nodes {
        order := order + [id];
      }
      nodes := nodes[id := map[]];
    }

    /**
     * add_connection: only between two existing nodes, records the pair in
     * both nodes' connections and under both directed keys.
     */
    method AddConnection(source: string, target: string, cost: real, bandwidth: real)
      requires Valid()
      modifies this
      ensures Valid() && order == old(order)
      ensures source in old(nodes) && target in old(nodes) ==>
        var c := Conn(cost, bandwidth);
        var once := old(nodes)[source := old(nodes)[source][target := c]];
        nodes == once[target := once[target][source := c]] &&
        edgeCosts == old(edgeCosts)[(source, target) := cost][(target, source) := cost] &&
        edgeBandwidths == old(edgeBandwidths)[(source, target) := bandwidth][(target, source) := bandwidth]
      ensures source in old(nodes) && target in old(nodes) ==>
        nodes[source][target] == Conn(cost, bandwidth) && nodes[target][source] == Conn(cost, bandwidth) &&
        nodes.Keys == old(nodes).Keys
      ensures !(source in old(nodes) && target in old(nodes)) ==>
        nodes == old(nodes) && edgeCosts == old(edgeCosts) && edgeBandwidths == old(edgeBandwidths)
    {
      if source in nodes && target in nodes {
        var c := Conn(cost, bandwidth);
        ConnectRecorded(nodes, edgeCosts, edgeBandwidths, source, target, c);
        nodes := nodes[source := nodes[source][target := c]];
        nodes := nodes[target := nodes[target][source := c]];
        edgeCosts := edgeCosts[(source, target) := cost][(target, source) := cost];
        edgeBandwidths := edgeBandwidths[(source, target) := bandwidth][(target, source) := bandwidth];
      }
    }

    /**
     * normalize_objectives: for every directed key of edge_costs, 0.7 times
     * the cost over the largest cost plus 0.3 times the smallest bandwidth
     * over the key's bandwidth; the divisors default to 1 when there are no
     * edges.  A zero divisor raises.
     */
    function NormalizeObjectives(): (r: Result<map<Key, real>>)
      reads this
      requires Valid()
      ensures r.Ok? ==> r.value.Keys == edgeCosts.Keys
      ensures edgeCosts == map[] ==> r == Ok(map[])
      ensures (exists e :: e in edgeBandwidths && edgeBandwidths[e] == 0.0) ==> r.ZeroDivisionError?
      ensures edgeCosts != map[] && (forall e :: e in edgeCosts ==> edgeCosts[e] == 0.0) ==> r.ZeroDivisionError?
    {
      var maxCost := if edgeCosts != map[] then MaxValue(edgeCosts) else 1.0;
      var minBandwidth := if edgeBandwidths != map[] then MinValue(edgeBandwidths) else 1.0;
      if exists e :: e in edgeCosts && (edgeBandwidths[e] == 0.0 || maxCost == 0.0) then ZeroDivisionError
      else Ok(map e | e in edgeCosts :: 0.7 * (edgeCosts[e] / maxCost) + 0.3 * (minBandwidth / edgeBandwidths[e]))
    }

    /** With non-negative costs, one of them positive, and positive bandwidths, every weight lies in (0, 1]. */
    lemma NormalizedRange()
      requires Valid()
      requires forall e :: e in edgeCosts ==> edgeCosts[e] >= 0.0 && edgeBandwidths[e] > 0.0
      requires exists e :: e in edgeCosts && edgeCosts[e] > 0.0
      ensures NormalizeObjectives().Ok?
      ensures var w := NormalizeObjectives().value;
        forall e :: e in w ==> 0.0 < w[e] <= 1.0
    {
      var maxCost := MaxValue(edgeCosts);
      var minBandwidth := MinValue(edgeBandwidths);
      var w := NormalizeObjectives().value;
      var p :| p in edgeCosts && edgeCosts[p] > 0.0;
      var k :| k in edgeBandwidths && edgeBandwidths[k] == minBandwidth;
      forall e | e in w ensures 0.0 < w[e] <= 1.0 {
        Ratio(edgeCosts[e], maxCost);
        Ratio(minBandwidth, edgeBandwidths[e]);
      }
    }

    /** A key no dearer and of no smaller bandwidth than another never weighs more. */
    lemma NormalizedOrder(e: Key, f: Key)
      requires Valid() && NormalizeObjectives().Ok? && e in edgeCosts && f in edgeCosts
      requires MaxValue(edgeCosts) > 0.0 && MinValue(edgeBandwidths) >= 0.0
      requires edgeCosts[e] <= edgeCosts[f] && edgeBandwidths[e] >= edgeBandwidths[f] > 0.0
      ensures NormalizeObjectives().value[e] <= NormalizeObjectives().value[f]
    {
      var maxCost := MaxValue(edgeCosts);
      var minBandwidth := MinValue(edgeBandwidths);
      DivMonotone(edgeCosts[e], edgeCosts[f], maxCost);
      Reciprocal(edgeBandwidths[e], edgeBandwidths[f], minBandwidth);
    }

    /**
     * Pushes (combined_weight, u, neighbour) for every neighbour of u
     * outside skip.
     */
    method PushNeighbors(heap: set<Candidate>, costWeight: real, bandwidthWeight: real, u: string, skip: set<string>)
      returns (heap': set<Candidate>)
      requires u in nodes && WeighableIn(nodes, bandwidthWeight)
      ensures forall c :: c in heap' <==>
        c in heap || (c.u == u && c.v in nodes[u] && c.v !in skip &&
                      c.weight == CombinedWeight(costWeight, bandwidthWeight, nodes[u][c.v]))
    {
      heap' := heap;
      var todo := nodes[u].Keys;
      while todo != {}
        invariant todo <= nodes[u].Keys
        invariant forall c :: c in heap' <==>
          c in heap || (c.u == u && c.v in nodes[u] && c.v !in todo && c.v !in skip &&
                        c.weight == CombinedWeight(costWeight, bandwidthWeight, nodes[u][c.v]))
        decreases todo
      {
        var neighbor :| neighbor in todo;
        if neighbor !in skip {
          heap' := heap' + {Candidate(CombinedWeight(costWeight, bandwidthWeight, nodes[u][neighbor]), u, neighbor)};
        }
        todo := todo - {neighbor};
      }
    }

    /** Every connection leads to a node. */
    lemma Target(a: string, b: string)
      requires Valid() && a in nodes && b in nodes[a]
      ensures b in nodes
    {
      assert Recorded();
    }

    /**
     * One round of the loop: pop a lightest candidate; if it leads out of
     * the tree, add its far end and that node's outward candidates.
     */
    method PrimStep(s: string, costWeight: real, bandwidthWeight: real,
                    included: set<string>, heap: set<Candidate>, mst: seq<TreeEdge>)
      returns (included': set<string>, heap': set<Candidate>, mst': seq<TreeEdge>)
      requires Valid() && PrimState(nodes, s, costWeight, bandwidthWeight, included, heap, mst) && heap != {}
      ensures PrimState(nodes, s, costWeight, bandwidthWeight, included', heap', mst')
      ensures (included' == included && |heap'| < |heap|) || |included| < |included'|
    {
      LightestExists(heap);
      var c :| c in heap && forall e :: e in heap ==> !ExtLt(e.weight, c.weight);
      heap' := heap - {c};
      included', mst' := included, mst;
      assert Weighed(nodes, costWeight, bandwidthWeight, TreeEdge(c.u, c.v, c.weight));
      Target(c.u, c.v);
      if c.v !in included {
        included' := included + {c.v};
        mst' := mst + [TreeEdge(c.u, c.v, c.weight)];
        heap' := PushNeighbors(heap', costWeight, bandwidthWeight, c.v, included');
        PrimGrow(nodes, s, costWeight, bandwidthWeight, included, heap, mst, c, heap');
      } else {
        PrimPop(nodes, s, costWeight, bandwidthWeight, included, heap, mst, c);
      }
    }

    /**
     * find_minimum_spanning_tree: grows a tree from the first node, always
     * popping a lightest candidate, until every node is included or no
     * candidate is left.  An empty network gives the empty tree; otherwise
     * normalize_objectives runs first and its division error propagates.
     * The tree adds a not yet included node with every edge, so it has
     * fewer edges than the network has nodes, and it stops only when it
     * has reached every node or every connection from it stays inside it.
     */
    method FindMinimumSpanningTree(costWeight: real, bandwidthWeight: real) returns (r: Result<seq<TreeEdge>>)
      requires Valid() && WeighableIn(nodes, bandwidthWeight)
      ensures nodes == map[] ==> r == Ok([])
      ensures r.ZeroDivisionError? <==> nodes != map[] && NormalizeObjectives().ZeroDivisionError?
      ensures r.Ok? && nodes != map[] ==>
        var tree := r.value;
        order[0] in nodes &&
        Grown(nodes, order[0], tree, costWeight, bandwidthWeight) && |tree| < |nodes| &&
        (Reached(order[0], tree) == nodes.Keys || Closed(nodes, Reached(order[0], tree)))
    {
      if nodes == map[] {
        return Ok([]);
      }
      var normalized := NormalizeObjectives();
      if normalized.ZeroDivisionError? {
        return ZeroDivisionError;
      }
      assert order[0] in (set x | x in order);
      var s := order[0];
      var included := {s};
      var mst: seq<TreeEdge> := [];
      var heap := PushNeighbors({}, costWeight, bandwidthWeight, s, {});
      TreeStart(nodes, s, costWeight, bandwidthWeight, heap);
      while heap != {} && |included| < |order|
        invariant Valid() && PrimState(nodes, s, costWeight, bandwidthWeight, included, heap, mst)
        decreases |nodes.Keys| - |included|, |heap|
      {
        SubsetSize(included, nodes.Keys);
        included, heap, mst := PrimStep(s, costWeight, bandwidthWeight, included, heap, mst);
        SubsetSize(included, nodes.Keys);
      }
      TreeDone(nodes, s, costWeight, bandwidthWeight, included, heap, mst);
      return Ok(mst);
    }

    /**
     * The inner loop of calculate_shortest_path: weigh every connection of
     * the node being expanded (normalize_objectives runs for each one under
     * the combined kind, and its division error propagates) and lower the
     * neighbour's distance, record the predecessor and push an entry when
     * the way through cur is strictly shorter.
     */
    method ExpandNode(kind: WeightType, start: string, distances: map<string, Extended>,
                      previous: map<string, Option<string>>, heap: set<Entry>, ghost expanded: map<string, nat>,
                      cur: string)
      returns (raised: bool, distances': map<string, Extended>, previous': map<string, Option<string>>, heap': set<Entry>)
      requires Valid() && NonNegativeWeights(nodes, NormalizeObjectives(), kind)
      requires Search(nodes, NormalizeObjectives(), kind, start, distances, previous, heap, expanded)
      requires cur in expanded && cur in nodes && distances[cur].Fin? && Behind(distances, expanded, distances[cur].r)
      ensures raised ==> kind == CombinedWeights && NormalizeObjectives().ZeroDivisionError?
      ensures !raised ==> Search(nodes, NormalizeObjectives(), kind, start, distances', previous', heap', expanded)
    {
      ghost var normalized := NormalizeObjectives();
      distances', previous', heap' := distances, previous, heap;
      var d := distances[cur].r;
      var todo := nodes[cur].Keys;
      while todo != {}
        invariant todo <= nodes[cur].Keys
        invariant Search(nodes, normalized, kind, start, distances', previous', heap', expanded)
        invariant distances'[cur] == Fin(d) && Behind(distances', expanded, d)
        decreases todo
      {
        var neighbor :| neighbor in todo;
        todo := todo - {neighbor};
        Target(cur, neighbor);
        var weight;
        raised, weight := Weigh(kind, cur, neighbor);
        if raised {
          return;
        }
        distances', previous', heap' := Relax(nodes, normalized, kind, start, distances', previous', heap', expanded,
                                              cur, d, neighbor, weight);
      }
      raised := false;
    }

    /** The weight of the connection cur -> neighbor of the given kind, as the source computes it. */
    method Weigh(kind: WeightType, cur: string, neighbor: string) returns (raised: bool, weight: Extended)
      requires Valid() && cur in nodes && neighbor in nodes[cur]
      ensures raised ==> kind == CombinedWeights && NormalizeObjectives().ZeroDivisionError?
      ensures !raised ==> weight == EdgeWeight(nodes, NormalizeObjectives(), kind, cur, neighbor)
    {
      var c := nodes[cur][neighbor];
      raised := false;
      match kind {
        case CostWeight =>
          weight := Fin(c.cost);
        case BandwidthWeight =>
          weight := if c.bandwidth > 0.0 then Fin(1.0 / c.bandwidth) else Inf;
        case CombinedWeights =>
          var weights := NormalizeObjectives();
          if weights.ZeroDivisionError? {
            return true, Inf;
          }
          assert Recorded();
          weight := Fin(weights.value[(cur, neighbor)]);
      }
    }

    /**
     * One round of the search loop of calculate_shortest_path: pop a
     * nearest entry, skip it when it is longer than its node's distance,
     * stop at the end node, and otherwise expand the node.  The search
     * state is kept, and each round either expands a new node or shrinks
     * the heap.
     */
    method ExploreStep(start: string, end: string, kind: WeightType, distances: map<string, Extended>,
                       previous: map<string, Option<string>>, heap: set<Entry>, ghost expanded: map<string, nat>)
      returns (raised: bool, stop: bool, distances': map<string, Extended>, previous': map<string, Option<string>>,
               heap': set<Entry>, ghost expanded': map<string, nat>)
      requires Valid() && NonNegativeWeights(nodes, NormalizeObjectives(), kind)
      requires Search(nodes, NormalizeObjectives(), kind, start, distances, previous, heap, expanded) && heap != {}
      ensures raised ==> kind == CombinedWeights && NormalizeObjectives().ZeroDivisionError?
      ensures !raised ==> Search(nodes, NormalizeObjectives(), kind, start, distances', previous', heap', expanded')
      ensures !raised && !stop ==>
        |nodes.Keys - expanded'.Keys| < |nodes.Keys - expanded.Keys| ||
        (expanded' == expanded && |heap'| < |heap|)
      ensures start == end && heap <= {Entry(0.0, start)} && expanded == map[] ==> stop && !raised
    {
      ghost var normalized := NormalizeObjectives();
      var entry, rest := PopNearest(heap);
      var cur := entry.node;
      SearchPop(nodes, normalized, kind, start, distances, previous, heap, expanded, entry);
      if entry.d > distances[cur].r {
        return false, false, distances, previous, rest, expanded;
      }
      if cur == end {
        return false, true, distances, previous, rest, expanded;
      }
      Settle(nodes, normalized, kind, start, distances, previous, heap, expanded, entry);
      expanded' := expanded[cur := |expanded|];
      stop := false;
      raised, distances', previous', heap' := ExpandNode(kind, start, distances, previous, rest, expanded', cur);
    }

    /**
     * The search loop of calculate_shortest_path: Dijkstra's algorithm from
     * start with lazy deletion, skipping entries longer than their node's
     * distance and stopping when the end node comes off the heap.
     */
    method Explore(start: string, end: string, kind: WeightType)
      returns (raised: bool, distances: map<string, Extended>, previous: map<string, Option<string>>,
               ghost expanded: map<string, nat>)
      requires Valid() && NonNegativeWeights(nodes, NormalizeObjectives(), kind)
      requires start in nodes && end in nodes
      ensures raised ==> kind == CombinedWeights && NormalizeObjectives().ZeroDivisionError?
      ensures !raised ==>
        Board(nodes, start, distances, previous) && Chained(nodes, NormalizeObjectives(), kind, start, distances, previous, expanded)
      ensures start == end ==> !raised
    {
      ghost var normalized := NormalizeObjectives();
      distances := StartDistances(nodes, start);
      previous := NoPredecessors(nodes);
      var heap := {Entry(0.0, start)};
      expanded := map[];
      raised := false;
      SearchStart(nodes, normalized, kind, start);
      while heap != {}
        invariant Search(nodes, normalized, kind, start, distances, previous, heap, expanded)
        invariant !raised
        invariant start == end ==> heap <= {Entry(0.0, start)} && expanded == map[]
        decreases |nodes.Keys - expanded.Keys|, |heap|
      {
        var stop;
        raised, stop, distances, previous, heap, expanded := ExploreStep(start, end, kind, distances, previous, heap, expanded);
        if raised || stop {
          return;
        }
      }
    }

    /**
     * calculate_shortest_path: the search, then the path back along
     * predecessors.  An unknown id or an end left at infinity gives
     * (None, inf); otherwise the path walks from start to end along
     * connections and its weight is the reported distance.
     */
    method CalculateShortestPath(start: string, end: string, kind: WeightType) returns (r: PathResult)
      requires Valid() && NonNegativeWeights(nodes, NormalizeObjectives(), kind)
      ensures start !in nodes || end !in nodes ==> r == Answer(None, Inf)
      ensures r.Raised? ==> kind == CombinedWeights && NormalizeObjectives().ZeroDivisionError?
      ensures r.Answer? && r.path.None? ==> r.distance == Inf
      ensures r.Answer? && r.path.Some? && end != "" ==>
        var path := r.path.value;
        r.distance.Fin? && path != [] && path[|path| - 1] == end &&
        FiniteWalk(nodes, NormalizeObjectives(), kind, path) &&
        ("" !in nodes ==> path[0] == start && r.distance.r == PathWeight(nodes, NormalizeObjectives(), kind, path))
      ensures start == end && start in nodes && start != "" ==> r == Answer(Some([start]), Fin(0.0))
    {
      if start !in nodes || end !in nodes {
        return Answer(None, Inf);
      }
      var raised, distances, previous, expanded := Explore(start, end, kind);
      if raised {
        return Raised;
      }
      r := Finish(nodes, NormalizeObjectives(), kind, start, distances, previous, expanded, end);
    }
  }
}
