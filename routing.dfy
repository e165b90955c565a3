/**
 * The topology optimiser's routing: a graph of named nodes kept as nested
 * adjacency maps with every connection stored in both directions,
 * Dijkstra's algorithm over it with latency 1/bandwidth, and the
 * reconstruction of a route from the predecessor links it records.
 */
module Routing {
  import opened SpanningTrees
  import Sorting

  datatype Option<T> = None | Some(value: T)

  /** What is stored on each direction of a connection. */
  datatype EdgeInfo = EdgeInfo(bandwidth: real, cost: real)

  /** A tentative distance; Unreachable plays the part of Double.MAX_VALUE. */
  datatype Distance = Finite(d: real) | Unreachable

  datatype DijkstraResult = DijkstraResult(distance: Distance, previous: Option<string>)

  /** A priority-queue entry: a node and the distance it was queued with. */
  datatype QueueEntry = QueueEntry(node: string, distance: real)

  type Adjacency = map<string, map<string, EdgeInfo>>

  /** The latency of a connection, the inverse of its bandwidth. */
  function Latency(info: EdgeInfo): (r: real)
    requires info.bandwidth > 0.0
    ensures r > 0.0
  {
    1.0 / info.bandwidth
  }

  /** newDistance < results.get(neighbor).distance */
  predicate Below(x: real, d: Distance) {
    d.Unreachable? || x < d.d
  }

  /** Every connection is stored in both directions with the same data. */
  ghost predicate Symmetric(adj: Adjacency) {
    forall a, b :: a in adj && b in adj[a] ==> b in adj && a in adj[b] && adj[b][a] == adj[a][b]
  }

  ghost predicate PositiveLinks(adj: Adjacency) {
    forall a, b :: a in adj && b in adj[a] ==> adj[a][b].bandwidth > 0.0
  }

  /** addNode: a node not yet present gets an empty neighbour map. */
  function WithNode(adj: Adjacency, id: string): (r: Adjacency)
    ensures r.Keys == adj.Keys + {id}
    ensures forall a :: a in adj ==> r[a] == adj[a]
    ensures id !in adj ==> r[id] == map[]
    ensures Symmetric(adj) ==> Symmetric(r)
    ensures PositiveLinks(adj) ==> PositiveLinks(r)
  {
    if id in adj then adj else adj[id := map[]]
  }

  /** One direction of addEdge: both endpoints present, and d stored as a neighbour of s. */
  function WithArc(adj: Adjacency, s: string, d: string, info: EdgeInfo): (r: Adjacency)
    ensures r.Keys == adj.Keys + {s, d}
    ensures d in r[s] && r[s][d] == info
    ensures forall a, b :: a in r && b in r[a] ==>
      (a == s && b == d && r[a][b] == info) || (a in adj && b in adj[a] && r[a][b] == adj[a][b])
    ensures forall a, b :: a in adj && b in adj[a] && !(a == s && b == d) ==> b in r[a] && r[a][b] == adj[a][b]
  {
    var a := WithNode(WithNode(adj, s), d);
    a[s := a[s][d := info]]
  }

  /**
   * addEdge: both endpoints are added if missing and the connection is
   * stored from each side, replacing what was stored between them before;
   * every other entry is kept.
   */
  function WithEdge(adj: Adjacency, s: string, d: string, info: EdgeInfo): (r: Adjacency)
    ensures r.Keys == adj.Keys + {s, d}
  {
    var a := WithNode(WithNode(adj, s), d);
    var a' := a[s := a[s][d := info]];
    a'[d := a'[d][s := info]]
  }

  /** What addEdge stores: the new data in both directions, and every other connection as it was. */
  lemma WithEdgeStores(adj: Adjacency, s: string, d: string, info: EdgeInfo)
    ensures var r := WithEdge(adj, s, d, info);
      d in r[s] && r[s][d] == info && s in r[d] && r[d][s] == info
    ensures var r := WithEdge(adj, s, d, info);
      forall a, b :: a in r && b in r[a] ==>
        (r[a][b] == info && ((a == s && b == d) || (a == d && b == s))) ||
        (a in adj && b in adj[a] && r[a][b] == adj[a][b])
    ensures var r := WithEdge(adj, s, d, info);
      forall a, b :: a in adj && b in adj[a] && !(a == s && b == d) && !(a == d && b == s) ==>
        b in r[a] && r[a][b] == adj[a][b]
  {
    assert WithEdge(adj, s, d, info) == WithArc(WithArc(adj, s, d, info), d, s, info);
  }

  /** addEdge keeps every connection stored in both directions ... */
  lemma WithEdgeSymmetric(adj: Adjacency, s: string, d: string, info: EdgeInfo)
    requires Symmetric(adj)
    ensures Symmetric(WithEdge(adj, s, d, info))
  {
    var r := WithEdge(adj, s, d, info);
    WithEdgeStores(adj, s, d, info);
    forall a, b | a in r && b in r[a] ensures b in r && a in r[b] && r[b][a] == r[a][b] {
      if !((a == s && b == d) || (a == d && b == s)) {
        assert a in adj && b in adj[a] && r[a][b] == adj[a][b];
        assert b in adj && a in adj[b] && adj[b][a] == adj[a][b];
      }
    }
  }

  /** ... and every bandwidth positive when the new one is. */
  lemma WithEdgePositive(adj: Adjacency, s: string, d: string, info: EdgeInfo)
    ensures PositiveLinks(adj) && info.bandwidth > 0.0 ==> PositiveLinks(WithEdge(adj, s, d, info))
  {
    WithEdgeStores(adj, s, d, info);
  }

  class Graph {
    var adjacency: Adjacency

    ghost predicate Valid()
      reads this
    {
      Symmetric(adjacency)
    }

    constructor ()
      ensures adjacency == map[] && Valid()
    {
      adjacency := map[];
    }

    method AddNode(id: string)
      modifies this
      ensures adjacency == WithNode(old(adjacency), id)
    {
      if id !in adjacency {
        adjacency := adjacency[id := map[]];
      }
    }

    method AddEdge(source: string, destination: string, bandwidth: real, cost: real)
      modifies this
      ensures adjacency == WithEdge(old(adjacency), source, destination, EdgeInfo(bandwidth, cost))
    {
      AddNode(source);
      AddNode(destination);
      adjacency := adjacency[source := adjacency[source][destination := EdgeInfo(bandwidth, cost)]];
      adjacency := adjacency[destination := adjacency[destination][source := EdgeInfo(bandwidth, cost)]];
    }

    /**
     * dijkstra: every node gets its least latency from start, reached
     * through the recorded predecessors, or stays Unreachable exactly when
     * no walk leads to it; every node is expanded at most once.
     */
    method Dijkstra(start: string) returns (results: map<string, DijkstraResult>, ghost expanded: seq<string>)
      requires Valid() && PositiveLinks(adjacency) && start in adjacency
      ensures Outcome(adjacency, start, results)
      ensures forall i, j :: 0 <= i < j < |expanded| ==> expanded[i] != expanded[j]
      ensures forall v :: v in expanded <==> v in results && results[v].distance.Finite?
    {
      var adj := adjacency;
      results := map v | v in adj :: DijkstraResult(if v == start then Finite(0.0) else Unreachable, None);
      var visited: set<string> := {};
      var pq := [QueueEntry(start, 0.0)];
      expanded := [];
      Start(adj, start, results);
      while pq != []
        invariant Outer(adj, start, results, visited, pq)
        invariant forall i, j :: 0 <= i < j < |expanded| ==> expanded[i] != expanded[j]
        invariant forall v :: v in expanded <==> v in visited
        decreases |adj.Keys - visited|, |pq|
      {
        ghost var added;
        ghost var before := visited;
        results, visited, pq, added := Visit(adj, start, results, visited, pq);
        Record(expanded, before, visited, added);
        expanded := expanded + added;
      }
      Finish(adj, start, results, visited);
    }
  }

  /** Visiting one more node leaves one fewer to visit. */
  lemma Fewer(all: set<string>, visited: set<string>, x: string)
    requires x in all && x !in visited
    ensures |all - (visited + {x})| < |all - visited|
  {
    assert all - (visited + {x}) == (all - visited) - {x};
  }

  /**
   * One round of dijkstra's outer loop: poll a nearest entry; skip it if
   * its node is expanded already, otherwise expand the node and relax its
   * connections.
   */
  method Visit(adj: Adjacency, start: string, results: map<string, DijkstraResult>,
               visited: set<string>, pq: seq<QueueEntry>)
    returns (results': map<string, DijkstraResult>, visited': set<string>, pq': seq<QueueEntry>,
             ghost added: seq<string>)
    requires Outer(adj, start, results, visited, pq) && pq != []
    ensures Outer(adj, start, results', visited', pq')
    ensures (added == [] && visited' == visited) ||
      (|added| == 1 && added[0] !in visited && visited' == visited + {added[0]})
    ensures |adj.Keys - visited'| < |adj.Keys - visited| || (visited' == visited && |pq'| < |pq|)
  {
    var current, rest := PollNearest(pq);
    if current.node in visited {
      PopStale(adj, start, results, visited, pq, current, rest);
      return results, visited, rest, [];
    }
    var cur := current.node;
    Expand(adj, start, results, visited, pq, current, rest);
    Fewer(adj.Keys, visited, cur);
    visited', added := visited + {cur}, [cur];
    results', pq' := RelaxNeighbors(adj, start, results, visited', rest, cur);
  }

  /** Logging the expanded node keeps the log free of repeats and equal to the expanded set. */
  lemma Record(expanded: seq<string>, visited: set<string>, visited': set<string>, added: seq<string>)
    requires forall i, j :: 0 <= i < j < |expanded| ==> expanded[i] != expanded[j]
    requires forall v :: v in expanded <==> v in visited
    requires (added == [] && visited' == visited) ||
      (|added| == 1 && added[0] !in visited && visited' == visited + {added[0]})
    ensures forall i, j :: 0 <= i < j < |expanded + added| ==> (expanded + added)[i] != (expanded + added)[j]
    ensures forall v :: v in expanded + added <==> v in visited'
  {
  }

  /** The inner loop of dijkstra: relaxes every connection out of cur. */
  method RelaxNeighbors(adj: Adjacency, start: string, results: map<string, DijkstraResult>,
                        visited: set<string>, pq: seq<QueueEntry>, cur: string)
    returns (results': map<string, DijkstraResult>, pq': seq<QueueEntry>)
    requires cur in adj && State(adj, start, results, visited, pq, cur, adj[cur].Keys)
    ensures Outer(adj, start, results', visited, pq')
  {
    results', pq' := results, pq;
    var todo := adj[cur].Keys;
    while todo != {}
      invariant State(adj, start, results', visited, pq', cur, todo)
      decreases |todo|
    {
      var neighbor :| neighbor in todo;
      StateNeighbor(adj, start, results', visited, pq', cur, todo, neighbor);
      results', pq' := Relax(adj, start, results', visited, pq', cur, todo, neighbor);
      todo := todo - {neighbor};
    }
    Settle(adj, start, results', visited, pq', cur);
  }

  /**
   * One neighbour, taken in the map's iteration order (which is left
   * open): unless it is expanded already, a shorter distance through cur
   * replaces the recorded one, with cur as predecessor, and the neighbour
   * is queued again.
   */
  method Relax(adj: Adjacency, start: string, results: map<string, DijkstraResult>,
               visited: set<string>, pq: seq<QueueEntry>, cur: string, todo: set<string>, neighbor: string)
    returns (results': map<string, DijkstraResult>, pq': seq<QueueEntry>)
    requires State(adj, start, results, visited, pq, cur, todo) && neighbor in todo
    requires cur in adj && neighbor in adj[cur] && cur in results && neighbor in results
    requires results[cur].distance.Finite?
    ensures State(adj, start, results', visited, pq', cur, todo - {neighbor})
    ensures neighbor in visited ==> results' == results && pq' == pq
    ensures neighbor !in visited && Below(results[cur].distance.d + Latency(adj[cur][neighbor]), results[neighbor].distance) ==>
      neighbor in results' &&
      results'[neighbor] == DijkstraResult(Finite(results[cur].distance.d + Latency(adj[cur][neighbor])), Some(cur)) &&
      (forall v :: v in results' <==> v in results) &&
      (forall v :: v in results && v != neighbor ==> results'[v] == results[v]) &&
      |pq'| == |pq| + 1 && pq'[|pq|] == QueueEntry(neighbor, results[cur].distance.d + Latency(adj[cur][neighbor])) &&
      (forall i :: 0 <= i < |pq| ==> pq'[i] == pq[i])
    ensures neighbor !in visited && !Below(results[cur].distance.d + Latency(adj[cur][neighbor]), results[neighbor].distance) ==>
      results' == results && pq' == pq
  {
    if neighbor in visited {
      RelaxVisited(adj, start, results, visited, pq, cur, todo, neighbor);
      return results, pq;
    }
    var newDistance := results[cur].distance.d + Latency(adj[cur][neighbor]);
    if Below(newDistance, results[neighbor].distance) {
      RelaxImproved(adj, start, results, visited, pq, cur, todo, neighbor, newDistance);
      results' := results[neighbor := DijkstraResult(Finite(newDistance), Some(cur))];
      pq' := pq + [QueueEntry(neighbor, newDistance)];
    } else {
      RelaxKept(adj, start, results, visited, pq, cur, todo, neighbor);
      results', pq' := results, pq;
    }
  }

  // ---------------------------------------------------------------------
  // What dijkstra computes

  /** A walk through the graph: a non-empty sequence of connected nodes. */
  ghost predicate Walk(adj: Adjacency, path: seq<string>) {
    path != [] &&
    (forall i :: 0 <= i < |path| ==> path[i] in adj) &&
    (forall i :: 0 <= i < |path| - 1 ==> path[i + 1] in adj[path[i]])
  }

  /** The sum of the latencies along a walk. */
  ghost function PathLatency(adj: Adjacency, path: seq<string>): real
    requires Walk(adj, path) && PositiveLinks(adj)
    decreases |path|
  {
    if |path| == 1 then 0.0
    else
      assert Walk(adj, path[..|path| - 1]);
      PathLatency(adj, path[..|path| - 1]) + Latency(adj[path[|path| - 2]][path[|path| - 1]])
  }

  /** v's distance is its predecessor's distance plus the latency between them. */
  ghost predicate Linked(adj: Adjacency, results: map<string, DijkstraResult>, v: string)
    requires v in results && results[v].previous.Some?
  {
    var u := results[v].previous.value;
    u in adj && v in adj[u] && u in results && results[u].distance.Finite? &&
    adj[u][v].bandwidth > 0.0 &&
    results[v].distance == Finite(results[u].distance.d + Latency(adj[u][v]))
  }

  /** The connection u-v offers v no shorter distance than v already has. */
  ghost predicate Relaxed(adj: Adjacency, results: map<string, DijkstraResult>, u: string, v: string)
    requires u in adj && v in adj[u]
  {
    u in results && v in results && results[u].distance.Finite? && results[v].distance.Finite? &&
    adj[u][v].bandwidth > 0.0 &&
    results[v].distance.d <= results[u].distance.d + Latency(adj[u][v])
  }

  /**
   * The final state: start at distance 0 without predecessor, every other
   * node either Unreachable without predecessor or linked to one, and no
   * connection out of a reached node left unrelaxed.
   */
  ghost predicate Outcome(adj: Adjacency, start: string, results: map<string, DijkstraResult>) {
    Symmetric(adj) && PositiveLinks(adj) &&
    results.Keys == adj.Keys && start in adj &&
    results[start] == DijkstraResult(Finite(0.0), None) &&
    (forall v {:trigger results[v].previous} :: v in results ==> (results[v].previous.None? <==> (v == start || results[v].distance.Unreachable?))) &&
    (forall v {:trigger results[v].previous} :: v in results && results[v].previous.Some? ==> Linked(adj, results, v)) &&
    (forall u, v :: u in adj && v in adj[u] && results[u].distance.Finite? ==> Relaxed(adj, results, u, v))
  }

  /** Facts that hold throughout the search, whatever is queued. */
  ghost predicate Tentative(adj: Adjacency, start: string, results: map<string, DijkstraResult>, visited: set<string>) {
    Shape(adj, start, results, visited) && NonNegative(results) && Reached(results, visited) &&
    Predecessors(adj, start, results, visited)
  }

  /** One result per node, an adjacency kept in both directions, and start at distance 0. */
  ghost predicate Shape(adj: Adjacency, start: string, results: map<string, DijkstraResult>, visited: set<string>) {
    Symmetric(adj) && PositiveLinks(adj) && start in adj &&
    results.Keys == adj.Keys && visited <= adj.Keys &&
    results[start] == DijkstraResult(Finite(0.0), None)
  }

  ghost predicate NonNegative(results: map<string, DijkstraResult>) {
    forall v :: v in results && results[v].distance.Finite? ==> results[v].distance.d >= 0.0
  }

  ghost predicate Reached(results: map<string, DijkstraResult>, visited: set<string>) {
    forall v :: v in visited ==> v in results && results[v].distance.Finite?
  }

  /** Only start and the unreached lack a predecessor; a predecessor is expanded and linked. */
  ghost predicate Predecessors(adj: Adjacency, start: string, results: map<string, DijkstraResult>, visited: set<string>) {
    (forall v {:trigger results[v].previous} :: v in results ==> (results[v].previous.None? <==> (v == start || results[v].distance.Unreachable?))) &&
    (forall v {:trigger results[v].previous} :: v in results && results[v].previous.Some? ==>
      results[v].previous.value in visited && Linked(adj, results, v))
  }

  /**
   * The queue: an entry never understates its node's distance, and every
   * reached node not yet expanded is queued with its current distance.
   */
  ghost predicate Queued(results: map<string, DijkstraResult>, visited: set<string>, pq: seq<QueueEntry>) {
    (forall i :: 0 <= i < |pq| ==>
      pq[i].node in results && results[pq[i].node].distance.Finite? &&
      results[pq[i].node].distance.d <= pq[i].distance) &&
    (forall v :: v in results && results[v].distance.Finite? && v !in visited ==>
      QueueEntry(v, results[v].distance.d) in pq)
  }

  /** The state between two polls: expanded nodes are no farther than any queued entry. */
  ghost predicate Outer(adj: Adjacency, start: string, results: map<string, DijkstraResult>,
                        visited: set<string>, pq: seq<QueueEntry>) {
    Tentative(adj, start, results, visited) && Queued(results, visited, pq) &&
    (forall w, i :: w in visited && 0 <= i < |pq| ==> results[w].distance.d <= pq[i].distance) &&
    (forall u, v :: u in visited && v in adj[u] ==> Relaxed(adj, results, u, v))
  }

  /** The state while cur's neighbours in todo are still to be relaxed. */
  ghost predicate State(adj: Adjacency, start: string, results: map<string, DijkstraResult>,
                        visited: set<string>, pq: seq<QueueEntry>, cur: string, todo: set<string>) {
    Tentative(adj, start, results, visited) && Queued(results, visited, pq) &&
    cur in visited && todo <= adj[cur].Keys &&
    (forall w :: w in visited ==> results[w].distance.d <= results[cur].distance.d) &&
    (forall i :: 0 <= i < |pq| ==> results[cur].distance.d <= pq[i].distance) &&
    RelaxedBut(adj, results, visited, cur, todo)
  }

  /** Every connection out of an expanded node has been relaxed, except those from cur to todo. */
  ghost predicate RelaxedBut(adj: Adjacency, results: map<string, DijkstraResult>, visited: set<string>,
                             cur: string, todo: set<string>)
    requires visited <= adj.Keys
  {
    forall u, v :: u in visited && v in adj[u] && (u != cur || v !in todo) ==> Relaxed(adj, results, u, v)
  }

  /** PriorityQueue.poll: removes one occurrence of a nearest entry. */
  method PollNearest(pq: seq<QueueEntry>) returns (entry: QueueEntry, rest: seq<QueueEntry>)
    requires pq != []
    ensures entry in pq && forall i :: 0 <= i < |pq| ==> entry.distance <= pq[i].distance
    ensures |rest| == |pq| - 1 && multiset(rest) == multiset(pq) - multiset{entry}
    ensures forall x :: x in rest ==> x in pq
    ensures forall x :: x in pq && x != entry ==> x in rest
  {
    NearestExists(pq);
    var m :| 0 <= m < |pq| && forall j :: 0 <= j < |pq| ==> pq[m].distance <= pq[j].distance;
    entry := pq[m];
    rest := pq[..m] + pq[m + 1..];
    Sorting.RemoveAt(pq, m);
  }

  /** A non-empty queue has a nearest entry. */
  lemma NearestExists(pq: seq<QueueEntry>)
    requires pq != []
    ensures exists m :: 0 <= m < |pq| && forall j :: 0 <= j < |pq| ==> pq[m].distance <= pq[j].distance
    decreases |pq|
  {
    if |pq| > 1 {
      var front := pq[..|pq| - 1];
      NearestExists(front);
      var m :| 0 <= m < |front| && forall j :: 0 <= j < |front| ==> front[m].distance <= front[j].distance;
      if pq[|pq| - 1].distance < pq[m].distance {
        assert forall j :: 0 <= j < |pq| ==> pq[|pq| - 1].distance <= pq[j].distance;
      } else {
        assert forall j :: 0 <= j < |pq| ==> pq[m].distance <= pq[j].distance;
      }
    } else {
      assert forall j :: 0 <= j < |pq| ==> pq[0].distance <= pq[j].distance;
    }
  }

  lemma Start(adj: Adjacency, start: string, results: map<string, DijkstraResult>)
    requires Symmetric(adj) && PositiveLinks(adj) && start in adj
    requires results == map v | v in adj :: DijkstraResult(if v == start then Finite(0.0) else Unreachable, None)
    ensures Outer(adj, start, results, {}, [QueueEntry(start, 0.0)])
  {
  }

  /** An entry of an expanded node is dropped. */
  lemma PopStale(adj: Adjacency, start: string, results: map<string, DijkstraResult>,
                 visited: set<string>, pq: seq<QueueEntry>, entry: QueueEntry, rest: seq<QueueEntry>)
    requires Outer(adj, start, results, visited, pq) && entry.node in visited
    requires forall x :: x in rest ==> x in pq
    requires forall x :: x in pq && x != entry ==> x in rest
    ensures Outer(adj, start, results, visited, rest)
  {
    forall i | 0 <= i < |rest| ensures rest[i] in pq {
    }
  }

  /**
   * The nearest entry of a node not yet expanded carries the node's own
   * distance, which is therefore no larger than any queued entry.
   */
  lemma Expand(adj: Adjacency, start: string, results: map<string, DijkstraResult>,
               visited: set<string>, pq: seq<QueueEntry>, entry: QueueEntry, rest: seq<QueueEntry>)
    requires Outer(adj, start, results, visited, pq) && entry.node !in visited
    requires entry in pq && forall i :: 0 <= i < |pq| ==> entry.distance <= pq[i].distance
    requires forall x :: x in rest ==> x in pq
    requires forall x :: x in pq && x != entry ==> x in rest
    ensures entry.node in adj
    ensures State(adj, start, results, visited + {entry.node}, rest, entry.node, adj[entry.node].Keys)
  {
    var c := entry.node;
    var k :| 0 <= k < |pq| && pq[k] == entry;
    assert c in results && results[c].distance.Finite?;
    var q :| 0 <= q < |pq| && pq[q] == QueueEntry(c, results[c].distance.d);
    assert results[c].distance.d == entry.distance;
    TentativeGrow(adj, start, results, visited, c);
    QueuedPoll(results, visited, pq, entry, rest);
    RelaxedGrow(adj, results, visited, c);
    forall i | 0 <= i < |rest| ensures results[c].distance.d <= rest[i].distance {
      assert rest[i] in pq;
      var j :| 0 <= j < |pq| && pq[j] == rest[i];
      assert entry.distance <= pq[j].distance;
    }
    forall w | w in visited ensures results[w].distance.d <= results[c].distance.d {
      assert results[w].distance.d <= pq[k].distance;
    }
  }

  /** Expanding a reached node keeps the facts that hold throughout the search. */
  lemma TentativeGrow(adj: Adjacency, start: string, results: map<string, DijkstraResult>, visited: set<string>, c: string)
    requires Tentative(adj, start, results, visited) && c in results && results[c].distance.Finite?
    ensures Tentative(adj, start, results, visited + {c})
  {
  }

  /** Once c is expanded, only its own connections are left to relax. */
  lemma RelaxedGrow(adj: Adjacency, results: map<string, DijkstraResult>, visited: set<string>, c: string)
    requires visited <= adj.Keys && c in adj
    requires forall u, v :: u in visited && v in adj[u] ==> Relaxed(adj, results, u, v)
    ensures RelaxedBut(adj, results, visited + {c}, c, adj[c].Keys)
  {
  }

  /** Polling an entry and expanding its node keeps the queue facts. */
  lemma QueuedPoll(results: map<string, DijkstraResult>, visited: set<string>, pq: seq<QueueEntry>,
                   entry: QueueEntry, rest: seq<QueueEntry>)
    requires Queued(results, visited, pq)
    requires forall x :: x in rest ==> x in pq
    requires forall x :: x in pq && x != entry ==> x in rest
    ensures Queued(results, visited + {entry.node}, rest)
  {
    forall i | 0 <= i < |rest| ensures rest[i] in pq {
    }
  }

  /** A neighbour already expanded is no farther than cur. */
  lemma RelaxVisited(adj: Adjacency, start: string, results: map<string, DijkstraResult>,
                     visited: set<string>, pq: seq<QueueEntry>, cur: string, todo: set<string>, nb: string)
    requires State(adj, start, results, visited, pq, cur, todo) && nb in todo && nb in visited
    ensures State(adj, start, results, visited, pq, cur, todo - {nb})
  {
    assert Relaxed(adj, results, cur, nb);
  }

  /** During relaxation cur and each neighbour still to relax have a result, and cur's distance is finite. */
  lemma StateNeighbor(adj: Adjacency, start: string, results: map<string, DijkstraResult>,
                      visited: set<string>, pq: seq<QueueEntry>, cur: string, todo: set<string>, nb: string)
    requires State(adj, start, results, visited, pq, cur, todo) && nb in todo
    ensures cur in adj && nb in adj[cur] && cur in results && nb in results
    ensures results[cur].distance.Finite?
  {
    assert nb in adj by { assert Symmetric(adj); }
  }

  /** A neighbour whose distance the connection does not improve keeps it. */
  lemma RelaxKept(adj: Adjacency, start: string, results: map<string, DijkstraResult>,
                  visited: set<string>, pq: seq<QueueEntry>, cur: string, todo: set<string>, nb: string)
    requires State(adj, start, results, visited, pq, cur, todo) && nb in todo && nb !in visited
    requires !Below(results[cur].distance.d + Latency(adj[cur][nb]), results[nb].distance)
    ensures State(adj, start, results, visited, pq, cur, todo - {nb})
  {
    assert Relaxed(adj, results, cur, nb);
  }

  /** An improved neighbour gets the new distance, cur as predecessor, and a queue entry. */
  lemma RelaxImproved(adj: Adjacency, start: string, results: map<string, DijkstraResult>,
                      visited: set<string>, pq: seq<QueueEntry>, cur: string, todo: set<string>, nb: string, nd: real)
    requires State(adj, start, results, visited, pq, cur, todo) && nb in todo && nb !in visited
    requires nd == results[cur].distance.d + Latency(adj[cur][nb]) && Below(nd, results[nb].distance)
    ensures State(adj, start, results[nb := DijkstraResult(Finite(nd), Some(cur))], visited,
                  pq + [QueueEntry(nb, nd)], cur, todo - {nb})
  {
    ImprovedTentative(adj, start, results, visited, cur, nb, nd);
    ImprovedQueued(results, visited, pq, cur, nb, nd);
    ImprovedRelaxed(adj, results, visited, cur, todo, nb, nd);
  }

  lemma ImprovedTentative(adj: Adjacency, start: string, results: map<string, DijkstraResult>,
                          visited: set<string>, cur: string, nb: string, nd: real)
    requires Tentative(adj, start, results, visited) && cur in visited && cur in adj && nb in adj[cur]
    requires nb !in visited && results[cur].distance.Finite? && adj[cur][nb].bandwidth > 0.0
    requires nd == results[cur].distance.d + Latency(adj[cur][nb]) && Below(nd, results[nb].distance)
    ensures Tentative(adj, start, results[nb := DijkstraResult(Finite(nd), Some(cur))], visited)
  {
    var results' := results[nb := DijkstraResult(Finite(nd), Some(cur))];
    assert nd > 0.0 by {
      assert results[cur].distance.d >= 0.0;
    }
    ImprovedPredecessors(adj, start, results, visited, cur, nb, nd);
    assert Shape(adj, start, results', visited) by {
      assert nb in adj && nb != start;
    }
    assert NonNegative(results');
    assert Reached(results', visited);
  }

  lemma ImprovedPredecessors(adj: Adjacency, start: string, results: map<string, DijkstraResult>,
                             visited: set<string>, cur: string, nb: string, nd: real)
    requires Predecessors(adj, start, results, visited) && cur in visited && cur in adj && nb in adj[cur]
    requires cur in results && nb in results && nb != start
    requires nb !in visited && results[cur].distance.Finite? && adj[cur][nb].bandwidth > 0.0
    requires nd == results[cur].distance.d + Latency(adj[cur][nb])
    ensures Predecessors(adj, start, results[nb := DijkstraResult(Finite(nd), Some(cur))], visited)
  {
    var results' := results[nb := DijkstraResult(Finite(nd), Some(cur))];
    forall v | v in results' && results'[v].previous.Some?
      ensures results'[v].previous.value in visited && Linked(adj, results', v)
    {
      if v != nb {
        var u := results[v].previous.value;
        assert u in visited && Linked(adj, results, v);
        assert results'[u] == results[u];
      }
    }
  }

  lemma ImprovedQueued(results: map<string, DijkstraResult>, visited: set<string>, pq: seq<QueueEntry>,
                       cur: string, nb: string, nd: real)
    requires Queued(results, visited, pq) && nb in results && nb !in visited && Below(nd, results[nb].distance)
    ensures Queued(results[nb := DijkstraResult(Finite(nd), Some(cur))], visited, pq + [QueueEntry(nb, nd)])
  {
    var results' := results[nb := DijkstraResult(Finite(nd), Some(cur))];
    var pq' := pq + [QueueEntry(nb, nd)];
    forall v | v in results' && results'[v].distance.Finite? && v !in visited
      ensures QueueEntry(v, results'[v].distance.d) in pq'
    {
      if v != nb {
        assert QueueEntry(v, results[v].distance.d) in pq;
      }
    }
  }

  lemma ImprovedRelaxed(adj: Adjacency, results: map<string, DijkstraResult>, visited: set<string>,
                        cur: string, todo: set<string>, nb: string, nd: real)
    requires visited <= adj.Keys && cur in visited && nb !in visited && cur in adj && nb in adj[cur]
    requires adj[cur][nb].bandwidth > 0.0
    requires cur in results && results[cur].distance.Finite?
    requires nd == results[cur].distance.d + Latency(adj[cur][nb]) && nb in results && Below(nd, results[nb].distance)
    requires RelaxedBut(adj, results, visited, cur, todo)
    ensures RelaxedBut(adj, results[nb := DijkstraResult(Finite(nd), Some(cur))], visited, cur, todo - {nb})
  {
    var results' := results[nb := DijkstraResult(Finite(nd), Some(cur))];
    forall u, v | u in visited && v in adj[u] && (u != cur || v !in todo - {nb})
      ensures Relaxed(adj, results', u, v)
    {
      if u != cur || v != nb {
        assert Relaxed(adj, results, u, v);
      }
    }
  }

  /** Once cur's neighbours are all relaxed, the state between polls is back. */
  lemma Settle(adj: Adjacency, start: string, results: map<string, DijkstraResult>,
               visited: set<string>, pq: seq<QueueEntry>, cur: string)
    requires State(adj, start, results, visited, pq, cur, {})
    ensures Outer(adj, start, results, visited, pq)
  {
  }

  /** With the queue empty, the expanded nodes are exactly the reached ones. */
  lemma Finish(adj: Adjacency, start: string, results: map<string, DijkstraResult>, visited: set<string>)
    requires Outer(adj, start, results, visited, [])
    ensures Outcome(adj, start, results)
    ensures forall v :: v in visited <==> v in results && results[v].distance.Finite?
  {
    forall v | v in results && results[v].previous.Some? ensures Linked(adj, results, v) {
      assert results[v].previous.value in visited;
    }
  }

  /** No walk from start is shorter than the distance dijkstra found for its end. */
  lemma {:induction false} Shortest(adj: Adjacency, start: string, results: map<string, DijkstraResult>, path: seq<string>)
    requires Outcome(adj, start, results) && Walk(adj, path) && path[0] == start
    ensures results[path[|path| - 1]].distance.Finite?
    ensures results[path[|path| - 1]].distance.d <= PathLatency(adj, path)
    decreases |path|
  {
    if |path| > 1 {
      var front := path[..|path| - 1];
      assert Walk(adj, front);
      Shortest(adj, start, results, front);
      var u, v := path[|path| - 2], path[|path| - 1];
      assert Relaxed(adj, results, u, v);
    }
  }

  // ---------------------------------------------------------------------
  // Route reconstruction

  /** The predecessor measure: the nodes strictly nearer than distance x. */
  ghost function Nearer(results: map<string, DijkstraResult>, x: real): set<string> {
    set w | w in results && results[w].distance.Finite? && results[w].distance.d < x
  }

  /**
   * The loop of calculateShortestPath: from target, prepend each node and
   * step to its predecessor until there is none.  The route goes from
   * start to target, and its latency is target's distance.
   */
  method ReconstructPath(ghost adj: Adjacency, ghost start: string, results: map<string, DijkstraResult>, target: string)
    returns (path: seq<string>)
    requires Outcome(adj, start, results) && target in results && results[target].distance.Finite?
    ensures Walk(adj, path) && path[0] == start && path[|path| - 1] == target
    ensures PathLatency(adj, path) == results[target].distance.d
  {
    path := [];
    var current: Option<string> := Some(target);
    while current.Some?
      invariant current.Some? ==> current.value in results && results[current.value].distance.Finite?
      invariant path == [] ==> current == Some(target)
      invariant path != [] ==> Traced(adj, results, target, path) && results[path[0]].previous == current
      invariant current.None? ==> path != [] && path[0] == start
      decreases if current.Some? then 1 + |Nearer(results, results[current.value].distance.d)| else 0
    {
      var c := current.value;
      TraceBack(adj, start, results, target, path, c);
      path := [c] + path;
      current := results[c].previous;
      if current.Some? {
        assert Linked(adj, results, c);
        NearerShrinks(results, current.value, c);
      }
    }
    assert results[start].distance == Finite(0.0);
  }

  /** The walk ends at target, and target's distance is its first node's plus the walk's latency. */
  ghost predicate Traced(adj: Adjacency, results: map<string, DijkstraResult>, target: string, path: seq<string>) {
    PositiveLinks(adj) && Walk(adj, path) && path[|path| - 1] == target &&
    path[0] in results && results[path[0]].distance.Finite? &&
    target in results && results[target].distance.Finite? &&
    results[target].distance.d == results[path[0]].distance.d + PathLatency(adj, path)
  }

  /** One step back along the predecessor links extends the traced walk. */
  lemma TraceBack(adj: Adjacency, start: string, results: map<string, DijkstraResult>, target: string,
                  path: seq<string>, c: string)
    requires Outcome(adj, start, results) && c in results && results[c].distance.Finite?
    requires target in results && results[target].distance.Finite?
    requires (path == [] && c == target) ||
      (path != [] && Traced(adj, results, target, path) && results[path[0]].previous == Some(c))
    ensures Traced(adj, results, target, [c] + path)
  {
    if path == [] {
      assert Walk(adj, [c]);
      assert PathLatency(adj, [c]) == 0.0;
    } else {
      assert Linked(adj, results, path[0]);
      PrependLatency(adj, c, path);
    }
  }

  lemma NearerShrinks(results: map<string, DijkstraResult>, u: string, c: string)
    requires u in results && c in results && results[u].distance.Finite? && results[c].distance.Finite?
    requires results[u].distance.d < results[c].distance.d
    ensures |Nearer(results, results[u].distance.d)| < |Nearer(results, results[c].distance.d)|
  {
    var A, B := Nearer(results, results[u].distance.d), Nearer(results, results[c].distance.d);
    assert u in B - A;
    assert A <= B;
    assert B == A + (B - A);
  }

  /** Prepending a connected node adds the latency of that connection. */
  lemma {:induction false} PrependLatency(adj: Adjacency, c: string, path: seq<string>)
    requires PositiveLinks(adj) && Walk(adj, path) && c in adj && path[0] in adj[c]
    ensures Walk(adj, [c] + path)
    ensures PathLatency(adj, [c] + path) == Latency(adj[c][path[0]]) + PathLatency(adj, path)
    decreases |path|
  {
    var p := [c] + path;
    assert Walk(adj, p);
    if |path| > 1 {
      var front := path[..|path| - 1];
      assert Walk(adj, front);
      PrependLatency(adj, c, front);
      assert p[..|p| - 1] == [c] + front;
    }
  }

  // ---------------------------------------------------------------------
  // calculateShortestPath

  /** The outcome shown to the user. */
  datatype Route = UnknownNode | NoPath | Found(path: seq<string>, latency: real)

  /**
   * The data calculateShortestPath stores for an edge, as written: the
   * inverse of the bandwidth, which dijkstra inverts once more.
   */
  function AsWrittenInfo(e: Edge): EdgeInfo {
    EdgeInfo(if e.bandwidth == 0.0 then 0.0 else 1.0 / e.bandwidth, e.cost)
  }

  /** As written, an edge's latency comes out as its bandwidth. */
  lemma AsWrittenLatency(e: Edge)
    requires e.bandwidth > 0.0
    ensures AsWrittenInfo(e).bandwidth > 0.0
    ensures Latency(AsWrittenInfo(e)) == e.bandwidth
  {
    assert e.bandwidth * (1.0 / e.bandwidth) == 1.0;
  }

  /** A connection of bandwidth 2 gets latency 2, not the intended 0.5. */
  lemma AsWrittenExample()
    ensures Latency(AsWrittenInfo(Edge(0, 1, 1.0, 2.0))) == 2.0
    ensures Latency(RouteInfo(Edge(0, 1, 1.0, 2.0))) == 0.5
  {
    AsWrittenLatency(Edge(0, 1, 1.0, 2.0));
  }

  /** The corrected data: the bandwidth itself, so that the latency is its inverse. */
  function RouteInfo(e: Edge): (info: EdgeInfo)
    ensures e.bandwidth > 0.0 ==> info.bandwidth > 0.0 && Latency(info) == 1.0 / e.bandwidth
    ensures info.cost == e.cost
  {
    EdgeInfo(e.bandwidth, e.cost)
  }

  /** The graph of all node ids, without connections. */
  function NodesOf(ids: seq<string>): (adj: Adjacency)
    ensures adj.Keys == set x | x in ids
    ensures forall a :: a in adj ==> adj[a] == map[]
    decreases |ids|
  {
    if ids == [] then map[]
    else
      var adj := NodesOf(ids[..|ids| - 1]);
      var front := ids[..|ids| - 1];
      assert (set x | x in ids) == (set x | x in front) + {ids[|ids| - 1]};
      WithNode(adj, ids[|ids| - 1])
  }

  /** Adding two of the ids to the set of all ids changes nothing. */
  lemma KeysAbsorb(ids: seq<string>, i: nat, j: nat)
    requires i < |ids| && j < |ids|
    ensures (set x | x in ids) + {ids[i], ids[j]} == set x | x in ids
  {
  }

  /** The graph after adding the selected edges in order. */
  function Network(ids: seq<string>, edges: seq<Edge>, sel: seq<nat>): (adj: Adjacency)
    requires WellFormed(|ids|, edges) && Positions(sel, edges)
    ensures adj.Keys == set x | x in ids
    ensures Symmetric(adj)
    ensures PositiveBandwidths(edges) ==> PositiveLinks(adj)
    decreases |sel|
  {
    if sel == [] then NodesOf(ids)
    else
      var e := edges[sel[|sel| - 1]];
      var adj := Network(ids, edges, sel[..|sel| - 1]);
      KeysAbsorb(ids, e.src, e.dst);
      WithEdgeSymmetric(adj, ids[e.src], ids[e.dst], RouteInfo(e));
      WithEdgePositive(adj, ids[e.src], ids[e.dst], RouteInfo(e));
      WithEdge(adj, ids[e.src], ids[e.dst], RouteInfo(e))
  }

  /** The edge connects the nodes named a and b, in either direction. */
  predicate Joins(ids: seq<string>, e: Edge, a: string, b: string)
    requires e.src < |ids| && e.dst < |ids|
  {
    (ids[e.src] == a && ids[e.dst] == b) || (ids[e.src] == b && ids[e.dst] == a)
  }

  /** Two nodes are neighbours in the graph exactly when a selected edge joins them. */
  lemma {:induction false} NetworkLinks(ids: seq<string>, edges: seq<Edge>, sel: seq<nat>, a: string, b: string)
    requires WellFormed(|ids|, edges) && Positions(sel, edges)
    ensures (a in Network(ids, edges, sel) && b in Network(ids, edges, sel)[a]) <==>
      exists j :: 0 <= j < |sel| && Joins(ids, edges[sel[j]], a, b)
    decreases |sel|
  {
    if sel != [] {
      var front := sel[..|sel| - 1];
      var e := edges[sel[|sel| - 1]];
      NetworkSnoc(ids, edges, sel);
      var adj := Network(ids, edges, front);
      NetworkLinks(ids, edges, front, a, b);
      WithEdgeHas(adj, ids[e.src], ids[e.dst], RouteInfo(e), a, b);
      JoinsSnoc(ids, edges, sel, front, a, b);
    }
  }

  /** After addEdge, b is a neighbour of a when it was before or the new connection joins them. */
  lemma WithEdgeHas(adj: Adjacency, s: string, d: string, info: EdgeInfo, a: string, b: string)
    ensures (a in WithEdge(adj, s, d, info) && b in WithEdge(adj, s, d, info)[a]) <==>
      ((a == s && b == d) || (a == d && b == s) || (a in adj && b in adj[a]))
  {
    WithEdgeStores(adj, s, d, info);
  }

  /** The last selected edge is added by addEdge to the graph of the ones before it. */
  lemma NetworkSnoc(ids: seq<string>, edges: seq<Edge>, sel: seq<nat>)
    requires WellFormed(|ids|, edges) && Positions(sel, edges) && sel != []
    ensures Positions(sel[..|sel| - 1], edges)
    ensures var e := edges[sel[|sel| - 1]];
      Network(ids, edges, sel) == WithEdge(Network(ids, edges, sel[..|sel| - 1]), ids[e.src], ids[e.dst], RouteInfo(e))
  {
  }

  /** Some edge of a selection joins a and b when its last edge or an earlier one does. */
  lemma JoinsSnoc(ids: seq<string>, edges: seq<Edge>, sel: seq<nat>, front: seq<nat>, a: string, b: string)
    requires WellFormed(|ids|, edges) && Positions(sel, edges) && sel != [] && front == sel[..|sel| - 1]
    ensures (exists j :: 0 <= j < |sel| && Joins(ids, edges[sel[j]], a, b)) <==>
      Joins(ids, edges[sel[|sel| - 1]], a, b) ||
      exists j :: 0 <= j < |front| && Joins(ids, edges[front[j]], a, b)
  {
    if exists j :: 0 <= j < |front| && Joins(ids, edges[front[j]], a, b) {
      var j :| 0 <= j < |front| && Joins(ids, edges[front[j]], a, b);
      assert sel[j] == front[j];
    }
    if exists j :: 0 <= j < |sel| && Joins(ids, edges[sel[j]], a, b) {
      var j :| 0 <= j < |sel| && Joins(ids, edges[sel[j]], a, b);
      if j < |front| {
        assert front[j] == sel[j];
      }
    }
  }

  /** One more node id: addNode on the graph of the ids before it. */
  lemma NodesStep(ids: seq<string>, i: nat)
    requires i < |ids|
    ensures NodesOf(ids[..i + 1]) == WithNode(NodesOf(ids[..i]), ids[i])
  {
    var p := ids[..i + 1];
    assert p[..|p| - 1] == ids[..i] && p[|p| - 1] == ids[i];
  }

  /** One more selected edge: addEdge on the graph of the edges before it. */
  lemma NetworkStep(ids: seq<string>, edges: seq<Edge>, selected: seq<nat>, j: nat)
    requires WellFormed(|ids|, edges) && Positions(selected, edges) && j < |selected|
    ensures Positions(selected[..j], edges) && Positions(selected[..j + 1], edges)
    ensures var e := edges[selected[j]];
      Network(ids, edges, selected[..j + 1]) ==
      WithEdge(Network(ids, edges, selected[..j]), ids[e.src], ids[e.dst], EdgeInfo(e.bandwidth, e.cost))
  {
    NetworkSnoc(ids, edges, selected[..j + 1]);
    assert selected[..j + 1][..j] == selected[..j];
  }

  /** The graph calculateShortestPath builds: every node, then every selected edge. */
  method BuildGraph(ids: seq<string>, edges: seq<Edge>, selected: seq<nat>) returns (graph: Graph)
    requires WellFormed(|ids|, edges) && Positions(selected, edges)
    ensures fresh(graph) && graph.adjacency == Network(ids, edges, selected) && graph.Valid()
  {
    graph := new Graph();
    var i := 0;
    while i < |ids|
      invariant 0 <= i <= |ids| && graph.adjacency == NodesOf(ids[..i])
    {
      graph.AddNode(ids[i]);
      NodesStep(ids, i);
      i := i + 1;
    }
    assert ids[..i] == ids;
    var j := 0;
    while j < |selected|
      invariant 0 <= j <= |selected| && graph.adjacency == Network(ids, edges, selected[..j])
    {
      var e := edges[selected[j]];
      NetworkStep(ids, edges, selected, j);
      graph.AddEdge(ids[e.src], ids[e.dst], e.bandwidth, e.cost);
      j := j + 1;
    }
    assert selected[..j] == selected;
  }

  /** No walk from start reaches a node left Unreachable. */
  lemma NoWalk(adj: Adjacency, start: string, results: map<string, DijkstraResult>, target: string)
    requires Outcome(adj, start, results) && target in results && results[target].distance.Unreachable?
    ensures forall p :: Walk(adj, p) && p[0] == start ==> p[|p| - 1] != target
  {
    forall p | Walk(adj, p) && p[0] == start ensures p[|p| - 1] != target {
      Shortest(adj, start, results, p);
    }
  }

  /** Every walk from start to target is at least target's distance long. */
  lemma ShortestAll(adj: Adjacency, start: string, results: map<string, DijkstraResult>, target: string)
    requires Outcome(adj, start, results) && target in results && results[target].distance.Finite?
    ensures forall p :: Walk(adj, p) && p[0] == start && p[|p| - 1] == target ==>
      results[target].distance.d <= PathLatency(adj, p)
  {
    forall p | Walk(adj, p) && p[0] == start && p[|p| - 1] == target
      ensures results[target].distance.d <= PathLatency(adj, p)
    {
      Shortest(adj, start, results, p);
    }
  }

  /**
   * calculateShortestPath: with both nodes known, builds the graph of the
   * selected edges and reports either that target cannot be reached, or a
   * route from source to target whose latency no walk beats.
   */
  method CalculateShortestPath(ids: seq<string>, edges: seq<Edge>, selected: seq<nat>, source: string, target: string)
    returns (r: Route)
    requires WellFormed(|ids|, edges) && Positions(selected, edges) && PositiveBandwidths(edges)
    ensures r.UnknownNode? <==> source !in ids || target !in ids
    ensures r.Found? ==> var adj := Network(ids, edges, selected);
      Walk(adj, r.path) && r.path[0] == source && r.path[|r.path| - 1] == target &&
      r.latency == PathLatency(adj, r.path) &&
      forall p :: Walk(adj, p) && p[0] == source && p[|p| - 1] == target ==> r.latency <= PathLatency(adj, p)
    ensures r.NoPath? ==> var adj := Network(ids, edges, selected);
      forall p :: Walk(adj, p) && p[0] == source ==> p[|p| - 1] != target
  {
    if source !in ids || target !in ids {
      return UnknownNode;
    }
    var graph := BuildGraph(ids, edges, selected);
    var adj := graph.adjacency;
    var results, expanded := graph.Dijkstra(source);
    if results[target].distance.Unreachable? {
      NoWalk(adj, source, results, target);
      return NoPath;
    }
    var path := ReconstructPath(adj, source, results, target);
    ShortestAll(adj, source, results, target);
    return Found(path, results[target].distance.d);
  }
}
