# Verified model of the network topology optimiser and its companion algorithms

This project models a coursework repository in Dafny and proves properties about the model.

The centrepiece is a network topology optimiser, which exists in two versions.

- **Java (`NetworkOptimizerApp.java`).** The optimiser builds a spanning tree over a set of nodes and weighted edges, each edge having a cost and a bandwidth. It has three builders:
  - Prim's algorithm, which grows a frontier from the first node;
  - Kruskal's algorithm, which sweeps the edges in cost order over a disjoint-set forest;
  - a multi-objective variant, which reruns the Kruskal sweep on a score that blends normalised cost with bandwidth shortfall.

  A hill-climbing refiner then swaps single edges while the swap lowers the solution score and the result is still a spanning tree. Routes over the selected edges come from Dijkstra's algorithm on a symmetric adjacency map, followed by path reconstruction from the predecessor links.
- **Python (`NetworkOptimizer.py`).** The smaller engine keeps:
  - connection dictionaries, updated in place;
  - a normalisation of costs and bandwidths;
  - a heap-based Prim's algorithm;
  - a lazy-deletion Dijkstra with path reconstruction;
  - the Pareto filter and balanced choice of its hybrid optimisation.

Beside the optimiser the repository holds eight standalone algorithms, and each one is modelled:

- `MinimumNetworkCost.java`: Kruskal's algorithm with a virtual power node and a rank-1 union-find structure.
- `TetrisGame.java`: the Tetris board and falling-block state machine.
- `TrendingHashtags.java`: the February 2024 trending-hashtags report.
- `KthSmallestInvestment.java`: the k-th smallest product, found by binary search over a pair count.
- `PackageDelivery.java`: the parcel-collection start node, chosen from breadth-first search distances.
- `ClosestPair.java`: the brute-force closest pair under Manhattan distance.
- `CriticalTemperature.java`: the critical-temperature (egg-drop) dynamic program.
- `MinimumRewards.java`: two-pass greedy rewards.

How the model follows the source:

- **State that the source updates in place** is modelled imperatively:
  - the union-find arrays, the Tetris board and block, and the dp table are `class` fields or `array`s;
  - the dictionaries are `map` fields that the methods reassign;
  - every loop is a `while` or `for` loop with its invariants.
- **State-changing methods** are proved against specification functions on the values they build:
  - `Labels` gives the components of a link sequence, described by quick-find labels;
  - `Sweep` is the Kruskal sweep;
  - `Cleared` is the row clearing;
  - `Best` gives the greedy rewards;
  - `Drops` is the egg-drop recurrence;
  - `Dist` is the least number of hops.
- **The properties the source promises** are proved about those functions:
  - acyclicity, spanning and size bounds;
  - minimality and uniqueness;
  - permutation and order.

The modules follow the source files.

- `closest_pair.dfy`, `critical_temperature.dfy`, `kth_smallest.dfy`, `min_network_cost.dfy`, `min_rewards.dfy`, `package_delivery.dfy`, `tetris.dfy` and `trending.dfy` each model one standalone exercise.
- `disjoint_set.dfy`, `spanning_trees.dfy` and `routing.dfy` model the Java optimiser.
- `py_optimizer.dfy` and `hybrid.dfy` model the Python optimiser.
- `forest.dfy`, `roots.dfy`, `sorting.dfy` and `sums.dfy` hold shared theory:
  - connectivity and acyclicity of a link sequence;
  - rank-ordered parent forests;
  - stable sorting;
  - sums.

Costs, bandwidths, latencies and weights are exact `real`s, not floating point. `Double.MAX_VALUE` is modelled as the explicit `Unreachable` value and `float('inf')` as `Inf`. Randomness is a parameter:
- `pick` is the index of the next Tetris shape;
- `luck` is the row the power-up clears.

## Model

| member | source | states |
|---|---|---|
| Forest.Labels | NetworkOptimizerApp.java:680-718 | the component labels of nodes 0..m-1 after a link sequence; every label is a node index below m |
| Forest.MergeSame | NetworkOptimizerApp.java:701-717 | after a link, two nodes share a label exactly when they did before, or one was with one endpoint and the other with the other endpoint |
| Forest.SameSnoc | NetworkOptimizerApp.java:701-717 | adding a link joins exactly the components of its two endpoints, stated as connectivity over the link sequence |
| Forest.SameGrows | NetworkOptimizerApp.java:314-326 | adding links never separates connected nodes |
| Forest.ClassCount | NetworkOptimizerApp.java:314-326 | the number of components is m minus the number of links that joined two components |
| Forest.JoinCountFull | NetworkOptimizerApp.java:318-320 | every link joined two components exactly when the link sequence is acyclic |
| Forest.AcyclicSize | NetworkOptimizerApp.java:323-325 | an acyclic link set on m nodes has at most m-1 links |
| Forest.ConnectedClasses | NetworkOptimizerApp.java:446-452 | all nodes are connected exactly when a single label remains |
| Forest.TreeCharacterization | NetworkOptimizerApp.java:426-453 | m-1 links on m nodes are acyclic if and only if they connect every node |
| Forest.SweepAcyclic | NetworkOptimizerApp.java:314-326 | the edges the Kruskal sweep keeps form an acyclic set |
| Forest.SweepSize | NetworkOptimizerApp.java:323-325 | the sweep keeps at most m-1 edges, and none on an empty node set |
| Forest.SweepDrawsFrom | NetworkOptimizerApp.java:311-321 | the sweep keeps only scanned edges, each at most as often as it occurs |
| Forest.SweepSorted | NetworkOptimizerApp.java:311-319 | scanning in key order keeps the kept edges in key order |
| Forest.SweepSpans | NetworkOptimizerApp.java:314-326 | after the sweep the endpoints of every scanned edge are connected by kept edges |
| Forest.SweepSaturated | NetworkOptimizerApp.java:323-325 | once m-1 edges are kept, the early exit changes nothing: further edges are never kept |
| Forest.SpanningSize | NetworkOptimizerApp.java:426-428 | an acyclic connected link set on m > 0 nodes has exactly m-1 links |
| Forest.AcyclicSnoc | NetworkOptimizerApp.java:318-320 | a link between two components keeps a link set acyclic |
| Sorting.SortSorted | NetworkOptimizerApp.java:311-312 | the stable sort puts any sequence in order under a total preorder |
| Sorting.SortBy | NetworkOptimizerApp.java:311-312 | the sort is a permutation of its input |
| Sorting.KeyOrder | NetworkOptimizerApp.java:311-312 | the edge positions are ordered by ascending key, with equal keys in list order, and form a permutation of 0..n-1 |
| Sorting.DistinctOf | NetworkOptimizerApp.java:314-321 | a selection drawn from a permutation of 0..n-1 never repeats an edge |
| Sums.SumPermutation | NetworkOptimizerApp.java:455-465 | a sum over a list does not depend on the order of its elements |
| Roots.Root | NetworkOptimizerApp.java:694-699 | following parent links ends at a root, a node whose parent is itself; every step strictly raises the rank |
| Roots.CompressRoot | NetworkOptimizerApp.java:694-699 | pointing nodes straight at their roots (path compression) keeps every node's root |
| Roots.CompressRanked | NetworkOptimizerApp.java:694-699 | path compression keeps the forest rank-ordered |
| Roots.LinkRoot | NetworkOptimizerApp.java:709-716 | linking root loser under root winner sends exactly the nodes of loser's tree to winner |
| Roots.LinkRoots | NetworkOptimizerApp.java:701-717 | linking the two roots merges exactly the two sets, as the reference labels of one more link do |
| Roots.MergeRepresents | NetworkOptimizerApp.java:701-717 | a merge of the representatives describes the graph with the new link added, in either direction |
| DisjointSets.DisjointSet.constructor | NetworkOptimizerApp.java:684-692 | every index is its own parent, with rank 0, and no two indices share a set |
| DisjointSets.DisjointSet.Find | NetworkOptimizerApp.java:694-699 | returns the root of x's set, makes parent[x] that root, and leaves every index's representative unchanged |
| DisjointSets.DisjointSet.Union | NetworkOptimizerApp.java:701-717 | indices already in one set change nothing; otherwise the lower-rank root goes under the other, x's root winning ties, and only a tie raises its rank by one |
| DisjointSets.DisjointSet.UnionTracks | NetworkOptimizerApp.java:701-717 | after a union the sets are the components of the graph with the new link |
| SpanningTrees.KeySweep | NetworkOptimizerApp.java:311-326 | the union-find loop keeps exactly the edges of the reference sweep in key order |
| SpanningTrees.SweepStep | NetworkOptimizerApp.java:318-325 | one edge is kept exactly when fewer than n-1 edges are kept and its endpoints are in different components |
| SpanningTrees.KruskalMST | NetworkOptimizerApp.java:298-329 | the result is the sweep in ascending cost order: acyclic, at most n-1 edges, costs non-decreasing, and a spanning tree whenever the graph is connected |
| SpanningTrees.SweepForest | NetworkOptimizerApp.java:311-326 | for any key order the sweep selects distinct list edges that form an acyclic set of at most n-1 edges, in ascending key order |
| SpanningTrees.SweepSpanning | NetworkOptimizerApp.java:314-326 | on a connected graph the sweep keeps a spanning tree |
| SpanningTrees.MaxOf | NetworkOptimizerApp.java:337-338 | the stream maximum of the elements, or 1.0 for none |
| SpanningTrees.ScoreRange | NetworkOptimizerApp.java:340-349 | with costs >= 0, bandwidths > 0 and a positive maximum cost, every edge score lies in [0, 1] |
| SpanningTrees.ScoreMonotone | NetworkOptimizerApp.java:342-347 | a cheaper edge with at least as much bandwidth never scores worse |
| SpanningTrees.MultiObjectiveOptimization | NetworkOptimizerApp.java:331-379 | the sweep in ascending score order: acyclic, at most n-1 edges, scores non-decreasing, and a spanning tree whenever the graph is connected |
| SpanningTrees.PrimMST | NetworkOptimizerApp.java:250-296 | no nodes gives no edges; the result is acyclic and closed, since no list edge leaves the component of the first node; on a connected graph it is a spanning tree |
| SpanningTrees.PrimStep | NetworkOptimizerApp.java:272-292 | admitting a polled edge with exactly one endpoint included adds one node and one edge, and the tree stays acyclic and equal to the component of the first node |
| SpanningTrees.PrimSkip | NetworkOptimizerApp.java:277-279 | skipping a polled edge whose endpoints are both included keeps the loop state |
| SpanningTrees.PrimGrow | NetworkOptimizerApp.java:282-284 | a crossing edge keeps the tree acyclic, and the new node joins the first node's component |
| SpanningTrees.PrimDone | NetworkOptimizerApp.java:269 | when the queue is empty or every node is in, no edge leaves the tree's component; on a connected graph the tree spans |
| SpanningTrees.Poll | NetworkOptimizerApp.java:270 | PriorityQueue.poll removes one occurrence of some cheapest queued edge |
| SpanningTrees.PushIncident | NetworkOptimizerApp.java:287-292 | queues exactly the edges of the new node whose other endpoint is not yet included |
| SpanningTrees.IsValidSpanningTree | NetworkOptimizerApp.java:426-453 | true exactly when the solution has n-1 edges and every node shares node 0's root |
| SpanningTrees.UnionAll | NetworkOptimizerApp.java:430-443 | after a union per solution edge, the sets are the components of the solution's edges |
| SpanningTrees.SpanningTreeAcyclic | NetworkOptimizerApp.java:426-453 | a solution that passes the check has no cycle |
| SpanningTrees.AverageBandwidth | NetworkOptimizerApp.java:460 | the average bandwidth is positive whenever every bandwidth is |
| SpanningTrees.EvaluatePermutation | NetworkOptimizerApp.java:455-465 | the score depends only on which edges a solution holds, not on their order |
| SpanningTrees.EvaluateCheaper | NetworkOptimizerApp.java:455-465 | replacing an edge by a cheaper one of equal bandwidth strictly lowers the score |
| SpanningTrees.RemoveFirst | NetworkOptimizerApp.java:402 | List.remove drops exactly one occurrence when the element is present, and nothing otherwise |
| SpanningTrees.Swap | NetworkOptimizerApp.java:401-403 | a candidate has the solution's size and its multiset with one edge exchanged |
| SpanningTrees.SwapsAt | NetworkOptimizerApp.java:396-416 | either the swap of solution edge p for the first list edge k outside the solution that gives a valid tree of strictly lower score (no earlier k gains), or no swap of that edge gains |
| SpanningTrees.Pass | NetworkOptimizerApp.java:390-420 | one pass either accepts the first gaining swap in scan order (solution edges, then list edges), a valid tree of strictly lower score, or leaves the solution unchanged and locally optimal |
| SpanningTrees.Refine | NetworkOptimizerApp.java:386-421 | at most 100 passes; the score never rises, the size never changes, any accepted solution is a spanning tree, and stopping early means no single swap helps |
| SpanningTrees.HillClimbingOptimization | NetworkOptimizerApp.java:381-424 | starts from Kruskal's tree and returns a solution of the same size and no higher score, which is that tree or a valid spanning tree |
| Routing.Latency | NetworkOptimizerApp.java:636 | the latency of a connection with positive bandwidth is positive |
| Routing.WithNode | NetworkOptimizerApp.java:592-594 | putIfAbsent adds the id with an empty neighbour map and changes no existing entry |
| Routing.WithEdgeStores | NetworkOptimizerApp.java:596-604 | both endpoints become nodes, both directions hold the new data, and no other connection changes |
| Routing.WithEdgeSymmetric | NetworkOptimizerApp.java:601-603 | addEdge keeps every connection stored identically in both directions |
| Routing.Graph.AddNode | NetworkOptimizerApp.java:592-594 | the adjacency map becomes that of putIfAbsent |
| Routing.Graph.AddEdge | NetworkOptimizerApp.java:596-604 | the adjacency map becomes that of the bidirectional insertion |
| Routing.Graph.Dijkstra | NetworkOptimizerApp.java:606-647 | the start is at 0, each node is expanded at most once, and reached nodes have predecessors linked by latency; no walk is shorter than a distance found; unreached nodes stay Unreachable with no predecessor |
| Routing.Visit | NetworkOptimizerApp.java:620-644 | one poll drops a stale entry or expands a new node, keeping the loop invariant and shrinking the work left |
| Routing.RelaxNeighbors | NetworkOptimizerApp.java:627-643 | relaxing every connection of the expanded node restores the loop invariant |
| Routing.Relax | NetworkOptimizerApp.java:629-642 | an expanded neighbour changes nothing. Otherwise, exactly when the new distance is lower, the neighbour's result becomes that distance with the polled node as predecessor, every other result and the key set are kept, and the queue keeps its entries and gains that one at its end; when it is not lower, nothing changes. The loop invariant is kept |
| Routing.PollNearest | NetworkOptimizerApp.java:621 | PriorityQueue.poll removes one occurrence of some entry of least distance |
| Routing.Finish | NetworkOptimizerApp.java:620-646 | with the queue empty, the expanded nodes are exactly the reached ones and the outcome holds |
| Routing.Shortest | NetworkOptimizerApp.java:606-647 | every walk from the start reaches a node with a finite distance no greater than the walk's latency |
| Routing.ReconstructPath | NetworkOptimizerApp.java:223-230 | following predecessors from target gives a walk from the start to target whose latency is target's distance |
| Routing.PrependLatency | NetworkOptimizerApp.java:228-229 | putting a connected node in front of a walk adds that connection's latency |
| Routing.AsWrittenLatency | NetworkOptimizerApp.java:213-216 | as written, the latency dijkstra assigns an edge equals its bandwidth |
| Routing.AsWrittenExample | NetworkOptimizerApp.java:213-216 | bandwidth 2 gives latency 2 as written, and 0.5 with the corrected data |
| Routing.RouteInfo | NetworkOptimizerApp.java:213-216 | the corrected edge data keep the cost and give latency 1/bandwidth |
| Routing.Network | NetworkOptimizerApp.java:207-216 | the temporary graph has exactly the node ids as nodes and is symmetric, with positive bandwidths when the edges have them |
| Routing.NetworkLinks | NetworkOptimizerApp.java:213-216 | two nodes are neighbours exactly when a selected edge joins them |
| Routing.BuildGraph | NetworkOptimizerApp.java:207-216 | corrected: the loops build exactly that graph |
| Routing.NoWalk | NetworkOptimizerApp.java:220-221 | a target left Unreachable has no walk from the source |
| Routing.ShortestAll | NetworkOptimizerApp.java:222-235 | every walk from source to target has at least target's distance as latency |
| Routing.CalculateShortestPath | NetworkOptimizerApp.java:200-238 | corrected: an unknown id is reported; otherwise either there is no walk at all, or the returned path is a walk from source to target whose latency is the least over all such walks |
| PyOptimizer.MaxValue | NetworkOptimizer.py:42 | max over the dictionary's values: a value that no value exceeds |
| PyOptimizer.MinValue | NetworkOptimizer.py:43 | min over the dictionary's values: a value below no other |
| PyOptimizer.CombinedWeight | NetworkOptimizer.py:74-75 | the combined weight is infinite exactly when the bandwidth is not positive |
| PyOptimizer.CombinedWeightMonotone | NetworkOptimizer.py:73-75 | with non-negative weights, higher bandwidth and lower cost never give a heavier edge |
| PyOptimizer.ConnectRecorded | NetworkOptimizer.py:33-38 | recording a connection in both directions keeps every connection recorded under its directed keys |
| PyOptimizer.NetworkOptimizer.constructor | NetworkOptimizer.py:21-24 | the network starts with no nodes and no edges |
| PyOptimizer.NetworkOptimizer.AddNode | NetworkOptimizer.py:26-28 | the id maps to a fresh empty connection dictionary; a new id is appended to the insertion order |
| PyOptimizer.NetworkOptimizer.AddConnection | NetworkOptimizer.py:30-38 | with both ids present, (cost, bandwidth) is stored in both nodes' dictionaries and under both directed keys; otherwise nothing changes |
| PyOptimizer.NetworkOptimizer.NormalizeObjectives | NetworkOptimizer.py:40-52 | weights cover exactly the keys of edge_costs; no edges gives an empty result; a zero bandwidth or an all-zero cost list raises ZeroDivisionError |
| PyOptimizer.NetworkOptimizer.NormalizedRange | NetworkOptimizer.py:42-50 | with costs >= 0 (one positive) and bandwidths > 0, every weight lies in (0, 1] |
| PyOptimizer.NetworkOptimizer.NormalizedOrder | NetworkOptimizer.py:48-50 | a key no dearer and of no less bandwidth never weighs more |
| PyOptimizer.NetworkOptimizer.PushNeighbors | NetworkOptimizer.py:86-92 | pushes exactly the connections of the new node to nodes not included, each with its combined weight |
| PyOptimizer.NetworkOptimizer.PrimStep | NetworkOptimizer.py:79-92 | one pop keeps the loop state and either shrinks the heap or adds a node |
| PyOptimizer.PrimGrow | NetworkOptimizer.py:82-92 | appending (u, v, w) for a popped v outside the tree keeps every edge leading from a reached node to a new one |
| PyOptimizer.NetworkOptimizer.FindMinimumSpanningTree | NetworkOptimizer.py:54-94 | no nodes gives []; the division error is raised exactly when normalisation raises; each edge leads from a reached node to an unreached one along a weighed connection, so there are fewer edges than nodes; the tree reaches every node or a set no connection leaves |
| PyOptimizer.PopNearest | NetworkOptimizer.py:108 | heappop returns some entry of least distance and removes it |
| PyOptimizer.Settle | NetworkOptimizer.py:107-114 | expanding a nearest entry that matches its node's distance numbers the node next and leaves one node fewer to expand |
| PyOptimizer.Relax | NetworkOptimizer.py:126-131 | relaxing one connection of the node being expanded restores the loop invariant: the search state, the node's own distance and the bound on expanded nodes are kept |
| PyOptimizer.NetworkOptimizer.Weigh | NetworkOptimizer.py:117-124 | the weight of the chosen kind: the cost, the bandwidth inverse (infinite for bandwidth <= 0), or the normalised weight, whose division may raise |
| PyOptimizer.NetworkOptimizer.ExpandNode | NetworkOptimizer.py:116-131 | relaxing every connection of the current node keeps the search state unless normalisation raises |
| PyOptimizer.NetworkOptimizer.ExploreStep | NetworkOptimizer.py:107-131 | one pop skips a stale entry, stops at the end node or expands a new node; the search state is kept unless normalisation raises, each round expands a node or shrinks the heap, and with start equal to end the first pop stops |
| PyOptimizer.NetworkOptimizer.Explore | NetworkOptimizer.py:101-131 | the loop ends with the start at 0 and no predecessor, no negative distance, and every predecessor linked by the connection's weight |
| PyOptimizer.Reconstruct | NetworkOptimizer.py:137-142 | the reversed predecessor walk ends at the target, follows finite-weight connections and, when no node is named "", starts at the start |
| PyOptimizer.Finish | NetworkOptimizer.py:133-144 | an end left at infinity gives (None, inf); otherwise the reconstructed path and the end's distance |
| PyOptimizer.NetworkOptimizer.CalculateShortestPath | NetworkOptimizer.py:96-144 | an unknown id gives (None, inf); the division error is raised only for combined weights; a returned path ends at the end node, starts at the start node and weighs the reported distance when no node is named ""; start == end gives ([start], 0) |
| Hybrid.IsDominated | NetworkOptimizer.py:217-221 | true exactly when some other solution is no worse on both objectives and better on one |
| Hybrid.ParetoFront | NetworkOptimizer.py:214-224 | the non-dominated solutions, in their order |
| Hybrid.FrontMembers | NetworkOptimizer.py:214-224 | a solution is on the front exactly when it is one of the solutions that nothing dominates |
| Hybrid.FrontCovers | NetworkOptimizer.py:214-224 | every solution is on the front or dominated by a solution on it |
| Hybrid.FrontNonEmpty | NetworkOptimizer.py:214-224 | the front is non-empty whenever there are solutions |
| Hybrid.FrontIncomparable | NetworkOptimizer.py:214-224 | no front member dominates another |
| Hybrid.DominatesTransitive | NetworkOptimizer.py:219 | dominance is transitive |
| Hybrid.ScoreRange | NetworkOptimizer.py:232-239 | with non-negative objectives every balance score lies in [0, 1] |
| Hybrid.ScoreMonotone | NetworkOptimizer.py:235-239 | a member no worse on both objectives scores no worse |
| Hybrid.BestBalance | NetworkOptimizer.py:226-245 | None exactly for an empty front; otherwise a member of least score, earlier than every other member of that score |
| Hybrid.SelectSolution | NetworkOptimizer.py:214-245 | None exactly when there are no solutions; otherwise the tree of a non-dominated solution, namely the front member whose balance score 0.5·cost/max + 0.5·latency/max is least, the earliest among ties |
| MinNetworkCost.UnionFind.constructor | MinimumNetworkCost.java:10-17 | n+1 indices, each its own parent with rank 1, in sets of their own |
| MinNetworkCost.UnionFind.Find | MinimumNetworkCost.java:19-24 | returns x's root, points x at it, and keeps every representative |
| MinNetworkCost.UnionFind.Union | MinimumNetworkCost.java:26-42 | returns true exactly when the roots differ; the same roots change nothing; otherwise the lower-rank root goes under the other, x's root winning ties, and only a tie raises its rank |
| MinNetworkCost.UnionFind.UnionTracks | MinimumNetworkCost.java:26-42 | after a union the sets are the components with the new link |
| MinNetworkCost.BuildEdges | MinimumNetworkCost.java:47-57 | the n virtual edges (0, i+1, modules[i]) followed by the connections |
| MinNetworkCost.Connect | MinimumNetworkCost.java:71 | union succeeds exactly when the edge joins two components of the edges taken, and the sets follow |
| MinNetworkCost.KruskalStep | MinimumNetworkCost.java:69-76 | one pass takes the edge exactly as the sweep does, counting it and adding its cost |
| MinNetworkCost.Kruskal | MinimumNetworkCost.java:65-79 | the total is the cost of exactly the edges whose union succeeded, stopping at n of them |
| MinNetworkCost.MinCostToConnectDevices | MinimumNetworkCost.java:45-80 | the result is the total cost of the sweep over the edges in ascending, stable cost order |
| MinNetworkCost.TakenSpans | MinimumNetworkCost.java:65-79 | the taken edges are exactly n, are acyclic, and connect every device to the power node |
| MinNetworkCost.SweepConnects | MinimumNetworkCost.java:49-52 | a module edge for every device makes the sweep connect all nodes |
| MinNetworkCost.TakenAscending | MinimumNetworkCost.java:60 | the taken edges are cheapest first |
| MinNetworkCost.SortedInRange | MinimumNetworkCost.java:47-60 | every sorted edge joins two of the nodes 0..n |
| Tetris.Turned | TetrisGame.java:114-124 | an r by c shape becomes c by r, with turned[j][r-1-i] == shape[i][j] |
| Tetris.HalfTurn | TetrisGame.java:114-124 | two quarter turns turn a shape upside down |
| Tetris.FourTurns | TetrisGame.java:114-124 | four quarter turns give the shape back |
| Tetris.Stamped | TetrisGame.java:137-146 | exactly the cells under the shape's filled cells become 1, and nothing else changes |
| Tetris.StampedCovers | TetrisGame.java:137-146 | every filled shape cell of a block inside the board ends up a filled board cell |
| Tetris.FitsInside | TetrisGame.java:73-86 | a shape that passes the check lies within the board |
| Tetris.ShapesInside | TetrisGame.java:27-31 | each of the five shapes, put where a new block starts, lies within the board |
| Tetris.RemovedRows | TetrisGame.java:176-181 | after removing a row, the top row is empty, rows 1..row hold the old rows 0..row-1, and the rows below are untouched |
| Tetris.Completed | TetrisGame.java:161-171 | a full row earns 100 points and is removed |
| Tetris.ClearedScore | TetrisGame.java:152-173 | every removed row earns exactly 100 points, and at most one row is removed per row checked |
| Tetris.ClearedNoFull | TetrisGame.java:152-173 | after the check no full row remains |
| Tetris.Block.constructor | TetrisGame.java:27-31 | a new block starts on the top row, centred |
| Tetris.MakeShape | TetrisGame.java:50-58 | a fresh array holding the chosen shape |
| Tetris.Game.constructor | TetrisGame.java:35-46 | an empty board, the first block ready to fall, score 0, level 1, and the starting delay |
| Tetris.Game.GenerateBlockAsWritten | TetrisGame.java:49-64 | the new block joins the queue, and it is polled only when there is no current block |
| Tetris.Game.GenerateBlock | TetrisGame.java:49-64 | corrected: the new block joins the queue and the block at its head becomes current |
| Tetris.Game.IsValidMove | TetrisGame.java:73-86 | true exactly when every filled shape cell lands on the board on an empty cell |
| Tetris.Game.MoveLeft | TetrisGame.java:89-94 | the block moves one column left when it fits there and stays put otherwise; the board never changes |
| Tetris.Game.MoveRight | TetrisGame.java:97-102 | the block moves one column right when it fits there and stays put otherwise; the board never changes |
| Tetris.Game.RotateShape | TetrisGame.java:114-124 | a fresh array holding the shape turned a quarter clockwise |
| Tetris.Game.Rotate | TetrisGame.java:105-111 | the shape turns when the turned shape fits where the block is, and stays as it was otherwise; the position and the board never change |
| Tetris.Game.Stamp | TetrisGame.java:138-146 | the board becomes the stamped board |
| Tetris.Game.RemoveRow | TetrisGame.java:176-181 | the board becomes the board with that row removed |
| Tetris.Game.RowComplete | TetrisGame.java:154-160 | true exactly when the row has no empty cell |
| Tetris.Game.CheckCompletedRows | TetrisGame.java:152-173 | the board, score, level and delay become those of the row clearing; the score rises by 100 per removed row, and no full row remains |
| Tetris.Game.CompleteRow | TetrisGame.java:161-171 | removes the row, adds 100, clears the power-up row at multiples of 500, and raises the level and shortens the delay at multiples of 1000 |
| Tetris.Game.Land | TetrisGame.java:138-147 | the board, score, level and delay become those of clearing rows on the stamped board, and no full row remains |
| Tetris.Game.PlaceBlockAsWritten | TetrisGame.java:137-149 | stamps and clears, but the landed block stays current and the new block only waits in the queue |
| Tetris.Game.PlaceBlock | TetrisGame.java:137-149 | corrected: stamps the block, clears rows, and starts a fresh block of the chosen shape on the top row |
| Tetris.Game.MoveDown | TetrisGame.java:127-134 | corrected: the block drops one row when it fits there; otherwise it is placed and the next block starts |
| Tetris.Game.IsGameOver | TetrisGame.java:191-198 | true exactly when some cell of the top row is filled |
| Trending.InFebruaryDays | TrendingHashtags.java:37-43 | a tweet passes the filter exactly when it is dated 1 to 29 February 2024 |
| Trending.JoinWords | TrendingHashtags.java:25 | splitting on single spaces loses nothing: joining the pieces gives the text back |
| Trending.WordsNoSpace | TrendingHashtags.java:25 | no piece holds a space |
| Trending.TagsCount | TrendingHashtags.java:26-30 | each word starting with '#' is kept as often as it occurs, and nothing else is kept |
| Trending.ExtractHashtags | TrendingHashtags.java:23-32 | the words that start with '#', in order |
| Trending.OccurrencesCount | TrendingHashtags.java:45-47 | counting one by one gives every hashtag its number of occurrences, and no other key |
| Trending.CountTweet | TrendingHashtags.java:45-47 | one tweet's hashtags are added to the counts |
| Trending.CountHashtags | TrendingHashtags.java:41-49 | the map has exactly the hashtags of the February tweets, each with its number of occurrences, repeats within a tweet included |
| Trending.PrecedesOrder | TrendingHashtags.java:53-60 | the comparator is a total preorder, and two entries that precede each other are equal |
| Trending.LexTotal | TrendingHashtags.java:58 | any two strings compare |
| Trending.LexTransitive | TrendingHashtags.java:58 | string order is transitive |
| Trending.LexAntisymmetric | TrendingHashtags.java:58 | strings that compare both ways are equal |
| Trending.EntryList | TrendingHashtags.java:52 | the entry list holds every map entry exactly once |
| Trending.SortEntries | TrendingHashtags.java:53-60 | the sort is a permutation ordered by count descending, then tag descending |
| Trending.TopOfCounts | TrendingHashtags.java:51-63 | the first min(3, distinct tags) sorted entries carry their true counts, are in comparator order, and precede every tag left out |
| Trending.FindTopTrendingHashtags | TrendingHashtags.java:35-64 | min(3, distinct tags) entries with their true counts, in comparator order; every tag left out comes after all reported ones |
| KthSmallest.Wrap32 | KthSmallestInvestment.java:43 | the (int) cast keeps the low 32 bits and is the identity on int values |
| KthSmallest.ScanCounts | KthSmallestInvestment.java:4-18 | for ascending non-negative arrays the shared-pointer scan counts exactly the pairs with product <= mid |
| KthSmallest.ScanMissesNegative | KthSmallestInvestment.java:8-16 | ([1, 3], [-2], mid = -3): one pair qualifies, and the scan counts none |
| KthSmallest.ScanOvercountsNegative | KthSmallestInvestment.java:8-16 | ([-4, -2, 0, 3], [2, 4], mid = -10): one pair qualifies, and the scan counts two |
| KthSmallest.CountPairsAsWritten | KthSmallestInvestment.java:5-18 | countPairs as written: the scan's count, in [0, m*n], and exact for ascending non-negative arrays |
| KthSmallest.CountRow | KthSmallestInvestment.java:11-15 | a row's count of products <= mid, for either sign of the row value |
| KthSmallest.CountPairs | KthSmallestInvestment.java:4-18 | the number of pairs with product <= mid, for any ascending arrays |
| KthSmallest.RangeMissesCorner | KthSmallestInvestment.java:23-30 | ([-2, -1], [-2, -1]): the range as written is [2, 2], but the smallest product is 1 |
| KthSmallest.ProductsInRange | KthSmallestInvestment.java:23-30 | for ascending arrays every product lies between the least and the greatest corner product |
| KthSmallest.KthUnique | KthSmallestInvestment.java:20-44 | the k-th smallest product is unique |
| KthSmallest.KthIsProduct | KthSmallestInvestment.java:20-44 | the k-th smallest product is the product of some pair |
| KthSmallest.PairsMonotone | KthSmallestInvestment.java:37-41 | a larger bound counts at least as many pairs, which makes the binary search sound |
| KthSmallest.RangeCounts | KthSmallestInvestment.java:23-41 | when every product lies in [lo, hi], all m*n pairs are at most hi and none is at most lo - 1, so the search starts with the answer inside its range |
| KthSmallest.KthSmallestProduct | KthSmallestInvestment.java:21-44 | corrected: the search ends inside the corner range, and for ascending arrays and 1 <= k <= m*n on the k-th smallest product, then cast to int |
| KthSmallest.SampleOne | KthSmallestInvestment.java:49-54 | ([2, 5], [3, 4], k = 2): the answer is 8 |
| KthSmallest.SampleTwo | KthSmallestInvestment.java:57-62 | ([-4, -2, 0, 3], [2, 4], k = 6): the answer is 0 |
| Delivery.NeighboursRoads | PackageDelivery.java:13-17 | v is in u's list exactly when some road joins them, in either direction |
| Delivery.NeighboursSymmetric | PackageDelivery.java:15-16 | adjacency is symmetric |
| Delivery.BuildGraph | PackageDelivery.java:9-17 | one list per node, with both directions of every road |
| Delivery.Dist | PackageDelivery.java:46-64 | the least number of roads from start, or -1 exactly when no walk exists |
| Delivery.Bfs | PackageDelivery.java:46-64 | every entry is the shortest hop count from start, or -1 for a node it cannot reach |
| Delivery.VisitNeighbours | PackageDelivery.java:55-60 | exactly the neighbours unreached on entry get one more hop than the polled node, every other entry keeps its value, and the queue grows by those neighbours in list order, each once; the BFS invariant is kept |
| Delivery.Finished | PackageDelivery.java:53-63 | once the queue is empty, every entry is the shortest distance |
| Delivery.TripsEven | PackageDelivery.java:31-36 | the round-trip total is even |
| Delivery.TripsBound | PackageDelivery.java:30-36 | package distances of at most 2 bound the total by 4 per node, and by 0 below when they are reached |
| Delivery.RoundTrips | PackageDelivery.java:31-36 | totalRoads is the sum of twice the distance of each package node |
| Delivery.AllCollectedAsWritten | PackageDelivery.java:23-29 | accepts exactly when no package node is beyond 2, so an unreachable package node (-1) passes |
| Delivery.AllCollected | PackageDelivery.java:23-29 | accepts exactly when every package node is reached within 2 roads |
| Delivery.Assess | PackageDelivery.java:22-36 | acceptance of one start and, when accepted, its round-trip total |
| Delivery.MinRoadsAsWritten | PackageDelivery.java:7-44 | -1 exactly when no start passes the check as written; otherwise the least total over the starts that pass |
| Delivery.MinRoadsToTraverse | PackageDelivery.java:7-44 | corrected: -1 exactly when no start reaches every package within 2 roads; otherwise the least round-trip total over such starts |
| Delivery.UnreachableAccepted | PackageDelivery.java:25 | packages [1, 1] with no roads: start 0 passes the check as written with total -2, and no start passes the intended check |
| Delivery.PathSample | PackageDelivery.java:66-69 | on the path 0 - 1 - 2 - 3 - 4 - 5 with packages at both ends, no start is accepted, so the answer is -1 |
| Closest.FindClosestPair | ClosestPair.java:7-32 | the result is the closest ordered pair of distinct points, ties going to the lexicographically first; [0, 0] for fewer than two points |
| Closest.ScanSkip | ClosestPair.java:15-23 | passing over a pair of the same point, or one no closer than the best so far, keeps the scan state: the best is no larger than any visited pair and belongs to the first visited pair at that distance |
| Closest.ScanTake | ClosestPair.java:22-27 | taking a strictly closer pair, or an equally close earlier one, keeps that scan state with the new pair as the best |
| Closest.ScanDone | ClosestPair.java:13-31 | after every pair is visited the result is the closest pair, or (0, 0) when no pair is below Integer.MAX_VALUE |
| Closest.ClosestUnique | ClosestPair.java:22-27 | there is only one closest pair under that tie-break |
| Closest.SampleOne | ClosestPair.java:36-40 | the first sample's closest pair is (0, 3) |
| Closest.SampleTwo | ClosestPair.java:43-47 | the second sample's closest pair is (0, 1) |
| Closest.SampleThree | ClosestPair.java:50-54 | the third sample's closest pair is (0, 1) |
| Critical.MinUpToIsMin | CriticalTemperature.java:24-29 | the inner loop's value is the minimum over x of 1 + max(dp[i-1][x-1], dp[i][j-x]), reached at some x |
| Critical.DropsBounds | CriticalTemperature.java:11-33 | with at least one sample, the worst case is between 0 and n, and at least 1 once there is a level |
| Critical.FindMinMeasurements | CriticalTemperature.java:5-34 | the table's corner is the recurrence with base rows dp[1][j] = j and dp[i][0] = 0, and at most n for k >= 1 |
| Critical.SampleOne | CriticalTemperature.java:39 | (1, 2) gives 2 |
| Critical.SampleTwo | CriticalTemperature.java:40 | (2, 6) gives 3 |
| Rewards.Best | MinimumRewards.java:15-27 | the rewards of the two passes: at each position, the longer of the rising run ending there and the falling run starting there |
| Rewards.BestFair | MinimumRewards.java:9-27 | those rewards are all at least 1 and larger than any lower-rated neighbour's |
| Rewards.LeftBound | MinimumRewards.java:16-20 | any fair assignment gives at least the rising run ending at i |
| Rewards.RightBound | MinimumRewards.java:23-27 | any fair assignment gives at least the falling run starting at i |
| Rewards.BestLeast | MinimumRewards.java:4-36 | no fair assignment hands out fewer rewards in total |
| Rewards.BestIsLeast | MinimumRewards.java:4-36 | the passes' rewards are fair, no fair assignment totals less, and the total is at least the number of people |
| Rewards.Passes | MinimumRewards.java:9-27 | after the starting ones and both passes, each position holds the longer of the rising run ending there and the falling run starting there |
| Rewards.MinRewards | MinimumRewards.java:4-36 | the total of the passes' rewards, which is the least total of any fair assignment, reached by one, and at least n; 0 for no ratings |
| Rewards.SampleOne | MinimumRewards.java:40-43 | [1, 0, 2] gives 5 |
| Rewards.SampleTwo | MinimumRewards.java:46-49 | [1, 2, 2] gives 4 |
| Rewards.SampleThree | MinimumRewards.java:52-55 | [4, 3, 2, 1, 2, 3, 4] gives 19 |

## Left out

- The Swing interface of NetworkOptimizerApp.java is not modelled: painting, mouse input, dialogs, the result text and node selection. It is presentation code. CalculateShortestPath returns a `Route` value in place of the text it would show.
- The tkinter/matplotlib GUI of NetworkOptimizer.py is not modelled, for the same reason. `calculate_network_metrics` calls `networkx.shortest_path`, a foreign library. The candidate solutions of `apply_hybrid_optimization` are therefore an input to SelectSolution, each with its cost and average latency.
- Hybrid.SelectSolution: latencies are finite reals, so the NaN that Python gets from a front whose maximum latency is `inf` is not modelled.
- WebCrawlerGUI.java (commented out, network I/O) and ThreadController.java (thread hand-off) are not part of this model.
- Some randomness and timing in TetrisGame.java are not modelled:
  - `new Random()` is not modelled. The shape index `pick` is a parameter, and so is the power-up row, through `luck`.
  - The Swing timer is not modelled. Its delay is a field that `setDelay` updates.
  - The timer's `actionPerformed`, the key bindings and painting are not modelled.
- Tetris.Completed and Tetris.Game.CompleteRow: at level 11 the new delay `DELAY - level * 50` is -50. `javax.swing.Timer.setDelay` throws IllegalArgumentException for a negative delay, but the model stores the negative value and carries on, so that error path is not modelled.
- Floating point is replaced by exact reals. Rounding is not modelled. `Double.MAX_VALUE` and `float('inf')` are explicit values (`Unreachable`, `Inf`), and the divisions are guarded by preconditions (maxCost, maxBandwidth and bandwidth non-zero) or by `ZeroDivisionError` results.
- The order among equal keys in `PriorityQueue` and `heapq` is left open: a poll returns some minimum.
- The Python heaps are modelled as sets. Two identical heap entries therefore count once, which changes nothing that can be observed.
- Java's `List.sort` is modelled by a functional stable insertion sort. The order of equal keys matches, but the in-place sort itself is not modelled.
- Java edges are compared by identity. The model names an edge by its position in the edge list.
- HashMap iteration order is left open: EntryList returns the entries in some order, which the stable sort then makes irrelevant for distinct keys.
- Java `int` overflow is not modelled in the standalone exercises:
  - the `totalRoads` sum (MinRoadsToTraverse requires `4 * n < Integer.MAX_VALUE`);
  - the distance sum in ClosestPair;
  - the reward sum;
  - the countPairs count;
  - the dp table (FindMinMeasurements requires k and n below `Integer.MAX_VALUE`);
  - the cable costs.

  The final `(int)` cast in kthSmallestProduct is modelled by Wrap32.
- Closest.FindClosestPair: when every distance is at least `Integer.MAX_VALUE`, the model keeps the source's [0, 0] and states nothing more.
- Critical.FindMinMeasurements requires k >= 1 or n == 0, because with k = 0 and n >= 1 Java throws while writing row 1 of a one-row table.
- The third CriticalTemperature sample, (3, 14) gives 4, is not restated as a lemma. Unfolding the recurrence that far is beyond the solver's budget here; the recurrence itself is proved. The same holds for the three MinimumNetworkCost samples (3, 8 and 5), which need the stable sort of their edge lists unfolded.
- The comment `// Output: 4` in PackageDelivery.java is wrong for its input. PathSample proves that no start node qualifies, so the method returns -1.
- SpanningTrees.KruskalMST, SpanningTrees.MultiObjectiveOptimization, SpanningTrees.PrimMST and MinNetworkCost.MinCostToConnectDevices: the result is not proved to have the least total key of all spanning trees. The model proves the acyclic, spanning, sorted, at-most-n-1 structure, but not the exchange argument for optimality.
- PyOptimizer.NetworkOptimizer.CalculateShortestPath: the returned path is proved to be a walk along connections whose weight is the reported distance. It is not proved to be the lightest such walk.
- PyOptimizer.NetworkOptimizer.FindMinimumSpanningTree: it is proved to return a tree grown along connections, one new node per edge, but not one of least weight.
- PyOptimizer.NetworkOptimizer.CalculateShortestPath (and Explore, ExploreStep, ExpandNode and the search lemmas behind them) requires NonNegativeWeights: no finite edge weight may be negative. Networks with a negative cost are therefore excluded, although Python accepts them. The lazy heap loop has no visited set, so with a negative edge it can keep relaxing back and forth and need not end. It ends only if `end_id` is popped first: start and end joined at cost -1 give the path with distance -1. Such a run need not terminate, and a Dafny method must, so it is not modelled.
- Closest.FindClosestPair requires `|xCoords| <= |yCoords|`. With at least two points and a shorter yCoords, Java throws ArrayIndexOutOfBoundsException on `yCoords[i]`, and that error path is not modelled. The requires also excludes one point (or none) with a shorter yCoords. Java returns [0, 0] there without reading yCoords, because the distance line is never reached.
- KthSmallest.KthSmallestProduct requires both arrays to be non-empty. Otherwise Java throws ArrayIndexOutOfBoundsException at `returns1[0]`, and that error path is not modelled.
- Delivery.MinRoadsAsWritten and Delivery.MinRoadsToTraverse require ValidRoads. A road naming a node outside 0..n-1 makes Java throw IndexOutOfBoundsException at `graph.get(a)` while building the graph, and that error path is not modelled.
- MinNetworkCost.MinCostToConnectDevices requires `n <= |modules|` and Cabled. Otherwise Java throws ArrayIndexOutOfBoundsException on `modules[i]` or on `parent[u]` for a node above n, and those error paths are not modelled.
- Trending.LexLe, Trending.LexTotal, Trending.LexTransitive and Trending.LexAntisymmetric model `String.compareTo` as the order on Dafny characters. Java compares UTF-16 code units, and the two orders differ for characters outside the Basic Multilingual Plane, which the model does not distinguish.
- PyOptimizer.Reconstruct: the source's `while current` stops at a node named "", because that id is falsy. The path's start is therefore stated only when no node is named "".
- PyOptimizer.Relax: its contract states the preserved search state, not the exact new distances, predecessors and heap. Stating those map and set equalities next to the search invariant's quantifiers is beyond what the verifier proves within its resource bound. The same update in the Java router is stated exactly (Routing.Relax).

## Findings

| source | as written | input that shows it | evidently intended | confidence | as-written member | corrected member |
|---|---|---|---|---|---|---|
| NetworkOptimizerApp.java:213-216 | calculateShortestPath stores `1.0 / bandwidth` in the bandwidth slot of addEdge, and dijkstra (line 636) inverts it again, so an edge's latency equals its bandwidth | one edge of bandwidth 2 | latency 1 / bandwidth = 0.5, as the comments at lines 215 and 635 say | high; not executed | Routing.AsWrittenLatency, Routing.AsWrittenExample | Routing.RouteInfo, used by Routing.Network and Routing.CalculateShortestPath |
| TetrisGame.java:61-63 | generateBlock polls the queue only when currentBlock is null, and placeBlock never clears it, so after the first landing the landed block stays current and new blocks pile up in the queue | any block that lands | the next block from the queue becomes current after placeBlock | high; not executed | Tetris.Game.GenerateBlockAsWritten, Tetris.Game.PlaceBlockAsWritten | Tetris.Game.GenerateBlock, Tetris.Game.PlaceBlock, used by Tetris.Game.MoveDown |
| PackageDelivery.java:25 | the check `distance[i] > 2` lets an unreachable package node (distance -1) pass, and it then adds -2 to the total | packages [1, 1], no roads: start 0 is accepted with total -2 | every package node must be reached within two roads; the answer here is -1 | high; not executed | Delivery.AllCollectedAsWritten, Delivery.MinRoadsAsWritten, Delivery.UnreachableAccepted | Delivery.AllCollected, Delivery.MinRoadsToTraverse |
| KthSmallestInvestment.java:8-16 | one pointer j is shared by all rows and only moves left, and each row adds j + 1, which is right only when both arrays are non-negative (ScanCounts). For b < 0 in returns2, a * b falls as a rises, so a column dropped for an earlier row can qualify for a later one. For a < 0 in returns1, the row's products fall along returns2, so those at most mid are a suffix, not the prefix counted | returns1 = [1, 3], returns2 = [-2], mid = -3: the count is 0, but 3 * -2 = -6 <= -3; returns1 = [-4, -2, 0, 3], returns2 = [2, 4], mid = -10: the count is 2, but only -4 * 4 <= -10 | the number of pairs with product <= mid, as the comment at line 4 says and as the test on line 57 needs | high; not executed | KthSmallest.CountPairsAsWritten, KthSmallest.ScanMissesNegative, KthSmallest.ScanOvercountsNegative | KthSmallest.CountPairs, with KthSmallest.CountRow |
| KthSmallestInvestment.java:23-30 | the range adjustment omits the corner `returns1[m-1] * returns2[n-1]` from the minimum and `returns1[0] * returns2[0]` from the maximum | [-2, -1], [-2, -1], k = 1: the range is [2, 2], but the smallest product is 1 | a range from the least to the greatest of the four corner products | high; not executed | KthSmallest.LowAsWritten, KthSmallest.HighAsWritten, KthSmallest.RangeMissesCorner | KthSmallest.Low, KthSmallest.High, used by KthSmallest.KthSmallestProduct |
