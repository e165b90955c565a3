/**
 * The abstract state of a union-find structure kept in parent and rank
 * arrays: a forest in which every non-root's rank is below its parent's.
 * Both union-find classes of the repository (the topology optimiser's
 * DisjointSet and the device-cost UnionFind) keep this invariant, and the
 * lemmas here are what their path compression and union by rank rely on.
 */
module Roots {
  import opened Forest

  /** An upper bound on the ranks; it bounds every walk toward a root. */
  function MaxRank(rank: seq<int>): (r: int)
    ensures forall i :: 0 <= i < |rank| ==> rank[i] <= r
    decreases |rank|
  {
    if rank == [] then 0
    else
      var m := MaxRank(rank[..|rank| - 1]);
      assert forall i :: 0 <= i < |rank| - 1 ==> rank[..|rank| - 1][i] == rank[i];
      if rank[|rank| - 1] > m then rank[|rank| - 1] else m
  }

  /** Parent links stay in range and strictly raise the rank. */
  ghost predicate Ranked(parent: seq<int>, rank: seq<int>) {
    |parent| == |rank| &&
    forall i :: 0 <= i < |parent| ==>
      0 <= parent[i] < |parent| && (parent[i] != i ==> rank[i] < rank[parent[i]])
  }

  /** The root reached from x by following parent links. */
  ghost function Root(parent: seq<int>, rank: seq<int>, x: int): (r: int)
    requires Ranked(parent, rank) && 0 <= x < |parent|
    ensures 0 <= r < |parent| && parent[r] == r
    ensures r == x <==> parent[x] == x
    ensures r != x ==> rank[x] < rank[r]
    decreases MaxRank(rank) - rank[x]
  {
    if parent[x] == x then x else Root(parent, rank, parent[x])
  }

  /**
   * Path compression: a parent array in which some entries were redirected
   * straight to their root keeps the rank invariant.
   */
  lemma CompressRanked(p: seq<int>, q: seq<int>, rank: seq<int>)
    requires Ranked(p, rank) && |q| == |p|
    requires forall j :: 0 <= j < |p| ==> q[j] == p[j] || q[j] == Root(p, rank, j)
    ensures Ranked(q, rank)
  {
    forall j | 0 <= j < |q| && q[j] != j
      ensures rank[j] < rank[q[j]]
    {
      if q[j] != p[j] {
        assert q[j] == Root(p, rank, j);
      }
    }
  }

  /** ... and keeps every node's root. */
  lemma {:induction false} CompressRoot(p: seq<int>, q: seq<int>, rank: seq<int>, i: int)
    requires Ranked(p, rank) && Ranked(q, rank)
    requires forall j :: 0 <= j < |p| ==> q[j] == p[j] || q[j] == Root(p, rank, j)
    requires 0 <= i < |p|
    ensures Root(q, rank, i) == Root(p, rank, i)
    decreases MaxRank(rank) - rank[i]
  {
    if q[i] != i {
      if q[i] == p[i] {
        CompressRoot(p, q, rank, p[i]);
      } else {
        var r := Root(p, rank, i);
        assert q[r] == r;
      }
    }
  }

  /**
   * Union by rank: hanging the root `loser` under the root `winner`, whose
   * rank is then above loser's, keeps the rank invariant.
   */
  lemma LinkRanked(p: seq<int>, rank: seq<int>, rank': seq<int>, loser: int, winner: int)
    requires Ranked(p, rank)
    requires 0 <= loser < |p| && 0 <= winner < |p| && loser != winner
    requires p[loser] == loser && p[winner] == winner
    requires |rank'| == |rank| && rank[loser] < rank'[winner]
    requires forall j :: 0 <= j < |rank| ==> rank[j] <= rank'[j] && (j != winner ==> rank'[j] == rank[j])
    ensures Ranked(p[loser := winner], rank')
  {
  }

  /** ... and sends exactly the nodes of loser's tree to winner. */
  lemma {:induction false} LinkRoot(p: seq<int>, rank: seq<int>, rank': seq<int>, loser: int, winner: int, i: int)
    requires Ranked(p, rank)
    requires 0 <= loser < |p| && 0 <= winner < |p| && loser != winner
    requires p[loser] == loser && p[winner] == winner
    requires Ranked(p[loser := winner], rank')
    requires 0 <= i < |p|
    ensures Root(p[loser := winner], rank', i) ==
      if Root(p, rank, i) == loser then winner else Root(p, rank, i)
    decreases MaxRank(rank) - rank[i]
  {
    var q := p[loser := winner];
    if i == loser {
      assert q[winner] == winner;
    } else if p[i] != i {
      LinkRoot(p, rank, rank', loser, winner, p[i]);
    }
  }

  /** The root of every node, in node order. */
  ghost function RootsOf(parent: seq<int>, rank: seq<int>): (r: seq<nat>)
    requires Ranked(parent, rank)
    ensures |r| == |parent|
    ensures forall i :: 0 <= i < |parent| ==> r[i] == Root(parent, rank, i)
  {
    seq(|parent|, i requires 0 <= i < |parent| => Root(parent, rank, i))
  }

  /**
   * A labelling of the nodes 0..m-1 describes the components of the links:
   * two nodes share a label exactly when the links connect them.
   */
  ghost predicate Represents(reps: seq<nat>, m: nat, links: seq<Link>) {
    |reps| == m &&
    forall i, j :: 0 <= i < m && 0 <= j < m ==> (reps[i] == reps[j] <==> Same(m, links, i, j))
  }

  /** Every node apart describes the graph without links. */
  lemma IdentityRepresents(m: nat)
    ensures Represents(Identity(m), m, [])
  {
  }

  /**
   * Relabelling one endpoint's component with the other's label, in either
   * direction, describes the graph with the link added.
   */
  lemma MergeRepresents(reps: seq<nat>, m: nat, links: seq<Link>, k: Link)
    requires Represents(reps, m, links) && InRange(m, k)
    ensures Represents(Merge(reps, k), m, links + [k])
    ensures Represents(Merge(reps, Link(k.v, k.u)), m, links + [k])
  {
    forall i, j | 0 <= i < m && 0 <= j < m
      ensures Merge(reps, k)[i] == Merge(reps, k)[j] <==> Same(m, links + [k], i, j)
      ensures Merge(reps, Link(k.v, k.u))[i] == Merge(reps, Link(k.v, k.u))[j] <==> Same(m, links + [k], i, j)
    {
      SameSnoc(m, links, k, i, j);
      MergeSame(reps, k, i, j);
      MergeSame(reps, Link(k.v, k.u), i, j);
    }
  }

  /**
   * Union by rank on the whole root labelling: hanging y's root under x's
   * relabels y's tree with x's root and changes nothing else.
   */
  lemma LinkRoots(p: seq<int>, rank: seq<int>, rank': seq<int>, x: nat, y: nat)
    requires Ranked(p, rank) && x < |p| && y < |p|
    requires Root(p, rank, x) != Root(p, rank, y)
    requires |rank'| == |rank| && rank[Root(p, rank, y)] < rank'[Root(p, rank, x)]
    requires forall j :: 0 <= j < |rank| ==>
      rank[j] <= rank'[j] && (j != Root(p, rank, x) ==> rank'[j] == rank[j])
    ensures Ranked(p[Root(p, rank, y) := Root(p, rank, x)], rank')
    ensures RootsOf(p[Root(p, rank, y) := Root(p, rank, x)], rank') == Merge(RootsOf(p, rank), Link(x, y))
  {
    var winner, loser := Root(p, rank, x), Root(p, rank, y);
    var q := p[loser := winner];
    LinkRanked(p, rank, rank', loser, winner);
    var reps := RootsOf(p, rank);
    forall i | 0 <= i < |p|
      ensures RootsOf(q, rank')[i] == Merge(reps, Link(x, y))[i]
    {
      LinkRoot(p, rank, rank', loser, winner, i);
    }
  }
}
