/**
 * The disjoint-set forest the topology optimiser uses in Kruskal's
 * algorithm and in its spanning-tree test: parent and rank arrays, find
 * with path compression, union by rank with ranks starting at 0.
 */
module DisjointSets {
  import opened Forest
  import opened Roots

  class DisjointSet {
    var parent: array<int>
    var rank: array<int>

    ghost predicate Valid()
      reads this, parent, rank
    {
      parent != rank && Ranked(parent[..], rank[..])
    }

    /** The representative of every element's set. */
    ghost function Reps(): (r: seq<nat>)
      reads this, parent, rank
      requires Valid()
      ensures |r| == parent.Length
    {
      RootsOf(parent[..], rank[..])
    }

    /** The sets are the components of the graph on 0..size-1 with these links. */
    ghost predicate Tracks(links: seq<Link>)
      reads this, parent, rank
    {
      Valid() && Represents(Reps(), parent.Length, links)
    }

    /** Every element starts in a set of its own, with rank 0. */
    constructor (size: nat)
      ensures Valid() && parent.Length == size && fresh(parent) && fresh(rank)
      ensures Reps() == Identity(size) && Tracks([])
      ensures forall i :: 0 <= i < size ==> parent[i] == i && rank[i] == 0
    {
      parent := new int[size];
      rank := new int[size];
      new;
      var i := 0;
      while i < size
        invariant 0 <= i <= size
        invariant forall j :: 0 <= j < i ==> parent[j] == j && rank[j] == 0
        modifies parent, rank
      {
        parent[i] := i;
        rank[i] := 0;
        i := i + 1;
      }
      assert Valid();
      assert Reps() == Identity(size);
      IdentityRepresents(size);
    }

    /**
     * The representative of x's set.  Path compression changes the parent
     * array but no element's representative, and leaves x pointing at it.
     */
    method Find(x: int) returns (r: int)
      requires Valid() && 0 <= x < parent.Length
      modifies parent
      ensures Valid() && Reps() == old(Reps())
      ensures r == Reps()[x] && parent[x] == r
      decreases MaxRank(rank[..]) - rank[x]
    {
      if parent[x] != x {
        ghost var p := parent[..];
        var root := Find(parent[x]);
        ghost var p' := parent[..];
        assert Root(p', rank[..], x) == root;
        parent[x] := root;
        assert parent[..] == p'[x := root];
        CompressRanked(p', parent[..], rank[..]);
        forall i | 0 <= i < parent.Length
          ensures Root(parent[..], rank[..], i) == Root(p, rank[..], i)
        {
          CompressRoot(p', parent[..], rank[..], i);
        }
      }
      return parent[x];
    }

    /**
     * Merges the sets of x and y.  The root of lower rank is hung under the
     * other; on equal ranks y's root goes under x's, whose rank grows by one.
     */
    method Union(x: int, y: int)
      requires Valid() && 0 <= x < parent.Length && 0 <= y < parent.Length
      modifies parent, rank
      ensures Valid()
      ensures var rx, ry := old(Reps())[x], old(Reps())[y];
        Reps() ==
          if rx != ry && old(rank[rx]) < old(rank[ry]) then Merge(old(Reps()), Link(y, x))
          else Merge(old(Reps()), Link(x, y))
      ensures var rx, ry := old(Reps())[x], old(Reps())[y];
        rank[..] ==
          if rx != ry && old(rank[rx]) == old(rank[ry]) then old(rank[..])[rx := old(rank[rx]) + 1]
          else old(rank[..])
    {
      ghost var reps := Reps();
      var rootX := Find(x);
      var rootY := Find(y);
      if rootX == rootY {
        assert Merge(reps, Link(x, y)) == reps;
        return;
      }
      ghost var p := parent[..];
      ghost var rk := rank[..];
      if rank[rootX] < rank[rootY] {
        parent[rootX] := rootY;
        LinkRoots(p, rk, rank[..], y, x);
      } else if rank[rootX] > rank[rootY] {
        parent[rootY] := rootX;
        LinkRoots(p, rk, rank[..], x, y);
      } else {
        parent[rootY] := rootX;
        rank[rootX] := rank[rootX] + 1;
        LinkRoots(p, rk, rank[..], x, y);
      }
    }

    /** The same merge, stated on the graph the sets describe. */
    lemma UnionTracks(links: seq<Link>, x: nat, y: nat, reps: seq<nat>)
      requires Represents(reps, parent.Length, links) && x < parent.Length && y < parent.Length
      requires Valid()
      requires Reps() == Merge(reps, Link(x, y)) || Reps() == Merge(reps, Link(y, x))
      ensures Tracks(links + [Link(x, y)])
    {
      MergeRepresents(reps, parent.Length, links, Link(x, y));
    }
  }
}
