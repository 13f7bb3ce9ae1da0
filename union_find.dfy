/** graphs/union_find/union_find.hh: the C++ union-find, with path
    compression through a reference into parents_ and union by size. */
module UnionFind {
  import opened UnionFindForest

  class UnionFind {
    /** parents_: a node's parent; a root is its own parent. */
    var parents: seq<int>
    /** sizes_: at a root, the size of its component. */
    var sizes: seq<int>
    /** Ranks and their bound: they witness that parent chains end. */
    ghost var rank: seq<nat>
    ghost var bound: nat

    ghost predicate Valid()
      reads this
    {
      Forest(parents, rank, bound) && SizesOk(parents, rank, bound, sizes)
    }

    /** The abstract value: node u's representative. */
    ghost function Rep(u: int): int
      reads this
      requires Valid() && 0 <= u < |parents|
    {
      Reps(parents, rank, bound)[u]
    }

    /** UnionFind(n): both vectors resized to n, then filled in a loop with
        parents_[i] = i and sizes_[i] = 1. */
    constructor(n: int)
      requires n >= 0
      ensures Valid() && |parents| == n
      ensures parents == seq(n, i => i) && sizes == seq(n, i => 1)
      ensures forall u :: 0 <= u < n ==> Rep(u) == u
    {
      parents := seq(n, _ => 0);
      sizes := seq(n, _ => 0);
      rank := seq(n, i => 0);
      bound := 0;
      new;
      var i := 0;
      while i < n
        invariant 0 <= i <= n && |parents| == n && |sizes| == n
        invariant parents[..i] == seq(i, j => j) && sizes[..i] == seq(i, j => 1)
        invariant rank == seq(n, i => 0) && bound == 0
      {
        parents := parents[i := i];
        sizes := sizes[i := 1];
        i := i + 1;
      }
      assert parents == parents[..n] && sizes == sizes[..n];
      Singletons(n);
    }

    /** repr(u): the root of u's component; the reference into parents_
        makes every node of the path, u included, point straight at the
        root. No node's representative changes. */
    method Repr(u: int) returns (r: int)
      requires Valid() && 0 <= u < |parents|
      modifies this`parents
      ensures Valid() && |parents| == old(|parents|)
      ensures r == old(Rep(u)) && parents[r] == r && parents[u] == r
      ensures Reps(parents, rank, bound) == old(Reps(parents, rank, bound))
      decreases bound - rank[u]
    {
      if parents[u] == u {
        return u;
      }
      assert NodeOk(parents, rank, bound, u);
      ghost var p0 := parents;
      var root := Repr(parents[u]);
      assert root == Find(p0, rank, bound, u);
      assert Rep(u) == root;
      CompressSizes(parents, rank, bound, sizes, u);
      Compress(parents, rank, bound, u);
      parents := parents[u := root];
      r := parents[u];
      SameReps(p0, rank, bound, parents, rank, bound);
    }

    /** addEdge(u, v): nothing when u and v have the same root; otherwise
        the root of the smaller component goes under the root of the
        larger, v's root going under u's on a tie, and the larger's size
        grows by the smaller's. */
    method AddEdge(u: int, v: int)
      requires Valid() && 0 <= u < |parents| && 0 <= v < |parents|
      modifies this
      ensures Valid() && |parents| == old(|parents|) && Rep(u) == Rep(v)
      ensures old(Rep(u) == Rep(v)) ==> sizes == old(sizes)
      ensures Reps(parents, rank, bound) == Merge(old(Reps(parents, rank, bound)), old(Rep(u)), old(Rep(v)),
                                                  if old(sizes[Rep(u)] < sizes[Rep(v)]) then old(Rep(v)) else old(Rep(u)))
    {
      ghost var f := Reps(parents, rank, bound);
      var uRep := Repr(u);
      var vRep := Repr(v);
      if uRep == vRep {
        assert Merge(f, f[u], f[v], f[u]) == f;
        return;
      }
      if sizes[uRep] < sizes[vRep] {
        LinkSizes(parents, rank, bound, sizes, uRep, vRep);
        LinkReps(parents, rank, bound, uRep, vRep);
        parents := parents[uRep := vRep];
        sizes := sizes[vRep := sizes[vRep] + sizes[uRep]];
        rank, bound := LinkRank(rank, uRep, vRep), LinkBound(rank, bound, uRep);
      } else {
        LinkSizes(parents, rank, bound, sizes, vRep, uRep);
        LinkReps(parents, rank, bound, vRep, uRep);
        parents := parents[vRep := uRep];
        sizes := sizes[uRep := sizes[uRep] + sizes[vRep]];
        rank, bound := LinkRank(rank, vRep, uRep), LinkBound(rank, bound, vRep);
      }
    }

    /** componentSizes(): a loop over the nodes pushing the size of every
        root; the result lists each component's size, root by root, and
        the sizes add up to the number of nodes. */
    method ComponentSizes() returns (result: seq<int>)
      requires Valid()
      ensures result == RootSizes(parents, sizes, |parents|)
      ensures Sum(result) == |parents|
      ensures |result| == |Roots(parents, |parents|)|
      ensures forall i :: 0 <= i < |result| ==> result[i] == |Members(parents, rank, bound, Roots(parents, |parents|)[i])| > 0
    {
      result := [];
      var node := 0;
      while node < |parents|
        invariant 0 <= node <= |parents|
        invariant result == RootSizes(parents, sizes, node)
      {
        if parents[node] == node {
          result := result + [sizes[node]];
        }
        node := node + 1;
      }
      SizesTotal(parents, rank, bound, sizes);
      RootSizesAre(parents, rank, bound, sizes, |parents|);
    }
  }
}
