/** graphs/union_find/union_find.py: union-find with path compression and
    union by size, over Python lists that the methods update in place. */
module UnionFindPy {
  import opened UnionFindForest

  class UnionFind {
    const n: nat
    /** self.parents: a node's parent; a root is its own parent. */
    var parents: seq<int>
    /** self.sizes: at a root, the size of its component. */
    var sizes: seq<int>
    /** Ranks and their bound: they witness that parent chains end. */
    ghost var rank: seq<nat>
    ghost var bound: nat

    ghost predicate Valid()
      reads this
    {
      |parents| == n && Forest(parents, rank, bound) && SizesOk(parents, rank, bound, sizes)
    }

    /** The abstract value: node u's representative. */
    ghost function Rep(u: int): int
      reads this
      requires Valid() && 0 <= u < n
    {
      Reps(parents, rank, bound)[u]
    }

    /** u and v are in one component. */
    ghost predicate Joined(u: int, v: int)
      reads this
      requires Valid() && 0 <= u < n && 0 <= v < n
    {
      Rep(u) == Rep(v)
    }

    /** __init__(n): n singleton components of size 1. */
    constructor(n: nat)
      ensures Valid() && this.n == n
      ensures parents == seq(n, i => i) && sizes == seq(n, i => 1)
      ensures forall u :: 0 <= u < n ==> Rep(u) == u
    {
      this.n := n;
      parents := seq(n, i => i);
      sizes := seq(n, i => 1);
      rank := seq(n, i => 0);
      bound := 0;
      new;
      Singletons(n);
    }

    /** representative(u): the root of u's component; on the way back it
        points every node of the path, u included, straight at the root.
        No node's representative changes. */
    method Representative(u: int) returns (r: int)
      requires Valid() && 0 <= u < n
      modifies this`parents
      ensures Valid()
      ensures r == old(Rep(u)) && parents[r] == r && parents[u] == r
      ensures Reps(parents, rank, bound) == old(Reps(parents, rank, bound))
      decreases bound - rank[u]
    {
      if parents[u] == u {
        return u;
      }
      assert NodeOk(parents, rank, bound, u);
      ghost var p0 := parents;
      var root := Representative(parents[u]);
      assert root == Find(p0, rank, bound, u);
      assert Rep(u) == root;
      CompressSizes(parents, rank, bound, sizes, u);
      Compress(parents, rank, bound, u);
      parents := parents[u := root];
      r := parents[u];
      SameReps(p0, rank, bound, parents, rank, bound);
    }

    /** is_repr(u) */
    predicate IsRepr(u: int)
      reads this
      requires Valid() && 0 <= u < n
    {
      parents[u] == u
    }

    /** connected(u, v): whether u and v share a representative. */
    method Connected(u: int, v: int) returns (b: bool)
      requires Valid() && 0 <= u < n && 0 <= v < n
      modifies this`parents
      ensures Valid()
      ensures b <==> old(Joined(u, v))
      ensures Reps(parents, rank, bound) == old(Reps(parents, rank, bound))
    {
      var ru := Representative(u);
      var rv := Representative(v);
      b := ru == rv;
    }

    /** add_edge(u, v): nothing when u and v are connected; otherwise the
        root of the smaller component goes under the root of the larger,
        u's root winning a tie, and the larger's size grows by the
        smaller's. */
    method AddEdge(u: int, v: int)
      requires Valid() && 0 <= u < n && 0 <= v < n
      modifies this
      ensures Valid() && Joined(u, v)
      ensures old(Joined(u, v)) ==> sizes == old(sizes)
      ensures Reps(parents, rank, bound) == Merge(old(Reps(parents, rank, bound)), old(Rep(u)), old(Rep(v)),
                                                  if old(sizes[Rep(u)] < sizes[Rep(v)]) then old(Rep(v)) else old(Rep(u)))
      ensures forall x, y :: 0 <= x < n && 0 <= y < n ==>
        (Joined(x, y) <==> old(Joined(x, y)) || (old(Joined(x, u) || Joined(x, v)) && old(Joined(y, u) || Joined(y, v))))
    {
      ghost var f := Reps(parents, rank, bound);
      MergeJoins(f, f[u], f[v], if sizes[f[u]] < sizes[f[v]] then f[v] else f[u]);
      var c := Connected(u, v);
      if c {
        assert Merge(f, f[u], f[v], f[u]) == f;
        return;
      }
      var uRep := Representative(u);
      var vRep := Representative(v);
      var smaller, larger := if sizes[uRep] < sizes[vRep] then uRep else vRep,
                             if sizes[uRep] < sizes[vRep] then vRep else uRep;
      LinkSizes(parents, rank, bound, sizes, smaller, larger);
      LinkReps(parents, rank, bound, smaller, larger);
      parents := parents[smaller := larger];
      sizes := sizes[larger := sizes[larger] + sizes[smaller]];
      rank, bound := LinkRank(rank, smaller, larger), LinkBound(rank, bound, smaller);
    }

    /** component_sizes(): the size of every component, root by root in
        increasing order; they add up to n. */
    function ComponentSizes(): (r: seq<int>)
      reads this
      requires Valid()
      ensures Sum(r) == n
      ensures |r| == |Roots(parents, n)|
      ensures forall i :: 0 <= i < |r| ==> r[i] == |Members(parents, rank, bound, Roots(parents, n)[i])| > 0
    {
      SizesTotal(parents, rank, bound, sizes);
      RootSizesAre(parents, rank, bound, sizes, n);
      RootSizes(parents, sizes, n)
    }

    /** connected_components(): one list per root, in increasing order of
        root, holding that root's nodes in increasing order (which partition
        the nodes, by ComponentsPartition). */
    method ConnectedComponents() returns (result: seq<seq<int>>)
      requires Valid()
      modifies this`parents
      ensures Valid()
      ensures Reps(parents, rank, bound) == old(Reps(parents, rank, bound))
      ensures Collected(old(Reps(parents, rank, bound)), old(Roots(parents, n)), result, n)
    {
      ghost var f := Reps(parents, rank, bound);
      ghost var p0, rank0, bound0 := parents, rank, bound;
      TakeSnapshot(parents, rank, bound);
      var reprs := Roots(parents, n);
      var r2i := IndexMap(reprs);
      result := Empties(|reprs|);
      var u := 0;
      while u < n
        invariant 0 <= u <= n
        invariant Valid()
        invariant Reps(parents, rank, bound) == f
        invariant Collected(f, reprs, result, u)
      {
        result := AppendNode(u, p0, rank0, bound0, f, reprs, r2i, result);
        u := u + 1;
      }
    }

    function Empties(k: nat): (r: seq<seq<int>>)
      ensures |r| == k && forall i :: 0 <= i < k ==> r[i] == []
    {
      seq(k, _ => [])
    }

    /** The body of connected_components' loop: node u goes at the end of
        the list of its representative. */
    method AppendNode(u: int, ghost p0: seq<int>, ghost rank0: seq<nat>, ghost bound0: nat, ghost f: seq<int>,
                      reprs: seq<int>, r2i: map<int, int>, lists: seq<seq<int>>) returns (lists': seq<seq<int>>)
      requires Valid() && 0 <= u < n && Reps(parents, rank, bound) == f && |p0| == n
      requires rank0 == rank && bound0 == bound && Snapshot(p0, rank0, bound0, f, reprs, r2i)
      requires Collected(f, reprs, lists, u)
      modifies this`parents
      ensures Valid() && Reps(parents, rank, bound) == f
      ensures Collected(f, reprs, lists', u + 1)
    {
      var r := Representative(u);
      RootListed(p0, parents, rank, bound, r);
      var i := r2i[r];
      ComponentStep(f, reprs, lists, u, i);
      lists' := lists[i := lists[i] + [u]];
    }
  }
}
