/** The parent-pointer forest behind graphs/union_find/union_find.py and
    graphs/union_find/union_find.hh: node u's parent is p[u], and a node
    that is its own parent is a root (the representative of its
    component). Termination of the walk to the root is witnessed by ghost
    ranks that grow strictly from a child to its parent and never exceed
    a ghost bound. */
module UnionFindForest {

  /** Node u is well formed: its parent is a node, its rank is within the
      bound, and a non-root ranks strictly below its parent. */
  ghost predicate NodeOk(p: seq<int>, rank: seq<nat>, bound: nat, u: int)
    requires 0 <= u < |p| == |rank|
  {
    0 <= p[u] < |p| && rank[u] <= bound && (p[u] != u ==> rank[u] < rank[p[u]])
  }

  ghost predicate Forest(p: seq<int>, rank: seq<nat>, bound: nat)
  {
    |rank| == |p| && forall u :: 0 <= u < |p| ==> NodeOk(p, rank, bound, u)
  }

  /** The root reached from u by following parents. */
  ghost function Find(p: seq<int>, rank: seq<nat>, bound: nat, u: int): (r: int)
    requires Forest(p, rank, bound) && 0 <= u < |p|
    ensures 0 <= r < |p| && p[r] == r
    decreases bound - rank[u]
  {
    assert NodeOk(p, rank, bound, u);
    if p[u] == u then u else Find(p, rank, bound, p[u])
  }

  /** A root is its own representative, and a non-root ranks below its
      representative. */
  lemma {:induction false} FindRank(p: seq<int>, rank: seq<nat>, bound: nat, u: int)
    requires Forest(p, rank, bound) && 0 <= u < |p|
    ensures p[u] == u ==> Find(p, rank, bound, u) == u
    ensures p[u] != u ==> rank[u] < rank[Find(p, rank, bound, u)]
    decreases bound - rank[u]
  {
    assert NodeOk(p, rank, bound, u);
    if p[u] != u {
      FindRank(p, rank, bound, p[u]);
    }
  }

  /** The nodes whose representative is r. */
  ghost function Members(p: seq<int>, rank: seq<nat>, bound: nat, r: int): set<int>
    requires Forest(p, rank, bound)
  {
    set u | 0 <= u < |p| && Find(p, rank, bound, u) == r
  }

  /** sizes holds, at every root, the number of nodes in its component. */
  ghost predicate SizeAt(p: seq<int>, rank: seq<nat>, bound: nat, sizes: seq<int>, r: int)
    requires Forest(p, rank, bound) && 0 <= r < |p| == |sizes|
  {
    p[r] == r ==> sizes[r] == |Members(p, rank, bound, r)|
  }

  ghost predicate SizesOk(p: seq<int>, rank: seq<nat>, bound: nat, sizes: seq<int>)
    requires Forest(p, rank, bound)
  {
    |sizes| == |p| && forall r :: 0 <= r < |p| ==> SizeAt(p, rank, bound, sizes, r)
  }

  // ---------------------------------------------------------------------
  // The initial forest

  /** n singleton components: every node its own parent, rank 0. */
  lemma Singletons(n: nat)
    ensures var p, rank := seq(n, i => i), seq(n, i => 0);
      && Forest(p, rank, 0)
      && (forall u :: 0 <= u < n ==> Find(p, rank, 0, u) == u)
      && SizesOk(p, rank, 0, seq(n, i => 1))
  {
    var p, rank, sizes := seq(n, i => i), seq(n, i => 0), seq(n, i => 1);
    forall u | 0 <= u < n ensures NodeOk(p, rank, 0, u) {
    }
    forall r | 0 <= r < n ensures SizeAt(p, rank, 0, sizes, r) {
      assert Members(p, rank, 0, r) == {r};
    }
  }

  // ---------------------------------------------------------------------
  // Path compression: pointing u straight at its root

  /** Setting u's parent to its representative keeps a forest and changes
      no node's representative. */
  lemma Compress(p: seq<int>, rank: seq<nat>, bound: nat, u: int)
    requires Forest(p, rank, bound) && 0 <= u < |p|
    ensures Forest(p[u := Find(p, rank, bound, u)], rank, bound)
    ensures forall x :: 0 <= x < |p| ==>
      Find(p[u := Find(p, rank, bound, u)], rank, bound, x) == Find(p, rank, bound, x)
  {
    var r := Find(p, rank, bound, u);
    var p' := p[u := r];
    FindRank(p, rank, bound, u);
    forall x | 0 <= x < |p| ensures NodeOk(p', rank, bound, x) {
      assert NodeOk(p, rank, bound, x);
    }
    forall x | 0 <= x < |p| ensures Find(p', rank, bound, x) == Find(p, rank, bound, x) {
      CompressAt(p, rank, bound, u, x);
    }
  }

  lemma {:induction false} CompressAt(p: seq<int>, rank: seq<nat>, bound: nat, u: int, x: int)
    requires Forest(p, rank, bound) && 0 <= u < |p| && 0 <= x < |p|
    requires Forest(p[u := Find(p, rank, bound, u)], rank, bound)
    ensures Find(p[u := Find(p, rank, bound, u)], rank, bound, x) == Find(p, rank, bound, x)
    decreases bound - rank[x]
  {
    var r := Find(p, rank, bound, u);
    var p' := p[u := r];
    assert NodeOk(p, rank, bound, x);
    if x == u {
      FindRank(p, rank, bound, r);
      if r != u {
        assert p'[r] == r;
      }
    } else if p[x] != x {
      CompressAt(p, rank, bound, u, p[x]);
    }
  }

  /** Compression keeps every component, so every size stays right. */
  lemma CompressSizes(p: seq<int>, rank: seq<nat>, bound: nat, sizes: seq<int>, u: int)
    requires Forest(p, rank, bound) && SizesOk(p, rank, bound, sizes) && 0 <= u < |p|
    ensures Forest(p[u := Find(p, rank, bound, u)], rank, bound)
    ensures SizesOk(p[u := Find(p, rank, bound, u)], rank, bound, sizes)
  {
    var p' := p[u := Find(p, rank, bound, u)];
    Compress(p, rank, bound, u);
    FindRank(p, rank, bound, u);
    forall r | 0 <= r < |p| ensures SizeAt(p', rank, bound, sizes, r) {
      assert SizeAt(p, rank, bound, sizes, r);
      assert Members(p', rank, bound, r) == Members(p, rank, bound, r);
    }
  }

  // ---------------------------------------------------------------------
  // Linking root a under root b

  /** The ranks after linking a under b: b rises above a if it has to. */
  function LinkRank(rank: seq<nat>, a: int, b: int): seq<nat>
    requires 0 <= a < |rank| && 0 <= b < |rank|
  {
    rank[b := if rank[b] > rank[a] then rank[b] else rank[a] + 1]
  }

  function LinkBound(rank: seq<nat>, bound: nat, a: int): nat
    requires 0 <= a < |rank|
  {
    if bound > rank[a] then bound else rank[a] + 1
  }

  /** Linking root a under another root b keeps a forest, and the nodes
      that had representative a now have b; no other node changes. */
  lemma Link(p: seq<int>, rank: seq<nat>, bound: nat, a: int, b: int)
    requires Forest(p, rank, bound) && 0 <= a < |p| && 0 <= b < |p|
    requires p[a] == a && p[b] == b && a != b
    ensures Forest(p[a := b], LinkRank(rank, a, b), LinkBound(rank, bound, a))
    ensures forall x :: 0 <= x < |p| ==>
      Find(p[a := b], LinkRank(rank, a, b), LinkBound(rank, bound, a), x)
        == if Find(p, rank, bound, x) == a then b else Find(p, rank, bound, x)
  {
    var p', rank', bound' := p[a := b], LinkRank(rank, a, b), LinkBound(rank, bound, a);
    forall x | 0 <= x < |p| ensures NodeOk(p', rank', bound', x) {
      assert NodeOk(p, rank, bound, x);
    }
    forall x | 0 <= x < |p|
      ensures Find(p', rank', bound', x) == if Find(p, rank, bound, x) == a then b else Find(p, rank, bound, x)
    {
      LinkAt(p, rank, bound, a, b, x);
    }
  }

  lemma {:induction false} LinkAt(p: seq<int>, rank: seq<nat>, bound: nat, a: int, b: int, x: int)
    requires Forest(p, rank, bound) && 0 <= a < |p| && 0 <= b < |p|
    requires p[a] == a && p[b] == b && a != b && 0 <= x < |p|
    requires Forest(p[a := b], LinkRank(rank, a, b), LinkBound(rank, bound, a))
    ensures Find(p[a := b], LinkRank(rank, a, b), LinkBound(rank, bound, a), x)
      == if Find(p, rank, bound, x) == a then b else Find(p, rank, bound, x)
    decreases bound - rank[x]
  {
    var p', rank', bound' := p[a := b], LinkRank(rank, a, b), LinkBound(rank, bound, a);
    assert NodeOk(p, rank, bound, x);
    if x == a {
      assert Find(p', rank', bound', b) == b;
    } else if p[x] != x {
      LinkAt(p, rank, bound, a, b, p[x]);
    }
  }

  /** Representatives after merging the components of roots a and b under
      w: the members of both now have w, everyone else keeps theirs. */
  function Merge(f: seq<int>, a: int, b: int, w: int): (g: seq<int>)
    ensures |g| == |f| && forall x :: 0 <= x < |f| ==> g[x] == if f[x] == a || f[x] == b then w else f[x]
  {
    seq(|f|, x requires 0 <= x < |f| => if f[x] == a || f[x] == b then w else f[x])
  }

  /** Merging under one of the two roots joins exactly the two components:
      two nodes end up together when they were together, or when each was in
      one of the merged components. */
  lemma MergeJoins(f: seq<int>, a: int, b: int, w: int)
    requires w == a || w == b
    ensures forall x, y :: 0 <= x < |f| && 0 <= y < |f| ==>
      (Merge(f, a, b, w)[x] == Merge(f, a, b, w)[y] <==> f[x] == f[y] || ((f[x] == a || f[x] == b) && (f[y] == a || f[y] == b)))
  {
  }

  /** Linking a under b merges a's component into b's. */
  lemma LinkReps(p: seq<int>, rank: seq<nat>, bound: nat, a: int, b: int)
    requires Forest(p, rank, bound) && 0 <= a < |p| && 0 <= b < |p|
    requires p[a] == a && p[b] == b && a != b
    ensures Forest(p[a := b], LinkRank(rank, a, b), LinkBound(rank, bound, a))
    ensures Reps(p[a := b], LinkRank(rank, a, b), LinkBound(rank, bound, a)) == Merge(Reps(p, rank, bound), a, b, b)
    ensures Merge(Reps(p, rank, bound), a, b, b) == Merge(Reps(p, rank, bound), b, a, b)
  {
    Link(p, rank, bound, a, b);
  }

  /** After linking a under b, b's component is the union of the two old
      ones (which are disjoint), and every other component is unchanged. */
  lemma LinkMembers(p: seq<int>, rank: seq<nat>, bound: nat, a: int, b: int, r: int)
    requires Forest(p, rank, bound) && 0 <= a < |p| && 0 <= b < |p|
    requires p[a] == a && p[b] == b && a != b && r != a
    ensures Forest(p[a := b], LinkRank(rank, a, b), LinkBound(rank, bound, a))
    ensures Members(p[a := b], LinkRank(rank, a, b), LinkBound(rank, bound, a), r)
      == if r == b then Members(p, rank, bound, a) + Members(p, rank, bound, b)
         else Members(p, rank, bound, r)
    ensures Members(p, rank, bound, a) * Members(p, rank, bound, b) == {}
  {
    Link(p, rank, bound, a, b);
  }

  /** Linking a under b and adding a's size to b's keeps every size
      right. */
  lemma LinkSizes(p: seq<int>, rank: seq<nat>, bound: nat, sizes: seq<int>, a: int, b: int)
    requires Forest(p, rank, bound) && SizesOk(p, rank, bound, sizes)
    requires 0 <= a < |p| && 0 <= b < |p| && p[a] == a && p[b] == b && a != b
    ensures Forest(p[a := b], LinkRank(rank, a, b), LinkBound(rank, bound, a))
    ensures SizesOk(p[a := b], LinkRank(rank, a, b), LinkBound(rank, bound, a), sizes[b := sizes[b] + sizes[a]])
  {
    var p', rank', bound' := p[a := b], LinkRank(rank, a, b), LinkBound(rank, bound, a);
    var sizes' := sizes[b := sizes[b] + sizes[a]];
    Link(p, rank, bound, a, b);
    forall r | 0 <= r < |p| ensures SizeAt(p', rank', bound', sizes', r) {
      if p'[r] == r {
        assert r != a;
        assert SizeAt(p, rank, bound, sizes, r);
        LinkMembers(p, rank, bound, a, b, r);
        if r == b {
          assert SizeAt(p, rank, bound, sizes, a);
        }
      }
    }
  }

  // ---------------------------------------------------------------------
  // Roots, component sizes and components

  /** The roots among nodes 0 .. k-1, in increasing order. */
  function Roots(p: seq<int>, k: nat): (rs: seq<int>)
    requires k <= |p|
    ensures forall i :: 0 <= i < |rs| ==> 0 <= rs[i] < k && p[rs[i]] == rs[i]
  {
    if k == 0 then [] else Roots(p, k - 1) + (if p[k - 1] == k - 1 then [k - 1] else [])
  }

  /** Roots lists every root below k, in strictly increasing order. */
  lemma {:induction false} RootsListed(p: seq<int>, k: nat)
    requires k <= |p|
    ensures forall x :: 0 <= x < k && p[x] == x ==> x in Roots(p, k)
    ensures forall i, j :: 0 <= i < j < |Roots(p, k)| ==> Ascends(Roots(p, k), i, j)
  {
    if k > 0 {
      RootsListed(p, k - 1);
      var rs := Roots(p, k);
      var prev := Roots(p, k - 1);
      forall i, j | 0 <= i < j < |rs| ensures Ascends(rs, i, j) {
        if j < |prev| {
          assert Ascends(prev, i, j);
        }
      }
    }
  }

  predicate Ascends(s: seq<int>, i: int, j: int)
    requires 0 <= i < j < |s|
  {
    s[i] < s[j]
  }

  /** Distinct positions of a strictly increasing sequence hold distinct
      elements. */
  lemma Distinct(s: seq<int>)
    requires forall i, j :: 0 <= i < j < |s| ==> Ascends(s, i, j)
    ensures forall i, j :: 0 <= i < |s| && 0 <= j < |s| && i != j ==> s[i] != s[j]
  {
    forall i, j | 0 <= i < |s| && 0 <= j < |s| && i != j ensures s[i] != s[j] {
      if i < j {
        assert Ascends(s, i, j);
      } else {
        assert Ascends(s, j, i);
      }
    }
  }

  /** The sizes recorded at the roots among 0 .. k-1, in increasing order of
      root. */
  function RootSizes(p: seq<int>, sizes: seq<int>, k: nat): seq<int>
    requires k <= |p| == |sizes|
  {
    if k == 0 then [] else RootSizes(p, sizes, k - 1) + (if p[k - 1] == k - 1 then [sizes[k - 1]] else [])
  }

  /** RootSizes lists, root by root, the size recorded at that root. */
  lemma {:induction false} RootSizesAt(p: seq<int>, sizes: seq<int>, k: nat)
    requires k <= |p| == |sizes|
    ensures |RootSizes(p, sizes, k)| == |Roots(p, k)|
    ensures forall i :: 0 <= i < |Roots(p, k)| ==> RootSizes(p, sizes, k)[i] == sizes[Roots(p, k)[i]]
  {
    if k > 0 {
      RootSizesAt(p, sizes, k - 1);
    }
  }

  /** Under the size invariant, RootSizes lists the size of each root's
      component, and every one is positive. */
  lemma RootSizesAre(p: seq<int>, rank: seq<nat>, bound: nat, sizes: seq<int>, k: nat)
    requires Forest(p, rank, bound) && SizesOk(p, rank, bound, sizes) && k <= |p|
    ensures |RootSizes(p, sizes, k)| == |Roots(p, k)|
    ensures forall i :: 0 <= i < |Roots(p, k)| ==>
      RootSizes(p, sizes, k)[i] == |Members(p, rank, bound, Roots(p, k)[i])| > 0
  {
    RootSizesAt(p, sizes, k);
    var rs := Roots(p, k);
    forall i | 0 <= i < |rs|
      ensures RootSizes(p, sizes, k)[i] == |Members(p, rank, bound, rs[i])| > 0
    {
      assert SizeAt(p, rank, bound, sizes, rs[i]);
      FindRank(p, rank, bound, rs[i]);
      assert rs[i] in Members(p, rank, bound, rs[i]);
    }
  }

  /** A node is a root exactly when it is its own representative. */
  lemma RootIsOwnRep(p: seq<int>, rank: seq<nat>, bound: nat, x: int)
    requires Forest(p, rank, bound) && 0 <= x < |p|
    ensures p[x] == x <==> Find(p, rank, bound, x) == x
  {
    FindRank(p, rank, bound, x);
  }

  /** Two forests with the same representatives have the same roots. */
  lemma SameRoots(p: seq<int>, rank: seq<nat>, bound: nat, p': seq<int>, rank': seq<nat>, bound': nat)
    requires Forest(p, rank, bound) && Forest(p', rank', bound') && |p'| == |p|
    requires forall x :: 0 <= x < |p| ==> Find(p', rank', bound', x) == Find(p, rank, bound, x)
    ensures forall k :: 0 <= k <= |p| ==> Roots(p', k) == Roots(p, k)
  {
    forall x | 0 <= x < |p| ensures p'[x] == x <==> p[x] == x {
      RootIsOwnRep(p, rank, bound, x);
      RootIsOwnRep(p', rank', bound', x);
    }
    forall k | 0 <= k <= |p| ensures Roots(p', k) == Roots(p, k) {
      SameRootsUpTo(p, p', k);
    }
  }

  lemma {:induction false} SameRootsUpTo(p: seq<int>, p': seq<int>, k: nat)
    requires k <= |p| == |p'|
    requires forall x :: 0 <= x < |p| ==> (p'[x] == x <==> p[x] == x)
    ensures Roots(p', k) == Roots(p, k)
  {
    if k > 0 {
      SameRootsUpTo(p, p', k - 1);
    }
  }

  function Sum(s: seq<int>): int
  {
    if s == [] then 0 else Sum(s[..|s| - 1]) + s[|s| - 1]
  }

  /** The nodes whose representative is below k. */
  ghost function Below(p: seq<int>, rank: seq<nat>, bound: nat, k: int): set<int>
    requires Forest(p, rank, bound)
  {
    set u | 0 <= u < |p| && Find(p, rank, bound, u) < k
  }

  /** The sizes at the roots below k add up to the number of nodes whose
      representative is below k. */
  lemma {:induction false} RootSizesCount(p: seq<int>, rank: seq<nat>, bound: nat, sizes: seq<int>, k: nat)
    requires Forest(p, rank, bound) && SizesOk(p, rank, bound, sizes) && k <= |p|
    ensures Sum(RootSizes(p, sizes, k)) == |Below(p, rank, bound, k)|
  {
    if k == 0 {
      assert Below(p, rank, bound, 0) == {};
    } else {
      RootSizesCount(p, rank, bound, sizes, k - 1);
      SumSnoc(RootSizes(p, sizes, k - 1), if p[k - 1] == k - 1 then [sizes[k - 1]] else []);
      BelowStep(p, rank, bound, k);
      assert SizeAt(p, rank, bound, sizes, k - 1);
      if p[k - 1] != k - 1 {
        RootIsOwnRep(p, rank, bound, k - 1);
        assert Members(p, rank, bound, k - 1) == {};
      }
    }
  }

  lemma SumSnoc(s: seq<int>, t: seq<int>)
    requires |t| <= 1
    ensures Sum(s + t) == Sum(s) + Sum(t)
  {
    if t != [] {
      assert (s + t)[..|s + t| - 1] == s;
    } else {
      assert s + t == s;
    }
  }

  /** The nodes with representative below k are those with representative
      below k - 1 and the component of k - 1, two disjoint sets. */
  lemma BelowStep(p: seq<int>, rank: seq<nat>, bound: nat, k: nat)
    requires Forest(p, rank, bound) && 0 < k
    ensures |Below(p, rank, bound, k)| == |Below(p, rank, bound, k - 1)| + |Members(p, rank, bound, k - 1)|
  {
    assert Below(p, rank, bound, k) == Below(p, rank, bound, k - 1) + Members(p, rank, bound, k - 1);
    assert Below(p, rank, bound, k - 1) * Members(p, rank, bound, k - 1) == {};
  }

  /** The component sizes add up to the number of nodes. */
  lemma SizesTotal(p: seq<int>, rank: seq<nat>, bound: nat, sizes: seq<int>)
    requires Forest(p, rank, bound) && SizesOk(p, rank, bound, sizes)
    ensures Sum(RootSizes(p, sizes, |p|)) == |p|
  {
    RootSizesCount(p, rank, bound, sizes, |p|);
    assert Below(p, rank, bound, |p|) == Nodes(|p|);
    NodesCount(|p|);
  }

  predicate IsNode(n: int, u: int)
  {
    0 <= u < n
  }

  /** The nodes 0 .. n-1. */
  function Nodes(n: int): set<int>
  {
    set u | 0 <= u < n && IsNode(n, u)
  }

  lemma {:induction false} NodesCount(n: nat)
    ensures |Nodes(n)| == n
  {
    if n > 0 {
      NodesCount(n - 1);
      assert Nodes(n) == Nodes(n - 1) + {n - 1};
    }
  }

  /** Every node's representative, node by node. */
  ghost function Reps(p: seq<int>, rank: seq<nat>, bound: nat): (f: seq<int>)
    requires Forest(p, rank, bound)
    ensures |f| == |p| && forall x :: 0 <= x < |p| ==> f[x] == Find(p, rank, bound, x)
  {
    seq(|p|, x requires 0 <= x < |p| && Forest(p, rank, bound) => Find(p, rank, bound, x))
  }

  /** Forests whose nodes keep their representatives have equal Reps. */
  lemma SameReps(p: seq<int>, rank: seq<nat>, bound: nat, p': seq<int>, rank': seq<nat>, bound': nat)
    requires Forest(p, rank, bound) && Forest(p', rank', bound') && |p'| == |p|
    requires forall x :: 0 <= x < |p| ==> Find(p', rank', bound', x) == Find(p, rank, bound, x)
    ensures Reps(p', rank', bound') == Reps(p, rank, bound)
  {
  }

  /** A root of a forest is listed among the roots of any forest with the
      same representatives. */
  lemma RootListed(p0: seq<int>, p: seq<int>, rank: seq<nat>, bound: nat, r: int)
    requires Forest(p0, rank, bound) && Forest(p, rank, bound) && |p| == |p0|
    requires Reps(p, rank, bound) == Reps(p0, rank, bound) && 0 <= r < |p| && p[r] == r
    ensures r in Roots(p0, |p0|)
  {
    assert Reps(p, rank, bound)[r] == Reps(p0, rank, bound)[r];
    RootIsOwnRep(p, rank, bound, r);
    RootIsOwnRep(p0, rank, bound, r);
    RootsListed(p0, |p0|);
  }

  predicate Contains(c: seq<int>, u: int)
  {
    u in c
  }

  /** The components, one per root, partition the nodes: each node lies in
      exactly one of them, the one of its own representative. */
  lemma ComponentsPartition(p: seq<int>, rank: seq<nat>, bound: nat, u: int)
    requires Forest(p, rank, bound) && 0 <= u < |p|
    ensures exists i :: 0 <= i < |Roots(p, |p|)| && Contains(Component(Reps(p, rank, bound), Roots(p, |p|)[i], |p|), u)
    ensures forall i, j ::
      (0 <= i < |Roots(p, |p|)| && 0 <= j < |Roots(p, |p|)|
       && Contains(Component(Reps(p, rank, bound), Roots(p, |p|)[i], |p|), u)
       && Contains(Component(Reps(p, rank, bound), Roots(p, |p|)[j], |p|), u)) ==> i == j
  {
    var rs, f := Roots(p, |p|), Reps(p, rank, bound);
    var r := Find(p, rank, bound, u);
    RootsListed(p, |p|);
    assert r in rs;
    var i :| 0 <= i < |rs| && rs[i] == r;
    ComponentMembers(f, rs[i], |p|);
    forall i, j | 0 <= i < |rs| && 0 <= j < |rs| && Contains(Component(f, rs[i], |p|), u)
      && Contains(Component(f, rs[j], |p|), u)
      ensures i == j
    {
      ComponentMembers(f, rs[i], |p|);
      ComponentMembers(f, rs[j], |p|);
      assert rs[i] == f[u] == rs[j];
      Distinct(rs);
    }
  }

  /** The position of each element of a strictly increasing sequence. */
  function IndexMap(rs: seq<int>): (m: map<int, int>)
    requires forall a, b :: 0 <= a < b < |rs| ==> Ascends(rs, a, b)
    ensures forall x :: x in rs ==> x in m && 0 <= m[x] < |rs| && rs[m[x]] == x
  {
    Distinct(rs);
    map i | 0 <= i < |rs| :: rs[i] := i
  }

  /** What connected_components computes before its loop, from the forest
      p0 as it then is: f holds every node's representative, roots lists the
      roots in increasing order and index maps each root to its position. */
  ghost predicate Snapshot(p0: seq<int>, rank: seq<nat>, bound: nat, f: seq<int>, roots: seq<int>, index: map<int, int>)
  {
    && Forest(p0, rank, bound)
    && f == Reps(p0, rank, bound)
    && roots == Roots(p0, |p0|)
    && (forall a, b :: 0 <= a < b < |roots| ==> Ascends(roots, a, b))
    && (forall x :: x in roots ==> x in index && 0 <= index[x] < |roots| && roots[index[x]] == x)
  }

  /** The snapshot connected_components takes of a forest. */
  lemma TakeSnapshot(p: seq<int>, rank: seq<nat>, bound: nat)
    requires Forest(p, rank, bound)
    ensures forall a, b :: 0 <= a < b < |Roots(p, |p|)| ==> Ascends(Roots(p, |p|), a, b)
    ensures Snapshot(p, rank, bound, Reps(p, rank, bound), Roots(p, |p|), IndexMap(Roots(p, |p|)))
  {
    RootsListed(p, |p|);
  }

  /** The nodes 0 .. k-1 whose entry in f is r, in increasing order: one
      component's list as connected_components builds it. */
  function Component(f: seq<int>, r: int, k: nat): seq<int>
    requires k <= |f|
  {
    if k == 0 then [] else Component(f, r, k - 1) + (if f[k - 1] == r then [k - 1] else [])
  }

  /** A component's list holds exactly the nodes below k whose entry is r,
      in strictly increasing order. */
  lemma {:induction false} ComponentMembers(f: seq<int>, r: int, k: nat)
    requires k <= |f|
    ensures forall u :: Contains(Component(f, r, k), u) <==> 0 <= u < k && f[u] == r
    ensures forall i, j :: 0 <= i < j < |Component(f, r, k)| ==> Component(f, r, k)[i] < Component(f, r, k)[j]
  {
    if k > 0 {
      ComponentMembers(f, r, k - 1);
      var c := Component(f, r, k - 1);
      forall u ensures Contains(Component(f, r, k), u) <==> 0 <= u < k && f[u] == r {
        assert Contains(c, u) <==> u in c;
      }
      forall j | 0 <= j < |c| ensures c[j] < k - 1 {
        assert Contains(c, c[j]);
      }
    }
  }

  /** The list at position i holds root i's nodes among 0 .. u-1. */
  ghost predicate ListAt(f: seq<int>, roots: seq<int>, lists: seq<seq<int>>, u: nat, i: int)
    requires u <= |f| && |lists| == |roots| && 0 <= i < |roots|
  {
    lists[i] == Component(f, roots[i], u)
  }

  /** Each root's list holds its nodes among 0 .. u-1. */
  ghost predicate Collected(f: seq<int>, roots: seq<int>, lists: seq<seq<int>>, u: nat)
    requires u <= |f|
  {
    |lists| == |roots| && forall j :: 0 <= j < |roots| ==> ListAt(f, roots, lists, u, j)
  }

  /** One step of connected_components' loop: appending node u to the list
      of its representative's root extends every list from u to u + 1. */
  lemma ComponentStep(f: seq<int>, roots: seq<int>, lists: seq<seq<int>>, u: nat, i: int)
    requires u < |f| && |lists| == |roots| && 0 <= i < |roots| && roots[i] == f[u]
    requires forall a, b :: 0 <= a < b < |roots| ==> Ascends(roots, a, b)
    requires Collected(f, roots, lists, u)
    ensures Collected(f, roots, lists[i := lists[i] + [u]], u + 1)
  {
    var grown, next := lists[i := lists[i] + [u]], u + 1;
    forall j | 0 <= j < |roots| ensures ListAt(f, roots, grown, next, j) {
      assert ListAt(f, roots, lists, u, j);
      if j < i {
        assert Ascends(roots, j, i);
      } else if j > i {
        assert Ascends(roots, i, j);
      }
    }
  }
}
