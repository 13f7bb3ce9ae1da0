/** The array layout shared by trees/segment_tree.hh and trees/segment_tree.py:
    m leaves (m a power of two) at indices m .. 2m-1, the root at index 1,
    and node k's children at 2k and 2k+1. Leaf m + i holds data element i,
    and every other node the fold of its children. */
module SegmentLayout {
  import PyInt

  predicate IsPow2(x: int)
    decreases if x < 0 then 0 else x
  {
    x == 1 || (x >= 2 && x % 2 == 0 && IsPow2(x / 2))
  }

  /** 2^e is a power of two. */
  lemma {:induction false} Pow2IsPow2(e: nat)
    ensures IsPow2(PyInt.Pow2(e))
  {
    if e > 0 {
      Pow2IsPow2(e - 1);
    }
  }

  /** Two powers of two m <= x < 2m are equal. */
  lemma {:induction false} Pow2Between(m: int, x: int)
    requires IsPow2(m) && IsPow2(x) && m <= x < 2 * m
    ensures x == m
    decreases m
  {
    if m >= 2 {
      Pow2Between(m / 2, x / 2);
    }
  }

  /** A power of two that is even halves to a power of two. */
  lemma Pow2Double(x: int)
    requires x >= 1
    ensures IsPow2(2 * x) ==> IsPow2(x)
  {
    assert (2 * x) / 2 == x;
  }

  /** The first data index in node k's segment: the leftmost leaf below k. */
  function Lo(m: nat, k: nat): (r: int)
    requires 1 <= k < 2 * m
    ensures 0 <= r < m
    decreases 2 * m - k
  {
    if k >= m then k - m else Lo(m, 2 * k)
  }

  /** The last data index in node k's segment: the rightmost leaf below k. */
  function Hi(m: nat, k: nat): (r: int)
    requires 1 <= k < 2 * m
    ensures 0 <= r < m
    decreases 2 * m - k
  {
    if k >= m then k - m else Hi(m, 2 * k + 1)
  }

  /** Node a + 1 follows node a on the same level (a + 1 is not the first
      node of a level), so its segment starts just after a's. */
  lemma {:induction false} Adjacent(m: nat, a: nat)
    requires IsPow2(m) && 1 <= a && a + 1 < 2 * m && !IsPow2(a + 1)
    ensures Hi(m, a) + 1 == Lo(m, a + 1)
    decreases 2 * m - a
  {
    if a < m {
      assert a + 1 < m by {
        if a + 1 == m {
          assert false;
        }
      }
      Pow2Double(a + 1);
      Adjacent(m, 2 * a + 1);
    }
  }

  /** The segments of two siblings are adjacent. */
  lemma Siblings(m: nat, k: nat)
    requires IsPow2(m) && 1 <= k < m
    ensures Hi(m, 2 * k) + 1 == Lo(m, 2 * k + 1)
  {
    assert !IsPow2(2 * k + 1) by {
      assert (2 * k + 1) % 2 == 1;
    }
    Adjacent(m, 2 * k);
  }

  /** How a node's segment relates to its children's: a leaf's segment
      is one index; an internal node's is split between its children at
      the boundary of their adjacent segments. */
  lemma Children(m: nat, k: nat)
    requires IsPow2(m) && 1 <= k < 2 * m
    ensures k >= m ==> Lo(m, k) == Hi(m, k)
    ensures k < m ==> Lo(m, 2 * k) == Lo(m, k) && Hi(m, 2 * k + 1) == Hi(m, k)
    ensures k < m ==> Hi(m, 2 * k) + 1 == Lo(m, 2 * k + 1)
    ensures k < m ==> Lo(m, 2 * k) <= Hi(m, 2 * k) && Lo(m, 2 * k + 1) <= Hi(m, 2 * k + 1)
  {
    if k < m {
      Siblings(m, k);
      LoLeHi(m, 2 * k);
      LoLeHi(m, 2 * k + 1);
    }
  }

  /** Every node's segment is non-empty. */
  lemma {:induction false} LoLeHi(m: nat, k: nat)
    requires IsPow2(m) && 1 <= k < 2 * m
    ensures Lo(m, k) <= Hi(m, k)
    decreases 2 * m - k
  {
    if k < m {
      LoLeHi(m, 2 * k);
      LoLeHi(m, 2 * k + 1);
      Siblings(m, k);
    }
  }

  lemma {:induction false} LoFirst(m: nat, x: nat)
    requires IsPow2(m) && IsPow2(x) && x < 2 * m
    ensures Lo(m, x) == 0
    decreases 2 * m - x
  {
    if x < m {
      assert (2 * x) / 2 == x;
      LoFirst(m, 2 * x);
    } else {
      Pow2Between(m, x);
    }
  }

  lemma {:induction false} HiLast(m: nat, x: nat)
    requires IsPow2(m) && IsPow2(x + 1) && 1 <= x < 2 * m
    ensures Hi(m, x) == m - 1
    decreases 2 * m - x
  {
    if x < m {
      assert (2 * x + 2) / 2 == x + 1;
      HiLast(m, 2 * x + 1);
    } else if x + 1 < 2 * m {
      Pow2Between(m, x + 1);
    }
  }

  /** The root covers the whole padded data array. */
  lemma RootSegment(m: nat)
    requires IsPow2(m)
    ensures Lo(m, 1) == 0 && Hi(m, 1) == m - 1
  {
    LoFirst(m, 1);
    HiLast(m, 1);
  }

  /** Node j lies in the subtree rooted at a (j is a or one of its
      descendants): halving j eventually reaches a. */
  predicate Desc(a: nat, j: nat)
    decreases j
  {
    j == a || (j > a && Desc(a, j / 2))
  }

  /** A node's subtree holds only nodes with larger or equal index. */
  lemma {:induction false} DescLe(a: nat, j: nat)
    ensures Desc(a, j) ==> a <= j
  {
  }

  /** Only a and the nodes of its children's subtrees lie under a. */
  lemma {:induction false} DescSplit(k: nat, j: nat)
    requires k >= 1
    ensures Desc(k, j) <==> j == k || Desc(2 * k, j) || Desc(2 * k + 1, j)
    decreases j
  {
    if j > k && j / 2 != k && j / 2 >= 1 {
      DescSplit(k, j / 2);
    }
  }

  /** The subtrees of two siblings are disjoint. */
  lemma {:induction false} DescDisjoint(k: nat, j: nat)
    requires k >= 1
    ensures !(Desc(2 * k, j) && Desc(2 * k + 1, j))
    decreases j
  {
    if j > 2 * k + 1 {
      DescDisjoint(k, j / 2);
    }
  }

  /** The ancestors of a node form a chain: of two ancestors of leaf, the
      smaller one is an ancestor of the larger. */
  lemma {:induction false} DescChain(a: nat, b: nat, leaf: nat)
    requires Desc(a, leaf) && Desc(b, leaf) && a < b
    ensures Desc(a, b)
    decreases leaf
  {
    if leaf != b {
      DescChain(a, b, leaf / 2);
    }
  }

  /** The parent of an ancestor of leaf is an ancestor of leaf. */
  lemma {:induction false} DescParent(a: nat, leaf: nat)
    requires a >= 2 && Desc(a, leaf)
    ensures Desc(a / 2, leaf)
    decreases leaf
  {
    if leaf != a {
      DescParent(a, leaf / 2);
    }
  }

  /** A leaf lies under node k exactly when its data index is in k's
      segment. */
  lemma {:induction false} DescSegment(m: nat, k: nat, i: int)
    requires IsPow2(m) && 1 <= k < 2 * m && 0 <= i < m
    ensures Desc(k, m + i) <==> Lo(m, k) <= i <= Hi(m, k)
    decreases 2 * m - k
  {
    if k >= m {
      DescLe(k, (m + i) / 2);
    } else {
      DescSplit(k, m + i);
      DescSegment(m, 2 * k, i);
      DescSegment(m, 2 * k + 1, i);
      Siblings(m, k);
      LoLeHi(m, 2 * k);
      LoLeHi(m, 2 * k + 1);
    }
  }

  /** op folded left to right over s[lo..hi], a non-empty range. */
  function FoldRange<U>(op: (U, U) -> U, s: seq<U>, lo: int, hi: int): U
    requires 0 <= lo < hi <= |s|
    decreases hi - lo
  {
    if hi - lo == 1 then s[lo] else op(FoldRange(op, s, lo, hi - 1), s[hi - 1])
  }

  /** op regroups at x, y, z. */
  ghost predicate AssocAt<U>(op: (U, U) -> U, x: U, y: U, z: U)
  {
    op(op(x, y), z) == op(x, op(y, z))
  }

  /** op is associative; the instances are named by AssocAt so that they
      are used only where a proof asks for one. */
  ghost predicate Associative<U(!new)>(op: (U, U) -> U)
  {
    forall x, y, z :: AssocAt(op, x, y, z)
  }

  /** With an associative op, the fold over a range split at mid combines
      the folds of the two pieces. */
  lemma {:induction false} FoldSplit<U(!new)>(op: (U, U) -> U, s: seq<U>, lo: int, mid: int, hi: int)
    requires Associative(op) && 0 <= lo < mid < hi <= |s|
    ensures FoldRange(op, s, lo, hi) == op(FoldRange(op, s, lo, mid), FoldRange(op, s, mid, hi))
    decreases hi - mid
  {
    if hi - mid > 1 {
      FoldSplit(op, s, lo, mid, hi - 1);
      assert AssocAt(op, FoldRange(op, s, lo, mid), FoldRange(op, s, mid, hi - 1), s[hi - 1]);
    }
  }

  /** The results for two adjacent ranges combine into the result for
      their union. */
  lemma FoldJoin<U(!new)>(op: (U, U) -> U, s: seq<U>, lo: int, mid: int, hi: int, a: U, b: U)
    requires Associative(op) && 0 <= lo < mid < hi <= |s|
    requires a == FoldRange(op, s, lo, mid) && b == FoldRange(op, s, mid, hi)
    ensures op(a, b) == FoldRange(op, s, lo, hi)
  {
    FoldSplit(op, s, lo, mid, hi);
  }

  /** The value populateStree stores at node k, for the padded data
      leaves: the datum itself at a leaf, the op of the children's values
      elsewhere. */
  function NodeValue<U>(op: (U, U) -> U, leaves: seq<U>, k: nat): U
    requires 1 <= k < 2 * |leaves|
    decreases 2 * |leaves| - k
  {
    var m := |leaves|;
    if k >= m then leaves[k - m]
    else op(NodeValue(op, leaves, 2 * k), NodeValue(op, leaves, 2 * k + 1))
  }

  /** Each node's value is op folded over the data of its segment. */
  lemma {:induction false} NodeValueFold<U(!new)>(op: (U, U) -> U, leaves: seq<U>, k: nat)
    requires IsPow2(|leaves|) && Associative(op) && 1 <= k < 2 * |leaves|
    ensures Lo(|leaves|, k) <= Hi(|leaves|, k)
    ensures NodeValue(op, leaves, k) == FoldRange(op, leaves, Lo(|leaves|, k), Hi(|leaves|, k) + 1)
    decreases 2 * |leaves| - k
  {
    var m := |leaves|;
    if k < m {
      NodeValueFold(op, leaves, 2 * k);
      NodeValueFold(op, leaves, 2 * k + 1);
      Siblings(m, k);
      FoldSplit(op, leaves, Lo(m, k), Hi(m, 2 * k) + 1, Hi(m, k) + 1);
    }
  }

  /** Node k of the tree array t holds op of its children's values. */
  ghost predicate Combines<U>(op: (U, U) -> U, t: seq<U>, k: int)
  {
    0 <= k && 2 * k + 1 < |t| && t[k] == op(t[2 * k], t[2 * k + 1])
  }

  /** Every internal node of the tree array t (m leaves) holds op of its
      children. */
  ghost predicate Consistent<U>(op: (U, U) -> U, t: seq<U>, m: nat)
  {
    |t| == 2 * m && forall k :: 1 <= k < m ==> Combines(op, t, k)
  }

  /** Every node of a consistent tree holds op folded over its segment of
      the leaves. */
  lemma {:induction false} ConsistentFold<U(!new)>(op: (U, U) -> U, t: seq<U>, m: nat, k: nat)
    requires IsPow2(m) && Associative(op) && Consistent(op, t, m) && 1 <= k < 2 * m
    ensures Lo(m, k) <= Hi(m, k)
    ensures t[k] == FoldRange(op, t[m..], Lo(m, k), Hi(m, k) + 1)
  {
    ConsistentValue(op, t, m, k);
    NodeValueFold(op, t[m..], k);
  }

  lemma {:induction false} ConsistentValue<U>(op: (U, U) -> U, t: seq<U>, m: nat, k: nat)
    requires Consistent(op, t, m) && 1 <= k < 2 * m
    ensures t[k] == NodeValue(op, t[m..], k)
    decreases 2 * m - k
  {
    if k < m {
      assert Combines(op, t, k);
      ConsistentValue(op, t, m, 2 * k);
      ConsistentValue(op, t, m, 2 * k + 1);
    } else {
      assert t[m..][k - m] == t[k];
    }
  }

  /** While update walks up from leaf, every internal node except the
      ancestors of leaf at or above node holds op of its children. */
  ghost predicate ConsistentExcept<U>(op: (U, U) -> U, t: seq<U>, m: nat, leaf: nat, node: nat)
  {
    |t| == 2 * m
    && forall k :: 1 <= k < m && !(Desc(k, leaf) && k <= node) ==> Combines(op, t, k)
  }

  /** Writing a leaf leaves only the leaf's ancestors to recompute. */
  lemma UpdateLeaf<U>(op: (U, U) -> U, t: seq<U>, m: nat, leaf: nat, v: U)
    requires Consistent(op, t, m) && m <= leaf < 2 * m
    ensures leaf / 2 < m && Desc(leaf / 2, leaf)
    ensures ConsistentExcept(op, t[leaf := v], m, leaf, leaf / 2)
  {
    var t' := t[leaf := v];
    assert Desc(leaf / 2, leaf);
    forall k | 1 <= k < m && !(Desc(k, leaf) && k <= leaf / 2)
      ensures Combines(op, t', k)
    {
      assert Combines(op, t, k);
      assert 2 * k != leaf && 2 * k + 1 != leaf;
    }
  }

  /** An ancestor of leaf below node (a smaller index) is at or above
      node's parent. */
  lemma AncestorAbove(k: nat, node: nat, leaf: nat)
    requires node >= 1 && Desc(node, leaf)
    ensures Desc(k, leaf) && k < node ==> k <= node / 2
  {
    if Desc(k, leaf) && k < node {
      DescChain(k, node, leaf);
      DescLe(k, node / 2);
    }
  }

  /** Position j is the same in t and t' unless it is an ancestor of leaf
      (the leaf itself included). */
  ghost predicate PathKeptAt<U>(t: seq<U>, t': seq<U>, leaf: nat, j: int)
    requires 0 <= j < |t| == |t'|
  {
    Desc(j, leaf) || t'[j] == t[j]
  }

  /** t' differs from t at most on the path from leaf up to the root. */
  ghost predicate SameOffPath<U>(t: seq<U>, t': seq<U>, leaf: nat)
  {
    |t'| == |t| && forall j :: 0 <= j < |t| ==> PathKeptAt(t, t', leaf, j)
  }

  /** Writing at an ancestor of leaf keeps the rest off the path. */
  lemma PathWrite<U>(t0: seq<U>, t: seq<U>, leaf: nat, node: nat, v: U)
    requires SameOffPath(t0, t, leaf) && 0 <= node < |t| && Desc(node, leaf)
    ensures SameOffPath(t0, t[node := v], leaf)
  {
    var t' := t[node := v];
    forall j | 0 <= j < |t0|
      ensures PathKeptAt(t0, t', leaf, j)
    {
      assert PathKeptAt(t0, t, leaf, j);
    }
  }

  /** One turn of update's loop: recomputing node leaves only the
      ancestors above it. */
  lemma UpdateAncestor<U>(op: (U, U) -> U, t: seq<U>, m: nat, leaf: nat, node: nat)
    requires ConsistentExcept(op, t, m, leaf, node) && 1 <= node < m && Desc(node, leaf)
    ensures node / 2 >= 1 ==> Desc(node / 2, leaf)
    ensures ConsistentExcept(op, t[node := op(t[2 * node], t[2 * node + 1])], m, leaf, node / 2)
  {
    var t' := t[node := op(t[2 * node], t[2 * node + 1])];
    if node >= 2 {
      DescParent(node, leaf);
    }
    forall k | 1 <= k < m && !(Desc(k, leaf) && k <= node / 2)
      ensures Combines(op, t', k)
    {
      AncestorAbove(k, node, leaf);
      if k != node {
        assert Combines(op, t, k);
      }
    }
  }

  /** Node j, if it lies in the subtree rooted at node, is built: a leaf
      holds its datum, an internal node op of its children. */
  ghost predicate BuiltAt<U>(op: (U, U) -> U, t: seq<U>, data: seq<U>, m: nat, node: nat, j: int)
    requires |t| == 2 * m && |data| == m && 1 <= j < 2 * m
  {
    Desc(node, j) ==> if j >= m then t[j] == data[j - m] else Combines(op, t, j)
  }

  /** The subtree rooted at node is built. */
  ghost predicate Built<U>(op: (U, U) -> U, t: seq<U>, data: seq<U>, m: nat, node: nat)
  {
    |t| == 2 * m && |data| == m && forall j :: 1 <= j < 2 * m ==> BuiltAt(op, t, data, m, node, j)
  }

  /** Index j is inside the subtree rooted at node, or unchanged. */
  ghost predicate KeptAt<U>(t: seq<U>, t': seq<U>, node: nat, j: int)
    requires 0 <= j < |t| == |t'|
  {
    Desc(node, j) || t'[j] == t[j]
  }

  /** t' differs from t only inside the subtree rooted at node. */
  ghost predicate SameOutside<U>(t: seq<U>, t': seq<U>, node: nat)
  {
    |t'| == |t| && forall j :: 0 <= j < |t| ==> KeptAt(t, t', node, j)
  }

  /** A leaf's subtree is the leaf alone. */
  lemma LeafAlone(m: nat, node: nat, j: nat)
    requires m <= node && j < 2 * m
    ensures Desc(node, j) <==> j == node
  {
    DescLe(node, j / 2);
  }

  lemma PopulateLeaf<U>(op: (U, U) -> U, t: seq<U>, data: seq<U>, m: nat, node: nat)
    requires |t| == 2 * m && |data| == m && m <= node < 2 * m
    ensures Built(op, t[node := data[node - m]], data, m, node)
    ensures SameOutside(t, t[node := data[node - m]], node)
  {
    var t' := t[node := data[node - m]];
    forall j | 1 <= j < 2 * m
      ensures BuiltAt(op, t', data, m, node, j)
    {
      LeafAlone(m, node, j);
    }
    forall j | 0 <= j < 2 * m
      ensures KeptAt(t, t', node, j)
    {
      LeafAlone(m, node, j);
    }
  }

  /** A built subtree stays built in a tree that agrees with it there. */
  lemma BuiltKeep<U>(op: (U, U) -> U, t: seq<U>, t': seq<U>, data: seq<U>, m: nat, c: nat)
    requires Built(op, t, data, m, c) && |t'| == 2 * m
    requires forall j :: 0 <= j < 2 * m && Desc(c, j) ==> t'[j] == t[j]
    ensures Built(op, t', data, m, c)
  {
    forall j | 1 <= j < 2 * m
      ensures BuiltAt(op, t', data, m, c, j)
    {
      assert BuiltAt(op, t, data, m, c, j);
      if j < m && Desc(c, j) {
        assert (2 * j) / 2 == j && (2 * j + 1) / 2 == j;
        assert Desc(c, 2 * j) && Desc(c, 2 * j + 1);
      }
    }
  }

  /** The subtree of node k splits into k and its children's disjoint
      subtrees, all of larger index. */
  lemma SubtreeParts(k: nat, j: nat)
    requires k >= 1
    ensures Desc(k, j) <==> j == k || Desc(2 * k, j) || Desc(2 * k + 1, j)
    ensures !(Desc(2 * k, j) && Desc(2 * k + 1, j))
    ensures Desc(2 * k, j) || Desc(2 * k + 1, j) ==> j > k
  {
    DescSplit(k, j);
    DescDisjoint(k, j);
    DescLe(2 * k, j);
    DescLe(2 * k + 1, j);
  }

  /** Filling both children's subtrees in turn and then node itself
      changes only node's subtree, and each child's subtree keeps what its
      own filling stored. */
  lemma InternalFrames<U>(t0: seq<U>, t1: seq<U>, t2: seq<U>, t3: seq<U>, node: nat)
    requires 1 <= node < |t0| == |t3|
    requires SameOutside(t0, t1, 2 * node) && SameOutside(t1, t2, 2 * node + 1)
    requires t3 == t2[node := t3[node]]
    ensures SameOutside(t0, t3, node)
    ensures forall j :: 0 <= j < |t3| && Desc(2 * node, j) ==> t3[j] == t1[j]
    ensures forall j :: 0 <= j < |t3| && Desc(2 * node + 1, j) ==> t3[j] == t2[j]
  {
    forall j | 0 <= j < |t3|
      ensures KeptAt(t0, t3, node, j)
      ensures Desc(2 * node, j) ==> t3[j] == t1[j]
      ensures Desc(2 * node + 1, j) ==> t3[j] == t2[j]
    {
      SubtreeParts(node, j);
      assert KeptAt(t0, t1, 2 * node, j) && KeptAt(t1, t2, 2 * node + 1, j);
    }
  }

  /** populateStree at an internal node: once both children's subtrees are
      built in turn, storing op of the children builds node's subtree. */
  lemma PopulateInternal<U>(op: (U, U) -> U, t0: seq<U>, t1: seq<U>, t2: seq<U>,
                            data: seq<U>, m: nat, node: nat)
    requires 1 <= node < m && |t0| == 2 * m
    requires Built(op, t1, data, m, 2 * node) && SameOutside(t0, t1, 2 * node)
    requires Built(op, t2, data, m, 2 * node + 1) && SameOutside(t1, t2, 2 * node + 1)
    ensures Built(op, t2[node := op(t2[2 * node], t2[2 * node + 1])], data, m, node)
    ensures SameOutside(t0, t2[node := op(t2[2 * node], t2[2 * node + 1])], node)
  {
    var t3 := t2[node := op(t2[2 * node], t2[2 * node + 1])];
    InternalFrames(t0, t1, t2, t3, node);
    BuiltKeep(op, t1, t3, data, m, 2 * node);
    BuiltKeep(op, t2, t3, data, m, 2 * node + 1);
    forall j | 1 <= j < 2 * m
      ensures BuiltAt(op, t3, data, m, node, j)
    {
      SubtreeParts(node, j);
      assert BuiltAt(op, t3, data, m, 2 * node, j) && BuiltAt(op, t3, data, m, 2 * node + 1, j);
    }
  }

  /** Every node lies in the root's subtree. */
  lemma {:induction false} UnderRoot(j: nat)
    requires j >= 1
    ensures Desc(1, j)
    decreases j
  {
    if j > 1 {
      UnderRoot(j / 2);
    }
  }

  /** A fully built tree is consistent and its leaves are the data. */
  lemma BuiltRoot<U>(op: (U, U) -> U, t: seq<U>, data: seq<U>, m: nat)
    requires Built(op, t, data, m, 1)
    ensures Consistent(op, t, m) && t[m..] == data
  {
    forall k | 1 <= k < m
      ensures Combines(op, t, k)
    {
      UnderRoot(k);
      assert BuiltAt(op, t, data, m, 1, k);
    }
    forall i | 0 <= i < m
      ensures t[m..][i] == data[i]
    {
      UnderRoot(m + i);
      assert BuiltAt(op, t, data, m, 1, m + i);
    }
  }

  /** The nodes of the subtree rooted at node hold their own segment. */
  /** Internal node k's stored range is its segment. */
  ghost predicate RangeAt(s: seq<(int, int)>, m: nat, k: int)
  {
    1 <= k < m == |s| && s[k] == (Lo(m, k), Hi(m, k))
  }

  /** Every internal node's stored range is its segment. */
  ghost predicate RangesStored(s: seq<(int, int)>, m: nat)
  {
    |s| == m && forall k :: 1 <= k < m ==> RangeAt(s, m, k)
  }

  ghost predicate SegmentsBuilt(s: seq<(int, int)>, m: nat, node: nat)
  {
    |s| == m && forall j :: 1 <= j < m ==> SegmentAt(s, m, node, j)
  }

  /** Node j, if it lies in the subtree rooted at node, holds its range. */
  ghost predicate SegmentAt(s: seq<(int, int)>, m: nat, node: nat, j: int)
    requires |s| == m && 1 <= j < m
  {
    Desc(node, j) ==> s[j] == (Lo(m, j), Hi(m, j))
  }

  /** populateIdxToSegment at an internal node, after both children. */
  lemma SegmentsInternal(s0: seq<(int, int)>, s1: seq<(int, int)>, s2: seq<(int, int)>, m: nat, node: nat)
    requires 1 <= node < m && |s0| == m
    requires SegmentsBuilt(s1, m, 2 * node) && SameOutside(s0, s1, 2 * node)
    requires SegmentsBuilt(s2, m, 2 * node + 1) && SameOutside(s1, s2, 2 * node + 1)
    ensures SegmentsBuilt(s2[node := (Lo(m, node), Hi(m, node))], m, node)
    ensures SameOutside(s0, s2[node := (Lo(m, node), Hi(m, node))], node)
  {
    var s3 := s2[node := (Lo(m, node), Hi(m, node))];
    InternalFrames(s0, s1, s2, s3, node);
    forall j | 1 <= j < m
      ensures SegmentAt(s3, m, node, j)
    {
      SubtreeParts(node, j);
      assert SegmentAt(s1, m, 2 * node, j) && SegmentAt(s2, m, 2 * node + 1, j);
    }
  }

  /** A leaf's call of populateIdxToSegment stores nothing. */
  lemma SegmentsLeaf(s: seq<(int, int)>, m: nat, node: nat)
    requires |s| == m && m <= node < 2 * m
    ensures SegmentsBuilt(s, m, node)
  {
    forall j | 1 <= j < m
      ensures SegmentAt(s, m, node, j)
    {
      DescLe(node, j);
    }
  }

  /** Once the root's call returns, every internal node holds its range. */
  lemma SegmentsRoot(s: seq<(int, int)>, m: nat)
    requires SegmentsBuilt(s, m, 1)
    ensures RangesStored(s, m)
  {
    forall k | 1 <= k < m
      ensures RangeAt(s, m, k)
    {
      UnderRoot(k);
      assert SegmentAt(s, m, 1, k);
    }
  }
}
