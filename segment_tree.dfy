/** trees/segment_tree.hh: a segment tree over a data array, stored as an
    array of 2m values (m the smallest power of two at least the data
    length), answering folds of an associative operation over index ranges
    and updating single elements. */
module SegmentTree {
  import opened SegmentLayout

  class SegmentTree<T(0, !new)> {
    /** n_: the number of entries of the input data. */
    const n: nat
    /** m_: the number of leaves. */
    const m: nat
    /** data_: the input data, padded with T() up to length m. */
    const data: seq<T>
    /** stree_: node k at index k, the root at 1, leaves at m .. 2m-1. */
    const stree: array<T>
    /** idxToSegment_: the data range [left, right] of each internal node. */
    const idxToSegment: array<(int, int)>
    /** binOp_: the client's associative operation. */
    const binOp: (T, T) -> T

    ghost predicate Valid()
      reads this, stree, idxToSegment
    {
      && IsPow2(m) && n <= m && |data| == m
      && stree.Length == 2 * m && idxToSegment.Length == m
      && Associative(binOp)
      && RangesStored(idxToSegment[..], m)
      && Consistent(binOp, stree[..], m)
    }

    /** The current data: the values at the leaves. */
    ghost function Leaves(): seq<T>
      reads this, stree
      requires stree.Length == 2 * m
    {
      stree[m..]
    }

    /** SegmentTree(data, binOp): m_ doubles from 1 until it reaches n_,
        the data is padded with zero (the value-initialised T() of the
        source) and both arrays are populated from the root. */
    constructor(data: seq<T>, binOp: (T, T) -> T, zero: T)
      requires Associative(binOp)
      ensures Valid() && fresh(stree) && fresh(idxToSegment)
      ensures n == |data| && n <= m && (m == 1 || m / 2 < n) && this.binOp == binOp
      ensures Leaves() == data + seq(m - n, _ => zero)
    {
      var size := 1;
      while size < |data|
        invariant IsPow2(size) && (size == 1 || size / 2 < |data|)
        decreases |data| - size
      {
        assert (2 * size) / 2 == size;
        size := 2 * size;
      }
      n := |data|;
      m := size;
      this.data := data + seq(size - |data|, _ => zero);
      stree := new T[2 * size];
      idxToSegment := new (int, int)[size];
      this.binOp := binOp;
      new;
      var _ := PopulateStree(1);
      BuiltRoot(binOp, stree[..], this.data, m);
      var _ := PopulateIdxToSegment(1);
      SegmentsRoot(idxToSegment[..], m);
    }

    /** update(idx, newVal): store the value at leaf idx, then recompute
        each ancestor from its children, walking up to the root. */
    method Update(idx: int, newVal: T)
      requires Valid() && 0 <= idx < m
      modifies stree
      ensures Valid()
      ensures Leaves() == old(Leaves())[idx := newVal]
      ensures SameOffPath(old(stree[..]), stree[..], m + idx)
    {
      ghost var leaf := m + idx;
      var node := m + idx;
      UpdateLeaf(binOp, stree[..], m, leaf, newVal);
      PathWrite(stree[..], stree[..], leaf, node, newVal);
      stree[node] := newVal;
      node := node / 2;
      while node >= 1
        invariant 0 <= node < m && (node >= 1 ==> Desc(node, leaf))
        invariant ConsistentExcept(binOp, stree[..], m, leaf, node)
        invariant stree[m..] == old(stree[..])[leaf := newVal][m..]
        invariant SameOffPath(old(stree[..]), stree[..], leaf)
      {
        UpdateAncestor(binOp, stree[..], m, leaf, node);
        PathWrite(old(stree[..]), stree[..], leaf, node, binOp(stree[2 * node], stree[2 * node + 1]));
        stree[node] := binOp(stree[2 * node], stree[2 * node + 1]);
        node := node / 2;
      }
      assert Leaves() == old(Leaves())[idx := newVal];
    }

    /** query(left, right): op folded over data[left..right], both ends
        included. The source does not check the range; outside
        0 <= left <= right < m the recursion runs past the leaves. */
    method Query(left: int, right: int) returns (r: T)
      requires Valid() && 0 <= left <= right < m
      ensures r == FoldRange(binOp, Leaves(), left, right + 1)
    {
      RootSegment(m);
      r := QueryNode(1, left, right);
    }

    /** query(node, qLeft, qRight): the same fold, for a range inside the
        segment of node: the stored value when the range is the whole
        segment, else the part in each child that the range meets. */
    method QueryNode(node: nat, qLeft: int, qRight: int) returns (r: T)
      requires Valid() && 1 <= node < 2 * m && Lo(m, node) <= qLeft <= qRight <= Hi(m, node)
      ensures r == FoldRange(binOp, Leaves(), qLeft, qRight + 1)
      decreases 2 * m - node
    {
      var segment := Segment(node);
      if qLeft == segment.0 && qRight == segment.1 {
        ConsistentFold(binOp, stree[..], m, node);
        assert stree[..][m..] == Leaves();
        return stree[node];
      }
      Children(m, node);
      var leftRight := Segment(2 * node).1;
      var rightLeft := Segment(2 * node + 1).0;
      if qRight <= leftRight {
        r := QueryNode(2 * node, qLeft, qRight);
      } else if qLeft >= rightLeft {
        r := QueryNode(2 * node + 1, qLeft, qRight);
      } else {
        var leftPart := QueryNode(2 * node, qLeft, leftRight);
        var rightPart := QueryNode(2 * node + 1, rightLeft, qRight);
        FoldSplit(binOp, Leaves(), qLeft, rightLeft, qRight + 1);
        r := binOp(leftPart, rightPart);
      }
    }

    /** segment(node): a leaf's own index, or the stored range. */
    function Segment(node: nat): (r: (int, int))
      reads this, stree, idxToSegment
      requires Valid() && 1 <= node < 2 * m
      ensures r == (Lo(m, node), Hi(m, node))
    {
      if node >= m then (node - m, node - m)
      else
        assert RangeAt(idxToSegment[..], m, node);
        idxToSegment[node]
    }

    /** populateStree(node): fill the subtree rooted at node from data_ and
        return the value stored at node. */
    method PopulateStree(node: nat) returns (r: T)
      requires 1 <= node < 2 * m && stree.Length == 2 * m && |data| == m
      modifies stree
      ensures r == stree[node]
      ensures Built(binOp, stree[..], data, m, node)
      ensures SameOutside(old(stree[..]), stree[..], node)
      decreases 2 * m - node
    {
      if node >= m {
        PopulateLeaf(binOp, stree[..], data, m, node);
        stree[node] := data[node - m];
        return stree[node];
      }
      ghost var t0 := stree[..];
      var left := PopulateStree(2 * node);
      ghost var t1 := stree[..];
      var right := PopulateStree(2 * node + 1);
      ghost var t2 := stree[..];
      assert KeptAt(t1, t2, 2 * node + 1, 2 * node);
      PopulateInternal(binOp, t0, t1, t2, data, m, node);
      stree[node] := binOp(left, right);
      assert stree[..] == t2[node := binOp(t2[2 * node], t2[2 * node + 1])];
      return stree[node];
    }

    /** populateIdxToSegment(node): store the range of every internal node
        of the subtree rooted at node, and return node's range. */
    method PopulateIdxToSegment(node: nat) returns (r: (int, int))
      requires IsPow2(m) && 1 <= node < 2 * m && idxToSegment.Length == m
      modifies idxToSegment
      ensures r == (Lo(m, node), Hi(m, node))
      ensures SegmentsBuilt(idxToSegment[..], m, node)
      ensures SameOutside(old(idxToSegment[..]), idxToSegment[..], node)
      decreases 2 * m - node
    {
      if node >= m {
        SegmentsLeaf(idxToSegment[..], m, node);
        return (node - m, node - m);
      }
      ghost var s0 := idxToSegment[..];
      var leftSegment := PopulateIdxToSegment(2 * node);
      ghost var s1 := idxToSegment[..];
      var rightSegment := PopulateIdxToSegment(2 * node + 1);
      SegmentsInternal(s0, s1, idxToSegment[..], m, node);
      idxToSegment[node] := (leftSegment.0, rightSegment.1);
      return idxToSegment[node];
    }
  }

  /** The eight leaves for five data values: m is 8. */
  lemma EightLeaves(m: nat)
    requires IsPow2(m) && 5 <= m && m / 2 < 5
    ensures m == 8
  {
    if m < 8 {
      Pow2Between(4, m);
    } else {
      Pow2Between(8, m);
    }
  }

  /** add is integer addition. */
  ghost predicate IsAddition(add: (int, int) -> int)
  {
    forall x, y :: add(x, y) == x + y
  }

  /** Folding integer addition over the first four or five of five known
      values. */
  lemma SumPrefix(add: (int, int) -> int, s: seq<int>, a: int, b: int, c: int, d: int, e: int)
    requires IsAddition(add)
    requires |s| >= 5 && s[0] == a && s[1] == b && s[2] == c && s[3] == d && s[4] == e
    ensures FoldRange(add, s, 0, 4) == a + b + c + d
    ensures FoldRange(add, s, 0, 5) == a + b + c + d + e
  {
    assert FoldRange(add, s, 0, 2) == a + b;
    assert FoldRange(add, s, 0, 3) == a + b + c;
  }

  /** The scenario of trees/segment_tree_test.cc with integer addition:
      the data {3, 1, 0, 7, 9} sums to 11 over [0, 3], and to 16 once
      element 2 is 5. */
  method BasicScenario() returns (first: int, second: int, third: int)
    ensures first == 11 && second == 16 && third == 34
  {
    var add := (x: int, y: int) => x + y;
    assert Associative(add) by {
      forall x: int, y: int, z: int ensures AssocAt(add, x, y, z) { }
    }
    assert IsAddition(add);
    var tree := new SegmentTree([3, 1, 0, 7, 9], add, 0);
    EightLeaves(tree.m);
    ghost var leaves := tree.Leaves();
    assert leaves[..5] == [3, 1, 0, 7, 9];
    assert leaves[0] == 3 && leaves[1] == 1 && leaves[2] == 0 && leaves[3] == 7 && leaves[4] == 9 by {
      assert leaves[..5][0] == 3 && leaves[..5][1] == 1 && leaves[..5][2] == 0;
      assert leaves[..5][3] == 7 && leaves[..5][4] == 9;
    }
    SumPrefix(add, leaves, 3, 1, 0, 7, 9);
    first := tree.Query(0, 3);
    tree.Update(2, 5);
    leaves := tree.Leaves();
    SumPrefix(add, leaves, 3, 1, 5, 7, 9);
    second := tree.Query(0, 3);
    third := BasicScenarioEnd(tree);
  }

  /** The rest of the scenario: with data {3, 1, 5, 7, 9}, element 4 set
      to 14 and element 0 to 6 and then 7, the sum over [0, 4] is 34. */
  method BasicScenarioEnd(tree: SegmentTree<int>) returns (third: int)
    requires tree.Valid() && IsAddition(tree.binOp) && tree.m >= 5
    requires tree.Leaves()[1] == 1 && tree.Leaves()[2] == 5 && tree.Leaves()[3] == 7
    modifies tree.stree
    ensures third == 34
  {
    ghost var leaves := tree.Leaves();
    tree.Update(4, 14);
    tree.Update(0, 6);
    tree.Update(0, 7);
    assert tree.Leaves() == leaves[4 := 14][0 := 6][0 := 7];
    leaves := tree.Leaves();
    SumPrefix(tree.binOp, leaves, 7, 1, 5, 7, 14);
    third := tree.Query(0, 4);
  }
}
