/** trees/segment_tree.py: the same segment tree as trees/segment_tree.hh,
    with Python's conventions. The leaf count is computed with bit_length,
    the data is padded with None rather than a default value, and the
    client's operation is wrapped so that None acts as its identity. */
module SegmentTreePy {
  import opened Common
  import opened SegmentLayout
  import SegmentTree
  import PyInt

  /** int.bit_length(): the number of binary digits of |x|, 0 for 0. */
  function BitLength(x: int): (r: nat)
    decreases if x < 0 then -x else x
  {
    if x == 0 then 0 else 1 + BitLength((if x < 0 then -x else x) / 2)
  }

  /** 1 << (n - 1).bit_length(): the number of leaves for n data values. */
  function LeafCount(n: nat): nat
  {
    PyInt.Pow2(BitLength(n - 1))
  }

  /** Below 2^BitLength(x), and (for x >= 1) at least half of it. */
  lemma {:induction false} BitLengthBounds(x: nat)
    ensures x < PyInt.Pow2(BitLength(x))
    ensures x >= 1 ==> PyInt.Pow2(BitLength(x)) / 2 <= x
  {
    if x > 0 {
      BitLengthBounds(x / 2);
    }
  }

  /** For n >= 1 the leaf count is the smallest power of two at least n;
      an empty list still gets two leaves, since (-1).bit_length() is 1. */
  lemma LeafCountMin(n: nat)
    ensures IsPow2(LeafCount(n))
    ensures n >= 1 ==> n <= LeafCount(n) && (LeafCount(n) == 1 || LeafCount(n) / 2 < n)
    ensures n == 0 ==> LeafCount(n) == 2
  {
    Pow2IsPow2(BitLength(n - 1));
    if n >= 1 {
      BitLengthBounds(n - 1);
    }
  }

  /** wrapped_bin_op: None is returned past, otherwise op is applied. */
  function Wrap<T>(op: (T, T) -> T, x: Option<T>, y: Option<T>): (r: Option<T>)
    ensures x.None? ==> r == y
    ensures x.Some? && y.None? ==> r == x
    ensures x.Some? && y.Some? ==> r == Some(op(x.value, y.value))
  {
    if x.None? then y
    else if y.None? then x
    else Some(op(x.value, y.value))
  }

  /** The wrapped operation as a value, as stored in self.bin_op. */
  function Wrapped<T>(op: (T, T) -> T): (T2: (Option<T>, Option<T>) -> Option<T>)
  {
    (x: Option<T>, y: Option<T>) => Wrap(op, x, y)
  }

  /** Wrapping keeps an associative operation associative. */
  lemma WrapAssociative<T(!new)>(op: (T, T) -> T)
    requires Associative(op)
    ensures Associative(Wrapped(op))
  {
    var w := Wrapped(op);
    forall x: Option<T>, y: Option<T>, z: Option<T> ensures AssocAt(w, x, y, z) {
      if x.Some? && y.Some? && z.Some? {
        assert AssocAt(op, x.value, y.value, z.value);
      }
    }
  }

  /** Position i of s holds Some(data[i]). */
  ghost predicate SomeAt<T>(s: seq<Option<T>>, data: seq<T>, i: int)
    requires 0 <= i < |s| && i < |data|
  {
    s[i] == Some(data[i])
  }

  /** Over a range where the leaves hold the data, the wrapped fold is the
      client's fold of the data. */
  lemma {:induction false} WrappedFold<T>(op: (T, T) -> T, s: seq<Option<T>>, data: seq<T>, lo: int, hi: int)
    requires 0 <= lo < hi <= |s| && hi <= |data|
    requires forall i :: lo <= i < hi ==> SomeAt(s, data, i)
    ensures FoldRange(Wrapped(op), s, lo, hi) == Some(FoldRange(op, data, lo, hi))
    decreases hi - lo
  {
    assert SomeAt(s, data, hi - 1);
    if hi - lo > 1 {
      WrappedFold(op, s, data, lo, hi - 1);
    }
  }

  /** Leaf i holds data[i], or None past the end of the data. */
  ghost predicate LeafAt<T>(leaves: seq<Option<T>>, data: seq<T>, i: int)
    requires 0 <= i < |leaves|
  {
    leaves[i] == if i < |data| then Some(data[i]) else None
  }

  /** The leaves are data padded with None. */
  ghost predicate PaddedFrom<T>(leaves: seq<Option<T>>, data: seq<T>)
  {
    |data| <= |leaves| && forall i :: 0 <= i < |leaves| ==> LeafAt(leaves, data, i)
  }

  /** Setting a leaf inside the data sets that datum. */
  lemma PaddedWrite<T>(leaves: seq<Option<T>>, data: seq<T>, idx: int, v: T)
    requires PaddedFrom(leaves, data) && 0 <= idx < |data|
    ensures PaddedFrom(leaves[idx := Some(v)], data[idx := v])
  {
    var leaves', data' := leaves[idx := Some(v)], data[idx := v];
    forall i | 0 <= i < |leaves'|
      ensures LeafAt(leaves', data', i)
    {
      assert LeafAt(leaves, data, i);
    }
  }

  class SegmentTreePy<T(!new)> {
    /** self.n: the length of the data. */
    const n: nat
    /** self.m: the number of leaves. */
    const m: nat
    /** self.stree: node k at index k, the root at 1, leaves at m .. 2m-1. */
    const stree: array<Option<T>>
    /** self.idx_to_segment: the data range of each internal node. */
    const idxToSegment: array<(int, int)>
    /** The operation given to the constructor. */
    ghost const clientOp: (T, T) -> T
    /** self.bin_op: the wrapped operation. */
    const binOp: (Option<T>, Option<T>) -> Option<T>

    ghost predicate Valid()
      reads this, stree, idxToSegment
    {
      && IsPow2(m) && stree.Length == 2 * m && idxToSegment.Length == m
      && binOp == Wrapped(clientOp) && Associative(binOp)
      && RangesStored(idxToSegment[..], m)
      && Consistent(binOp, stree[..], m)
    }

    /** The current (padded) data: the values at the leaves. */
    ghost function Leaves(): seq<Option<T>>
      reads this, stree
      requires stree.Length == 2 * m
    {
      stree[m..]
    }

    /** __init__(data, bin_op): the leaf count from bit_length, the data
        padded with None, the operation wrapped, both arrays populated
        from the root. */
    constructor(data: seq<T>, binOp: (T, T) -> T)
      requires Associative(binOp)
      ensures Valid() && fresh(stree) && fresh(idxToSegment)
      ensures n == |data| && m == LeafCount(n) && clientOp == binOp
      ensures PaddedFrom(Leaves(), data)
    {
      LeafCountMin(|data|);
      var size := LeafCount(|data|);
      n := |data|;
      m := size;
      var padded := seq(|data|, i requires 0 <= i < |data| => Some(data[i])) + seq(size - |data|, _ => None);
      stree := new Option<T>[2 * size];
      idxToSegment := new (int, int)[size];
      clientOp := binOp;
      this.binOp := Wrapped(binOp);
      new;
      WrapAssociative(binOp);
      var _ := PopulateStree(1, padded);
      BuiltRoot(this.binOp, stree[..], padded, m);
      var _ := PopulateIdxToSegment(1);
      SegmentsRoot(idxToSegment[..], m);
      forall i | 0 <= i < m
        ensures LeafAt(Leaves(), data, i)
      {
        assert Leaves()[i] == padded[i];
      }
    }

    /** query(qleft, qright): the wrapped fold over the leaves qleft ..
        qright, both ends included. The source does not check the range. */
    method Query(qLeft: int, qRight: int) returns (r: Option<T>)
      requires Valid() && 0 <= qLeft <= qRight < m
      ensures r == FoldRange(binOp, Leaves(), qLeft, qRight + 1)
    {
      RootSegment(m);
      r := QueryWrapper(1, qLeft, qRight);
    }

    /** Over the original data, a query is the client's fold. */
    lemma QueryData(data: seq<T>, qLeft: int, qRight: int)
      requires Valid() && 0 <= qLeft <= qRight < m && qRight < |data|
      requires PaddedFrom(Leaves(), data)
      ensures FoldRange(binOp, Leaves(), qLeft, qRight + 1) == Some(FoldRange(clientOp, data, qLeft, qRight + 1))
    {
      forall i | qLeft <= i < qRight + 1
        ensures SomeAt(Leaves(), data, i)
      {
        assert LeafAt(Leaves(), data, i);
      }
      WrappedFold(clientOp, Leaves(), data, qLeft, qRight + 1);
    }

    /** populate_stree(node, data): fill the subtree rooted at node and
        return the value stored at node. */
    method PopulateStree(node: nat, data: seq<Option<T>>) returns (r: Option<T>)
      requires 1 <= node < 2 * m && stree.Length == 2 * m && |data| == m
      modifies stree
      ensures r == stree[node]
      ensures Built(binOp, stree[..], data, m, node)
      ensures SameOutside(old(stree[..]), stree[..], node)
      decreases 2 * m - node
    {
      if node >= m {
        PopulateLeaf(binOp, stree[..], data, m, node);
        stree[node] := data[node - m];
        return stree[node];
      }
      ghost var t0 := stree[..];
      var leftVal := PopulateStree(2 * node, data);
      ghost var t1 := stree[..];
      var rightVal := PopulateStree(2 * node + 1, data);
      ghost var t2 := stree[..];
      assert KeptAt(t1, t2, 2 * node + 1, 2 * node);
      PopulateInternal(binOp, t0, t1, t2, data, m, node);
      stree[node] := binOp(leftVal, rightVal);
      assert stree[..] == t2[node := binOp(t2[2 * node], t2[2 * node + 1])];
      return stree[node];
    }

    /** populate_idx_to_segment(node): each internal node's segment is the
        union of its children's; returns node's segment. */
    method PopulateIdxToSegment(node: nat) returns (r: (int, int))
      requires IsPow2(m) && 1 <= node < 2 * m && idxToSegment.Length == m
      modifies idxToSegment
      ensures r == (Lo(m, node), Hi(m, node))
      ensures SegmentsBuilt(idxToSegment[..], m, node)
      ensures SameOutside(old(idxToSegment[..]), idxToSegment[..], node)
      decreases 2 * m - node
    {
      if node >= m {
        SegmentsLeaf(idxToSegment[..], m, node);
        return (node - m, node - m);
      }
      ghost var s0 := idxToSegment[..];
      var leftSegment := PopulateIdxToSegment(2 * node);
      ghost var s1 := idxToSegment[..];
      var rightSegment := PopulateIdxToSegment(2 * node + 1);
      SegmentsInternal(s0, s1, idxToSegment[..], m, node);
      idxToSegment[node] := (leftSegment.0, rightSegment.1);
      return idxToSegment[node];
    }

    /** query_wrapper(node, qleft, qright): the stored value when the range
        is node's whole segment, else the parts in the children it meets. */
    method QueryWrapper(node: nat, qLeft: int, qRight: int) returns (r: Option<T>)
      requires Valid() && 1 <= node < 2 * m && Lo(m, node) <= qLeft <= qRight <= Hi(m, node)
      ensures r == FoldRange(binOp, Leaves(), qLeft, qRight + 1)
      decreases 2 * m - node
    {
      var segment := Segment(node);
      if qLeft == segment.0 && qRight == segment.1 {
        ConsistentFold(binOp, stree[..], m, node);
        assert stree[..][m..] == Leaves();
        return stree[node];
      }
      Children(m, node);
      var leftRight := Segment(2 * node).1;
      var rightLeft := Segment(2 * node + 1).0;
      if qRight <= leftRight {
        r := QueryWrapper(2 * node, qLeft, qRight);
      } else if qLeft >= rightLeft {
        r := QueryWrapper(2 * node + 1, qLeft, qRight);
      } else {
        var resultLeft := QueryWrapper(2 * node, qLeft, leftRight);
        var resultRight := QueryWrapper(2 * node + 1, rightLeft, qRight);
        FoldSplit(binOp, Leaves(), qLeft, rightLeft, qRight + 1);
        r := binOp(resultLeft, resultRight);
      }
    }

    /** update(idx, value): store the value at leaf idx, recompute each
        ancestor from its children up to the root, and return the value. */
    method Update(idx: int, value: T) returns (r: T)
      requires Valid() && 0 <= idx < m
      modifies stree
      ensures Valid() && r == value
      ensures Leaves() == old(Leaves())[idx := Some(value)]
      ensures SameOffPath(old(stree[..]), stree[..], m + idx)
    {
      ghost var leaf := m + idx;
      var node := idx + m;
      UpdateLeaf(binOp, stree[..], m, leaf, Some(value));
      PathWrite(stree[..], stree[..], leaf, node, Some(value));
      stree[node] := Some(value);
      node := node / 2;
      while node >= 1
        invariant 0 <= node < m && (node >= 1 ==> Desc(node, leaf))
        invariant ConsistentExcept(binOp, stree[..], m, leaf, node)
        invariant stree[m..] == old(stree[..])[leaf := Some(value)][m..]
        invariant SameOffPath(old(stree[..]), stree[..], leaf)
      {
        UpdateAncestor(binOp, stree[..], m, leaf, node);
        PathWrite(old(stree[..]), stree[..], leaf, node, binOp(stree[2 * node], stree[2 * node + 1]));
        stree[node] := binOp(stree[2 * node], stree[2 * node + 1]);
        node := node / 2;
      }
      assert Leaves() == old(Leaves())[idx := Some(value)];
      return value;
    }

    /** segment(node): a leaf's own index, or the stored range. */
    function Segment(node: nat): (r: (int, int))
      reads this, stree, idxToSegment
      requires Valid() && 1 <= node < 2 * m
      ensures r == (Lo(m, node), Hi(m, node))
    {
      if node >= m then (node - m, node - m)
      else
        assert RangeAt(idxToSegment[..], m, node);
        idxToSegment[node]
    }
  }

  /** The fold of integer addition over two to five known values. */
  lemma SumRanges(add: (int, int) -> int, s: seq<int>, a: int, b: int, c: int, d: int, e: int)
    requires SegmentTree.IsAddition(add)
    requires |s| >= 5 && s[0] == a && s[1] == b && s[2] == c && s[3] == d && s[4] == e
    ensures FoldRange(add, s, 0, 4) == a + b + c + d
    ensures FoldRange(add, s, 0, 5) == a + b + c + d + e
    ensures FoldRange(add, s, 3, 5) == d + e
  {
    assert FoldRange(add, s, 0, 2) == a + b;
    assert FoldRange(add, s, 0, 3) == a + b + c;
  }

  /** The scenario of trees/segment_tree_test.py: the data [1, 4, 7, 11, 20]
      sums to 23 over [0, 3]; after setting elements 0 and 2 to 5 and 6 it
      sums to 26; after setting elements 2 and 4 to 7 and 30 it sums to 41
      over [3, 4] and to 57 over [0, 4]. */
  method BasicScenario() returns (first: Option<int>, second: Option<int>, third: Option<int>, fourth: Option<int>)
    ensures first == Some(23) && second == Some(26) && third == Some(41) && fourth == Some(57)
  {
    var add := (x: int, y: int) => x + y;
    assert Associative(add) by {
      forall x: int, y: int, z: int ensures AssocAt(add, x, y, z) { }
    }
    assert SegmentTree.IsAddition(add);
    ghost var data := [1, 4, 7, 11, 20];
    var tree := new SegmentTreePy([1, 4, 7, 11, 20], add);
    LeafCountMin(5);
    SumRanges(add, data, 1, 4, 7, 11, 20);
    first := tree.Query(0, 3);
    tree.QueryData(data, 0, 3);
    second, third, fourth := BasicScenarioEnd(tree, data);
  }

  /** The updates and later queries of the scenario. */
  method BasicScenarioEnd(tree: SegmentTreePy<int>, ghost data: seq<int>)
    returns (second: Option<int>, third: Option<int>, fourth: Option<int>)
    requires tree.Valid() && SegmentTree.IsAddition(tree.clientOp) && tree.m >= 5
    requires data == [1, 4, 7, 11, 20] && PaddedFrom(tree.Leaves(), data)
    modifies tree.stree
    ensures second == Some(26) && third == Some(41) && fourth == Some(57)
  {
    ghost var leaves, d := tree.Leaves(), data;
    var _ := tree.Update(0, 5);
    PaddedWrite(leaves, d, 0, 5);
    leaves, d := tree.Leaves(), d[0 := 5];
    var _ := tree.Update(2, 6);
    PaddedWrite(leaves, d, 2, 6);
    leaves, d := tree.Leaves(), d[2 := 6];
    SumRanges(tree.clientOp, d, 5, 4, 6, 11, 20);
    second := tree.Query(0, 3);
    tree.QueryData(d, 0, 3);
    var _ := tree.Update(2, 7);
    PaddedWrite(leaves, d, 2, 7);
    leaves, d := tree.Leaves(), d[2 := 7];
    var _ := tree.Update(4, 30);
    PaddedWrite(leaves, d, 4, 30);
    leaves, d := tree.Leaves(), d[4 := 30];
    SumRanges(tree.clientOp, d, 5, 4, 7, 11, 30);
    third := tree.Query(3, 4);
    tree.QueryData(d, 3, 4);
    fourth := tree.Query(0, 4);
    tree.QueryData(d, 0, 4);
  }
}
