/** low_level/bits/combination_iterator.hh: an iterator over the
    k-combinations of the characters of a string, in lexicographic order of
    positions. The state is a bit mask over the n positions of the string:
    bit i of the int mask_ is mask[i] here. */
module Combinations {
  import opened Common

  /** lo, lo + 1, ..., hi - 1. */
  function Range(lo: int, hi: int): (r: seq<int>)
    ensures |r| == if lo <= hi then hi - lo else 0
    ensures forall i :: 0 <= i < |r| ==> r[i] == lo + i
    decreases hi - lo
  {
    if lo >= hi then [] else [lo] + Range(lo + 1, hi)
  }

  /** The positions in [lo, hi) whose bit is set, in increasing order. */
  function Idx(m: seq<bool>, lo: nat, hi: nat): (r: seq<int>)
    requires lo <= hi <= |m|
    ensures |r| <= hi - lo
    ensures forall i :: 0 <= i < |r| ==> lo <= r[i] < hi
    decreases hi - lo
  {
    if lo == hi then [] else (if m[lo] then [lo] else []) + Idx(m, lo + 1, hi)
  }

  /** The combination a mask stands for. */
  function Indices(m: seq<bool>): seq<int>
  {
    Idx(m, 0, |m|)
  }

  /** The number of set bits. */
  function Ones(m: seq<bool>): nat
  {
    |Indices(m)|
  }

  /** The characters at the positions of c, in order. */
  function Pick(s: seq<char>, c: seq<int>): (r: seq<char>)
    requires forall i :: 0 <= i < |c| ==> 0 <= c[i] < |s|
    ensures |r| == |c| && forall i :: 0 <= i < |c| ==> r[i] == s[c[i]]
  {
    seq(|c|, i requires 0 <= i < |c| => s[c[i]])
  }

  /** mask_ == 0. */
  function Zeros(n: nat): seq<bool>
  {
    seq(n, j => false)
  }

  /** (1 << k) - 1: the k lowest bits. */
  function Low(n: nat, k: nat): seq<bool>
  {
    seq(n, j => j < k)
  }

  /** ((1 << k) - 1) << (n - k): the k highest bits. */
  function Top(n: nat, k: nat): seq<bool>
  {
    seq(n, j => j >= n - k)
  }

  /** mask & ((1 << b) - 1) | (((1 << count) - 1) << (b + 1)): the bits
      below b kept, the count bits above b set, the rest cleared. */
  function Shifted(m: seq<bool>, b: int, count: nat): seq<bool>
  {
    seq(|m|, j requires 0 <= j < |m| => (j < b && m[j]) || b < j <= b + count)
  }

  /** A set bit whose left neighbour is clear can move one step left. */
  predicate Movable(m: seq<bool>, i: int)
  {
    0 <= i && i + 1 < |m| && m[i] && !m[i + 1]
  }

  /** The highest movable bit below hi, or -1. */
  function LastMovable(m: seq<bool>, hi: nat): (r: int)
    requires hi <= |m|
    ensures -1 <= r < hi
    ensures r >= 0 ==> Movable(m, r)
    ensures forall j :: r < j < hi ==> !Movable(m, j)
  {
    if hi == 0 then -1
    else if Movable(m, hi - 1) then hi - 1
    else LastMovable(m, hi - 1)
  }

  /** The bit updateState moves: the highest movable one. */
  function Pivot(m: seq<bool>): int
  {
    LastMovable(m, |m|)
  }

  /** The mask updateState leaves behind: the k lowest bits at first, then
      the pivot moved up by one with the bits above it packed right above
      it. */
  function Advance(m: seq<bool>, k: nat): seq<bool>
    requires m == Zeros(|m|) || Pivot(m) >= 0
  {
    if m == Zeros(|m|) then Low(|m|, k)
    else
      var b := Pivot(m);
      Shifted(m, b, |Idx(m, b, |m|)|)
  }

  // ---------------------------------------------------------------------
  // Combinations as increasing lists of positions, and their order.

  /** c lists distinct positions below n in increasing order. */
  predicate IsCombo(c: seq<int>, n: int)
  {
    && (forall i :: 0 <= i < |c| ==> 0 <= c[i] < n)
    && (forall i, j :: 0 <= i < j < |c| ==> c[i] < c[j])
  }

  /** a and b agree before position r and a is smaller at r. */
  predicate LessAt(a: seq<int>, b: seq<int>, r: int)
  {
    0 <= r < |a| == |b| && a[..r] == b[..r] && a[r] < b[r]
  }

  /** Lexicographic order on lists of the same length. */
  ghost predicate LexLess(a: seq<int>, b: seq<int>)
  {
    exists r :: LessAt(a, b, r)
  }

  /** Position p of a combination of |c| out of n can still grow. */
  predicate Free(c: seq<int>, n: int, p: int)
    requires 0 <= p < |c|
  {
    c[p] < n - |c| + p
  }

  /** The last position below q that can still grow, or -1. */
  function LastFree(c: seq<int>, n: int, q: nat): (r: int)
    requires q <= |c|
    ensures -1 <= r < q
    ensures r >= 0 ==> Free(c, n, r)
    ensures forall j :: r < j < q ==> !Free(c, n, j)
  {
    if q == 0 then -1
    else if Free(c, n, q - 1) then q - 1
    else LastFree(c, n, q - 1)
  }

  /** The textbook successor of a combination: the last position that can
      grow is incremented and the positions after it follow it in a row. */
  function Succ(c: seq<int>, n: int): seq<int>
    requires 0 <= LastFree(c, n, |c|)
  {
    var p := LastFree(c, n, |c|);
    c[..p] + Range(c[p] + 1, c[p] + 1 + |c| - p)
  }

  /** Members of a range. */
  lemma RangeMember(lo: int, hi: int, x: int)
    requires lo <= hi
    ensures x in Range(lo, hi) <==> lo <= x < hi
  {
    if lo <= x < hi {
      assert Range(lo, hi)[x - lo] == x;
    }
  }

  /** Splitting the scanned interval splits the list of positions. */
  lemma {:induction false} IdxSplit(m: seq<bool>, lo: nat, mid: nat, hi: nat)
    requires lo <= mid <= hi <= |m|
    ensures Idx(m, lo, hi) == Idx(m, lo, mid) + Idx(m, mid, hi)
    decreases mid - lo
  {
    if lo < mid {
      IdxSplit(m, lo + 1, mid, hi);
      var head: seq<int> := if m[lo] then [lo] else [];
      ConcatAssoc(head, Idx(m, lo + 1, mid), Idx(m, mid, hi));
    }
  }

  /** A position is listed exactly when its bit is set. */
  lemma {:induction false} IdxMember(m: seq<bool>, lo: nat, hi: nat, x: int)
    requires lo <= hi <= |m|
    ensures x in Idx(m, lo, hi) <==> lo <= x < hi && m[x]
    decreases hi - lo
  {
    if lo < hi {
      IdxMember(m, lo + 1, hi, x);
    }
  }

  /** The listed positions increase. */
  lemma {:induction false} IdxCombo(m: seq<bool>, lo: nat, hi: nat)
    requires lo <= hi <= |m|
    ensures IsCombo(Idx(m, lo, hi), hi)
    decreases hi - lo
  {
    if lo < hi {
      IdxCombo(m, lo + 1, hi);
    }
  }

  /** Masks that agree on [lo, hi) list the same positions there. */
  lemma {:induction false} IdxAgree(m: seq<bool>, m': seq<bool>, lo: nat, hi: nat)
    requires lo <= hi <= |m| && hi <= |m'|
    requires forall j :: lo <= j < hi ==> m[j] == m'[j]
    ensures Idx(m, lo, hi) == Idx(m', lo, hi)
    decreases hi - lo
  {
    if lo < hi {
      IdxAgree(m, m', lo + 1, hi);
    }
  }

  /** Clear bits, then a block of set bits [a, b), then clear bits. */
  lemma {:induction false} IdxBlock(m: seq<bool>, lo: nat, a: nat, b: nat, hi: nat)
    requires lo <= a <= b <= hi <= |m|
    requires forall j :: lo <= j < hi ==> (m[j] <==> a <= j < b)
    ensures Idx(m, lo, hi) == Range(a, b)
    decreases hi - lo
  {
    if lo < hi {
      if lo < a {
        IdxBlock(m, lo + 1, a, b, hi);
      } else if a < b {
        IdxBlock(m, lo + 1, a + 1, b, hi);
      } else {
        IdxBlock(m, lo + 1, a + 1, b + 1, hi);
      }
    }
  }

  /** When every set bit at or above lo has its left neighbour set too, the
      set bits above lo form one block that reaches the top. */
  lemma {:induction false} UpClosedIdx(m: seq<bool>, lo: nat)
    requires lo <= |m|
    requires forall j :: lo <= j < |m| - 1 ==> m[j] ==> m[j + 1]
    ensures Idx(m, lo, |m|) == Range(|m| - |Idx(m, lo, |m|)|, |m|)
    decreases |m| - lo
  {
    var n := |m|;
    if lo < n {
      UpClosedIdx(m, lo + 1);
      var rest := Idx(m, lo + 1, n);
      if m[lo] {
        if lo + 1 < n {
          IdxMember(m, lo + 1, n, lo + 1);
          RangeMember(n - |rest|, n, lo + 1);
        }
        assert |rest| == n - lo - 1;
      }
    }
  }

  /** Gaps between the positions of a combination. */
  lemma {:induction false} ComboGap(d: seq<int>, n: int, i: nat, j: nat)
    requires IsCombo(d, n) && i <= j < |d|
    ensures d[j] >= d[i] + (j - i)
    decreases j - i
  {
    if i < j {
      ComboGap(d, n, i, j - 1);
      assert d[j - 1] < d[j];
    }
  }

  /** Position q of a combination of |d| out of n is at most n - |d| + q. */
  lemma ComboBound(d: seq<int>, n: int, q: nat)
    requires IsCombo(d, n) && q < |d|
    ensures d[q] <= n - |d| + q
  {
    ComboGap(d, n, q, |d| - 1);
  }

  /** Pointwise no smaller from some position on, with the same prefix,
      means equal or lexicographically greater. */
  lemma {:induction false} FirstDiff(a: seq<int>, b: seq<int>, from: nat)
    requires |a| == |b| && from <= |a| && a[..from] == b[..from]
    requires forall j :: from <= j < |a| ==> a[j] <= b[j]
    ensures a == b || LexLess(a, b)
    decreases |a| - from
  {
    if from == |a| {
      assert a == a[..from] && b == b[..from];
    } else if a[from] < b[from] {
      assert LessAt(a, b, from);
    } else {
      assert a[..from + 1] == a[..from] + [a[from]];
      assert b[..from + 1] == b[..from] + [b[from]];
      FirstDiff(a, b, from + 1);
    }
  }

  /** The successor is a combination of the same size, and greater. */
  lemma SuccGreater(c: seq<int>, n: int)
    requires IsCombo(c, n) && 0 <= LastFree(c, n, |c|)
    ensures IsCombo(Succ(c, n), n) && |Succ(c, n)| == |c|
    ensures LessAt(c, Succ(c, n), LastFree(c, n, |c|))
  {
    var p := LastFree(c, n, |c|);
    var sc := Succ(c, n);
    assert sc[..p] == c[..p];
    assert forall i :: p <= i < |sc| ==> sc[i] == c[p] + 1 + (i - p);
  }

  /** No combination lies strictly between c and its successor. */
  lemma SuccImmediate(c: seq<int>, d: seq<int>, n: int)
    requires IsCombo(c, n) && IsCombo(d, n) && |c| == |d|
    requires 0 <= LastFree(c, n, |c|) && LexLess(c, d)
    ensures d == Succ(c, n) || LexLess(Succ(c, n), d)
  {
    var p := LastFree(c, n, |c|);
    var sc := Succ(c, n);
    SuccGreater(c, n);
    var r :| LessAt(c, d, r);
    assert sc[..p] == c[..p];
    if r < p {
      assert sc[..r] == c[..r] && sc[r] == c[r];
      assert LessAt(sc, d, r);
    } else if r > p {
      assert !Free(c, n, r);
      ComboBound(d, n, r);
      assert false;
    } else {
      forall j | p <= j < |d|
        ensures sc[j] <= d[j]
      {
        ComboGap(d, n, p, j);
      }
      FirstDiff(sc, d, p);
    }
  }

  /** The first combination, positions 0 to k - 1, is the least. */
  lemma FirstIsLeast(d: seq<int>, n: int)
    requires IsCombo(d, n)
    ensures d == Range(0, |d|) || LexLess(Range(0, |d|), d)
  {
    var f := Range(0, |d|);
    forall j | 0 <= j < |d|
      ensures f[j] <= d[j]
    {
      ComboGap(d, n, 0, j);
    }
    FirstDiff(f, d, 0);
  }

  /** A combination without a position that can grow is the last one, and
      nothing comes after it. */
  lemma LastIsGreatest(c: seq<int>, d: seq<int>, n: int)
    requires IsCombo(c, n) && IsCombo(d, n) && |c| == |d|
    requires LastFree(c, n, |c|) < 0
    ensures c == Range(n - |c|, n) && !LexLess(c, d)
  {
    forall q | 0 <= q < |c|
      ensures c[q] == n - |c| + q
    {
      assert !Free(c, n, q);
      ComboBound(c, n, q);
    }
    if LexLess(c, d) {
      var r :| LessAt(c, d, r);
      ComboBound(d, n, r);
    }
  }

  /** With strictly increasing characters, the order of positions is the
      order of the strings next() returns. */
  lemma PickOrder(s: seq<char>, c: seq<int>, d: seq<int>, r: int)
    requires forall i, j :: 0 <= i < j < |s| ==> s[i] < s[j]
    requires IsCombo(c, |s|) && IsCombo(d, |s|) && LessAt(c, d, r)
    ensures Pick(s, c)[..r] == Pick(s, d)[..r] && Pick(s, c)[r] < Pick(s, d)[r]
  {
    forall i | 0 <= i < r
      ensures Pick(s, c)[i] == Pick(s, d)[i]
    {
      assert c[..r][i] == d[..r][i];
    }
  }

  // ---------------------------------------------------------------------
  // The bit manipulation computes the successor.

  /** Around the pivot b: the positions below it, b itself, then a block
      [t, n) of set bits at the top, with b + 1 < t. */
  lemma PivotSplit(m: seq<bool>) returns (b: nat, t: nat)
    requires Pivot(m) >= 0
    ensures b == Pivot(m) && b + 2 <= t <= |m|
    ensures Idx(m, b + 1, |m|) == Range(t, |m|)
    ensures Idx(m, b, |m|) == [b] + Range(t, |m|)
    ensures Indices(m) == Idx(m, 0, b) + ([b] + Range(t, |m|))
    ensures |Indices(m)| == |Idx(m, 0, b)| + |Idx(m, b, |m|)|
  {
    var n := |m|;
    b := Pivot(m);
    PivotUpClosed(m);
    UpClosedIdx(m, b + 1);
    var above := Idx(m, b + 1, n);
    t := n - |above|;
    assert above == Idx(m, b + 2, n);
    assert Idx(m, b, n) == [b] + above;
    IdxSplit(m, 0, b, n);
  }

  /** Above the pivot every set bit has its left neighbour set. */
  lemma PivotUpClosed(m: seq<bool>)
    requires Pivot(m) >= 0
    ensures forall j :: Pivot(m) + 1 <= j < |m| - 1 ==> m[j] ==> m[j + 1]
  {
    forall j | Pivot(m) + 1 <= j < |m| - 1 && m[j]
      ensures m[j + 1]
    {
      assert !Movable(m, j);
    }
  }

  /** The pivot is the last position of the combination that can grow. */
  lemma PivotLastFree(m: seq<bool>, k: nat)
    requires Ones(m) == k && Pivot(m) >= 0
    ensures LastFree(Indices(m), |m|, k) == |Idx(m, 0, Pivot(m))|
  {
    var n := |m|;
    var b, t := PivotSplit(m);
    var a := Idx(m, 0, b);
    var above := Range(t, n);
    var c := Indices(m);
    var p := |a|;
    assert c[p] == b;
    forall j | p < j < k
      ensures !Free(c, n, j)
    {
      assert c[j] == above[j - p - 1];
    }
    LastFreeIs(c, n, k, p);
  }

  /** Moving bit b up with count bits packed above it, where the bits from
      b + 1 up fit below the top. */
  lemma ShiftedIndices(m: seq<bool>, b: nat, count: nat)
    requires b + 1 + count <= |m|
    ensures Indices(Shifted(m, b, count)) == Idx(m, 0, b) + Range(b + 1, b + 1 + count)
  {
    var n := |m|;
    var m' := Shifted(m, b, count);
    IdxSplit(m', 0, b, n);
    IdxAgree(m, m', 0, b);
    IdxBlock(m', b, b + 1, b + 1 + count, n);
  }

  /** The mask after updateState lists the positions below the pivot, then
      a block of as many positions as were set from the pivot up, starting
      right above the pivot. */
  lemma AdvanceIndices(m: seq<bool>, k: nat)
    requires Pivot(m) >= 0
    ensures var b := Pivot(m);
      Indices(Advance(m, k)) == Idx(m, 0, b) + Range(b + 1, b + 1 + |Idx(m, b, |m|)|)
  {
    var b, t := PivotSplit(m);
    assert m[b] && !Zeros(|m|)[b];
    ShiftedIndices(m, b, |Idx(m, b, |m|)|);
  }

  /** The successor of the combination of a mask, in the same terms. */
  lemma SuccOfPivot(m: seq<bool>, k: nat)
    requires Ones(m) == k && Pivot(m) >= 0
    ensures LastFree(Indices(m), |m|, k) == |Idx(m, 0, Pivot(m))|
    ensures var b := Pivot(m);
      Succ(Indices(m), |m|) == Idx(m, 0, b) + Range(b + 1, b + 1 + |Idx(m, b, |m|)|)
  {
    var b, t := PivotSplit(m);
    PivotLastFree(m, k);
    var a, c := Idx(m, 0, b), Indices(m);
    var p := |a|;
    SuccAt(c, |m|, p);
    assert c[..p] == a;
    assert c[p] == b;
  }

  /** Advancing a mask of k set bits moves to the successor of its
      combination. */
  lemma AdvanceSucc(m: seq<bool>, k: nat)
    requires Ones(m) == k && Pivot(m) >= 0
    ensures LastFree(Indices(m), |m|, k) == |Idx(m, 0, Pivot(m))|
    ensures Indices(Advance(m, k)) == Succ(Indices(m), |m|)
  {
    SuccOfPivot(m, k);
    AdvanceIndices(m, k);
  }

  /** The successor of a combination whose last growing position is p. */
  lemma SuccAt(c: seq<int>, n: int, p: nat)
    requires p < |c| && LastFree(c, n, |c|) == p
    ensures Succ(c, n) == c[..p] + Range(c[p] + 1, c[p] + 1 + |c| - p)
  {
  }

  /** LastFree finds the last position that can grow. */
  lemma {:induction false} LastFreeIs(c: seq<int>, n: int, q: nat, p: nat)
    requires p < q <= |c| && Free(c, n, p)
    requires forall j :: p < j < q ==> !Free(c, n, j)
    ensures LastFree(c, n, q) == p
    decreases q
  {
    if q - 1 != p {
      LastFreeIs(c, n, q - 1, p);
    }
  }

  /** A mask of k set bits with no movable bit is the top k bits. */
  lemma NoPivotIsTop(m: seq<bool>, k: nat)
    requires Ones(m) == k
    ensures Pivot(m) < 0 <==> m == Top(|m|, k)
  {
    var n := |m|;
    if Pivot(m) < 0 {
      assert forall j :: 0 <= j < n - 1 ==> m[j] ==> m[j + 1] by {
        forall j | 0 <= j < n - 1 && m[j]
          ensures m[j + 1]
        {
          assert !Movable(m, j);
        }
      }
      UpClosedIdx(m, 0);
      forall j | 0 <= j < n
        ensures m[j] == Top(n, k)[j]
      {
        IdxMember(m, 0, n, j);
        RangeMember(n - k, n, j);
      }
    }
    if m == Top(n, k) && Pivot(m) >= 0 {
      assert Movable(m, Pivot(m));
    }
  }

  /** hasNext() holds exactly when the combination has a successor. */
  lemma HasNextIff(m: seq<bool>, k: nat)
    requires Ones(m) == k
    ensures m != Top(|m|, k) <==> LastFree(Indices(m), |m|, k) >= 0
  {
    NoPivotIsTop(m, k);
    if m != Top(|m|, k) {
      AdvanceSucc(m, k);
    } else {
      var n := |m|;
      IdxBlock(m, 0, n - k, n, n);
    }
  }

  /** The first call to next() yields the first k characters. */
  lemma AdvanceFirst(s: seq<char>, k: nat)
    requires k <= |s|
    ensures Indices(Advance(Zeros(|s|), k)) == Range(0, k)
    ensures Pick(s, Indices(Advance(Zeros(|s|), k))) == s[..k]
  {
    var n := |s|;
    IdxBlock(Low(n, k), 0, 0, k, n);
  }

  /** Every mask after a call to next() has exactly k set bits. */
  lemma AdvanceOnes(m: seq<bool>, k: nat)
    requires k <= |m|
    requires m == Zeros(|m|) || (Ones(m) == k && Pivot(m) >= 0)
    ensures Ones(Advance(m, k)) == k
  {
    var n := |m|;
    if m == Zeros(n) {
      IdxBlock(Low(n, k), 0, 0, k, n);
    } else {
      AdvanceSucc(m, k);
      IdxCombo(m, 0, n);
      SuccGreater(Indices(m), n);
    }
  }

  class CombinationIterator {
    var s: seq<char>
    var n: nat
    var k: nat
    var mask: seq<bool>

    /** Before the first next() no bit is set; after it exactly k are. */
    ghost predicate Valid()
      reads this
    {
      |s| == n && k <= n && |mask| == n && (mask == Zeros(n) || Ones(mask) == k)
    }

    constructor(characters: seq<char>, combinationLength: nat)
      requires combinationLength <= |characters|
      ensures Valid()
      ensures s == characters && n == |characters| && k == combinationLength
      ensures mask == Zeros(n)
    {
      s := characters;
      n := |characters|;
      k := combinationLength;
      mask := Zeros(|characters|);
    }

    /** hasNext(): the mask has not reached the top k bits. */
    predicate HasNext()
      reads this
    {
      mask != Top(n, k)
    }

    /** next(): advances the mask and returns its characters. */
    method Next() returns (r: seq<char>)
      requires Valid() && HasNext()
      modifies this
      ensures Valid() && s == old(s) && n == old(n) && k == old(k)
      ensures old(mask) == Zeros(n) || Pivot(old(mask)) >= 0
      ensures mask == Advance(old(mask), k)
      ensures r == Pick(s, Indices(mask))
    {
      UpdateState();
      r := ToString();
    }

    /** updateState(): the first call sets the k lowest bits; later calls
        find the highest movable bit, counting the set bits from the top
        down to it, and move it and the bits above it. */
    method UpdateState()
      requires Valid() && HasNext()
      modifies this
      ensures Valid() && s == old(s) && n == old(n) && k == old(k)
      ensures old(mask) == Zeros(n) || Pivot(old(mask)) >= 0
      ensures mask == Advance(old(mask), k)
    {
      if mask == Zeros(n) {
        AdvanceOnes(mask, k);
        mask := Low(n, k);
        return;
      }
      NoPivotIsTop(mask, k);
      ghost var pivot := Pivot(mask);
      var count := 0;
      var bit := -1;
      var i := n - 1;
      while i >= 0
        invariant pivot <= i < n
        invariant count == |Idx(mask, i + 1, n)|
        invariant forall j :: i < j < n ==> !Movable(mask, j)
        decreases i
      {
        if mask[i] {
          count := count + 1;
          if i < n - 1 && !mask[i + 1] {
            bit := i;
            assert count == |Idx(mask, i, n)| && Movable(mask, i);
            break;
          }
        }
        i := i - 1;
      }
      AdvanceOnes(mask, k);
      mask := Shifted(mask, bit, count);
    }

    /** toString(): the characters at the set bits, in index order. */
    method ToString() returns (res: seq<char>)
      requires Valid()
      ensures res == Pick(s, Indices(mask))
    {
      res := [];
      for i := 0 to n
        invariant res == Pick(s, Idx(mask, 0, i))
      {
        IdxSplit(mask, 0, i, i + 1);
        if mask[i] {
          res := res + [s[i]];
        }
      }
    }
  }
}
