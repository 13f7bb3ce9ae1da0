/** sorting/count_inversions.py: counts the pairs i < j with arr[i] > arr[j]
    while merge sorting, adding the pairs that cross the two halves at each
    merge. */
module CountInversions {
  import opened Common
  import opened MergeSort

  /** Ints are ordered by their own value. */
  function Id(x: int): int
  {
    x
  }

  /** How many elements of s are below x. */
  function Smaller(x: int, s: seq<int>): nat
  {
    if |s| == 0 then 0 else (if s[0] < x then 1 else 0) + Smaller(x, s[1..])
  }

  /** Pairs (a, b) with a from left, b from right and a > b. */
  function Crossing(left: seq<int>, right: seq<int>): nat
  {
    if |left| == 0 then 0 else Smaller(left[0], right) + Crossing(left[1..], right)
  }

  /** The inversions of a: pairs i < j with a[i] > a[j]. */
  function Inversions(a: seq<int>): nat
  {
    if |a| == 0 then 0 else Smaller(a[0], a[1..]) + Inversions(a[1..])
  }

  lemma {:induction false} SmallerConcat(x: int, a: seq<int>, b: seq<int>)
    ensures Smaller(x, a + b) == Smaller(x, a) + Smaller(x, b)
  {
    if |a| > 0 {
      assert (a + b)[0] == a[0] && (a + b)[1..] == a[1..] + b;
      SmallerConcat(x, a[1..], b);
    } else {
      assert a + b == b;
    }
  }

  lemma {:induction false} CrossingConcat(a: seq<int>, b: seq<int>, right: seq<int>)
    ensures Crossing(a + b, right) == Crossing(a, right) + Crossing(b, right)
  {
    if |a| > 0 {
      assert (a + b)[0] == a[0] && (a + b)[1..] == a[1..] + b;
      CrossingConcat(a[1..], b, right);
    } else {
      assert a + b == b;
    }
  }

  lemma {:induction false} IndexOf(s: seq<int>, x: int) returns (i: int)
    requires x in s
    ensures 0 <= i < |s| && s[i] == x
  {
    if s[0] == x {
      i := 0;
    } else {
      i := IndexOf(s[1..], x);
      i := i + 1;
    }
  }

  /** a's head sits at some index i of its rearrangement b, and the rest of
      a is a rearrangement of b without that index. */
  lemma MatchHead(a: seq<int>, b: seq<int>) returns (i: int)
    requires multiset(a) == multiset(b) && |a| > 0
    ensures 0 <= i < |b| && b[i] == a[0]
    ensures b == b[..i] + [b[i]] + b[i + 1..]
    ensures multiset(a[1..]) == multiset(b[..i] + b[i + 1..])
  {
    assert a[0] in multiset(b);
    i := IndexOf(b, a[0]);
    assert b == b[..i] + [b[i]] + b[i + 1..];
    assert a == [a[0]] + a[1..];
    calc {
      multiset(a[1..]);
      multiset(a) - multiset{a[0]};
      multiset(b[..i]) + multiset{b[i]} + multiset(b[i + 1..]) - multiset{b[i]};
      multiset(b[..i]) + multiset(b[i + 1..]);
      multiset(b[..i] + b[i + 1..]);
    }
  }

  /** Smaller depends only on the multiset of s. */
  lemma {:induction false} SmallerPermutation(x: int, a: seq<int>, b: seq<int>)
    requires multiset(a) == multiset(b)
    ensures Smaller(x, a) == Smaller(x, b)
    decreases |a|
  {
    if |a| == 0 {
      assert |b| == |multiset(b)| == 0;
    } else {
      var i := MatchHead(a, b);
      var rest := b[..i] + b[i + 1..];
      SmallerPermutation(x, a[1..], rest);
      SmallerConcat(x, b[..i] + [b[i]], b[i + 1..]);
      SmallerConcat(x, b[..i], [b[i]]);
      SmallerConcat(x, b[..i], b[i + 1..]);
    }
  }

  /** Crossing depends only on the multiset of the left list... */
  lemma {:induction false} CrossingPermutationLeft(a: seq<int>, b: seq<int>, right: seq<int>)
    requires multiset(a) == multiset(b)
    ensures Crossing(a, right) == Crossing(b, right)
    decreases |a|
  {
    if |a| == 0 {
      assert |b| == |multiset(b)| == 0;
    } else {
      var i := MatchHead(a, b);
      var rest := b[..i] + b[i + 1..];
      CrossingPermutationLeft(a[1..], rest, right);
      CrossingConcat(b[..i] + [b[i]], b[i + 1..], right);
      CrossingConcat(b[..i], [b[i]], right);
      CrossingConcat(b[..i], b[i + 1..], right);
    }
  }

  /** ... and only on the multiset of the right list. */
  lemma {:induction false} CrossingPermutationRight(left: seq<int>, a: seq<int>, b: seq<int>)
    requires multiset(a) == multiset(b)
    ensures Crossing(left, a) == Crossing(left, b)
  {
    if |left| > 0 {
      SmallerPermutation(left[0], a, b);
      CrossingPermutationRight(left[1..], a, b);
    }
  }

  /** The inversions of l + r are those inside l, those inside r and those
      across the split. */
  lemma {:induction false} InversionsSplit(l: seq<int>, r: seq<int>)
    ensures Inversions(l + r) == Inversions(l) + Inversions(r) + Crossing(l, r)
  {
    if |l| == 0 {
      assert l + r == r;
    } else {
      assert (l + r)[0] == l[0] && (l + r)[1..] == l[1..] + r;
      SmallerConcat(l[0], l[1..], r);
      InversionsSplit(l[1..], r);
    }
  }

  lemma InversionsHalves(arr: seq<int>, mid: int)
    requires 0 <= mid <= |arr|
    ensures Inversions(arr) == Inversions(arr[..mid]) + Inversions(arr[mid..]) + Crossing(arr[..mid], arr[mid..])
  {
    assert arr == arr[..mid] + arr[mid..];
    InversionsSplit(arr[..mid], arr[mid..]);
  }

  /** In a sorted s whose first i elements are the ones below x, Smaller is i. */
  lemma {:induction false} SmallerSorted(x: int, s: seq<int>, i: int)
    requires Sorted(s, Id) && 0 <= i <= |s|
    requires forall j :: 0 <= j < i ==> s[j] < x
    requires i < |s| ==> x <= s[i]
    ensures Smaller(x, s) == i
    decreases |s|
  {
    if |s| > 0 {
      if i > 0 {
        SmallerSorted(x, s[1..], i - 1);
      } else {
        assert forall j :: 0 <= j < |s| ==> Id(s[0]) <= Id(s[j]);
        SmallerNone(x, s);
      }
    }
  }

  lemma {:induction false} SmallerNone(x: int, s: seq<int>)
    requires forall j :: 0 <= j < |s| ==> x <= s[j]
    ensures Smaller(x, s) == 0
  {
    if |s| > 0 {
      SmallerNone(x, s[1..]);
    }
  }

  lemma {:induction false} SmallerAll(x: int, s: seq<int>)
    requires forall j :: 0 <= j < |s| ==> s[j] < x
    ensures Smaller(x, s) == |s|
  {
    if |s| > 0 {
      SmallerAll(x, s[1..]);
    }
  }

  /** When everything in l is above everything in r, every pair crosses. */
  lemma {:induction false} CrossingAll(l: seq<int>, r: seq<int>)
    requires forall a, b :: 0 <= a < |l| && 0 <= b < |r| ==> l[a] > r[b]
    ensures Crossing(l, r) == |r| * |l|
  {
    if |l| > 0 {
      SmallerAll(l[0], r);
      CrossingAll(l[1..], r);
      assert |r| * |l| == |r| * |l[1..]| + |r|;
    }
  }

  /** Taking left[i] while right[..j] is merged: exactly j right values are
      below it, and they stay below the next left value. */
  lemma TakeLeft(left: seq<int>, right: seq<int>, i: int, j: int)
    requires Sorted(left, Id) && Sorted(right, Id)
    requires 0 <= i < |left| && 0 <= j < |right| && left[i] <= right[j]
    requires forall k :: 0 <= k < j ==> right[k] < left[i]
    ensures Crossing(left[..i + 1], right) == Crossing(left[..i], right) + j
    ensures i + 1 < |left| ==> forall k :: 0 <= k < j ==> right[k] < left[i + 1]
  {
    SmallerSorted(left[i], right, j);
    assert left[..i + 1] == left[..i] + [left[i]];
    CrossingConcat(left[..i], [left[i]], right);
    assert i + 1 < |left| ==> Id(left[i]) <= Id(left[i + 1]);
  }

  /** Once right is used up, each left value still unmerged is above all of
      right. */
  lemma RemainingLeft(left: seq<int>, right: seq<int>, i: int, j: int)
    requires Sorted(left, Id) && 0 <= i <= |left| && 0 <= j <= |right|
    requires i == |left| || j == |right|
    requires i < |left| ==> forall k :: 0 <= k < j ==> right[k] < left[i]
    ensures Crossing(left, right) == Crossing(left[..i], right) + |right| * (|left| - i)
  {
    assert left == left[..i] + left[i..];
    CrossingConcat(left[..i], left[i..], right);
    if i < |left| {
      forall a, b | 0 <= a < |left[i..]| && 0 <= b < |right|
        ensures left[i..][a] > right[b]
      {
        assert Id(left[i]) <= Id(left[i + a]);
      }
      CrossingAll(left[i..], right);
      assert |left[i..]| == |left| - i;
      assert Crossing(left[i..], right) == |right| * (|left| - i);
    } else {
      assert |left| - i == 0 && left[i..] == [];
    }
  }

  /** count_merge: merges like merge(), and adds right_idx for every left
      value taken, then len(right) for each left value still unmerged. */
  method CountMerge(left: seq<int>, right: seq<int>) returns (ret: seq<int>, inversions: int)
    ensures ret == Merged(left, right, Id)
    ensures Sorted(left, Id) && Sorted(right, Id) ==> inversions == Crossing(left, right)
  {
    ghost var sorted := Sorted(left, Id) && Sorted(right, Id);
    var leftIdx, rightIdx := 0, 0;
    ret := [];
    inversions := 0;
    while leftIdx < |left| && rightIdx < |right|
      invariant 0 <= leftIdx <= |left| && 0 <= rightIdx <= |right|
      invariant ret + Merged(left[leftIdx..], right[rightIdx..], Id) == Merged(left, right, Id)
      invariant sorted ==> inversions == Crossing(left[..leftIdx], right)
      invariant sorted && leftIdx < |left| ==> forall j :: 0 <= j < rightIdx ==> right[j] < left[leftIdx]
      decreases |left| + |right| - leftIdx - rightIdx
    {
      var leftVal, rightVal := left[leftIdx], right[rightIdx];
      MergedStep(left[leftIdx..], right[rightIdx..], Id);
      assert left[leftIdx..][1..] == left[leftIdx + 1..];
      assert right[rightIdx..][1..] == right[rightIdx + 1..];
      ghost var rest := Merged(left[leftIdx..], right[rightIdx..], Id);
      if leftVal <= rightVal {
        if sorted {
          TakeLeft(left, right, leftIdx, rightIdx);
        }
        ghost var rest' := Merged(left[leftIdx + 1..], right[rightIdx..], Id);
        assert rest == [leftVal] + rest';
        AppendShift(ret, leftVal, rest');
        ret := ret + [leftVal];
        leftIdx := leftIdx + 1;
        inversions := inversions + rightIdx;
      } else {
        ghost var rest' := Merged(left[leftIdx..], right[rightIdx + 1..], Id);
        assert rest == [rightVal] + rest';
        AppendShift(ret, rightVal, rest');
        ret := ret + [rightVal];
        rightIdx := rightIdx + 1;
      }
    }
    var remaining := |right| * (|left| - leftIdx);
    if sorted {
      RemainingLeft(left, right, leftIdx, rightIdx);
      assert inversions + remaining == Crossing(left, right);
    }
    inversions := inversions + remaining;
    assert Merged(left[leftIdx..], right[rightIdx..], Id) == left[leftIdx..] + right[rightIdx..];
    ConcatAssoc(ret, left[leftIdx..], right[rightIdx..]);
    ret := ret + left[leftIdx..];
    ret := ret + right[rightIdx..];
  }

  /** What count_inversions_wrapper(arr) returns: the sorted list and the
      inversion count, with count_merge applied to the two sorted halves. */
  function CountInversionsWrapper(arr: seq<int>): (seq<int>, int)
    decreases |arr|
  {
    if |arr| <= 1 then (arr, 0)
    else
      var mid := |arr| / 2;
      var left := CountInversionsWrapper(arr[..mid]);
      var right := CountInversionsWrapper(arr[mid..]);
      (Merged(left.0, right.0, Id), left.1 + right.1 + Crossing(left.0, right.0))
  }

  /** The wrapper's first component is sorted(arr), as merge_sort gives it. */
  lemma {:induction false} WrapperSorts(arr: seq<int>)
    ensures CountInversionsWrapper(arr).0 == MergeSort.MergeSort(arr, Id)
    decreases |arr|
  {
    if |arr| > 1 {
      var mid := |arr| / 2;
      WrapperSorts(arr[..mid]);
      WrapperSorts(arr[mid..]);
    }
  }

  /** The wrapper's second component is the number of inversions of arr. */
  lemma {:induction false} WrapperCounts(arr: seq<int>)
    ensures CountInversionsWrapper(arr).1 == Inversions(arr)
    decreases |arr|
  {
    if |arr| > 1 {
      var mid := |arr| / 2;
      var a1, a2 := arr[..mid], arr[mid..];
      var l, r := CountInversionsWrapper(a1).0, CountInversionsWrapper(a2).0;
      WrapperCounts(a1);
      WrapperCounts(a2);
      assert Crossing(l, r) == Crossing(a1, a2) by {
        WrapperSorts(a1);
        WrapperSorts(a2);
        MergeSortCorrect(a1, Id);
        MergeSortCorrect(a2, Id);
        CrossingPermutationLeft(l, a1, r);
        CrossingPermutationRight(a1, r, a2);
      }
      InversionsHalves(arr, mid);
    }
  }

  /** count_inversions(arr): the number of pairs i < j with arr[i] > arr[j];
      lists of length at most one have none. */
  function CountInversions(arr: seq<int>): (n: int)
    ensures n == Inversions(arr)
    ensures |arr| <= 1 ==> n == 0
  {
    WrapperCounts(arr);
    CountInversionsWrapper(arr).1
  }
}
