/** combinatorics/next_permutation.py: rearranges a list in place into the
    lexicographically next permutation of its values, wrapping from the
    largest to the smallest. */
module NextPermutation {
  import opened MergeSort
  import CountInversions

  /** Values never increase along s. */
  predicate NonIncreasing(s: seq<int>)
  {
    forall i, j :: 0 <= i < j < |s| ==> s[i] >= s[j]
  }

  /** a sorts strictly before b in dictionary order (equal lengths). */
  predicate LexLess(a: seq<int>, b: seq<int>)
    decreases |a|
  {
    |a| > 0 && |b| > 0 && (a[0] < b[0] || (a[0] == b[0] && LexLess(a[1..], b[1..])))
  }

  function Reverse(s: seq<int>): (r: seq<int>)
    ensures |r| == |s| && forall k :: 0 <= k < |s| ==> r[k] == s[|s| - 1 - k]
  {
    seq(|s|, k requires 0 <= k < |s| => s[|s| - 1 - k])
  }

  /** The last ascent s[r] < s[r + 1] with r <= i, or -1 when there is none. */
  function PivotFrom(s: seq<int>, i: int): (r: int)
    requires i < |s| - 1
    ensures -1 <= r && (i >= 0 ==> r <= i) && (i < 0 ==> r == -1)
    ensures r >= 0 ==> s[r] < s[r + 1]
    ensures forall j :: r < j <= i ==> s[j] >= s[j + 1]
    decreases i + 1
  {
    if i < 0 then -1 else if s[i] < s[i + 1] then i else PivotFrom(s, i - 1)
  }

  /** The index of the value to replace: the last ascent of s, or -1. */
  function Pivot(s: seq<int>): int
  {
    PivotFrom(s, |s| - 2)
  }

  /** t is s with the pivot p replaced by the smallest larger value from the
      tail, and the tail then sorted ascending. */
  ghost predicate NextAfterPivot(s: seq<int>, t: seq<int>, p: int)
  {
    && 0 <= p < |s| - 1 && |t| == |s|
    && t[..p] == s[..p]
    && t[p] > s[p]
    && t[p] in s[p + 1..]
    && (forall j :: p < j < |s| && s[j] > s[p] ==> t[p] <= s[j])
    && Sorted(t[p + 1..], CountInversions.Id)
    && multiset(t) == multiset(s)
  }

  /** next_permutation / solve. Returns false where Python raises
      IndexError: on an empty list, idx starts at -1 and nums[-2] does not
      exist. */
  method NextPermutation(nums: array<int>) returns (ok: bool)
    modifies nums
    ensures ok <==> nums.Length > 0
    ensures !ok ==> nums[..] == old(nums[..])
    ensures multiset(nums[..]) == multiset(old(nums[..]))
    ensures ok && Pivot(old(nums[..])) < 0 ==> nums[..] == Reverse(old(nums[..]))
    ensures ok && Pivot(old(nums[..])) >= 0 ==> NextAfterPivot(old(nums[..]), nums[..], Pivot(old(nums[..])))
  {
    var n := nums.Length;
    if n == 0 {
      return false;
    }
    ok := true;
    var s := nums[..];
    var idx := FindPivot(nums);
    if idx == 0 {
      ReverseInPlace(nums);
      ReversePermutation(s);
      return;
    }
    var pos := FindSwap(nums, idx - 1);
    SwapAndSortTail(nums, idx, pos);
    SwapThenSort(s, idx - 1, pos, s[idx - 1 := s[pos]][pos := s[idx - 1]], nums[..]);
  }

  /** nums.reverse() */
  method ReverseInPlace(nums: array<int>)
    modifies nums
    ensures nums[..] == Reverse(old(nums[..]))
  {
    var s := nums[..];
    forall k | 0 <= k < nums.Length {
      nums[k] := s[nums.Length - 1 - k];
    }
  }

  /** Swapping nums[idx - 1] with nums[pos], then nums[idx:] = sorted(nums[idx:]). */
  method SwapAndSortTail(nums: array<int>, idx: int, pos: int)
    requires 0 < idx <= pos < nums.Length
    modifies nums
    ensures var swapped := old(nums[..])[idx - 1 := old(nums[pos])][pos := old(nums[idx - 1])];
      nums[..] == swapped[..idx] + MergeSort.MergeSort(swapped[idx..], CountInversions.Id)
  {
    nums[idx - 1], nums[pos] := nums[pos], nums[idx - 1];
    var sortedTail := MergeSort.MergeSort(nums[idx..], CountInversions.Id);
    SortedLength(nums[idx..]);
    AssignTail(nums, idx, sortedTail);
  }

  /** The first loop: idx walks left while the list does not ascend, and
      stops just past the pivot. */
  method FindPivot(nums: array<int>) returns (idx: int)
    requires nums.Length > 0
    ensures 0 <= idx <= nums.Length - 1 && Pivot(nums[..]) == idx - 1
  {
    var n := nums.Length;
    idx := n - 1;
    while idx != 0 && nums[idx - 1] >= nums[idx]
      invariant 0 <= idx <= n - 1
      invariant forall j :: idx <= j < n - 1 ==> nums[j] >= nums[j + 1]
    {
      idx := idx - 1;
    }
    PivotIs(nums[..], idx - 1);
  }

  /** The second loop: pos walks left to the last value above the pivot's. */
  method FindSwap(nums: array<int>, p: int) returns (pos: int)
    requires 0 <= p < nums.Length - 1 && nums[p] < nums[p + 1]
    ensures p < pos < nums.Length && nums[pos] > nums[p]
    ensures forall j :: pos < j < nums.Length ==> nums[j] <= nums[p]
  {
    pos := nums.Length - 1;
    while !(nums[pos] > nums[p])
      invariant p < pos <= nums.Length - 1
      invariant forall j :: pos < j < nums.Length ==> nums[j] <= nums[p]
      decreases pos
    {
      pos := pos - 1;
    }
  }

  lemma SortedLength(arr: seq<int>)
    ensures |MergeSort.MergeSort(arr, CountInversions.Id)| == |arr|
  {
    MergeSortCorrect(arr, CountInversions.Id);
    assert |multiset(MergeSort.MergeSort(arr, CountInversions.Id))| == |multiset(arr)|;
  }

  /** The slice assignment nums[idx:] = tail, for a tail of the same length
      as the slice it replaces. */
  method AssignTail(nums: array<int>, idx: int, tail: seq<int>)
    requires 0 <= idx <= nums.Length && |tail| == nums.Length - idx
    modifies nums
    ensures nums[..] == old(nums[..idx]) + tail
  {
    forall k | idx <= k < nums.Length {
      nums[k] := tail[k - idx];
    }
  }

  /** The scan stops just past the last ascent. */
  lemma PivotIs(s: seq<int>, p: int)
    requires -1 <= p < |s| - 1
    requires p >= 0 ==> s[p] < s[p + 1]
    requires forall j :: p < j < |s| - 1 ==> s[j] >= s[j + 1]
    ensures Pivot(s) == p
  {
  }

  lemma ReversePermutation(s: seq<int>)
    ensures multiset(Reverse(s)) == multiset(s)
    decreases |s|
  {
    if |s| > 0 {
      var r := Reverse(s);
      assert r == Reverse(s[1..]) + [s[0]];
      ReversePermutation(s[1..]);
      assert s == [s[0]] + s[1..];
    }
  }

  /** Steps between adjacent elements add up along the whole list. */
  lemma {:induction false} NonIncreasingTail(s: seq<int>, p: int)
    requires -1 <= p < |s| && forall j :: p < j < |s| - 1 ==> s[j] >= s[j + 1]
    ensures forall i, j :: p < i < j < |s| ==> s[i] >= s[j]
    decreases |s| - p
  {
    if p + 1 < |s| {
      NonIncreasingTail(s, p + 1);
      forall i, j | p < i < j < |s|
        ensures s[i] >= s[j]
      {
        if i == p + 1 && j > p + 2 {
          assert s[p + 1] >= s[p + 2] >= s[j];
        }
      }
    }
  }

  /** After the swap and the sort, the list is the successor that
      NextAfterPivot describes. */
  lemma SwapThenSort(s: seq<int>, p: int, pos: int, swapped: seq<int>, t: seq<int>)
    requires 0 <= p < pos < |s| && s[p] < s[p + 1] && s[pos] > s[p]
    requires forall j :: p < j < |s| - 1 ==> s[j] >= s[j + 1]
    requires forall j :: pos < j < |s| ==> s[j] <= s[p]
    requires swapped == s[p := s[pos]][pos := s[p]]
    requires t == swapped[..p + 1] + MergeSort.MergeSort(swapped[p + 1..], CountInversions.Id)
    ensures Pivot(s) == p && NextAfterPivot(s, t, p)
  {
    PivotIs(s, p);
    MinimalAbove(s, p, pos);
    var tail := MergeSort.MergeSort(swapped[p + 1..], CountInversions.Id);
    SortedTail(swapped[p + 1..]);
    assert t[p + 1..] == tail;
    assert t[..p] == s[..p];
    assert t[p] == s[pos] == s[p + 1..][pos - p - 1];
    SwapSortPermutation(s, p, pos, swapped, tail, t);
  }

  /** The value the second loop finds is the smallest one in the tail above
      the pivot's. */
  lemma MinimalAbove(s: seq<int>, p: int, pos: int)
    requires 0 <= p < pos < |s| && s[pos] > s[p]
    requires forall j :: p < j < |s| - 1 ==> s[j] >= s[j + 1]
    requires forall j :: pos < j < |s| ==> s[j] <= s[p]
    ensures forall j :: p < j < |s| && s[j] > s[p] ==> s[pos] <= s[j]
  {
    NonIncreasingTail(s, p);
  }

  lemma SortedTail(x: seq<int>)
    ensures Sorted(MergeSort.MergeSort(x, CountInversions.Id), CountInversions.Id)
    ensures multiset(MergeSort.MergeSort(x, CountInversions.Id)) == multiset(x)
    ensures |MergeSort.MergeSort(x, CountInversions.Id)| == |x|
  {
    MergeSortCorrect(x, CountInversions.Id);
    SortedLength(x);
  }

  lemma SwapSortPermutation(s: seq<int>, p: int, pos: int, swapped: seq<int>, tail: seq<int>, t: seq<int>)
    requires 0 <= p < pos < |s| && swapped == s[p := s[pos]][pos := s[p]]
    requires multiset(tail) == multiset(swapped[p + 1..]) && t == swapped[..p + 1] + tail
    ensures multiset(t) == multiset(s)
  {
    calc {
      multiset(t);
      multiset(swapped[..p + 1]) + multiset(tail);
      multiset(swapped[..p + 1]) + multiset(swapped[p + 1..]);
      { assert swapped == swapped[..p + 1] + swapped[p + 1..]; }
      multiset(swapped);
      { SwapPermutation(s, p, pos); }
      multiset(s);
    }
  }

  lemma SwapPermutation(s: seq<int>, i: int, j: int)
    requires 0 <= i < j < |s|
    ensures multiset(s[i := s[j]][j := s[i]]) == multiset(s)
  {
    var t := s[i := s[j]][j := s[i]];
    assert s == s[..i] + [s[i]] + s[i + 1..j] + [s[j]] + s[j + 1..];
    assert t == s[..i] + [s[j]] + s[i + 1..j] + [s[i]] + s[j + 1..];
  }

  /** The successor is lexicographically greater. */
  lemma NextIsGreater(s: seq<int>, t: seq<int>)
    requires Pivot(s) >= 0 && NextAfterPivot(s, t, Pivot(s))
    ensures LexLess(s, t)
  {
    LexLessAt(s, t, Pivot(s));
  }

  /** Equal up to d and smaller at d means smaller in dictionary order. */
  lemma {:induction false} LexLessAt(a: seq<int>, b: seq<int>, d: int)
    requires 0 <= d < |a| && d < |b| && a[..d] == b[..d] && a[d] < b[d]
    ensures LexLess(a, b)
    decreases d
  {
    if d > 0 {
      assert a[0] == a[..d][0] == b[..d][0] == b[0];
      assert a[1..][..d - 1] == a[..d][1..] && b[1..][..d - 1] == b[..d][1..];
      LexLessAt(a[1..], b[1..], d - 1);
    }
  }

  /** The first difference of a lexicographically smaller list of the same
      length. */
  lemma {:induction false} FirstDifference(a: seq<int>, b: seq<int>) returns (d: int)
    requires |a| == |b| && LexLess(a, b)
    ensures 0 <= d < |a| && a[..d] == b[..d] && a[d] < b[d]
    decreases |a|
  {
    if a[0] < b[0] {
      d := 0;
    } else {
      var d' := FirstDifference(a[1..], b[1..]);
      d := d' + 1;
      assert a[..d] == [a[0]] + a[1..][..d'];
      assert b[..d] == [b[0]] + b[1..][..d'];
    }
  }

  /** A sorted list is the smallest arrangement of its values. */
  lemma {:induction false} SortedIsSmallest(a: seq<int>, b: seq<int>)
    requires Sorted(a, CountInversions.Id) && multiset(a) == multiset(b)
    ensures !LexLess(b, a)
    decreases |a|
  {
    if |a| > 0 && |b| > 0 {
      assert b[0] in multiset(a);
      var i := CountInversions.IndexOf(a, b[0]);
      assert CountInversions.Id(a[0]) <= CountInversions.Id(a[i]);
      if b[0] == a[0] {
        HeadTailMultiset(a);
        HeadTailMultiset(b);
        SortedIsSmallest(a[1..], b[1..]);
      }
    }
  }

  /** A non-increasing list is the largest arrangement of its values. */
  lemma {:induction false} NonIncreasingIsLargest(a: seq<int>, b: seq<int>)
    requires NonIncreasing(a) && multiset(a) == multiset(b)
    ensures !LexLess(a, b)
    decreases |a|
  {
    if |a| > 0 && |b| > 0 {
      assert b[0] in multiset(a);
      var i := CountInversions.IndexOf(a, b[0]);
      if b[0] == a[0] {
        HeadTailMultiset(a);
        HeadTailMultiset(b);
        NonIncreasingIsLargest(a[1..], b[1..]);
      }
    }
  }

  lemma HeadTailMultiset(s: seq<int>)
    requires |s| > 0
    ensures multiset(s[1..]) == multiset(s) - multiset{s[0]}
  {
    assert s == [s[0]] + s[1..];
  }

  /** Splitting two lists with equal multisets after the same prefix leaves
      equal multisets. */
  lemma SuffixPermutation(a: seq<int>, b: seq<int>, k: int)
    requires 0 <= k <= |a| && k <= |b| && multiset(a) == multiset(b) && a[..k] == b[..k]
    ensures multiset(a[k..]) == multiset(b[k..])
  {
    assert a == a[..k] + a[k..];
    assert b == b[..k] + b[k..];
    assert multiset(a[k..]) == multiset(a) - multiset(a[..k]);
    assert multiset(b[k..]) == multiset(b) - multiset(b[..k]);
  }

  /** No arrangement of the values lies strictly between s and its
      successor: t is the immediate successor of s. */
  lemma NextIsImmediate(s: seq<int>, t: seq<int>, u: seq<int>)
    requires Pivot(s) >= 0 && NextAfterPivot(s, t, Pivot(s))
    requires |u| == |s| && multiset(u) == multiset(s) && LexLess(s, u)
    ensures !LexLess(u, t)
  {
    var p := Pivot(s);
    var d := FirstDifference(s, u);
    if d < p {
      assert u[..d] == t[..d] by {
        assert u[..d] == s[..d] == s[..p][..d] == t[..p][..d] == t[..d];
      }
      assert t[d] == t[..p][d] == s[..p][d] == s[d];
      NotLexLessAt(u, t, d);
    } else if d > p {
      NonIncreasingTail(s, p);
      assert s[..p + 1] == s[..d][..p + 1] == u[..d][..p + 1] == u[..p + 1];
      SamePrefixNoGreater(s, u, p);
      assert false;
    } else {
      ImmediateAtPivot(s, t, u, p);
    }
  }

  /** Keeping s[..p + 1] and a non-increasing rest, no arrangement of the
      values is greater than s. */
  lemma SamePrefixNoGreater(s: seq<int>, u: seq<int>, p: int)
    requires 0 <= p < |s| && |u| == |s| && multiset(u) == multiset(s)
    requires forall i, j :: p < i < j < |s| ==> s[i] >= s[j]
    requires s[..p + 1] == u[..p + 1]
    ensures !LexLess(s, u)
  {
    SuffixPermutation(s, u, p + 1);
    assert NonIncreasing(s[p + 1..]);
    NonIncreasingIsLargest(s[p + 1..], u[p + 1..]);
    NotLexLessTail(s, u, p);
  }

  /** An arrangement that first exceeds s at the pivot is at least t. */
  lemma ImmediateAtPivot(s: seq<int>, t: seq<int>, u: seq<int>, p: int)
    requires NextAfterPivot(s, t, p)
    requires |u| == |s| && multiset(u) == multiset(s)
    requires u[..p] == s[..p] && u[p] > s[p]
    ensures !LexLess(u, t)
  {
    assert u[..p] == t[..p];
    SuffixPermutation(s, u, p);
    SuffixPermutation(s, t, p);
    assert u[p] in multiset(s[p..]);
    var i := CountInversions.IndexOf(s[p..], u[p]);
    assert i > 0 && s[p + i] == u[p];
    if u[p] == t[p] {
      SameAtPivot(u, t, p);
    } else {
      assert t[p] < u[p];
      NotLexLessAt(u, t, p);
    }
  }

  /** Agreeing through p, with the same values after it and t's sorted,
      u is not below t. */
  lemma SameAtPivot(u: seq<int>, t: seq<int>, p: int)
    requires 0 <= p < |t| && |u| == |t| && u[..p] == t[..p] && u[p] == t[p]
    requires multiset(u[p..]) == multiset(t[p..]) && Sorted(t[p + 1..], CountInversions.Id)
    ensures !LexLess(u, t)
  {
    assert t[p..][1..] == t[p + 1..] && u[p..][1..] == u[p + 1..];
    HeadTailMultiset(t[p..]);
    HeadTailMultiset(u[p..]);
    SortedIsSmallest(t[p + 1..], u[p + 1..]);
    assert u[..p + 1] == u[..p] + [u[p]] && t[..p + 1] == t[..p] + [t[p]];
    NotLexLessTail(u, t, p);
  }

  /** Equal up to d and larger at d means not smaller. */
  lemma {:induction false} NotLexLessAt(a: seq<int>, b: seq<int>, d: int)
    requires 0 <= d < |a| && d < |b| && a[..d] == b[..d] && a[d] > b[d]
    ensures !LexLess(a, b)
  {
    LexLessAt(b, a, d);
    LexLessAsymmetric(b, a);
  }

  lemma {:induction false} LexLessAsymmetric(a: seq<int>, b: seq<int>)
    requires LexLess(a, b)
    ensures !LexLess(b, a)
    decreases |a|
  {
    if a[0] == b[0] {
      LexLessAsymmetric(a[1..], b[1..]);
    }
  }

  /** Equal through p, and the rest of a not smaller than the rest of b,
      means a is not smaller than b. */
  lemma {:induction false} NotLexLessTail(a: seq<int>, b: seq<int>, p: int)
    requires 0 <= p < |a| && p < |b| && a[..p + 1] == b[..p + 1] && !LexLess(a[p + 1..], b[p + 1..])
    ensures !LexLess(a, b)
    decreases p
  {
    assert a[0] == a[..p + 1][0] == b[..p + 1][0] == b[0];
    if p > 0 {
      assert a[1..][..p] == a[..p + 1][1..] && b[1..][..p] == b[..p + 1][1..];
      assert a[1..][p..] == a[p + 1..] && b[1..][p..] == b[p + 1..];
      NotLexLessTail(a[1..], b[1..], p - 1);
    } else {
      assert a[1..] == a[p + 1..] && b[1..] == b[p + 1..];
    }
  }

  /** Without an ascent the list is the largest arrangement, and wrapping
      round gives the smallest one. */
  lemma WrapIsSmallest(s: seq<int>, u: seq<int>)
    requires Pivot(s) < 0 && multiset(u) == multiset(s)
    ensures NonIncreasing(s) && !LexLess(s, u)
    ensures Sorted(Reverse(s), CountInversions.Id) && !LexLess(u, Reverse(s))
  {
    NonIncreasingTail(s, -1);
    NonIncreasingIsLargest(s, u);
    ReversePermutation(s);
    SortedIsSmallest(Reverse(s), u);
  }
}
