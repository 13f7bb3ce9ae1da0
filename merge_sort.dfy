/** sorting/merge_sort.py: top-down merge sort. The elements are generalised
    from ints to any T ordered by an integer key, so that stability (ties
    keep their input order) can be stated; a plain list of ints is the case
    where the key is the value itself. */
module MergeSort {
  import opened Common

  /** Keys never decrease along s. */
  predicate Sorted<T>(s: seq<T>, key: T -> int)
  {
    forall i, j :: 0 <= i < j < |s| ==> key(s[i]) <= key(s[j])
  }

  /** The elements of s whose key is k, in their order in s. */
  function WithKey<T>(s: seq<T>, key: T -> int, k: int): seq<T>
  {
    if |s| == 0 then []
    else (if key(s[0]) == k then [s[0]] else []) + WithKey(s[1..], key, k)
  }

  /** What merge(left, right) returns: the smaller head goes first, and on a
      tie the left one. */
  function Merged<T>(left: seq<T>, right: seq<T>, key: T -> int): seq<T>
    decreases |left| + |right|
  {
    if |left| == 0 then right
    else if |right| == 0 then left
    else if key(left[0]) <= key(right[0]) then [left[0]] + Merged(left[1..], right, key)
    else [right[0]] + Merged(left, right[1..], key)
  }

  /** merge: the two-index loop, then the leftovers of both lists. */
  method Merge<T>(left: seq<T>, right: seq<T>, key: T -> int) returns (result: seq<T>)
    ensures result == Merged(left, right, key)
  {
    var leftIdx, rightIdx := 0, 0;
    result := [];
    while leftIdx < |left| && rightIdx < |right|
      invariant 0 <= leftIdx <= |left| && 0 <= rightIdx <= |right|
      invariant result + Merged(left[leftIdx..], right[rightIdx..], key) == Merged(left, right, key)
      decreases |left| + |right| - leftIdx - rightIdx
    {
      var leftVal, rightVal := left[leftIdx], right[rightIdx];
      MergedStep(left[leftIdx..], right[rightIdx..], key);
      assert left[leftIdx..][1..] == left[leftIdx + 1..];
      assert right[rightIdx..][1..] == right[rightIdx + 1..];
      ghost var rest := Merged(left[leftIdx..], right[rightIdx..], key);
      if key(leftVal) <= key(rightVal) {
        ghost var rest' := Merged(left[leftIdx + 1..], right[rightIdx..], key);
        assert rest == [leftVal] + rest';
        AppendShift(result, leftVal, rest');
        result := result + [leftVal];
        leftIdx := leftIdx + 1;
      } else {
        ghost var rest' := Merged(left[leftIdx..], right[rightIdx + 1..], key);
        assert rest == [rightVal] + rest';
        AppendShift(result, rightVal, rest');
        result := result + [rightVal];
        rightIdx := rightIdx + 1;
      }
    }
    assert Merged(left[leftIdx..], right[rightIdx..], key) == left[leftIdx..] + right[rightIdx..];
    ConcatAssoc(result, left[leftIdx..], right[rightIdx..]);
    result := result + left[leftIdx..];
    result := result + right[rightIdx..];
  }

  lemma AppendShift<T>(a: seq<T>, x: T, b: seq<T>)
    ensures a + [x] + b == a + ([x] + b)
  {
  }

  lemma MergedStep<T>(left: seq<T>, right: seq<T>, key: T -> int)
    requires |left| > 0 && |right| > 0
    ensures Merged(left, right, key) == if key(left[0]) <= key(right[0])
      then [left[0]] + Merged(left[1..], right, key)
      else [right[0]] + Merged(left, right[1..], key)
  {
  }

  /** What merge_sort(arr) returns. */
  function MergeSort<T>(arr: seq<T>, key: T -> int): seq<T>
    decreases |arr|
  {
    if |arr| <= 1 then arr
    else
      var mid := |arr| / 2;
      Merged(MergeSort(arr[..mid], key), MergeSort(arr[mid..], key), key)
  }

  /** The merge neither loses nor invents elements. */
  lemma {:induction false} MergedPermutation<T>(left: seq<T>, right: seq<T>, key: T -> int)
    ensures multiset(Merged(left, right, key)) == multiset(left) + multiset(right)
    decreases |left| + |right|
  {
    if |left| > 0 && |right| > 0 {
      MergedStep(left, right, key);
      if key(left[0]) <= key(right[0]) {
        MergedPermutation(left[1..], right, key);
        HeadTail(left);
      } else {
        MergedPermutation(left, right[1..], key);
        HeadTail(right);
      }
    }
  }

  lemma HeadTail<T>(s: seq<T>)
    requires |s| > 0
    ensures multiset(s) == multiset{s[0]} + multiset(s[1..])
  {
    assert s == [s[0]] + s[1..];
  }

  /** Two sorted lists merge into a sorted list, which starts with one of
      their heads. */
  lemma {:induction false} MergedSorted<T>(left: seq<T>, right: seq<T>, key: T -> int)
    requires Sorted(left, key) && Sorted(right, key)
    ensures Sorted(Merged(left, right, key), key)
    ensures |Merged(left, right, key)| == |left| + |right|
    ensures |left| > 0 && |right| > 0 ==> Merged(left, right, key)[0] in {left[0], right[0]}
    decreases |left| + |right|
  {
    if |left| > 0 && |right| > 0 {
      var m: seq<T>;
      if key(left[0]) <= key(right[0]) {
        m := Merged(left[1..], right, key);
        MergedSorted(left[1..], right, key);
        if |m| > 0 {
          assert |left| > 1 ==> key(left[0]) <= key(left[1]);
          assert key(left[0]) <= key(m[0]);
        }
        PrependSorted(left[0], m, key);
      } else {
        m := Merged(left, right[1..], key);
        MergedSorted(left, right[1..], key);
        if |m| > 0 {
          assert |right| > 1 ==> key(right[0]) <= key(right[1]);
          assert key(right[0]) <= key(m[0]);
        }
        PrependSorted(right[0], m, key);
      }
    }
  }

  lemma PrependSorted<T>(x: T, s: seq<T>, key: T -> int)
    requires Sorted(s, key) && (|s| > 0 ==> key(x) <= key(s[0]))
    ensures Sorted([x] + s, key)
  {
    var t := [x] + s;
    forall i, j | 0 <= i < j < |t|
      ensures key(t[i]) <= key(t[j])
    {
      if i == 0 && j > 1 {
        assert key(s[0]) <= key(s[j - 1]);
      }
    }
  }

  lemma WithKeyHead<T>(s: seq<T>, key: T -> int)
    requires |s| > 0
    ensures WithKey(s, key, key(s[0])) != []
  {
  }

  /** A sorted list whose head key is above k holds nothing with key k. */
  lemma {:induction false} WithKeyAbove<T>(s: seq<T>, key: T -> int, k: int)
    requires Sorted(s, key) && (|s| > 0 ==> key(s[0]) > k)
    ensures WithKey(s, key, k) == []
  {
    if |s| > 0 {
      assert |s| > 1 ==> key(s[0]) <= key(s[1]);
      WithKeyAbove(s[1..], key, k);
    }
  }

  lemma {:induction false} WithKeyConcat<T>(a: seq<T>, b: seq<T>, key: T -> int, k: int)
    ensures WithKey(a + b, key, k) == WithKey(a, key, k) + WithKey(b, key, k)
  {
    if |a| > 0 {
      assert (a + b)[0] == a[0] && (a + b)[1..] == a[1..] + b;
      WithKeyConcat(a[1..], b, key, k);
    } else {
      assert a + b == b;
    }
  }

  /** The merge is stable: among equal keys, the left list's elements come
      first, each list's in its own order. */
  lemma {:induction false} MergedStable<T>(left: seq<T>, right: seq<T>, key: T -> int, k: int)
    requires Sorted(left, key) && Sorted(right, key)
    ensures WithKey(Merged(left, right, key), key, k) == WithKey(left, key, k) + WithKey(right, key, k)
    decreases |left| + |right|
  {
    if |left| > 0 && |right| > 0 {
      if key(left[0]) <= key(right[0]) {
        MergedStable(left[1..], right, key, k);
        WithKeyConcat([left[0]], Merged(left[1..], right, key), key, k);
      } else {
        MergedStable(left, right[1..], key, k);
        WithKeyConcat([right[0]], Merged(left, right[1..], key), key, k);
        if key(right[0]) == k {
          WithKeyAbove(left, key, k);
        }
      }
    }
  }

  /** merge_sort returns a sorted permutation of its input that keeps
      equal keys in their input order; lists of length at most one come back
      as they are. */
  lemma {:induction false} MergeSortCorrect<T>(arr: seq<T>, key: T -> int)
    ensures Sorted(MergeSort(arr, key), key)
    ensures multiset(MergeSort(arr, key)) == multiset(arr)
    ensures forall k :: WithKey(MergeSort(arr, key), key, k) == WithKey(arr, key, k)
    ensures |arr| <= 1 ==> MergeSort(arr, key) == arr
    decreases |arr|
  {
    if |arr| > 1 {
      var mid := |arr| / 2;
      var l, r := MergeSort(arr[..mid], key), MergeSort(arr[mid..], key);
      MergeSortCorrect(arr[..mid], key);
      MergeSortCorrect(arr[mid..], key);
      MergedSorted(l, r, key);
      MergedPermutation(l, r, key);
      assert arr == arr[..mid] + arr[mid..];
      forall k
        ensures WithKey(MergeSort(arr, key), key, k) == WithKey(arr, key, k)
      {
        MergedStable(l, r, key, k);
        WithKeyConcat(arr[..mid], arr[mid..], key, k);
      }
    }
  }

  /** A sorted list that has, key by key, the same elements in the same order
      as arr is the one merge_sort returns: sorted and stable determine the
      output. */
  lemma {:induction false} StableSortUnique<T>(s: seq<T>, t: seq<T>, key: T -> int)
    requires Sorted(s, key) && Sorted(t, key)
    requires forall k :: WithKey(s, key, k) == WithKey(t, key, k)
    ensures s == t
    decreases |s| + |t|
  {
    if |s| == 0 || |t| == 0 {
      if |s| > 0 {
        WithKeyHead(s, key);
        assert false;
      } else if |t| > 0 {
        WithKeyHead(t, key);
        assert false;
      }
    } else {
      var ks, kt := key(s[0]), key(t[0]);
      if ks < kt {
        WithKeyAbove(t, key, ks);
        assert false;
      } else if kt < ks {
        WithKeyAbove(s, key, kt);
        assert false;
      } else {
        assert s[0] == WithKey(s, key, ks)[0] == WithKey(t, key, ks)[0] == t[0];
        forall k
          ensures WithKey(s[1..], key, k) == WithKey(t[1..], key, k)
        {
          if k == ks {
            assert WithKey(s, key, k) == [s[0]] + WithKey(s[1..], key, k);
            assert WithKey(t, key, k) == [t[0]] + WithKey(t[1..], key, k);
            assert WithKey(s[1..], key, k) == WithKey(s, key, k)[1..];
            assert WithKey(t[1..], key, k) == WithKey(t, key, k)[1..];
          } else {
            assert WithKey(s, key, k) == WithKey(s[1..], key, k);
            assert WithKey(t, key, k) == WithKey(t[1..], key, k);
          }
        }
        StableSortUnique(s[1..], t[1..], key);
        assert s == [s[0]] + s[1..] && t == [t[0]] + t[1..];
      }
    }
  }
}
