/** sorting/radix_sort.py: radix sorts of strings (by recursive bucketing on
    the character at a position, and by stable passes from the last position
    back to the first) and of ints (by stable passes over the 32 low bits).
    A string's bucket at a position is one more than the code of its
    character there, or 0 once the string has ended; there are
    ALPHABET_SZ + 1 buckets, so a character code of 256 or more makes the
    bucket index fall outside the list, where Python raises IndexError; the
    model returns None there. */
module RadixSort {
  import opened Common
  import LexOrder
  import MergeSort
  import PyInt

  const ALPHABET_SZ: nat := 256

  /** The bucket of s at position pos. */
  function Key(s: seq<char>, pos: nat): nat
  {
    if pos < |s| then s[pos] as nat + 1 else 0
  }

  /** Every string of arr has a bucket at pos (no IndexError there). */
  predicate Fits(arr: seq<seq<char>>, pos: nat)
  {
    forall x :: x in arr ==> Key(x, pos) <= ALPHABET_SZ
  }

  /** Some string of arr holds a character with code 256 or more. */
  predicate HasWide(arr: seq<seq<char>>)
  {
    exists x, k :: x in arr && 0 <= k < |x| && x[k] as int >= ALPHABET_SZ
  }

  /** The strings of arr in bucket b at pos, in their order in arr: what the
      distribution loop appends to buckets[b]. */
  function Bucket(arr: seq<seq<char>>, pos: nat, b: int): seq<seq<char>>
  {
    if |arr| == 0 then []
    else (if Key(arr[0], pos) == b then [arr[0]] else []) + Bucket(arr[1..], pos, b)
  }

  /** The strings of arr in buckets b and above, in their order in arr. */
  function Above(arr: seq<seq<char>>, pos: nat, b: int): seq<seq<char>>
  {
    if |arr| == 0 then []
    else (if Key(arr[0], pos) >= b then [arr[0]] else []) + Above(arr[1..], pos, b)
  }

  /** max(len(s) for s in arr), 0 for no strings. */
  function MaxLen(arr: seq<seq<char>>): nat
  {
    if |arr| == 0 then 0
    else if |arr[0]| >= MaxLen(arr[1..]) then |arr[0]| else MaxLen(arr[1..])
  }

  /** Every string of arr is at most bound long. */
  predicate Bounded(arr: seq<seq<char>>, bound: nat)
  {
    forall x :: x in arr ==> |x| <= bound
  }

  /** Positions left before bound: the recursion's measure. */
  function Room(pos: nat, bound: nat): nat
  {
    if pos <= bound then bound - pos else 0
  }

  // ----- radix_sort / radix_sort_wrapper -----

  /** radix_sort_wrapper(arr, pos): lists of at most one string come back
      as they are; otherwise the strings are bucketed at pos, every bucket
      but bucket 0 is sorted recursively at pos + 1, and the buckets are
      concatenated in order. The ghost bound on the string lengths only
      serves the termination argument. */
  function Wrapper(arr: seq<seq<char>>, pos: nat, ghost bound: nat): Option<seq<seq<char>>>
    requires Bounded(arr, bound)
    decreases Room(pos, bound), |arr|, 1, 0
  {
    if |arr| <= 1 then Some(arr)
    else if !Fits(arr, pos) then None
    else
      match SortBuckets(arr, pos, 1, bound)
      case None => None
      case Some(rest) => Some(Bucket(arr, pos, 0) + rest)
  }

  /** Buckets i..ALPHABET_SZ, each sorted recursively at pos + 1, one after
      another. */
  function SortBuckets(arr: seq<seq<char>>, pos: nat, i: nat, ghost bound: nat): Option<seq<seq<char>>>
    requires Bounded(arr, bound) && |arr| > 1 && 1 <= i <= ALPHABET_SZ + 1
    decreases Room(pos, bound), |arr|, 0, ALPHABET_SZ + 1 - i
  {
    if i == ALPHABET_SZ + 1 then Some([])
    else
      BucketShrinks(arr, pos, i, bound);
      match Wrapper(Bucket(arr, pos, i), pos + 1, bound)
      case None => None
      case Some(sorted) =>
        match SortBuckets(arr, pos, i + 1, bound)
        case None => None
        case Some(rest) => Some(sorted + rest)
  }

  /** radix_sort(arr). */
  function RadixSort(arr: seq<seq<char>>): Option<seq<seq<char>>>
  {
    MaxLenBounds(arr);
    Wrapper(arr, 0, MaxLen(arr))
  }

  // ----- facts about buckets -----

  lemma {:induction false} BucketMembers(arr: seq<seq<char>>, pos: nat, b: int)
    ensures forall x :: x in Bucket(arr, pos, b) ==> x in arr && Key(x, pos) == b
    ensures |Bucket(arr, pos, b)| <= |arr|
  {
    if |arr| > 0 {
      BucketMembers(arr[1..], pos, b);
    }
  }

  lemma {:induction false} AboveMembers(arr: seq<seq<char>>, pos: nat, b: int)
    ensures forall x :: x in Above(arr, pos, b) ==> x in arr && Key(x, pos) >= b
  {
    if |arr| > 0 {
      AboveMembers(arr[1..], pos, b);
    }
  }

  lemma {:induction false} MaxLenBounds(arr: seq<seq<char>>)
    ensures Bounded(arr, MaxLen(arr))
  {
    if |arr| > 0 {
      MaxLenBounds(arr[1..]);
    }
  }

  /** The recursion on a non-zero bucket makes progress: its strings are
      longer than pos, and it holds no more strings than arr. */
  lemma BucketShrinks(arr: seq<seq<char>>, pos: nat, i: nat, bound: nat)
    requires Bounded(arr, bound) && i >= 1
    ensures Bounded(Bucket(arr, pos, i), bound)
    ensures |Bucket(arr, pos, i)| > 0 ==> pos < bound
    ensures |Bucket(arr, pos, i)| <= |arr|
  {
    BucketMembers(arr, pos, i);
    if |Bucket(arr, pos, i)| > 0 {
      assert Bucket(arr, pos, i)[0] in Bucket(arr, pos, i);
    }
  }

  /** Splitting off bucket b from the buckets at or above it. */
  lemma {:induction false} AboveSplit(arr: seq<seq<char>>, pos: nat, b: int)
    ensures multiset(Above(arr, pos, b)) == multiset(Bucket(arr, pos, b)) + multiset(Above(arr, pos, b + 1))
  {
    if |arr| > 0 {
      AboveSplit(arr[1..], pos, b);
    }
  }

  lemma {:induction false} AboveAll(arr: seq<seq<char>>, pos: nat)
    ensures Above(arr, pos, 0) == arr
  {
    if |arr| > 0 {
      AboveAll(arr[1..], pos);
      assert arr == [arr[0]] + arr[1..];
    }
  }

  lemma {:induction false} AboveNone(arr: seq<seq<char>>, pos: nat)
    requires Fits(arr, pos)
    ensures Above(arr, pos, ALPHABET_SZ + 1) == []
  {
    if |arr| > 0 {
      assert arr[0] in arr;
      AboveNone(arr[1..], pos);
    }
  }

  // ----- radix_sort sorts -----

  /** Every string of arr starts with pre (the characters already bucketed
      on the way down). */
  predicate Prefixed(arr: seq<seq<char>>, pre: seq<char>)
  {
    forall x :: x in arr ==> |pre| <= |x| && x[..|pre|] == pre
  }

  /** r, if present, is a lexicographically sorted permutation of whole,
      and it is absent only when whole holds a wide character. */
  predicate SortedPermOf(r: Option<seq<seq<char>>>, whole: seq<seq<char>>)
  {
    (r.Some? ==> LexOrder.Sorted(r.value, false) && multiset(r.value) == multiset(whole)) &&
    (r.None? ==> HasWide(whole))
  }

  /** A bucket index past the end comes from a wide character. */
  lemma UnfitWide(arr: seq<seq<char>>, pos: nat)
    requires !Fits(arr, pos)
    ensures HasWide(arr)
  {
    var x :| x in arr && Key(x, pos) > ALPHABET_SZ;
    assert x[pos] as int >= ALPHABET_SZ;
  }

  /** A wide character in a part of arr is one in arr. */
  lemma WidePart(part: seq<seq<char>>, arr: seq<seq<char>>)
    requires HasWide(part) && multiset(part) <= multiset(arr)
    ensures HasWide(arr)
  {
    var x, k :| x in part && 0 <= k < |x| && x[k] as int >= ALPHABET_SZ;
    assert x in multiset(part);
    assert x in arr;
  }

  /** radix_sort_wrapper(arr, pos), below a common prefix of length pos,
      returns a lexicographically sorted permutation of arr. */
  lemma {:induction false} WrapperSorted(arr: seq<seq<char>>, pre: seq<char>, pos: nat, bound: nat)
    requires Prefixed(arr, pre) && pos == |pre| && Bounded(arr, bound)
    ensures SortedPermOf(Wrapper(arr, pos, bound), arr)
    decreases Room(pos, bound), |arr|, 1, 0, 0
  {
    if |arr| > 1 && !Fits(arr, pos) {
      UnfitWide(arr, pos);
    } else if |arr| > 1 {
      assert Level(arr, pre, pos, bound);
      SortBucketsSorted(arr, pre, pos, 1, bound);
      var r := SortBuckets(arr, pos, 1, bound);
      if r.Some? {
        ZeroFirst(arr, pre, r.value);
      } else {
        ZeroSplit(arr, pos);
        WidePart(Above(arr, pos, 1), arr);
      }
    }
  }

  /** Bucket 0 holds copies of the common prefix, which come before every
      longer string. */
  lemma ZeroFirst(arr: seq<seq<char>>, pre: seq<char>, rest: seq<seq<char>>)
    requires Prefixed(arr, pre)
    requires LexOrder.Sorted(rest, false) && multiset(rest) == multiset(Above(arr, |pre|, 1))
    ensures LexOrder.Sorted(Bucket(arr, |pre|, 0) + rest, false)
    ensures multiset(Bucket(arr, |pre|, 0) + rest) == multiset(arr)
  {
    var pos := |pre|;
    var zero := Bucket(arr, pos, 0);
    BucketMembers(arr, pos, 0);
    forall x | x in zero
      ensures x == pre
    {
      assert x == x[..pos];
    }
    LexOrder.Irreflexive(pre);
    assert LexOrder.Sorted(zero, false) by {
      forall i, j | 0 <= i < j < |zero|
        ensures LexOrder.InOrder(zero[i], zero[j], false)
      {
        assert zero[i] in zero && zero[j] in zero;
      }
    }
    AboveMembers(arr, pos, 1);
    forall x, y | x in zero && y in rest
      ensures LexOrder.InOrder(x, y, false)
    {
      assert y in multiset(rest);
      assert y in Above(arr, pos, 1);
      LexOrder.PrefixLess(pre, y);
      LexOrder.Asymmetric(pre, y);
    }
    LexOrder.SortedConcat(zero, rest, false);
    ZeroSplit(arr, pos);
    JoinPermutation(zero, rest, Above(arr, pos, 1), arr);
  }

  lemma ZeroSplit(arr: seq<seq<char>>, pos: nat)
    ensures multiset(arr) == multiset(Bucket(arr, pos, 0)) + multiset(Above(arr, pos, 1))
  {
    AboveSplit(arr, pos, 0);
    AboveAll(arr, pos);
  }

  lemma JoinPermutation(part: seq<seq<char>>, rest: seq<seq<char>>, tail: seq<seq<char>>, whole: seq<seq<char>>)
    requires multiset(rest) == multiset(tail)
    requires multiset(whole) == multiset(part) + multiset(tail)
    ensures multiset(part + rest) == multiset(whole)
  {
  }

  /** What the recursion below a common prefix pre keeps: every string
      starts with pre, is no longer than bound, and has a bucket at pos. */
  predicate Level(arr: seq<seq<char>>, pre: seq<char>, pos: nat, bound: nat)
  {
    Prefixed(arr, pre) && pos == |pre| && Bounded(arr, bound) && |arr| > 1 && Fits(arr, pos)
  }

  /** The buckets from i on, sorted and concatenated, are a sorted
      permutation of the strings in those buckets. */
  lemma {:induction false} SortBucketsSorted(arr: seq<seq<char>>, pre: seq<char>, pos: nat, i: nat, bound: nat)
    requires Level(arr, pre, pos, bound) && 1 <= i <= ALPHABET_SZ + 1
    ensures SortedPermOf(SortBuckets(arr, pos, i, bound), Above(arr, pos, i))
    decreases Room(pos, bound), |arr|, 0, ALPHABET_SZ + 1 - i, 2
  {
    if i == ALPHABET_SZ + 1 {
      SortBucketsEnd(arr, pos, bound);
    } else {
      SortBucketsFrom(arr, pre, pos, i, bound);
    }
  }

  lemma SortBucketsEnd(arr: seq<seq<char>>, pos: nat, bound: nat)
    requires Bounded(arr, bound) && |arr| > 1 && Fits(arr, pos)
    ensures SortedPermOf(SortBuckets(arr, pos, ALPHABET_SZ + 1, bound), Above(arr, pos, ALPHABET_SZ + 1))
  {
    AboveNone(arr, pos);
  }

  /** Bucket i, sorted, then the higher buckets. */
  lemma {:induction false} SortBucketsFrom(arr: seq<seq<char>>, pre: seq<char>, pos: nat, i: nat, bound: nat)
    requires Level(arr, pre, pos, bound) && 1 <= i <= ALPHABET_SZ
    ensures SortedPermOf(SortBuckets(arr, pos, i, bound), Above(arr, pos, i))
    decreases Room(pos, bound), |arr|, 0, ALPHABET_SZ + 1 - i, 1
  {
    BucketSorted(arr, pre, pos, i, bound);
    SortBucketsSorted(arr, pre, pos, i + 1, bound);
    SortBucketsJoin(arr, pre, pos, i, bound);
  }

  /** Bucket i >= 1, sorted one position further down. */
  lemma {:induction false} BucketSorted(arr: seq<seq<char>>, pre: seq<char>, pos: nat, i: nat, bound: nat)
    requires Level(arr, pre, pos, bound) && 1 <= i <= ALPHABET_SZ
    ensures Bounded(Bucket(arr, pos, i), bound)
    ensures SortedPermOf(Wrapper(Bucket(arr, pos, i), pos + 1, bound), Bucket(arr, pos, i))
    decreases Room(pos, bound), |arr|, 0, ALPHABET_SZ + 1 - i, 0
  {
    BucketShrinks(arr, pos, i, bound);
    var pre' := BucketPrefixed(arr, pre, i);
    WrapperSorted(Bucket(arr, pos, i), pre', pos + 1, bound);
  }

  /** One step of sort_buckets: bucket i sorted, then the rest. */
  lemma SortBucketsJoin(arr: seq<seq<char>>, pre: seq<char>, pos: nat, i: nat, bound: nat)
    requires Level(arr, pre, pos, bound) && 1 <= i <= ALPHABET_SZ
    requires Bounded(Bucket(arr, pos, i), bound)
    requires SortedPermOf(Wrapper(Bucket(arr, pos, i), pos + 1, bound), Bucket(arr, pos, i))
    requires SortedPermOf(SortBuckets(arr, pos, i + 1, bound), Above(arr, pos, i + 1))
    ensures SortedPermOf(SortBuckets(arr, pos, i, bound), Above(arr, pos, i))
  {
    BucketShrinks(arr, pos, i, bound);
    var w := Wrapper(Bucket(arr, pos, i), pos + 1, bound);
    var rest := SortBuckets(arr, pos, i + 1, bound);
    if w.Some? && rest.Some? {
      assert SortBuckets(arr, pos, i, bound) == Some(w.value + rest.value);
      BucketThenRest(arr, pre, i, w.value, rest.value);
    } else {
      assert SortBuckets(arr, pos, i, bound) == None;
      AboveSplit(arr, pos, i);
      if w.None? {
        WidePart(Bucket(arr, pos, i), Above(arr, pos, i));
      } else {
        WidePart(Above(arr, pos, i + 1), Above(arr, pos, i));
      }
    }
  }

  /** The strings of bucket i >= 1 share one more character. */
  lemma BucketPrefixed(arr: seq<seq<char>>, pre: seq<char>, i: nat) returns (pre': seq<char>)
    requires Prefixed(arr, pre) && 1 <= i <= ALPHABET_SZ
    ensures |pre'| == |pre| + 1 && Prefixed(Bucket(arr, |pre|, i), pre')
  {
    var pos := |pre|;
    BucketMembers(arr, pos, i);
    pre' := pre + [(i - 1) as char];
    forall x | x in Bucket(arr, pos, i)
      ensures |pre'| <= |x| && x[..|pre'|] == pre'
    {
      assert x[..pos + 1] == x[..pos] + [x[pos]];
    }
  }

  /** Bucket i, sorted, comes before the sorted higher buckets. */
  lemma BucketThenRest(arr: seq<seq<char>>, pre: seq<char>, i: nat, sorted: seq<seq<char>>, rest: seq<seq<char>>)
    requires Prefixed(arr, pre) && 1 <= i <= ALPHABET_SZ
    requires LexOrder.Sorted(sorted, false) && multiset(sorted) == multiset(Bucket(arr, |pre|, i))
    requires LexOrder.Sorted(rest, false) && multiset(rest) == multiset(Above(arr, |pre|, i + 1))
    ensures LexOrder.Sorted(sorted + rest, false)
    ensures multiset(sorted + rest) == multiset(Above(arr, |pre|, i))
  {
    var pos := |pre|;
    BucketMembers(arr, pos, i);
    AboveMembers(arr, pos, i + 1);
    forall x, y | x in sorted && y in rest
      ensures LexOrder.InOrder(x, y, false)
    {
      assert x in multiset(sorted);
      assert x in Bucket(arr, pos, i);
      assert y in multiset(rest);
      assert y in Above(arr, pos, i + 1);
      LexOrder.LessAt(x, y, pos);
      LexOrder.Asymmetric(x, y);
    }
    LexOrder.SortedConcat(sorted, rest, false);
    AboveSplit(arr, pos, i);
    JoinPermutation(sorted, rest, Above(arr, pos, i + 1), Above(arr, pos, i));
  }

  /** radix_sort returns a lexicographically sorted permutation of its
      input, and fails only on a character code of 256 or more. */
  lemma RadixSortCorrect(arr: seq<seq<char>>)
    ensures RadixSort(arr).Some? ==>
      LexOrder.Sorted(RadixSort(arr).value, false) && multiset(RadixSort(arr).value) == multiset(arr)
    ensures RadixSort(arr).None? ==> HasWide(arr)
  {
    MaxLenBounds(arr);
    WrapperSorted(arr, [], 0, MaxLen(arr));
  }

  // ----- radix_sort_iterative -----

  /** a comes before b by their buckets at positions k, k + 1, ..., L - 1,
      the first differing bucket deciding: the order that the passes from
      position L - 1 down to k establish. */
  predicate KeyLess(a: seq<char>, b: seq<char>, k: nat, L: nat)
    decreases L - k
  {
    if k >= L then false
    else if Key(a, k) != Key(b, k) then Key(a, k) < Key(b, k)
    else KeyLess(a, b, k + 1, L)
  }

  predicate KeySorted(arr: seq<seq<char>>, k: nat, L: nat)
  {
    forall p, q :: 0 <= p < q < |arr| ==> !KeyLess(arr[q], arr[p], k, L)
  }

  /** No string of arr holds a character code of 256 or more at a position
      from k on. */
  predicate NarrowFrom(arr: seq<seq<char>>, k: nat)
  {
    forall x, j :: x in arr && k <= j < |x| ==> x[j] as int < ALPHABET_SZ
  }

  /** s without its first k characters (empty once k passes its end). */
  function Drop(s: seq<char>, k: nat): seq<char>
  {
    if k <= |s| then s[k..] else []
  }

  /** For strings no longer than L, the bucket order from position k is
      the lexicographic order of what follows position k. */
  lemma {:induction false} KeyLessIsLess(a: seq<char>, b: seq<char>, k: nat, L: nat)
    requires |a| <= L && |b| <= L
    ensures KeyLess(a, b, k, L) == LexOrder.Less(Drop(a, k), Drop(b, k))
    decreases L - k
  {
    if k < L {
      KeyLessIsLess(a, b, k + 1, L);
      if k < |a| && k < |b| {
        assert Drop(a, k)[1..] == Drop(a, k + 1);
        assert Drop(b, k)[1..] == Drop(b, k + 1);
      }
    }
  }

  lemma KeySortedConcat(xs: seq<seq<char>>, ys: seq<seq<char>>, k: nat, L: nat)
    requires KeySorted(xs, k, L) && KeySorted(ys, k, L)
    requires forall x, y :: x in xs && y in ys ==> !KeyLess(y, x, k, L)
    ensures KeySorted(xs + ys, k, L)
  {
    var c := xs + ys;
    forall p, q | 0 <= p < q < |c|
      ensures !KeyLess(c[q], c[p], k, L)
    {
      if q < |xs| {
        assert c[p] == xs[p] && c[q] == xs[q];
      } else if p >= |xs| {
        assert c[p] == ys[p - |xs|] && c[q] == ys[q - |xs|];
      } else {
        assert c[p] in xs && c[q] in ys;
      }
    }
  }

  /** A bucket keeps the order of the list it was taken from. */
  lemma {:induction false} BucketKeySorted(arr: seq<seq<char>>, pos: nat, b: int, k: nat, L: nat)
    requires KeySorted(arr, k, L)
    ensures KeySorted(Bucket(arr, pos, b), k, L)
  {
    if |arr| > 0 {
      assert KeySorted(arr[1..], k, L) by {
        forall p, q | 0 <= p < q < |arr[1..]|
          ensures !KeyLess(arr[1..][q], arr[1..][p], k, L)
        {
          assert arr[1..][q] == arr[q + 1] && arr[1..][p] == arr[p + 1];
        }
      }
      BucketKeySorted(arr[1..], pos, b, k, L);
      BucketMembers(arr[1..], pos, b);
      forall x, y | x in [arr[0]] && y in Bucket(arr[1..], pos, b)
        ensures !KeyLess(y, x, k, L)
      {
        assert y in arr[1..];
        var q :| 0 <= q < |arr[1..]| && arr[1..][q] == y;
        assert arr[q + 1] == y;
      }
      if Key(arr[0], pos) == b {
        KeySortedConcat([arr[0]], Bucket(arr[1..], pos, b), k, L);
      }
    }
  }

  /** Bucket b, whose strings share their bucket at i, then the higher
      buckets: sorted from position i on. */
  lemma PassStep(a: seq<seq<char>>, i: nat, L: nat, b: nat, rest: seq<seq<char>>)
    requires i < L && KeySorted(a, i + 1, L)
    requires KeySorted(rest, i, L) && multiset(rest) == multiset(Above(a, i, b + 1))
    ensures KeySorted(Bucket(a, i, b) + rest, i, L)
    ensures multiset(Bucket(a, i, b) + rest) == multiset(Above(a, i, b))
  {
    var bk := Bucket(a, i, b);
    BucketKeySorted(a, i, b, i + 1, L);
    BucketMembers(a, i, b);
    assert KeySorted(bk, i, L) by {
      forall p, q | 0 <= p < q < |bk|
        ensures !KeyLess(bk[q], bk[p], i, L)
      {
        assert bk[p] in bk && bk[q] in bk;
      }
    }
    AboveMembers(a, i, b + 1);
    forall x, y | x in bk && y in rest
      ensures !KeyLess(y, x, i, L)
    {
      assert y in multiset(rest);
      assert y in Above(a, i, b + 1);
    }
    KeySortedConcat(bk, rest, i, L);
    AboveSplit(a, i, b);
    JoinPermutation(bk, rest, Above(a, i, b + 1), Above(a, i, b));
  }

  /** The buckets from b on, concatenated, are sorted from position i on. */
  lemma {:induction false} PassFrom(a: seq<seq<char>>, i: nat, L: nat, buckets: seq<seq<seq<char>>>, b: nat)
    requires i < L && KeySorted(a, i + 1, L) && Fits(a, i)
    requires |buckets| == ALPHABET_SZ + 1 && b <= ALPHABET_SZ + 1
    requires forall c :: 0 <= c <= ALPHABET_SZ ==> buckets[c] == Bucket(a, i, c)
    ensures KeySorted(LexOrder.Flatten(buckets[b..]), i, L)
    ensures multiset(LexOrder.Flatten(buckets[b..])) == multiset(Above(a, i, b))
    decreases ALPHABET_SZ + 1 - b
  {
    if b == ALPHABET_SZ + 1 {
      AboveNone(a, i);
    } else {
      PassFrom(a, i, L, buckets, b + 1);
      assert buckets[b..] == [buckets[b]] + buckets[b + 1..];
      PassStep(a, i, L, b, LexOrder.Flatten(buckets[b + 1..]));
    }
  }

  /** One pass at position i: a stable distribution into buckets, then
      their concatenation, sorts from position i on. */
  lemma PassSorted(a: seq<seq<char>>, i: nat, L: nat, buckets: seq<seq<seq<char>>>)
    requires i < L && KeySorted(a, i + 1, L) && Fits(a, i)
    requires |buckets| == ALPHABET_SZ + 1
    requires forall c :: 0 <= c <= ALPHABET_SZ ==> buckets[c] == Bucket(a, i, c)
    ensures KeySorted(LexOrder.Flatten(buckets), i, L)
    ensures multiset(LexOrder.Flatten(buckets)) == multiset(a)
  {
    PassFrom(a, i, L, buckets, 0);
    assert buckets[0..] == buckets;
    AboveAll(a, i);
  }

  lemma {:induction false} BucketSnoc(s: seq<seq<char>>, x: seq<char>, pos: nat, b: int)
    ensures Bucket(s + [x], pos, b) == Bucket(s, pos, b) + (if Key(x, pos) == b then [x] else [])
  {
    if |s| > 0 {
      BucketSnoc(s[1..], x, pos, b);
      assert (s + [x])[1..] == s[1..] + [x];
    }
  }

  /** The distribution loop of one pass: buckets[b] receives, in order, the
      strings whose bucket at pos is b; a bucket index past the end raises
      IndexError. */
  method Distribute(arr: seq<seq<char>>, pos: nat) returns (r: Option<seq<seq<seq<char>>>>)
    ensures r.None? <==> !Fits(arr, pos)
    ensures r.Some? ==> |r.value| == ALPHABET_SZ + 1
    ensures r.Some? ==> forall b :: 0 <= b <= ALPHABET_SZ ==> r.value[b] == Bucket(arr, pos, b)
  {
    var buckets: seq<seq<seq<char>>> := seq(ALPHABET_SZ + 1, _ => []);
    var j := 0;
    while j < |arr|
      invariant 0 <= j <= |arr|
      invariant |buckets| == ALPHABET_SZ + 1
      invariant forall b :: 0 <= b <= ALPHABET_SZ ==> buckets[b] == Bucket(arr[..j], pos, b)
      invariant Fits(arr[..j], pos)
    {
      var bucket := if pos < |arr[j]| then 1 + arr[j][pos] as int else 0;
      if bucket > ALPHABET_SZ {
        assert arr[j] in arr;
        return None;
      }
      forall b | 0 <= b <= ALPHABET_SZ
        ensures Bucket(arr[..j + 1], pos, b) == Bucket(arr[..j], pos, b) + (if bucket == b then [arr[j]] else [])
      {
        assert arr[..j + 1] == arr[..j] + [arr[j]];
        BucketSnoc(arr[..j], arr[j], pos, b);
      }
      assert arr[..j + 1] == arr[..j] + [arr[j]];
      buckets := buckets[bucket := buckets[bucket] + [arr[j]]];
      j := j + 1;
    }
    assert arr[..j] == arr;
    return Some(buckets);
  }

  /** reduce(lambda x, y: x + y, buckets). */
  method Concat(buckets: seq<seq<seq<char>>>) returns (out: seq<seq<char>>)
    ensures out == LexOrder.Flatten(buckets)
  {
    out := [];
    var b := 0;
    while b < |buckets|
      invariant 0 <= b <= |buckets|
      invariant out == LexOrder.Flatten(buckets[..b])
    {
      LexOrder.FlattenAppend(buckets[..b], [buckets[b]]);
      assert buckets[..b + 1] == buckets[..b] + [buckets[b]];
      out := out + buckets[b];
      b := b + 1;
    }
    assert buckets[..b] == buckets;
  }

  /** radix_sort_iterative: one stable bucketing pass per position, from
      the last position of the longest string back to the first. It fails
      exactly when some string holds a character code of 256 or more, and
      otherwise returns the same list as radix_sort. */
  method RadixSortIterative(arr: seq<seq<char>>) returns (r: Option<seq<seq<char>>>)
    ensures r.None? <==> HasWide(arr)
    ensures r.Some? ==> LexOrder.Sorted(r.value, false) && multiset(r.value) == multiset(arr)
    ensures r.Some? ==> r == RadixSort(arr)
  {
    if |arr| == 0 {
      RadixSortCorrect(arr);
      return Some(arr);
    }
    var maxLen := MaxLen(arr);
    MaxLenBounds(arr);
    var a := arr;
    var i: int := maxLen as int - 1;
    while i >= 0
      invariant -1 <= i < maxLen
      invariant multiset(a) == multiset(arr)
      invariant KeySorted(a, i + 1, maxLen)
      invariant NarrowFrom(arr, i + 1)
    {
      var next := Pass(a, i, maxLen);
      if next.None? {
        WideAt(arr, a, i);
        return None;
      }
      NarrowStep(arr, a, i);
      a := next.value;
      i := i - 1;
    }
    IterativeDone(arr, a, maxLen);
    r := Some(a);
  }

  /** The body of the loop at position i: distribute, then concatenate. */
  method Pass(a: seq<seq<char>>, i: nat, L: nat) returns (r: Option<seq<seq<char>>>)
    requires i < L && KeySorted(a, i + 1, L)
    ensures r.None? <==> !Fits(a, i)
    ensures r.Some? ==> KeySorted(r.value, i, L) && multiset(r.value) == multiset(a)
  {
    var buckets := Distribute(a, i);
    if buckets.None? {
      return None;
    }
    PassSorted(a, i, L, buckets.value);
    var out := Concat(buckets.value);
    return Some(out);
  }

  /** A failed pass at i saw a wide character of some input string. */
  lemma WideAt(arr: seq<seq<char>>, a: seq<seq<char>>, i: nat)
    requires multiset(a) == multiset(arr) && !Fits(a, i)
    ensures HasWide(arr)
  {
    var x :| x in a && Key(x, i) > ALPHABET_SZ;
    assert x in multiset(a);
    assert x in arr && x[i] as int >= ALPHABET_SZ;
  }

  /** A successful pass at i saw no wide character at i. */
  lemma NarrowStep(arr: seq<seq<char>>, a: seq<seq<char>>, i: nat)
    requires multiset(a) == multiset(arr) && Fits(a, i) && NarrowFrom(arr, i + 1)
    ensures NarrowFrom(arr, i)
  {
    forall x, j | x in arr && i <= j < |x|
      ensures x[j] as int < ALPHABET_SZ
    {
      if j == i {
        assert x in multiset(arr);
        assert x in a;
        assert Key(x, i) <= ALPHABET_SZ;
      }
    }
  }

  /** After the pass at position 0 the list is lexicographically sorted,
      hence it is radix_sort's result. */
  lemma IterativeDone(arr: seq<seq<char>>, a: seq<seq<char>>, L: nat)
    requires |arr| > 0 && L == MaxLen(arr)
    requires multiset(a) == multiset(arr) && KeySorted(a, 0, L) && NarrowFrom(arr, 0)
    ensures !HasWide(arr)
    ensures LexOrder.Sorted(a, false)
    ensures Some(a) == RadixSort(arr)
  {
    MaxLenBounds(arr);
    forall p, q | 0 <= p < q < |a|
      ensures LexOrder.InOrder(a[p], a[q], false)
    {
      assert a[p] in multiset(arr) && a[q] in multiset(arr);
      KeyLessIsLess(a[q], a[p], 0, L);
    }
    RadixSortCorrect(arr);
    LexOrder.SortedUnique(a, RadixSort(arr).value, false);
  }

  // ----- radix_sort_int32 -----

  /** Bit i of v's two's-complement expansion (0 or 1). */
  function Bit(i: nat, v: int): int
  {
    (v / PyInt.Pow2(i)) % 2
  }

  /** v's low i bits, as a non-negative number: v mod 2**i. */
  function Low(i: nat, v: int): int
  {
    v % PyInt.Pow2(i)
  }

  function BitKey(i: nat): int -> int
  {
    v => Bit(i, v)
  }

  function LowKey(i: nat): int -> int
  {
    v => Low(i, v)
  }

  /** The bucket expression (val & (1 << i)) >> i is bit i of val. */
  lemma BucketIsBit(v: int, i: nat)
    ensures PyInt.ShiftRight(PyInt.And(v, PyInt.ShiftLeft(1, i)), i) == Bit(i, v)
    ensures Bit(i, v) == 0 || Bit(i, v) == 1
  {
    var p := PyInt.Pow2(i);
    var b := (v / p) % 2;
    PyInt.AndPow2(v, i);
    assert PyInt.ShiftLeft(1, i) == p;
    PyInt.DivUnique(p * b, p, b, 0);
  }

  /** The low i + 1 bits are bit i above the low i bits. */
  lemma LowSplit(v: int, i: nat)
    ensures Low(i + 1, v) == Bit(i, v) * PyInt.Pow2(i) + Low(i, v)
    ensures 0 <= Low(i, v) < PyInt.Pow2(i)
  {
    var p := PyInt.Pow2(i);
    var q, r := v / p, v % p;
    assert PyInt.Pow2(i + 1) == 2 * p;
    assert v == p * q + r;
    assert q == 2 * (q / 2) + q % 2;
    assert p * q == (2 * p) * (q / 2) + p * (q % 2);
    PyInt.ModUnique(v, 2 * p, q / 2, p * (q % 2) + r);
  }

  /** k in [0, 2p) is b * p + l, for a bit b and l in [0, p), exactly when
      b and l are k's quotient and remainder by p. */
  lemma Decompose(p: int, b: int, l: int, k: int)
    requires p > 0 && (b == 0 || b == 1) && 0 <= l < p && 0 <= k < 2 * p
    ensures b * p + l == k <==> b == k / p && l == k % p
  {
    if b * p + l == k {
      PyInt.DivUnique(k, p, b, l);
      PyInt.ModUnique(k, p, b, l);
    }
  }

  /** A key k of the low i + 1 bits is met exactly by the values whose bit i
      is k // 2**i and whose low i bits are k % 2**i. */
  lemma LowKeyMeets(v: int, i: nat, k: int)
    requires 0 <= k < PyInt.Pow2(i + 1)
    ensures Low(i + 1, v) == k <==> Bit(i, v) == k / PyInt.Pow2(i) && Low(i, v) == k % PyInt.Pow2(i)
  {
    assert PyInt.Pow2(i + 1) == 2 * PyInt.Pow2(i);
    LowSplit(v, i);
    BucketIsBit(v, i);
    Decompose(PyInt.Pow2(i), Bit(i, v), Low(i, v), k);
  }

  /** Filtering by key h is filtering by key f then by key g, when h meets
      k exactly where f meets k1 and g meets k2. */
  lemma {:induction false} WithKeyNested(s: seq<int>, f: int -> int, g: int -> int, h: int -> int, k1: int, k2: int, k: int)
    requires forall j :: 0 <= j < |s| ==> (h(s[j]) == k <==> f(s[j]) == k1 && g(s[j]) == k2)
    ensures MergeSort.WithKey(s, h, k) == MergeSort.WithKey(MergeSort.WithKey(s, f, k1), g, k2)
  {
    if |s| > 0 {
      WithKeyNested(s[1..], f, g, h, k1, k2, k);
      var head := if f(s[0]) == k1 then [s[0]] else [];
      MergeSort.WithKeyConcat(head, MergeSort.WithKey(s[1..], f, k1), g, k2);
      assert [s[0]][1..] == [];
    }
  }

  /** Two filters commute. */
  lemma {:induction false} WithKeyCommute(s: seq<int>, f: int -> int, g: int -> int, a: int, b: int)
    ensures MergeSort.WithKey(MergeSort.WithKey(s, f, a), g, b) == MergeSort.WithKey(MergeSort.WithKey(s, g, b), f, a)
  {
    if |s| > 0 {
      WithKeyCommute(s[1..], f, g, a, b);
      MergeSort.WithKeyConcat(if f(s[0]) == a then [s[0]] else [], MergeSort.WithKey(s[1..], f, a), g, b);
      MergeSort.WithKeyConcat(if g(s[0]) == b then [s[0]] else [], MergeSort.WithKey(s[1..], g, b), f, a);
      assert [s[0]][1..] == [];
    }
  }

  /** Filtering by a key no element meets leaves nothing. */
  lemma {:induction false} WithKeyNone(s: seq<int>, key: int -> int, k: int)
    requires forall j :: 0 <= j < |s| ==> key(s[j]) != k
    ensures MergeSort.WithKey(s, key, k) == []
  {
    if |s| > 0 {
      WithKeyNone(s[1..], key, k);
    }
  }

  /** Filtering twice by the same key changes nothing more. */
  lemma {:induction false} WithKeyTwice(s: seq<int>, key: int -> int, k: int, k': int)
    ensures MergeSort.WithKey(MergeSort.WithKey(s, key, k), key, k') ==
      (if k == k' then MergeSort.WithKey(s, key, k) else [])
  {
    if |s| > 0 {
      WithKeyTwice(s[1..], key, k, k');
      MergeSort.WithKeyConcat(if key(s[0]) == k then [s[0]] else [], MergeSort.WithKey(s[1..], key, k), key, k');
      assert [s[0]][1..] == [];
    }
  }

  /** Every element of a filter meets its key, and keeps any lower bound
      on another key that all of the list's elements have. */
  lemma {:induction false} WithKeyMembers(s: seq<int>, key: int -> int, k: int, order: int -> int, m: int)
    requires forall j :: 0 <= j < |s| ==> order(s[j]) >= m
    ensures forall j :: 0 <= j < |MergeSort.WithKey(s, key, k)| ==>
      key(MergeSort.WithKey(s, key, k)[j]) == k && order(MergeSort.WithKey(s, key, k)[j]) >= m
  {
    if |s| > 0 {
      WithKeyMembers(s[1..], key, k, order, m);
    }
  }

  /** A filter of a list sorted by some key is sorted by it. */
  lemma {:induction false} WithKeySorted(s: seq<int>, key: int -> int, k: int, order: int -> int)
    requires MergeSort.Sorted(s, order)
    ensures MergeSort.Sorted(MergeSort.WithKey(s, key, k), order)
  {
    if |s| > 0 {
      assert MergeSort.Sorted(s[1..], order) by {
        forall p, q | 0 <= p < q < |s[1..]|
          ensures order(s[1..][p]) <= order(s[1..][q])
        {
          assert s[1..][p] == s[p + 1] && s[1..][q] == s[q + 1];
        }
      }
      WithKeySorted(s[1..], key, k, order);
      if key(s[0]) == k {
        assert forall j :: 0 <= j < |s[1..]| ==> order(s[1..][j]) >= order(s[0]) by {
          forall j | 0 <= j < |s[1..]|
            ensures order(s[1..][j]) >= order(s[0])
          {
            assert s[1..][j] == s[j + 1];
          }
        }
        WithKeyMembers(s[1..], key, k, order, order(s[0]));
        MergeSort.PrependSorted(s[0], MergeSort.WithKey(s[1..], key, k), order);
      }
    }
  }

  /** A bucket of the pass at bit i, taken from a list sorted by the low i
      bits, is sorted by the low i + 1 bits, which all lie in the bucket's
      half of [0, 2**(i + 1)). */
  lemma BucketLow(a: seq<int>, i: nat, b: int)
    requires MergeSort.Sorted(a, LowKey(i)) && (b == 0 || b == 1)
    ensures MergeSort.Sorted(MergeSort.WithKey(a, BitKey(i), b), LowKey(i + 1))
    ensures forall j :: 0 <= j < |MergeSort.WithKey(a, BitKey(i), b)| ==>
      b * PyInt.Pow2(i) <= LowKey(i + 1)(MergeSort.WithKey(a, BitKey(i), b)[j]) < (b + 1) * PyInt.Pow2(i)
  {
    var p := PyInt.Pow2(i);
    var bk := MergeSort.WithKey(a, BitKey(i), b);
    WithKeySorted(a, BitKey(i), b, LowKey(i));
    WithKeyMembers(a, BitKey(i), b, LowKey(i), 0);
    forall j | 0 <= j < |bk|
      ensures Low(i + 1, bk[j]) == b * p + Low(i, bk[j]) < (b + 1) * p
    {
      LowSplit(bk[j], i);
    }
    forall m, n | 0 <= m < n < |bk|
      ensures LowKey(i + 1)(bk[m]) <= LowKey(i + 1)(bk[n])
    {
      assert LowKey(i)(bk[m]) <= LowKey(i)(bk[n]);
    }
  }

  /** Two sorted lists, every key of the first below m and every key of the
      second at least m: their concatenation is sorted. */
  lemma SortedSeparated(x: seq<int>, y: seq<int>, key: int -> int, m: int)
    requires MergeSort.Sorted(x, key) && MergeSort.Sorted(y, key)
    requires forall j :: 0 <= j < |x| ==> key(x[j]) < m
    requires forall j :: 0 <= j < |y| ==> key(y[j]) >= m
    ensures MergeSort.Sorted(x + y, key)
  {
    var c := x + y;
    forall p, q | 0 <= p < q < |c|
      ensures key(c[p]) <= key(c[q])
    {
      if q < |x| {
        assert c[p] == x[p] && c[q] == x[q];
      } else if p >= |x| {
        assert c[p] == y[p - |x|] && c[q] == y[q - |x|];
      } else {
        assert c[p] == x[p] && c[q] == y[q - |x|];
      }
    }
  }

  /** The two bucket lists of the pass at bit i: sorted by the low i bits,
      the zeros then the ones are sorted by the low i + 1 bits. */
  lemma PassBitSorted(a: seq<int>, i: nat, b0: seq<int>, b1: seq<int>)
    requires MergeSort.Sorted(a, LowKey(i))
    requires b0 == MergeSort.WithKey(a, BitKey(i), 0) && b1 == MergeSort.WithKey(a, BitKey(i), 1)
    ensures MergeSort.Sorted(b0 + b1, LowKey(i + 1))
  {
    BucketLow(a, i, 0);
    BucketLow(a, i, 1);
    SortedSeparated(b0, b1, LowKey(i + 1), PyInt.Pow2(i));
  }

  /** Filtering the concatenated buckets by bit i gives back that bucket. */
  lemma BucketsRefilter(a: seq<int>, i: nat, b0: seq<int>, b1: seq<int>, k2: int)
    requires b0 == MergeSort.WithKey(a, BitKey(i), 0) && b1 == MergeSort.WithKey(a, BitKey(i), 1)
    ensures MergeSort.WithKey(b0 + b1, BitKey(i), k2) == MergeSort.WithKey(a, BitKey(i), k2)
  {
    MergeSort.WithKeyConcat(b0, b1, BitKey(i), k2);
    WithKeyTwice(a, BitKey(i), 0, k2);
    WithKeyTwice(a, BitKey(i), 1, k2);
    if k2 != 0 && k2 != 1 {
      forall j | 0 <= j < |a|
        ensures BitKey(i)(a[j]) != k2
      {
        BucketIsBit(a[j], i);
      }
      WithKeyNone(a, BitKey(i), k2);
    }
  }

  /** The pass at bit i keeps, key by key of the low i + 1 bits, the order
      the input had. */
  lemma PassBitStable(arr: seq<int>, a: seq<int>, i: nat, b0: seq<int>, b1: seq<int>, k: int)
    requires MergeSort.WithKey(a, LowKey(i), k % PyInt.Pow2(i)) == MergeSort.WithKey(arr, LowKey(i), k % PyInt.Pow2(i))
    requires b0 == MergeSort.WithKey(a, BitKey(i), 0) && b1 == MergeSort.WithKey(a, BitKey(i), 1)
    ensures MergeSort.WithKey(b0 + b1, LowKey(i + 1), k) == MergeSort.WithKey(arr, LowKey(i + 1), k)
  {
    var p := PyInt.Pow2(i);
    var c := b0 + b1;
    if 0 <= k < PyInt.Pow2(i + 1) {
      var k2, k1 := k / p, k % p;
      forall j | 0 <= j < |c|
        ensures LowKey(i + 1)(c[j]) == k <==> BitKey(i)(c[j]) == k2 && LowKey(i)(c[j]) == k1
      {
        LowKeyMeets(c[j], i, k);
      }
      forall j | 0 <= j < |arr|
        ensures LowKey(i + 1)(arr[j]) == k <==> BitKey(i)(arr[j]) == k2 && LowKey(i)(arr[j]) == k1
      {
        LowKeyMeets(arr[j], i, k);
      }
      WithKeyNested(c, BitKey(i), LowKey(i), LowKey(i + 1), k2, k1, k);
      WithKeyNested(arr, BitKey(i), LowKey(i), LowKey(i + 1), k2, k1, k);
      BucketsRefilter(a, i, b0, b1, k2);
      WithKeyCommute(a, BitKey(i), LowKey(i), k2, k1);
      WithKeyCommute(arr, BitKey(i), LowKey(i), k2, k1);
    } else {
      forall j | 0 <= j < |c|
        ensures LowKey(i + 1)(c[j]) != k
      {
        LowSplit(c[j], i - 0);
        LowBound(c[j], i + 1);
      }
      forall j | 0 <= j < |arr|
        ensures LowKey(i + 1)(arr[j]) != k
      {
        LowBound(arr[j], i + 1);
      }
      WithKeyNone(c, LowKey(i + 1), k);
      WithKeyNone(arr, LowKey(i + 1), k);
    }
  }

  lemma LowBound(v: int, i: nat)
    ensures 0 <= Low(i, v) < PyInt.Pow2(i)
  {
  }

  lemma {:induction false} BitsPermutation(a: seq<int>, i: nat)
    ensures multiset(MergeSort.WithKey(a, BitKey(i), 0)) + multiset(MergeSort.WithKey(a, BitKey(i), 1)) == multiset(a)
  {
    if |a| > 0 {
      BitsPermutation(a[1..], i);
      BucketIsBit(a[0], i);
      assert a == [a[0]] + a[1..];
    }
  }

  /** The distribution loop of one pass: the values whose bit i is 0, then
      those whose bit i is 1, each in input order. */
  method DistributeBit(arr: seq<int>, i: nat) returns (b0: seq<int>, b1: seq<int>)
    ensures b0 == MergeSort.WithKey(arr, BitKey(i), 0)
    ensures b1 == MergeSort.WithKey(arr, BitKey(i), 1)
  {
    var buckets: seq<seq<int>> := [[], []];
    var j := 0;
    while j < |arr|
      invariant 0 <= j <= |arr| && |buckets| == 2
      invariant buckets[0] == MergeSort.WithKey(arr[..j], BitKey(i), 0)
      invariant buckets[1] == MergeSort.WithKey(arr[..j], BitKey(i), 1)
    {
      var v := arr[j];
      var bucket := PyInt.ShiftRight(PyInt.And(v, PyInt.ShiftLeft(1, i)), i);
      BucketIsBit(v, i);
      assert arr[..j + 1] == arr[..j] + [v];
      MergeSort.WithKeyConcat(arr[..j], [v], BitKey(i), 0);
      MergeSort.WithKeyConcat(arr[..j], [v], BitKey(i), 1);
      assert [v][1..] == [];
      buckets := buckets[bucket := buckets[bucket] + [v]];
      j := j + 1;
    }
    assert arr[..j] == arr;
    b0, b1 := buckets[0], buckets[1];
  }

  /** radix_sort_int32: 32 stable passes over bits 0 to 31. The result is
      the stable sort of arr by v mod 2**32 (the unsigned 32-bit view of
      v), which is what merge_sort returns with that key; values in
      [0, 2**32) come out ascending. */
  method RadixSortInt32(arr: seq<int>) returns (r: seq<int>)
    ensures MergeSort.Sorted(r, LowKey(32)) && multiset(r) == multiset(arr)
    ensures r == MergeSort.MergeSort(arr, LowKey(32))
    ensures (forall v :: v in arr ==> 0 <= v < PyInt.WORD) ==>
      forall p, q :: 0 <= p < q < |r| ==> r[p] <= r[q]
  {
    if |arr| == 0 {
      return arr;
    }
    var a := arr;
    for i := 0 to 32
      invariant multiset(a) == multiset(arr)
      invariant MergeSort.Sorted(a, LowKey(i))
      invariant forall k :: MergeSort.WithKey(a, LowKey(i), k) == MergeSort.WithKey(arr, LowKey(i), k)
    {
      var b0, b1 := DistributeBit(a, i);
      PassBitSorted(a, i, b0, b1);
      ghost var c, next := b0 + b1, LowKey(i + 1);
      forall k
        ensures MergeSort.WithKey(c, next, k) == MergeSort.WithKey(arr, next, k)
      {
        PassBitStable(arr, a, i, b0, b1, k);
      }
      BitsPermutation(a, i);
      a := b0 + b1;
    }
    Int32Sorted(arr, a);
    Int32Ascending(arr, a);
    r := a;
  }

  /** After bit 31 the list is the stable sort by the low 32 bits. */
  lemma Int32Sorted(arr: seq<int>, a: seq<int>)
    requires MergeSort.Sorted(a, LowKey(32))
    requires forall k :: MergeSort.WithKey(a, LowKey(32), k) == MergeSort.WithKey(arr, LowKey(32), k)
    ensures a == MergeSort.MergeSort(arr, LowKey(32))
  {
    MergeSort.MergeSortCorrect(arr, LowKey(32));
    MergeSort.StableSortUnique(a, MergeSort.MergeSort(arr, LowKey(32)), LowKey(32));
  }

  /** Values in [0, 2**32) are their own low 32 bits, so sorted by those
      bits is ascending. */
  lemma Int32Ascending(arr: seq<int>, a: seq<int>)
    requires multiset(a) == multiset(arr) && MergeSort.Sorted(a, LowKey(32))
    ensures (forall v :: v in arr ==> 0 <= v < PyInt.WORD) ==>
      forall p, q :: 0 <= p < q < |a| ==> a[p] <= a[q]
  {
    PyInt.Pow2Word();
    if forall v :: v in arr ==> 0 <= v < PyInt.WORD {
      forall p, q | 0 <= p < q < |a|
        ensures a[p] <= a[q]
      {
        assert a[p] in multiset(arr) && a[q] in multiset(arr);
        assert a[p] in arr && a[q] in arr;
        SmallIsLow(a[p]);
        SmallIsLow(a[q]);
        assert LowKey(32)(a[p]) <= LowKey(32)(a[q]);
      }
    }
  }

  lemma SmallIsLow(v: int)
    requires 0 <= v < PyInt.WORD
    ensures Low(32, v) == v
  {
    PyInt.Pow2Word();
  }
}
