/** misc/max_segment_sum.hh: removes the elements of nums one query at a
    time and reports, after each removal, the largest sum of a maximal run
    of remaining elements. The runs are kept as a set of disjoint intervals
    and their sums as a descending Counter, whose first key is the answer. */
module MaxSegmentSum {
  import opened Common
  import Counter

  /** The inclusive range [left, right]; it converts to true when non-empty. */
  datatype Interval = Interval(left: int, right: int)
  {
    predicate NonEmpty()
    {
      right >= left
    }
  }

  function Sum(s: seq<int>): int
  {
    if |s| == 0 then 0 else Sum(s[..|s| - 1]) + s[|s| - 1]
  }

  /** The sum of the elements an interval covers (0 for one that does not
      fit in nums). */
  function SumOf(nums: seq<int>, iv: Interval): int
  {
    if 0 <= iv.left <= iv.right + 1 <= |nums| then Sum(nums[iv.left..iv.right + 1]) else 0
  }

  /** Difference of two prefix sums is the sum of the slice between them. */
  lemma {:induction false} PrefixDifference(s: seq<int>, i: int, j: int)
    requires 0 <= i <= j <= |s|
    ensures Sum(s[..j]) - Sum(s[..i]) == Sum(s[i..j])
    decreases j - i
  {
    if i < j {
      PrefixDifference(s, i, j - 1);
      assert s[..j][..j - 1] == s[..j - 1];
      assert s[i..j][..j - 1 - i] == s[i..j - 1];
    } else {
      assert s[i..j] == [];
    }
  }

  /** iv is a segment: a maximal run of indices in [0, n) none of which has
      been removed. */
  predicate IsSegment(removed: set<int>, n: int, iv: Interval)
  {
    && 0 <= iv.left <= iv.right < n
    && (iv.left == 0 || iv.left - 1 in removed)
    && (iv.right == n - 1 || iv.right + 1 in removed)
    && (forall k :: iv.left <= k <= iv.right ==> k !in removed)
  }

  /** The intervals are exactly the segments the removed indices leave. */
  ghost predicate Partition(removed: set<int>, n: int, intervals: set<Interval>)
  {
    && (forall q :: q in removed ==> 0 <= q < n)
    && (n >= 1 ==> forall iv :: iv in intervals <==> IsSegment(removed, n, iv))
  }

  /** Nothing removed yet: the whole range is one segment. */
  lemma SegmentsInitially(n: int)
    ensures Partition({}, n, {Interval(0, n - 1)})
  {
  }

  /** Two different segments do not overlap. */
  lemma SegmentsDisjoint(removed: set<int>, n: int, a: Interval, b: Interval)
    requires IsSegment(removed, n, a) && IsSegment(removed, n, b) && a != b
    ensures a.right < b.left || b.right < a.left
  {
  }

  /** Walk left from l to the start of the run of kept indices. */
  lemma {:induction false} ExtendLeft(removed: set<int>, l: int, q: int) returns (l': int)
    requires 0 <= l <= q && forall k :: l <= k <= q ==> k !in removed
    ensures 0 <= l' <= l && (l' == 0 || l' - 1 in removed)
    ensures forall k :: l' <= k <= q ==> k !in removed
    decreases l
  {
    if l == 0 || l - 1 in removed {
      l' := l;
    } else {
      l' := ExtendLeft(removed, l - 1, q);
    }
  }

  /** Walk right from r to the end of the run of kept indices. */
  lemma {:induction false} ExtendRight(removed: set<int>, n: int, q: int, r: int) returns (r': int)
    requires 0 <= q <= r < n && forall k :: q <= k <= r ==> k !in removed
    ensures r <= r' < n && (r' == n - 1 || r' + 1 in removed)
    ensures forall k :: q <= k <= r' ==> k !in removed
    decreases n - r
  {
    if r == n - 1 || r + 1 in removed {
      r' := r;
    } else {
      r' := ExtendRight(removed, n, q, r + 1);
    }
  }

  /** Every kept index lies in a segment. */
  lemma SegmentContaining(removed: set<int>, n: int, q: int) returns (c: Interval)
    requires 0 <= q < n && q !in removed
    ensures IsSegment(removed, n, c) && c.left <= q <= c.right
  {
    var l := ExtendLeft(removed, q, q);
    var r := ExtendRight(removed, n, q, q);
    c := Interval(l, r);
    assert forall k :: l <= k <= r ==> k !in removed by {
      forall k | l <= k <= r
        ensures k !in removed
      {
        if k > q {
          assert q <= k <= r;
        }
      }
    }
  }

  /** The pieces [left, q - 1] and [q + 1, right] that survive removing q
      from iv, when non-empty. */
  function Pieces(iv: Interval, q: int): set<Interval>
  {
    (if Interval(iv.left, q - 1).NonEmpty() then {Interval(iv.left, q - 1)} else {})
    + (if Interval(q + 1, iv.right).NonEmpty() then {Interval(q + 1, iv.right)} else {})
  }

  /** Removing q replaces the segment that contains it by its pieces. */
  lemma SegmentsAfterRemoval(removed: set<int>, n: int, q: int, c: Interval, intervals: set<Interval>)
    requires 0 <= q < n && q !in removed
    requires Partition(removed, n, intervals)
    requires c in intervals && c.left <= q <= c.right
    ensures Partition(removed + {q}, n, intervals - {c} + Pieces(c, q))
  {
    var after := intervals - {c} + Pieces(c, q);
    forall iv
      ensures iv in after <==> IsSegment(removed + {q}, n, iv)
    {
      if IsSegment(removed + {q}, n, iv) {
        if iv.left <= c.right && c.left <= iv.right {
          if iv.right < q {
            assert iv.right + 1 == q || iv.right + 1 in removed;
          } else {
            assert iv.left - 1 == q || iv.left - 1 in removed;
          }
        } else {
          assert IsSegment(removed, n, iv);
        }
      }
      if iv in after && iv !in Pieces(c, q) {
        SegmentsDisjoint(removed, n, iv, c);
      }
    }
  }

  /** How many intervals of ivs have sum k. */
  ghost function CountSum(nums: seq<int>, ivs: set<Interval>, k: int): nat
  {
    |set iv | iv in ivs && SumOf(nums, iv) == k|
  }

  lemma CountSumRemove(nums: seq<int>, ivs: set<Interval>, c: Interval, k: int)
    requires c in ivs
    ensures CountSum(nums, ivs - {c}, k) == CountSum(nums, ivs, k) - (if SumOf(nums, c) == k then 1 else 0)
  {
    var with := set iv | iv in ivs && SumOf(nums, iv) == k;
    var without := set iv | iv in ivs - {c} && SumOf(nums, iv) == k;
    assert without == with - {c};
  }

  lemma CountSumAdd(nums: seq<int>, ivs: set<Interval>, p: Interval, k: int)
    requires p !in ivs
    ensures CountSum(nums, ivs + {p}, k) == CountSum(nums, ivs, k) + (if SumOf(nums, p) == k then 1 else 0)
  {
    var without := set iv | iv in ivs && SumOf(nums, iv) == k;
    var with := set iv | iv in ivs + {p} && SumOf(nums, iv) == k;
    assert with == without + (if SumOf(nums, p) == k then {p} else {});
  }

  /** A counter holding one occurrence of iv's sum tallies {iv}. */
  lemma TalliesSingle(nums: seq<int>, iv: Interval, counts: map<int, int>)
    requires forall k :: Counter.CountIn(counts, k) == if SumOf(nums, iv) == k then 1 else 0
    ensures Tallies(counts, nums, {iv})
  {
    forall k
      ensures CountSum(nums, {iv}, k) == if SumOf(nums, iv) == k then 1 else 0
    {
      CountSumAdd(nums, {}, iv, k);
      assert {} + {iv} == {iv};
      assert (set iv': Interval | iv' in {} && SumOf(nums, iv') == k) == {};
    }
  }

  /** v is the largest sum among the intervals, or 0 when there are none. */
  ghost predicate IsMaxSum(nums: seq<int>, ivs: set<Interval>, v: int)
  {
    && (ivs == {} ==> v == 0)
    && (ivs != {} ==> (exists iv :: iv in ivs && SumOf(nums, iv) == v))
    && (forall iv :: iv in ivs ==> SumOf(nums, iv) <= v)
  }

  /** counts holds, for every k, how many intervals of ivs sum to k. */
  ghost predicate Tallies(counts: map<int, int>, nums: seq<int>, ivs: set<Interval>)
  {
    forall k :: Counter.CountIn(counts, k) == CountSum(nums, ivs, k)
  }

  /** it is what lower_bound({q, q}) finds: the first interval (in the
      set's order, right < other.left) whose right end is not before q. */
  predicate IsLowerBound(ivs: set<Interval>, q: int, it: Interval)
  {
    it in ivs && it.right >= q && forall o :: o in ivs && o.right >= q ==> it.right <= o.right
  }

  /** Among the segments, lower_bound finds exactly the one containing q. */
  lemma LowerBoundFindsSegment(removed: set<int>, n: int, q: int, intervals: set<Interval>) returns (c: Interval)
    requires 0 <= q < n && q !in removed && Partition(removed, n, intervals)
    ensures c in intervals && c.left <= q <= c.right
    ensures IsLowerBound(intervals, q, c)
    ensures forall it :: IsLowerBound(intervals, q, it) ==> it == c
  {
    c := SegmentContaining(removed, n, q);
    forall o | o in intervals && o.right >= q && o != c
      ensures c.right < o.left
    {
      SegmentsDisjoint(removed, n, o, c);
    }
  }

  /** How the tally of sum k changes when c is split around q. */
  function Delta(nums: seq<int>, c: Interval, q: int, k: int): int
  {
    var l, r := Interval(c.left, q - 1), Interval(q + 1, c.right);
    - (if SumOf(nums, c) == k then 1 else 0)
    + (if l.NonEmpty() && SumOf(nums, l) == k then 1 else 0)
    + (if r.NonEmpty() && SumOf(nums, r) == k then 1 else 0)
  }

  /** Replacing c by its pieces in any set that holds c but neither piece
      changes each tally by Delta. */
  lemma CountSumSplit(nums: seq<int>, ivs: set<Interval>, c: Interval, q: int, k: int)
    requires c in ivs && c.left <= q <= c.right
    requires Interval(c.left, q - 1) !in ivs - {c} && Interval(q + 1, c.right) !in ivs - {c}
    ensures CountSum(nums, ivs - {c} + Pieces(c, q), k) == CountSum(nums, ivs, k) + Delta(nums, c, q, k)
  {
    var l, r := Interval(c.left, q - 1), Interval(q + 1, c.right);
    var mid := ivs - {c};
    CountSumRemove(nums, ivs, c, k);
    var withL := if l.NonEmpty() then mid + {l} else mid;
    if l.NonEmpty() {
      CountSumAdd(nums, mid, l, k);
    }
    if r.NonEmpty() {
      assert r !in withL;
      CountSumAdd(nums, withL, r, k);
      assert mid + Pieces(c, q) == withL + {r};
    } else {
      assert mid + Pieces(c, q) == withL;
    }
  }

  /** Removing q from the segment c: the tallies lose c's sum and gain the
      sums of its non-empty pieces. */
  lemma TalliesAfterRemoval(nums: seq<int>, removed: set<int>, n: int, q: int, c: Interval, segs: set<Interval>, counts0: map<int, int>, counts1: map<int, int>)
    requires 0 <= q < n && q !in removed && Partition(removed, n, segs)
    requires c in segs && c.left <= q <= c.right
    requires Tallies(counts0, nums, segs)
    requires forall k :: Counter.CountIn(counts1, k) == Counter.CountIn(counts0, k) + Delta(nums, c, q, k)
    ensures Tallies(counts1, nums, segs - {c} + Pieces(c, q))
  {
    assert Interval(c.left, q - 1) !in segs - {c} && Interval(q + 1, c.right) !in segs - {c} by {
      forall o | o in segs - {c}
        ensures o != Interval(c.left, q - 1) && o != Interval(q + 1, c.right)
      {
        SegmentsDisjoint(removed, n, o, c);
      }
    }
    forall k
      ensures CountSum(nums, segs - {c} + Pieces(c, q), k) == CountSum(nums, segs, k) + Delta(nums, c, q, k)
    {
      CountSumSplit(nums, segs, c, q, k);
    }
  }

  /** Every interval's sum is tallied at least once. */
  lemma InTally(nums: seq<int>, ivs: set<Interval>, counts: map<int, int>, iv: Interval)
    requires Tallies(counts, nums, ivs) && iv in ivs
    ensures Counter.CountIn(counts, SumOf(nums, iv)) >= 1
  {
    var k := SumOf(nums, iv);
    var holders := set iv' | iv' in ivs && SumOf(nums, iv') == k;
    assert iv in holders;
    assert |holders| >= 1;
  }

  /** One query keeps the intervals and the tallies in step with the
      removed indices. */
  lemma QueryKeepsPartition(nums: seq<int>, removed: set<int>, n: int, q: int, c: Interval, intervals: set<Interval>, counts0: map<int, int>, counts1: map<int, int>)
    requires 0 <= q < n && q !in removed
    requires Partition(removed, n, intervals) && Tallies(counts0, nums, intervals)
    requires c in intervals && c.left <= q <= c.right
    requires forall k :: Counter.CountIn(counts1, k) == Counter.CountIn(counts0, k) + Delta(nums, c, q, k)
    ensures Partition(removed + {q}, n, intervals - {c} + Pieces(c, q))
    ensures Tallies(counts1, nums, intervals - {c} + Pieces(c, q))
  {
    SegmentsAfterRemoval(removed, n, q, c, intervals);
    TalliesAfterRemoval(nums, removed, n, q, c, intervals, counts0, counts1);
  }

  /** A descending counter that holds the sums of ivs has their maximum as
      its first key. */
  lemma FirstKeyIsMax(nums: seq<int>, ivs: set<Interval>, counts: map<int, int>, first: int)
    requires forall k :: k in counts ==> counts[k] >= 1
    requires Tallies(counts, nums, ivs)
    requires counts == map[] ==> first == 0
    requires counts != map[] ==> first in counts && forall k' :: k' in counts ==> !Counter.Comp(true, k', first)
    ensures IsMaxSum(nums, ivs, first)
  {
    forall iv | iv in ivs
      ensures SumOf(nums, iv) in counts
    {
      InTally(nums, ivs, counts, iv);
    }
    if ivs != {} {
      var some := PickElement(ivs);
      assert SumOf(nums, some) in counts;
      var holders := set iv | iv in ivs && SumOf(nums, iv) == first;
      assert CountSum(nums, ivs, first) == Counter.CountIn(counts, first) >= 1;
      assert |holders| >= 1;
      var iv := PickElement(holders);
    } else {
      forall k | k in counts
        ensures false
      {
        assert false;
      }
      assert counts == map[];
    }
  }

  /** v is the largest sum of a segment left by the removed indices, or 0
      when every index has been removed. */
  ghost predicate IsMaxSegmentSum(nums: seq<int>, removed: set<int>, n: int, v: int)
  {
    && ((exists iv :: IsSegment(removed, n, iv)) ==> (exists iv :: IsSegment(removed, n, iv) && SumOf(nums, iv) == v))
    && ((forall iv :: !IsSegment(removed, n, iv)) ==> v == 0)
    && (forall iv :: IsSegment(removed, n, iv) ==> SumOf(nums, iv) <= v)
  }

  /** The maximum over the intervals is the maximum over the segments. */
  lemma MaxOverPartition(nums: seq<int>, removed: set<int>, n: int, ivs: set<Interval>, v: int)
    requires n >= 1 && Partition(removed, n, ivs) && IsMaxSum(nums, ivs, v)
    ensures IsMaxSegmentSum(nums, removed, n, v)
  {
    if forall iv :: !IsSegment(removed, n, iv) {
      if ivs != {} {
        var iv := PickElement(ivs);
      }
    }
  }

  /** Removed indices: the queries answered so far. */
  function Removed(queries: seq<int>): set<int>
  {
    set q | q in queries
  }

  class MaxSegmentSum {
    var n: int
    var nums: seq<int>
    var queries: seq<int>
    /** pfx_[i] is the sum of nums[0..i-1]. */
    var pfx: seq<int>
    var intervals: set<Interval>
    /** The multiset of current segment sums, in descending key order. */
    const counter: Counter.Counter
    var result: seq<int>
    /** The indices removed so far. */
    ghost var removed: set<int>

    ghost predicate PrefixSums()
      reads this
    {
      && |nums| == n && |pfx| == n + 1
      && forall i :: 0 <= i <= n ==> pfx[i] == Sum(nums[..i])
    }

    ghost predicate Valid()
      reads this, counter
    {
      && PrefixSums()
      && counter.Valid() && counter.descending
      && Partition(removed, n, intervals)
      && Tallies(counter.counts, nums, intervals)
    }

    /** A default-constructed solver. */
    constructor()
      ensures fresh(counter) && counter.descending && counter.counts == map[]
      ensures intervals == {} && result == []
    {
      counter := new Counter.Counter(true);
      intervals := {};
      result := [];
    }

    /** segmentSum(interval): pfx_[right + 1] - pfx_[left]. */
    function SegmentSum(iv: Interval): (s: int)
      reads this
      requires PrefixSums() && 0 <= iv.left <= iv.right + 1 <= n
      ensures s == SumOf(nums, iv)
    {
      PrefixDifference(nums, iv.left, iv.right + 1);
      pfx[iv.right + 1] - pfx[iv.left]
    }

    /** buildPrefixSums(): resize pfx_ to n + 1 zeros and accumulate. */
    method BuildPrefixSums()
      requires |nums| == n
      modifies this
      ensures PrefixSums()
      ensures n == old(n) && nums == old(nums) && queries == old(queries)
      ensures intervals == old(intervals) && result == old(result) && removed == old(removed)
    {
      var p := seq(n + 1, _ => 0);
      for i := 1 to n + 1
        invariant |p| == n + 1 && p[0] == 0
        invariant forall j :: 0 <= j < i ==> p[j] == Sum(nums[..j])
      {
        assert nums[..i][..i - 1] == nums[..i - 1];
        p := p[i := p[i - 1] + nums[i - 1]];
      }
      pfx := p;
    }

    /** processQuery(q): find the segment holding q with lower_bound, swap it
        for its non-empty pieces in intervals_ and counter_, and record the
        largest remaining sum. */
    method ProcessQuery(q: int)
      requires Valid() && 0 <= q < n && q !in removed
      modifies this, counter
      ensures Valid() && removed == old(removed) + {q}
      ensures n == old(n) && nums == old(nums) && queries == old(queries)
      ensures |result| == |old(result)| + 1 && result[..|old(result)|] == old(result)
      ensures IsMaxSegmentSum(nums, removed, n, result[|old(result)|])
    {
      ghost var c := LowerBoundFindsSegment(removed, n, q, intervals);
      // intervals_.lower_bound({q, q})
      var it :| IsLowerBound(intervals, q, it);
      ghost var counts0 := counter.counts;
      InTally(nums, intervals, counts0, it);
      ghost var intervals0 := intervals;
      ReplaceSegment(it, q);
      QueryKeepsPartition(nums, removed, n, q, it, intervals0, counts0, counter.counts);
      removed := removed + {q};
      var first := counter.FirstKey();
      FirstKeyIsMax(nums, intervals, counter.counts, first);
      MaxOverPartition(nums, removed, n, intervals, first);
      result := result + [first];
    }

    /** The update half of processQuery: swap it for its non-empty pieces
        [left, q - 1] and [q + 1, right] in intervals_ and counter_. */
    method ReplaceSegment(it: Interval, q: int)
      requires PrefixSums() && counter.Valid() && 0 <= it.left <= q <= it.right < n
      requires Counter.CountIn(counter.counts, SumOf(nums, it)) >= 1
      modifies this, counter
      ensures PrefixSums() && counter.Valid()
      ensures n == old(n) && nums == old(nums) && queries == old(queries)
      ensures result == old(result) && removed == old(removed)
      ensures intervals == old(intervals) - {it} + Pieces(it, q)
      ensures forall k :: Counter.CountIn(counter.counts, k) == Counter.CountIn(old(counter.counts), k) + Delta(nums, it, q, k)
    {
      var leftInterval := Interval(it.left, q - 1);
      var rightInterval := Interval(q + 1, it.right);
      // pfx_ does not change here, so each sum can be taken up front.
      var itSum, leftSum, rightSum := SegmentSum(it), SegmentSum(leftInterval), SegmentSum(rightInterval);
      var ivs := intervals - {it};
      counter.Decrement(itSum);
      if leftInterval.NonEmpty() {
        ivs := ivs + {leftInterval};
        counter.Increment(leftSum);
      }
      if rightInterval.NonEmpty() {
        ivs := ivs + {rightInterval};
        counter.Increment(rightSum);
      }
      intervals := ivs;
    }

    /** The set-up half of maximumSegmentSum: copy the inputs, one interval
        [0, n - 1], the prefix sums, and that interval's sum counted once. */
    method Setup(nums: seq<int>, removeQueries: seq<int>)
      requires counter.descending && counter.counts == map[]
      requires intervals == {} && result == []
      modifies this, counter
      ensures Valid() && removed == {} && result == []
      ensures this.nums == nums && queries == removeQueries && n == |nums|
    {
      n := |nums|;
      this.nums := nums;
      queries := removeQueries;
      removed := {};
      intervals := {Interval(0, n - 1)};
      BuildPrefixSums();
      SegmentsInitially(n);
      assert pfx[n] == SumOf(nums, Interval(0, n - 1)) by {
        assert nums[0..n] == nums[..n];
      }
      counter.Increment(pfx[n]);
      forall k
        ensures Counter.CountIn(counter.counts, k) == if SumOf(nums, Interval(0, n - 1)) == k then 1 else 0
      {
        assert Counter.CountIn(counter.counts, k) == if k == pfx[n] then 1 else 0;
      }
      TalliesSingle(nums, Interval(0, n - 1), counter.counts);
    }

    /** maximumSegmentSum(nums, removeQueries): answer[i] is the largest
        segment sum once the first i + 1 queried indices are removed. */
    method MaximumSegmentSum(nums: seq<int>, removeQueries: seq<int>) returns (answer: seq<int>)
      requires counter.descending && counter.counts == map[]
      requires intervals == {} && result == []
      requires forall i :: 0 <= i < |removeQueries| ==> 0 <= removeQueries[i] < |nums|
      requires forall i, j :: 0 <= i < j < |removeQueries| ==> removeQueries[i] != removeQueries[j]
      modifies this, counter
      ensures |answer| == |removeQueries|
      ensures forall i :: 0 <= i < |answer| ==> IsMaxSegmentSum(nums, Removed(removeQueries[..i + 1]), |nums|, answer[i])
    {
      Setup(nums, removeQueries);
      for j := 0 to |queries|
        invariant Valid() && this.nums == nums && queries == removeQueries && n == |nums|
        invariant removed == Removed(queries[..j])
        invariant |result| == j
        invariant forall i :: 0 <= i < j ==> IsMaxSegmentSum(nums, Removed(queries[..i + 1]), n, result[i])
      {
        assert queries[..j + 1] == queries[..j] + [queries[j]];
        ghost var result0 := result;
        ProcessQuery(queries[j]);
        forall i | 0 <= i < j + 1
          ensures IsMaxSegmentSum(nums, Removed(queries[..i + 1]), n, result[i])
        {
          if i < j {
            assert result[i] == result0[i];
          } else {
            assert Removed(queries[..j + 1]) == removed;
          }
        }
      }
      answer := result;
    }
  }
}
