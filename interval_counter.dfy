/** trees/interval_counter.hh: a set of pairwise disjoint closed integer
    intervals, kept in order, and the number of integers they cover. Adding
    an interval either inserts it (when it meets no stored interval) or
    replaces every stored interval it meets by one interval from the
    smallest left end to the largest right end. */
module IntervalCounter {

  /** Interval: the integers left .. right, both included. */
  datatype Interval = Interval(left: int, right: int)

  /** elems(): the number of integers in the interval. */
  function Elems(iv: Interval): int
  {
    iv.right - iv.left + 1
  }

  /** operator<: a ends strictly before b starts. */
  predicate Before(a: Interval, b: Interval)
  {
    a.right < b.left
  }

  /** The integers of an interval. */
  ghost function Span(iv: Interval): set<int>
  {
    set x | iv.left <= x <= iv.right && Within(iv, x)
  }

  predicate Within(iv: Interval, x: int)
  {
    iv.left <= x <= iv.right
  }

  /** For non-empty intervals, a < b holds exactly when every integer of a
      is below every integer of b: the two are disjoint and a comes first. */
  lemma BeforeMeans(a: Interval, b: Interval)
    requires a.left <= a.right && b.left <= b.right
    ensures Before(a, b) <==> forall x, y :: x in Span(a) && y in Span(b) ==> x < y
  {
    if !Before(a, b) {
      assert a.right in Span(a) && b.left in Span(b);
    }
  }

  /** An interval holds right - left + 1 integers. */
  lemma {:induction false} SpanSize(iv: Interval)
    requires iv.left <= iv.right + 1
    ensures |Span(iv)| == Elems(iv)
    decreases iv.right - iv.left
  {
    if iv.left <= iv.right {
      var shorter := Interval(iv.left, iv.right - 1);
      SpanSize(shorter);
      assert Span(iv) == Span(shorter) + {iv.right};
    } else {
      assert Span(iv) == {};
    }
  }

  /** The stored intervals: each non-empty, each strictly before the next. */
  ghost predicate Ordered(s: seq<Interval>)
  {
    && (forall i :: 0 <= i < |s| ==> ProperAt(s, i))
    && (forall i :: 0 < i < |s| ==> ChainAt(s, i))
  }

  /** The interval at i is not empty. */
  ghost predicate ProperAt(s: seq<Interval>, i: int)
    requires 0 <= i < |s|
  {
    s[i].left <= s[i].right
  }

  /** The interval at i - 1 is strictly before the one at i. */
  ghost predicate ChainAt(s: seq<Interval>, i: int)
    requires 0 < i < |s|
  {
    Before(s[i - 1], s[i])
  }

  /** The integers covered by the intervals of s. */
  ghost function Covered(s: seq<Interval>): set<int>
  {
    if s == [] then {} else Covered(s[..|s| - 1]) + Span(s[|s| - 1])
  }

  /** count_: the total of elems() over the intervals of s. */
  function Size(s: seq<Interval>): int
  {
    if s == [] then 0 else Size(s[..|s| - 1]) + Elems(s[|s| - 1])
  }

  /** The interval at i ends before iv starts. */
  predicate EndsBefore(s: seq<Interval>, i: int, iv: Interval)
    requires 0 <= i < |s|
  {
    Before(s[i], iv)
  }

  /** The interval at i starts after iv ends. */
  predicate StartsAfter(s: seq<Interval>, i: int, iv: Interval)
    requires 0 <= i < |s|
  {
    Before(iv, s[i])
  }

  /** The first index whose interval is not before iv: std::set's
      lower_bound over an ordered s. */
  function LowerBound(s: seq<Interval>, iv: Interval): (r: nat)
    ensures r <= |s|
    ensures forall i :: 0 <= i < r ==> EndsBefore(s, i, iv)
    ensures r < |s| ==> !Before(s[r], iv)
  {
    LowerBoundFrom(s, iv, 0)
  }

  /** The first index from k on whose interval is not before iv. */
  function LowerBoundFrom(s: seq<Interval>, iv: Interval, k: nat): (r: nat)
    requires k <= |s|
    ensures k <= r <= |s|
    ensures forall i :: k <= i < r ==> EndsBefore(s, i, iv)
    ensures r < |s| ==> !Before(s[r], iv)
    decreases |s| - k
  {
    if k == |s| || !Before(s[k], iv) then k else LowerBoundFrom(s, iv, k + 1)
  }

  /** The first index whose interval iv is before: std::set's upper_bound
      over an ordered s. */
  function UpperBound(s: seq<Interval>, iv: Interval): (r: nat)
    ensures r <= |s|
    ensures forall i :: 0 <= i < r ==> !StartsAfter(s, i, iv)
    ensures r < |s| ==> StartsAfter(s, r, iv)
  {
    UpperBoundFrom(s, iv, 0)
  }

  /** The first index from k on whose interval iv is before. */
  function UpperBoundFrom(s: seq<Interval>, iv: Interval, k: nat): (r: nat)
    requires k <= |s|
    ensures k <= r <= |s|
    ensures forall i :: k <= i < r ==> !StartsAfter(s, i, iv)
    ensures r < |s| ==> StartsAfter(s, r, iv)
    decreases |s| - k
  {
    if k == |s| || StartsAfter(s, k, iv) then k else UpperBoundFrom(s, iv, k + 1)
  }

  /** The intervals after add(iv): iv inserted in order when it meets no
      stored interval, else the ones it meets replaced by their hull with
      iv. */
  ghost function AddSpec(s: seq<Interval>, iv: Interval): seq<Interval>
    requires Ordered(s) && iv.left <= iv.right
  {
    var lo := LowerBound(s, iv);
    if lo == |s| || Before(iv, s[lo]) then s[..lo] + [iv] + s[lo..]
    else
      MeetRange(s, iv);
      var far := UpperBound(s, iv);
      var merged := Interval(Min(s[lo].left, iv.left), Max(s[far - 1].right, iv.right));
      s[..lo] + [merged] + s[far..]
  }

  /** When the interval at lower_bound meets iv, upper_bound lies past it,
      so the last interval before upper_bound meets iv too. */
  lemma MeetRange(s: seq<Interval>, iv: Interval)
    requires Ordered(s) && iv.left <= iv.right
    requires LowerBound(s, iv) < |s| && !Before(iv, s[LowerBound(s, iv)])
    ensures LowerBound(s, iv) < UpperBound(s, iv)
  {
    var lo := LowerBound(s, iv);
    forall i | 0 <= i <= lo ensures !Before(iv, s[i]) {
      if i < lo {
        assert EndsBefore(s, i, iv) && ProperAt(s, i);
      }
    }
  }

  function Min(a: int, b: int): int { if a <= b then a else b }
  function Max(a: int, b: int): int { if a >= b then a else b }

  // ---------------------------------------------------------------------
  // Facts about Covered and Size

  lemma {:induction false} CoveredConcat(a: seq<Interval>, b: seq<Interval>)
    ensures Covered(a + b) == Covered(a) + Covered(b)
    decreases |b|
  {
    if b == [] {
      assert a + b == a;
    } else {
      var b' := b[..|b| - 1];
      assert (a + b)[..|a + b| - 1] == a + b';
      CoveredConcat(a, b');
    }
  }

  lemma {:induction false} SizeConcat(a: seq<Interval>, b: seq<Interval>)
    ensures Size(a + b) == Size(a) + Size(b)
    decreases |b|
  {
    if b == [] {
      assert a + b == a;
    } else {
      var b' := b[..|b| - 1];
      assert (a + b)[..|a + b| - 1] == a + b';
      SizeConcat(a, b');
    }
  }

  /** Every integer covered by s is in one of its intervals, and each
      interval is covered. */
  lemma {:induction false} CoveredMembers(s: seq<Interval>, x: int)
    ensures x in Covered(s) <==> exists i :: 0 <= i < |s| && x in Span(s[i])
    decreases |s|
  {
    if s != [] {
      var s' := s[..|s| - 1];
      CoveredMembers(s', x);
      if x in Covered(s') {
        var i :| 0 <= i < |s'| && x in Span(s'[i]);
        assert s[i] == s'[i];
      }
      if exists i :: 0 <= i < |s| && x in Span(s[i]) {
        var i :| 0 <= i < |s| && x in Span(s[i]);
        if i < |s'| {
          assert s'[i] == s[i];
        }
      }
    }
  }

  /** In an ordered sequence, interval i ends before interval j starts
      whenever i < j. */
  lemma {:induction false} OrderedBefore(s: seq<Interval>, i: int, j: int)
    requires Ordered(s) && 0 <= i < j < |s|
    ensures s[i].right < s[j].left
    decreases j - i
  {
    assert ChainAt(s, j) && ProperAt(s, j - 1);
    if i < j - 1 {
      OrderedBefore(s, i, j - 1);
    }
  }

  /** The integers covered by an ordered non-empty s lie between its first
      left end and its last right end. */
  lemma CoveredBounds(s: seq<Interval>, x: int)
    requires Ordered(s) && s != [] && x in Covered(s)
    ensures s[0].left <= x <= s[|s| - 1].right
  {
    CoveredMembers(s, x);
    var i :| 0 <= i < |s| && x in Span(s[i]);
    assert ProperAt(s, 0) && ProperAt(s, |s| - 1);
    if 0 < i {
      OrderedBefore(s, 0, i);
    }
    if i < |s| - 1 {
      OrderedBefore(s, i, |s| - 1);
    }
  }

  /** count_ is the number of covered integers: the intervals of an ordered
      sequence do not overlap. */
  lemma {:induction false} SizeIsCount(s: seq<Interval>)
    requires Ordered(s)
    ensures Size(s) == |Covered(s)|
    decreases |s|
  {
    if s != [] {
      var s' := s[..|s| - 1];
      var last := s[|s| - 1];
      assert Ordered(s') by {
        forall i | 0 <= i < |s'| ensures ProperAt(s', i) {
          assert ProperAt(s, i);
        }
        forall i | 0 < i < |s'| ensures ChainAt(s', i) {
          assert ChainAt(s, i);
        }
      }
      SizeIsCount(s');
      assert ProperAt(s, |s| - 1);
      SpanSize(last);
      if s' != [] {
        assert ChainAt(s, |s| - 1);
        forall x | x in Covered(s') ensures x !in Span(last) {
          CoveredBounds(s', x);
        }
      }
      assert Covered(s') * Span(last) == {};
    }
  }

  // ---------------------------------------------------------------------
  // add

  /** The parts of s around a range lo .. far. */
  lemma Parts(s: seq<Interval>, lo: int, far: int)
    requires 0 <= lo <= far <= |s|
    ensures s == s[..lo] + s[lo..far] + s[far..]
    ensures Covered(s) == Covered(s[..lo]) + Covered(s[lo..far]) + Covered(s[far..])
    ensures Size(s) == Size(s[..lo]) + Size(s[lo..far]) + Size(s[far..])
  {
    SplitThree(s, lo, far);
    CoveredConcat(s[..lo] + s[lo..far], s[far..]);
    CoveredConcat(s[..lo], s[lo..far]);
    SizeConcat(s[..lo] + s[lo..far], s[far..]);
    SizeConcat(s[..lo], s[lo..far]);
  }

  /** Ordered pieces around a new interval stay ordered. */
  lemma OrderedAround(a: seq<Interval>, iv: Interval, b: seq<Interval>)
    requires Ordered(a) && Ordered(b) && iv.left <= iv.right
    requires a != [] ==> Before(a[|a| - 1], iv)
    requires b != [] ==> Before(iv, b[0])
    ensures Ordered(a + [iv] + b)
  {
    var t := a + [iv] + b;
    forall i | 0 <= i < |t| ensures ProperAt(t, i) {
      if i < |a| {
        assert ProperAt(a, i);
      } else if i > |a| {
        assert ProperAt(b, i - |a| - 1);
      }
    }
    forall i | 0 < i < |t| ensures ChainAt(t, i) {
      if i < |a| {
        assert ChainAt(a, i);
      } else if i > |a| + 1 {
        assert ChainAt(b, i - |a| - 1);
      }
    }
  }

  lemma OrderedTake(s: seq<Interval>, k: nat)
    requires Ordered(s) && k <= |s|
    ensures Ordered(s[..k])
  {
    var t := s[..k];
    forall i | 0 <= i < |t| ensures ProperAt(t, i) {
      assert ProperAt(s, i);
    }
    forall i | 0 < i < |t| ensures ChainAt(t, i) {
      assert ChainAt(s, i);
    }
  }

  lemma OrderedDrop(s: seq<Interval>, k: nat)
    requires Ordered(s) && k <= |s|
    ensures Ordered(s[k..])
  {
    var t := s[k..];
    forall i | 0 <= i < |t| ensures ProperAt(t, i) {
      assert ProperAt(s, k + i);
    }
    forall i | 0 < i < |t| ensures ChainAt(t, i) {
      assert ChainAt(s, k + i);
    }
  }

  /** The sub-range lo .. hi of an ordered sequence is ordered. */
  lemma OrderedSlice(s: seq<Interval>, lo: nat, hi: nat)
    requires Ordered(s) && lo <= hi <= |s|
    ensures Ordered(s[lo..hi])
  {
    var t := s[lo..hi];
    forall i | 0 <= i < |t| ensures ProperAt(t, i) {
      assert ProperAt(s, lo + i);
    }
    forall i | 0 < i < |t| ensures ChainAt(t, i) {
      assert ChainAt(s, lo + i);
    }
  }

  /** The hull of the intervals lo .. far-1 (all of which meet iv) and iv
      covers exactly those intervals' integers and iv's. */
  lemma MergedCovers(s: seq<Interval>, iv: Interval, lo: int, far: int)
    requires Ordered(s) && iv.left <= iv.right && 0 <= lo < far <= |s|
    requires !Before(s[lo], iv) && !Before(iv, s[far - 1])
    ensures var merged := Interval(Min(s[lo].left, iv.left), Max(s[far - 1].right, iv.right));
      Span(merged) == Covered(s[lo..far]) + Span(iv)
  {
    var merged := Interval(Min(s[lo].left, iv.left), Max(s[far - 1].right, iv.right));
    var mid := s[lo..far];
    OrderedSlice(s, lo, far);
    forall x | x in Covered(mid) ensures x in Span(merged) {
      CoveredBounds(mid, x);
    }
    forall x | x in Span(merged) ensures x in Covered(mid) + Span(iv) {
      if x < iv.left {
        assert x in Span(mid[0]);
        CoveredMembers(mid, x);
      } else if x > iv.right {
        assert x in Span(mid[|mid| - 1]);
        CoveredMembers(mid, x);
      }
    }
  }

  /** The integers of a + [x] + b. */
  lemma CoveredAround(a: seq<Interval>, x: Interval, b: seq<Interval>)
    ensures Covered(a + [x] + b) == Covered(a) + Span(x) + Covered(b)
  {
    CoveredConcat(a + [x], b);
    CoveredConcat(a, [x]);
    assert [x][..0] == [];
  }

  /** The count of a + [x] + b. */
  lemma SizeAround(a: seq<Interval>, x: Interval, b: seq<Interval>)
    ensures Size(a + [x] + b) == Size(a) + Elems(x) + Size(b)
  {
    SizeConcat(a + [x], b);
    SizeConcat(a, [x]);
    assert [x][..0] == [];
  }

  lemma SplitAt<T>(s: seq<T>, k: nat)
    requires k <= |s|
    ensures s == s[..k] + s[k..]
  {
  }

  lemma SplitThree<T>(s: seq<T>, lo: nat, far: nat)
    requires lo <= far <= |s|
    ensures s == s[..lo] + s[lo..far] + s[far..]
  {
    assert s == s[..lo] + s[lo..far] + s[far..];
  }

  /** The count after replacing s[lo..far] by x. */
  lemma SizeInsert(s: seq<Interval>, lo: nat, far: nat, x: Interval)
    requires lo <= far <= |s|
    ensures Size(s[..lo] + [x] + s[far..]) == Size(s) - Size(s[lo..far]) + Elems(x)
  {
    Parts(s, lo, far);
    SizeAround(s[..lo], x, s[far..]);
  }

  lemma SizeSnoc(s: seq<Interval>, lo: nat, it: nat)
    requires lo <= it < |s|
    ensures Size(s[lo..it + 1]) == Size(s[lo..it]) + Elems(s[it])
  {
    assert s[lo..it + 1][..it - lo] == s[lo..it];
  }

  /** Inserting iv at its lower_bound, when it meets nothing there, keeps
      the sequence ordered. */
  lemma InsertOrdered(s: seq<Interval>, iv: Interval, lo: nat)
    requires Ordered(s) && iv.left <= iv.right && lo <= |s|
    requires lo > 0 ==> Before(s[lo - 1], iv)
    requires lo < |s| ==> Before(iv, s[lo])
    ensures Ordered(s[..lo] + [iv] + s[lo..])
  {
    OrderedTake(s, lo);
    OrderedDrop(s, lo);
    OrderedAround(s[..lo], iv, s[lo..]);
  }

  /** Inserting iv anywhere adds its integers to those covered. */
  lemma InsertCovers(s: seq<Interval>, iv: Interval, lo: nat)
    requires lo <= |s|
    ensures Covered(s[..lo] + [iv] + s[lo..]) == Covered(s) + Span(iv)
  {
    CoveredAround(s[..lo], iv, s[lo..]);
    SplitAt(s, lo);
    CoveredConcat(s[..lo], s[lo..]);
  }

  /** Replacing the intervals lo .. far-1 that meet iv by their hull keeps
      the sequence ordered. */
  lemma MergeOrdered(s: seq<Interval>, iv: Interval, lo: nat, far: nat)
    requires Ordered(s) && iv.left <= iv.right && lo < far <= |s|
    requires lo > 0 ==> Before(s[lo - 1], iv)
    requires far < |s| ==> Before(iv, s[far])
    ensures Ordered(s[..lo] + [Interval(Min(s[lo].left, iv.left), Max(s[far - 1].right, iv.right))] + s[far..])
  {
    var merged := Interval(Min(s[lo].left, iv.left), Max(s[far - 1].right, iv.right));
    OrderedTake(s, lo);
    OrderedDrop(s, far);
    if lo > 0 {
      assert ChainAt(s, lo);
    }
    if far < |s| {
      assert ChainAt(s, far);
    }
    OrderedAround(s[..lo], merged, s[far..]);
  }

  /** Replacing the intervals lo .. far-1 that meet iv by their hull adds
      exactly iv's integers. */
  lemma MergeCovers(s: seq<Interval>, iv: Interval, lo: nat, far: nat)
    requires Ordered(s) && iv.left <= iv.right && lo < far <= |s|
    requires !Before(s[lo], iv) && !Before(iv, s[far - 1])
    ensures Covered(s[..lo] + [Interval(Min(s[lo].left, iv.left), Max(s[far - 1].right, iv.right))] + s[far..])
      == Covered(s) + Span(iv)
  {
    var merged := Interval(Min(s[lo].left, iv.left), Max(s[far - 1].right, iv.right));
    Parts(s, lo, far);
    MergedCovers(s, iv, lo, far);
    CoveredAround(s[..lo], merged, s[far..]);
  }

  /** add keeps the intervals ordered. */
  lemma AddSpecOrdered(s: seq<Interval>, iv: Interval)
    requires Ordered(s) && iv.left <= iv.right
    ensures Ordered(AddSpec(s, iv))
  {
    var lo := LowerBound(s, iv);
    if lo > 0 {
      assert EndsBefore(s, lo - 1, iv);
    }
    if lo == |s| || Before(iv, s[lo]) {
      InsertOrdered(s, iv, lo);
    } else {
      MeetRange(s, iv);
      MergeOrdered(s, iv, lo, UpperBound(s, iv));
    }
  }

  /** add adds exactly iv's integers to the covered set. */
  lemma AddSpecCovers(s: seq<Interval>, iv: Interval)
    requires Ordered(s) && iv.left <= iv.right
    ensures Covered(AddSpec(s, iv)) == Covered(s) + Span(iv)
  {
    var lo := LowerBound(s, iv);
    if lo == |s| || Before(iv, s[lo]) {
      InsertCovers(s, iv, lo);
    } else {
      MeetRange(s, iv);
      assert !StartsAfter(s, UpperBound(s, iv) - 1, iv);
      MergeCovers(s, iv, lo, UpperBound(s, iv));
    }
  }

  /** The insert case of add: iv goes in at lower_bound. */
  lemma InsertPath(s: seq<Interval>, iv: Interval, lo: nat)
    requires Ordered(s) && iv.left <= iv.right
    requires lo == LowerBound(s, iv) && (lo == |s| || Before(iv, s[lo]))
    ensures AddSpec(s, iv) == s[..lo] + [iv] + s[lo..]
    ensures Size(AddSpec(s, iv)) == Size(s) + Elems(iv)
  {
    SizeInsert(s, lo, lo, iv);
  }

  /** Erasing lo .. far - 1 and then inserting x at lo replaces that range
      by x. */
  lemma EraseThenInsert(s: seq<Interval>, lo: nat, far: nat, x: Interval)
    requires lo <= far <= |s|
    ensures var e := s[..lo] + s[far..]; e[..lo] + [x] + e[lo..] == s[..lo] + [x] + s[far..]
  {
    var e := s[..lo] + s[far..];
    assert e[..lo] == s[..lo] && e[lo..] == s[far..];
  }

  /** The merge case of add: the intervals lower_bound .. upper_bound - 1,
      which all meet iv, give way to their hull with iv. */
  lemma MergePath(s: seq<Interval>, iv: Interval, lo: nat, far: nat)
    requires Ordered(s) && iv.left <= iv.right
    requires lo == LowerBound(s, iv) && lo < |s| && !Before(iv, s[lo])
    requires far == UpperBound(s, iv)
    ensures lo < far
    ensures AddSpec(s, iv) == s[..lo] + [Interval(Min(s[lo].left, iv.left), Max(s[far - 1].right, iv.right))] + s[far..]
    ensures Size(AddSpec(s, iv)) == Size(s) - Size(s[lo..far]) + Elems(Interval(Min(s[lo].left, iv.left), Max(s[far - 1].right, iv.right)))
  {
    MeetRange(s, iv);
    SizeInsert(s, lo, far, Interval(Min(s[lo].left, iv.left), Max(s[far - 1].right, iv.right)));
  }

  class IntervalCounter {
    /** intervals_, in the set's order. */
    var intervals: seq<Interval>
    /** count_. */
    var count: int
    /** The integers of every interval added so far. */
    ghost var added: set<int>

    ghost predicate Valid()
      reads this
    {
      Ordered(intervals) && count == Size(intervals) && Covered(intervals) == added
    }

    constructor()
      ensures Valid() && intervals == [] && count == 0 && added == {}
    {
      intervals, count, added := [], 0, {};
    }

    /** add(left, right). */
    method Add(left: int, right: int)
      requires Valid() && left <= right
      modifies this
      ensures Valid()
      ensures intervals == AddSpec(old(intervals), Interval(left, right))
      ensures added == old(added) + Span(Interval(left, right))
    {
      var interval := Interval(left, right);
      ghost var s := intervals;
      added := added + Span(interval);
      var leftIt := LowerBound(intervals, interval);
      if leftIt == |intervals| || Before(interval, intervals[leftIt]) {
        InsertPath(s, interval, leftIt);
        InsertInterval(interval, leftIt);
      } else {
        var farRightIt := UpperBound(intervals, interval);
        MergePath(s, interval, leftIt, farRightIt);
        var rightIt := farRightIt - 1;
        var merged := Interval(Min(intervals[leftIt].left, left), Max(intervals[rightIt].right, right));
        EraseRange(leftIt, farRightIt);
        EraseThenInsert(s, leftIt, farRightIt, merged);
        InsertInterval(merged, leftIt);
      }
      AddSpecOrdered(s, interval);
      AddSpecCovers(s, interval);
    }

    /** The loop of add that takes each interval in lo .. far - 1 off
        count_, followed by the erase of that range. */
    method EraseRange(lo: nat, far: nat)
      requires lo <= far <= |intervals|
      modifies this
      ensures intervals == old(intervals[..lo] + intervals[far..])
      ensures count == old(count) - Size(old(intervals[lo..far])) && added == old(added)
    {
      var it := lo;
      while it != far
        invariant lo <= it <= far && intervals == old(intervals) && added == old(added)
        invariant count == old(count) - Size(intervals[lo..it])
      {
        SizeSnoc(intervals, lo, it);
        count := count - Elems(intervals[it]);
        it := it + 1;
      }
      intervals := intervals[..lo] + intervals[far..];
    }

    /** count(). */
    method CountIntegers() returns (r: int)
      requires Valid()
      ensures r == |added|
    {
      SizeIsCount(intervals);
      return count;
    }

    /** insertInterval(interval): the set insert at its ordered position
        at, and count_ grows by the interval's elems(). */
    method InsertInterval(interval: Interval, at: nat)
      requires at <= |intervals|
      modifies this
      ensures intervals == old(intervals[..at]) + [interval] + old(intervals[at..])
      ensures count == old(count) + Elems(interval) && added == old(added)
    {
      intervals := intervals[..at] + [interval] + intervals[at..];
      count := count + Elems(interval);
    }
  }

  /** Two intervals that overlap or touch cover the integers of their
      hull. */
  lemma SpanJoin(a: Interval, b: Interval)
    requires a.left <= b.left <= a.right + 1
    ensures Span(a) + Span(b) == Span(Interval(a.left, Max(a.right, b.right)))
  {
    forall x | x in Span(Interval(a.left, Max(a.right, b.right)))
      ensures x in Span(a) + Span(b)
    {
      if x <= a.right {
        assert Within(a, x);
      } else {
        assert Within(b, x);
      }
    }
  }

  /** test2 of trees/interval_counter_test.cc: [100, 199] covered in four
      overlapping adds gives 100. The intervals are shifted by any d (the
      test is d = 0), so the count depends on the union alone. */
  method Test2(d: int) returns (total: int)
    ensures total == 100
  {
    var ic := new IntervalCounter();
    ic.Add(d + 100, d + 153);
    ic.Add(d + 130, d + 174);
    ic.Add(d + 188, d + 191);
    ic.Add(d + 121, d + 199);
    SpanJoin(Interval(d + 100, d + 153), Interval(d + 130, d + 174));
    SpanJoin(Interval(d + 121, d + 199), Interval(d + 188, d + 191));
    SpanJoin(Interval(d + 100, d + 174), Interval(d + 121, d + 199));
    assert ic.added == Span(Interval(d + 100, d + 199));
    SpanSize(Interval(d + 100, d + 199));
    total := ic.CountIntegers();
  }

  /** testBasic: [2, 3] and [7, 10] cover 6 integers; adding [5, 8] makes
      it 8 (shifted by any d, as in Test2). */
  method TestBasic(d: int) returns (first: int, second: int)
    ensures first == 6 && second == 8
  {
    var ic := new IntervalCounter();
    ic.Add(d + 2, d + 3);
    ic.Add(d + 7, d + 10);
    SpanSize(Interval(d + 2, d + 3));
    SpanSize(Interval(d + 7, d + 10));
    assert Span(Interval(d + 2, d + 3)) * Span(Interval(d + 7, d + 10)) == {};
    first := ic.CountIntegers();
    ic.Add(d + 5, d + 8);
    SpanJoin(Interval(d + 5, d + 8), Interval(d + 7, d + 10));
    assert ic.added == Span(Interval(d + 2, d + 3)) + Span(Interval(d + 5, d + 10));
    SpanSize(Interval(d + 5, d + 10));
    assert Span(Interval(d + 2, d + 3)) * Span(Interval(d + 5, d + 10)) == {};
    second := ic.CountIntegers();
  }
}
