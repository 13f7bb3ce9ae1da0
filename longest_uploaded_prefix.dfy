/** dp_and_recursion/longest_uploaded_prefix.hh: videos 1..n are uploaded in
    any order; longest() is the length of the longest run 1..k that is fully
    uploaded. A flag vector with a sentinel at each end lets the scan run
    without bounds checks. */
module LongestUploadedPrefix {

  /** Number of consecutive uploaded slots starting at slot i. */
  function RunFrom(u: seq<bool>, i: nat): nat
    decreases |u| - i
  {
    if i < |u| && u[i] then 1 + RunFrom(u, i + 1) else 0
  }

  /** The longest uploaded prefix of videos 1, 2, ... */
  function PrefixRun(u: seq<bool>): nat
  {
    RunFrom(u, 1)
  }

  /** A run that is fully uploaded can be skipped over. */
  lemma {:induction false} RunSkip(u: seq<bool>, i: nat, k: nat)
    requires i <= k < |u|
    requires forall j :: i <= j < k ==> u[j]
    ensures RunFrom(u, i) == (k - i) + RunFrom(u, k)
    decreases k - i
  {
    if i < k {
      RunSkip(u, i + 1, k);
    }
  }

  /** The run never extends past the end of the flags. */
  lemma {:induction false} RunFromBound(u: seq<bool>, i: nat)
    requires i <= |u|
    ensures i + RunFrom(u, i) <= |u|
    decreases |u| - i
  {
    if i < |u| && u[i] {
      RunFromBound(u, i + 1);
    }
  }

  /** The run from i covers uploaded slots only and stops at a missing one. */
  lemma {:induction false} RunFromCovers(u: seq<bool>, i: nat)
    requires i <= |u|
    ensures i + RunFrom(u, i) <= |u|
    ensures forall j :: i <= j < i + RunFrom(u, i) ==> u[j]
    ensures i + RunFrom(u, i) < |u| ==> !u[i + RunFrom(u, i)]
    decreases |u| - i
  {
    RunFromBound(u, i);
    if i < |u| && u[i] {
      RunFromCovers(u, i + 1);
    }
  }

  /** PrefixRun(u) is the largest k such that videos 1..k are all uploaded. */
  lemma PrefixRunIsLongest(u: seq<bool>, k: nat)
    requires |u| >= 1
    ensures PrefixRun(u) < |u| && forall j :: 1 <= j <= PrefixRun(u) ==> u[j]
    ensures k < |u| && (forall j :: 1 <= j <= k ==> u[j]) ==> k <= PrefixRun(u)
  {
    RunFromCovers(u, 1);
    RunFromBound(u, 1);
  }

  /** Uploading a video never shortens the prefix, and lengthens it only
      when the video is the one just past the prefix. */
  lemma UploadEffect(u: seq<bool>, video: int)
    requires 1 <= video < |u| && u[0]
    ensures PrefixRun(u[video := true]) >= PrefixRun(u)
    ensures video != PrefixRun(u) + 1 ==> PrefixRun(u[video := true]) == PrefixRun(u)
  {
    var u' := u[video := true];
    var k := PrefixRun(u);
    RunFromCovers(u, 1);
    RunFromBound(u, 1);
    assert forall j :: 1 <= j < 1 + k ==> u'[j];
    if 1 + k < |u| {
      RunSkip(u', 1, 1 + k);
      if video != k + 1 {
        assert !u'[1 + k];
      }
    } else {
      RunFromBound(u', 1);
      RunSkip(u', 1, k);
    }
  }

  class LUPrefix {
    /** uploaded_: slot 0 and slot n + 1 are sentinels. */
    var uploaded: array<bool>
    /** lup_ */
    var lup: int
    const n: int

    ghost predicate Valid()
      reads this, uploaded
    {
      && n >= 0
      && uploaded.Length == n + 2
      && uploaded[0]
      && !uploaded[n + 1]
      && lup == PrefixRun(uploaded[..])
    }

    /** LUPrefix(n): nothing uploaded yet. */
    constructor(n: int)
      requires n >= 0
      ensures Valid() && fresh(uploaded) && this.n == n
      ensures uploaded[..] == [true] + seq(n + 1, _ => false)
      ensures lup == 0
    {
      this.n := n;
      var flags := new bool[n + 2](_ => false);
      flags[0] := true;
      uploaded := flags;
      lup := 0;
      new;
      assert uploaded[..] == [true] + seq(n + 1, _ => false);
    }

    /** upload(video): mark the video, and when it extends the prefix scan
        forward to the next missing one (pre-increment, then step back). */
    method Upload(video: int)
      requires Valid() && 1 <= video <= n
      modifies this, uploaded
      ensures Valid() && uploaded == old(uploaded) && lup >= old(lup)
      ensures uploaded[..] == old(uploaded[..])[video := true]
    {
      ghost var u0 := uploaded[..];
      uploaded[video] := true;
      UploadEffect(u0, video);
      ghost var u := uploaded[..];
      assert u == u0[video := true];
      if video == lup + 1 {
        RunFromCovers(u0, 1);
        RunFromBound(u0, 1);
        RunSkip(u, 1, video);
        lup := lup + 1;
        while uploaded[lup]
          invariant uploaded == old(uploaded) && uploaded[..] == u && 1 <= lup <= n + 1
          invariant PrefixRun(u) == (lup - 1) + RunFrom(u, lup)
          decreases n + 1 - lup
        {
          lup := lup + 1;
        }
        lup := lup - 1;
      }
    }

    /** longest() */
    method Longest() returns (k: int)
      requires Valid()
      ensures k == PrefixRun(uploaded[..])
    {
      k := lup;
    }
  }
}
