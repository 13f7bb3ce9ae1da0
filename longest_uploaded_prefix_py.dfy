/** dp_and_recursion/longest_uploaded_prefix.py: the same structure as the
    C++ LUPrefix, with a Python list of flags and a scan that looks one slot
    ahead instead of stepping back. */
module LongestUploadedPrefixPy {
  import opened LongestUploadedPrefix

  class LUPrefix {
    /** self.uploaded: slot 0 and slot n + 1 are sentinels. */
    var uploaded: seq<bool>
    /** self.lup */
    var lup: int
    const n: int

    ghost predicate Valid()
      reads this
    {
      && n >= 0
      && |uploaded| == n + 2
      && uploaded[0]
      && !uploaded[n + 1]
      && lup == PrefixRun(uploaded)
    }

    /** __init__(n): [True] followed by n + 1 Falses, and lup 0. */
    constructor(n: int)
      requires n >= 0
      ensures Valid() && this.n == n
      ensures uploaded == [true] + seq(n + 1, _ => false)
      ensures lup == 0
    {
      this.n := n;
      uploaded := [true] + seq(n + 1, _ => false);
      lup := 0;
    }

    /** upload(video): mark the video; when it is lup + 1, advance lup
        while the next slot is uploaded. */
    method Upload(video: int)
      requires Valid() && 1 <= video <= n
      modifies this
      ensures Valid() && lup >= old(lup)
      ensures uploaded == old(uploaded)[video := true]
      ensures lup != old(lup) ==> video == old(lup) + 1
    {
      ghost var u0 := uploaded;
      uploaded := uploaded[video := true];
      UploadEffect(u0, video);
      if video == lup + 1 {
        RunFromCovers(u0, 1);
        RunFromBound(u0, 1);
        RunSkip(uploaded, 1, lup + 1);
        while uploaded[lup + 1]
          invariant uploaded == u0[video := true] && 0 <= lup <= n
          invariant PrefixRun(uploaded) == lup + RunFrom(uploaded, lup + 1)
          decreases n - lup
        {
          lup := lup + 1;
        }
      }
    }

    /** longest() */
    method Longest() returns (k: int)
      requires Valid()
      ensures k == PrefixRun(uploaded)
    {
      k := lup;
    }
  }
}
