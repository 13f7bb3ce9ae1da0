/** graphs/gray_code.py: the reflected n-bit Gray code, built from the
    (n-1)-bit code by doubling it and appending the doubled-plus-one
    reversal. */
module GrayCode {
  import opened PyInt

  /** The code for n - 1 bits with a 0 appended as the new low bit. */
  function Evens(prev: seq<int>): (r: seq<int>)
    ensures |r| == |prev| && forall i :: 0 <= i < |prev| ==> r[i] == prev[i] * 2
  {
    seq(|prev|, i requires 0 <= i < |prev| => prev[i] * 2)
  }

  /** The code for n - 1 bits, reversed, with a 1 appended as the new low bit. */
  function OddsReversed(prev: seq<int>): (r: seq<int>)
    ensures |r| == |prev| && forall i :: 0 <= i < |prev| ==> r[i] == prev[|prev| - 1 - i] * 2 + 1
  {
    seq(|prev|, i requires 0 <= i < |prev| => prev[|prev| - 1 - i] * 2 + 1)
  }

  /** grayCode(n). The source recurses on n - 1 until it reaches 1, so it
      never returns for n < 1. */
  function GrayCode(n: int): (r: seq<int>)
    requires n >= 1
    ensures |r| == Pow2(n) && r[0] == 0
    ensures forall i :: 0 <= i < |r| ==> 0 <= r[i] < Pow2(n)
    decreases n
  {
    if n == 1 then [0, 1]
    else
      var prev := GrayCode(n - 1);
      Evens(prev) + OddsReversed(prev)
  }

  /** a and b (both non-negative) differ in exactly one binary digit. */
  predicate OneBitApart(a: nat, b: nat)
    decreases a + b
  {
    if a % 2 == b % 2 then a != b && OneBitApart(a / 2, b / 2) else a / 2 == b / 2
  }

  lemma {:induction false} OneBitApartSymmetric(a: nat, b: nat)
    ensures OneBitApart(a, b) == OneBitApart(b, a)
    decreases a + b
  {
    if a % 2 == b % 2 && a != b {
      OneBitApartSymmetric(a / 2, b / 2);
    }
  }

  /** Appending the same low bit keeps the one-bit relation. */
  lemma AppendSameBit(x: nat, y: nat, bit: nat)
    requires bit <= 1
    ensures OneBitApart(x * 2 + bit, y * 2 + bit) == OneBitApart(x, y)
  {
    assert (x * 2 + bit) / 2 == x && (y * 2 + bit) / 2 == y;
    if x == y {
      assert !OneBitApart(x, y);
    }
  }

  /** Appending 0 and 1 to the same prefix gives codes one bit apart. */
  lemma AppendDifferentBits(x: nat)
    ensures OneBitApart(x * 2, x * 2 + 1) && OneBitApart(x * 2 + 1, x * 2)
  {
    assert (x * 2) / 2 == x && (x * 2 + 1) / 2 == x;
  }

  /** Consecutive entries differ in exactly one bit, and so do the last
      and the first. */
  predicate CyclicGray(r: seq<int>)
  {
    && |r| > 0
    && (forall i :: 0 <= i < |r| ==> r[i] >= 0)
    && (forall i :: 0 <= i < |r| - 1 ==> OneBitApart(r[i], r[i + 1]))
    && OneBitApart(r[|r| - 1], r[0])
  }

  predicate Distinct(r: seq<int>)
  {
    forall i, j :: 0 <= i < j < |r| ==> r[i] != r[j]
  }

  /** Stitching the doubled code to its reflected odd copy keeps the code
      cyclic: inside each half the neighbours are the old neighbours with
      the same low bit, and at both seams the halves meet on one value with
      the two low bits. */
  lemma StitchCyclic(prev: seq<int>)
    requires CyclicGray(prev)
    ensures CyclicGray(Evens(prev) + OddsReversed(prev))
  {
    var r := Evens(prev) + OddsReversed(prev);
    forall i | 0 <= i < |r|
      ensures r[i] >= 0
    {
      StitchEntry(prev, i);
    }
    forall i | 0 <= i < |r| - 1
      ensures OneBitApart(r[i], r[i + 1])
    {
      StitchStep(prev, i);
    }
    StitchEntry(prev, 0);
    StitchEntry(prev, |r| - 1);
    AppendDifferentBits(prev[0]);
  }

  /** Entry i of the stitched code: the doubled entry i in the first half,
      the doubled-plus-one mirror entry in the second. */
  lemma StitchEntry(prev: seq<int>, i: int)
    requires 0 <= i < 2 * |prev| && forall k :: 0 <= k < |prev| ==> prev[k] >= 0
    ensures var r := Evens(prev) + OddsReversed(prev);
      && r[i] >= 0
      && (i < |prev| ==> r[i] == prev[i] * 2)
      && (i >= |prev| ==> r[i] == prev[2 * |prev| - 1 - i] * 2 + 1)
  {
  }

  /** Entries i and i + 1 of the stitched code are one bit apart. */
  lemma StitchStep(prev: seq<int>, i: int)
    requires CyclicGray(prev) && 0 <= i < 2 * |prev| - 1
    ensures var r := Evens(prev) + OddsReversed(prev); OneBitApart(r[i], r[i + 1])
  {
    var m := |prev|;
    StitchEntry(prev, i);
    StitchEntry(prev, i + 1);
    if i < m - 1 {
      AppendSameBit(prev[i], prev[i + 1], 0);
    } else if i == m - 1 {
      AppendDifferentBits(prev[m - 1]);
    } else {
      var j := 2 * m - 1 - i;
      assert 1 <= j < m;
      AppendSameBit(prev[j], prev[j - 1], 1);
      OneBitApartSymmetric(prev[j - 1], prev[j]);
    }
  }

  /** The code is cyclic: consecutive entries differ in exactly one bit,
      and so do the last and the first. */
  lemma {:induction false} GrayAdjacent(n: int)
    requires n >= 1
    ensures CyclicGray(GrayCode(n))
    decreases n
  {
    if n == 1 {
      assert GrayCode(1) == [0, 1];
      AppendDifferentBits(0);
    } else {
      GrayAdjacent(n - 1);
      StitchCyclic(GrayCode(n - 1));
    }
  }

  /** Stitching keeps the values distinct: each half is distinct because
      the old code is, and the halves differ in their low bit. */
  lemma StitchDistinct(prev: seq<int>)
    requires Distinct(prev)
    ensures Distinct(Evens(prev) + OddsReversed(prev))
  {
    var m := |prev|;
    var r := Evens(prev) + OddsReversed(prev);
    forall i, j | 0 <= i < j < |r|
      ensures r[i] != r[j]
    {
      if j < m {
        assert r[i] == prev[i] * 2 && r[j] == prev[j] * 2;
      } else if m <= i {
        assert r[i] == prev[m - 1 - (i - m)] * 2 + 1 && r[j] == prev[m - 1 - (j - m)] * 2 + 1;
      } else {
        assert r[i] == prev[i] * 2 && r[j] == prev[m - 1 - (j - m)] * 2 + 1;
      }
    }
  }

  /** No value appears twice. */
  lemma {:induction false} GrayDistinct(n: int)
    requires n >= 1
    ensures Distinct(GrayCode(n))
    decreases n
  {
    if n > 1 {
      GrayDistinct(n - 1);
      StitchDistinct(GrayCode(n - 1));
    } else {
      assert GrayCode(1) == [0, 1];
    }
  }

  /** Every value below 2^n appears. */
  lemma {:induction false} GrayCovers(n: int, x: int)
    requires n >= 1 && 0 <= x < Pow2(n)
    ensures x in GrayCode(n)
    decreases n
  {
    if n == 1 {
      OneBitCovers(x);
    } else {
      var prev := GrayCode(n - 1);
      HalfBelow(n, x);
      GrayCovers(n - 1, x / 2);
      StitchCovers(prev, x);
      assert GrayCode(n) == Evens(prev) + OddsReversed(prev);
    }
  }

  /** Both 1-bit values appear in the 1-bit code. */
  lemma OneBitCovers(x: int)
    requires 0 <= x < Pow2(1)
    ensures x in GrayCode(1)
  {
    assert GrayCode(1)[x] == x;
  }

  /** Dropping the low bit of an n-bit value leaves an (n-1)-bit value. */
  lemma HalfBelow(n: int, x: int)
    requires n >= 2 && 0 <= x < Pow2(n)
    ensures 0 <= x / 2 < Pow2(n - 1)
  {
    assert Pow2(n) == 2 * Pow2(n - 1);
  }

  /** x is in the stitched code when x / 2 is in the old one: with the low
      bit 0 in the first half, with 1 in the mirrored second half. */
  lemma StitchCovers(prev: seq<int>, x: int)
    requires x >= 0 && x / 2 in prev && forall k :: 0 <= k < |prev| ==> prev[k] >= 0
    ensures x in Evens(prev) + OddsReversed(prev)
  {
    var r := Evens(prev) + OddsReversed(prev);
    var k :| 0 <= k < |prev| && prev[k] == x / 2;
    if x % 2 == 0 {
      StitchEntry(prev, k);
      assert r[k] == x;
    } else {
      StitchEntry(prev, 2 * |prev| - 1 - k);
      assert r[2 * |prev| - 1 - k] == x;
    }
  }

  /** The code is a permutation of 0 .. 2^n - 1 that starts at 0. */
  lemma GrayPermutation(n: int)
    requires n >= 1
    ensures var r := GrayCode(n);
      && |r| == Pow2(n) && r[0] == 0
      && Distinct(r)
      && (forall x :: 0 <= x < Pow2(n) <==> x in r)
  {
    GrayDistinct(n);
    forall x | 0 <= x < Pow2(n)
      ensures x in GrayCode(n)
    {
      GrayCovers(n, x);
    }
  }
}
