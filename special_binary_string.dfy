/** parsing/special_binary_string.hh: the lexicographically largest special
    binary string reachable by swapping adjacent special substrings. A range
    is cut into its minimal special chunks; a single chunk 1s'0 becomes
    "1" + solve(s') + "0", several chunks are solved one by one, sorted in
    descending order and concatenated. */
module SpecialBinaryString {
  import opened Common
  import LexOrder

  /** What a character adds to the running count: +1 for '1', -1 for
      anything else, as in getSubstrings. */
  function Step(c: char): int
  {
    if c == '1' then 1 else -1
  }

  /** The count over the first q characters of t. */
  function Bal(t: seq<char>, q: nat): int
    requires q <= |t|
  {
    if q == 0 then 0 else Bal(t, q - 1) + Step(t[q - 1])
  }

  predicate Binary(t: seq<char>)
  {
    forall i :: 0 <= i < |t| ==> t[i] == '0' || t[i] == '1'
  }

  /** A special binary string: as many 1s as 0s, and no prefix with more 0s
      than 1s. */
  ghost predicate Special(t: seq<char>)
  {
    Binary(t) && Bal(t, |t|) == 0 && forall q :: 0 <= q <= |t| ==> Bal(t, q) >= 0
  }

  /** Special and not the concatenation of two non-empty special strings:
      every proper non-empty prefix has more 1s than 0s. */
  ghost predicate MinimalSpecial(t: seq<char>)
  {
    Special(t) && |t| > 0 && forall q :: 0 < q < |t| ==> Bal(t, q) > 0
  }

  /** The first position k >= j at which the count over t[..k+1] returns
      to zero. */
  function FirstReturn(t: seq<char>, j: nat): (r: Option<nat>)
    requires j <= |t|
    ensures r.Some? ==> j <= r.value < |t| && Bal(t, r.value + 1) == 0
    ensures forall q :: j < q <= |t| && (r.None? || q <= r.value) ==> Bal(t, q) != 0
    decreases |t| - j
  {
    if j == |t| then None
    else if Bal(t, j + 1) == 0 then Some(j)
    else FirstReturn(t, j + 1)
  }

  /** The chunks getSubstrings pushes for t: each one ends where the count
      first returns to zero; an unbalanced tail yields nothing. */
  function Chunks(t: seq<char>): seq<seq<char>>
    decreases |t|
  {
    if |t| <= 1 then []
    else match FirstReturn(t, 0)
      case None => []
      case Some(j) => [t[..j + 1]] + Chunks(t[j + 1..])
  }

  /** getSubstrings(s, start, end, substrings): scans s[start..end] with a
      running count and appends each chunk found, then continues after it. */
  method GetSubstrings(s: seq<char>, start: int, end: int, substrings: seq<seq<char>>)
      returns (out: seq<seq<char>>)
    requires 0 <= start && end < |s|
    ensures out == substrings + (if start >= end then [] else Chunks(s[start..end + 1]))
    decreases end - start
  {
    if start >= end {
      return substrings;
    }
    var j;
    out, j := ScanChunk(s, start, end, substrings);
    ghost var found := out;
    ghost var rest := if j + 1 >= end then [] else Chunks(s[j + 1..end + 1]);
    out := GetSubstrings(s, j + 1, end, out);
    Assemble(s, start, end, j, substrings, found, rest);
  }

  /** The scan loop of getSubstrings: the count over s[start..j] first
      returns to zero at j, whose chunk is appended, or never does and j ends
      past end. */
  method ScanChunk(s: seq<char>, start: int, end: int, substrings: seq<seq<char>>)
      returns (out: seq<seq<char>>, j: int)
    requires 0 <= start < end < |s|
    ensures start <= j <= end + 1
    ensures j <= end ==> FirstReturn(s[start..end + 1], 0) == Some(j - start)
    ensures j == end + 1 ==> FirstReturn(s[start..end + 1], 0) == FirstReturn(s[start..end + 1], end + 1 - start)
    ensures out == substrings + (if j <= end then [s[start..j + 1]] else [])
  {
    ghost var t := s[start..end + 1];
    out := substrings;
    var count := 0;
    j := start;
    while j <= end
      invariant start <= j <= end + 1
      invariant count == Bal(t, j - start)
      invariant FirstReturn(t, 0) == FirstReturn(t, j - start)
      invariant out == substrings
    {
      ScanAt(s, start, end, j, count);
      count := count + (if s[j] == '1' then 1 else -1);
      if count == 0 {
        out := out + [s[start..j + 1]];
        break;
      }
      j := j + 1;
    }
  }

  /** The chunk found by the scan, followed by the chunks of the rest, are the
      chunks of s[start..end]. */
  lemma Assemble(s: seq<char>, start: nat, end: int, j: int,
                 substrings: seq<seq<char>>, found: seq<seq<char>>, rest: seq<seq<char>>)
    requires start < end < |s| && start <= j <= end + 1
    requires j <= end ==> FirstReturn(s[start..end + 1], 0) == Some(j - start)
    requires j == end + 1 ==> FirstReturn(s[start..end + 1], 0) == FirstReturn(s[start..end + 1], end + 1 - start)
    requires found == substrings + (if j <= end then [s[start..j + 1]] else [])
    requires rest == (if j + 1 >= end then [] else Chunks(s[j + 1..end + 1]))
    ensures found + rest == substrings + Chunks(s[start..end + 1])
  {
    ChunksSplit(s, start, end, j);
    if j <= end {
      AppendAssoc(substrings, s[start..j + 1], rest, Chunks(s[start..end + 1]), found + rest);
    }
  }

  lemma AppendAssoc<T>(a: seq<T>, c: T, rest: seq<T>, whole: seq<T>, out: seq<T>)
    requires whole == [c] + rest && out == (a + [c]) + rest
    ensures out == a + whole
  {
  }

  /** One step of the scan in getSubstrings, at position j of s: the loop's
      invariants carry over, and a zero count marks the first return. */
  lemma ScanAt(s: seq<char>, start: nat, end: int, j: int, count: int)
    requires start <= j <= end < |s|
    requires count == Bal(s[start..end + 1], j - start)
    requires FirstReturn(s[start..end + 1], 0) == FirstReturn(s[start..end + 1], j - start)
    ensures count + (if s[j] == '1' then 1 else -1) == Bal(s[start..end + 1], j - start + 1)
    ensures count + (if s[j] == '1' then 1 else -1) == 0 ==>
      FirstReturn(s[start..end + 1], 0) == Some(j - start)
    ensures count + (if s[j] == '1' then 1 else -1) != 0 ==>
      FirstReturn(s[start..end + 1], 0) == FirstReturn(s[start..end + 1], j - start + 1)
  {
    ScanStep(s[start..end + 1], j - start);
  }

  /** One step of the scan in getSubstrings. */
  lemma ScanStep(t: seq<char>, k: nat)
    requires k < |t|
    ensures Bal(t, k + 1) == Bal(t, k) + Step(t[k])
    ensures Bal(t, k + 1) == 0 ==> FirstReturn(t, k) == Some(k)
    ensures Bal(t, k + 1) != 0 ==> FirstReturn(t, k) == FirstReturn(t, k + 1)
  {
  }

  /** After the scan: either the chunk s[start..j] was found and the rest
      starts at j + 1, or the count never returned to zero. */
  lemma ChunksSplit(s: seq<char>, start: nat, end: int, j: int)
    requires start < end < |s| && start <= j <= end + 1
    requires j <= end ==> FirstReturn(s[start..end + 1], 0) == Some(j - start)
    requires j == end + 1 ==> FirstReturn(s[start..end + 1], 0) == FirstReturn(s[start..end + 1], end + 1 - start)
    ensures j <= end ==> Chunks(s[start..end + 1]) == [s[start..j + 1]] + (if j + 1 >= end then [] else Chunks(s[j + 1..end + 1]))
    ensures j == end + 1 ==> Chunks(s[start..end + 1]) == []
  {
    var t := s[start..end + 1];
    if j <= end {
      assert t[..j - start + 1] == s[start..j + 1];
      assert t[j - start + 1..] == s[j + 1..end + 1];
    }
  }

  /** solve(s, 0, |s| - 1), which makeLargestSpecial returns. */
  function Solve(t: seq<char>): seq<char>
    decreases |t|, 1, 0
  {
    if |t| <= 1 then []
    else
      var cs := Chunks(t);
      if |cs| == 1 then "1" + Solve(t[1..|t| - 1]) + "0"
      else
        ChunksShorter(t);
        LexOrder.Flatten(LexOrder.Sort(SolveEach(cs, |t|), true))
  }

  /** The loop of solve over the chunks: each one solved in turn. */
  function SolveEach(cs: seq<seq<char>>, ghost bound: nat): (r: seq<seq<char>>)
    requires forall c :: c in cs ==> |c| < bound
    ensures |r| == |cs|
    decreases bound, 0, |cs|
  {
    if |cs| == 0 then [] else [Solve(cs[0])] + SolveEach(cs[1..], bound)
  }

  lemma {:induction false} SolveEachAt(cs: seq<seq<char>>, bound: nat, i: nat)
    requires forall c :: c in cs ==> |c| < bound
    requires i < |cs|
    ensures SolveEach(cs, bound)[i] == Solve(cs[i])
  {
    if i > 0 {
      SolveEachAt(cs[1..], bound, i - 1);
    }
  }

  /** makeLargestSpecial. */
  function MakeLargestSpecial(s: seq<char>): seq<char>
  {
    Solve(s)
  }

  // ---------------------------------------------------------------------
  // Counting lemmas

  /** The count over a suffix is the difference of prefix counts. */
  lemma {:induction false} BalDrop(t: seq<char>, a: nat, q: nat)
    requires a + q <= |t|
    ensures Bal(t[a..], q) == Bal(t, a + q) - Bal(t, a)
  {
    if q > 0 {
      BalDrop(t, a, q - 1);
    }
  }

  /** The count over a prefix of t[..m] is the count over t. */
  lemma {:induction false} BalTake(t: seq<char>, m: nat, q: nat)
    requires q <= m <= |t|
    ensures Bal(t[..m], q) == Bal(t, q)
  {
    if q > 0 {
      BalTake(t, m, q - 1);
    }
  }

  lemma BalConcat(a: seq<char>, b: seq<char>, q: nat)
    requires q <= |a| + |b|
    ensures q <= |a| ==> Bal(a + b, q) == Bal(a, q)
    ensures q >= |a| ==> Bal(a + b, q) == Bal(a, |a|) + Bal(b, q - |a|)
  {
    if q <= |a| {
      BalTake(a + b, |a|, q);
      assert (a + b)[..|a|] == a;
    } else {
      BalDrop(a + b, |a|, q - |a|);
      BalTake(a + b, |a|, |a|);
      assert (a + b)[..|a|] == a && (a + b)[|a|..] == b;
    }
  }

  lemma SpecialConcat(a: seq<char>, b: seq<char>)
    requires Special(a) && Special(b)
    ensures Special(a + b)
  {
    forall q | 0 <= q <= |a + b|
      ensures Bal(a + b, q) >= 0
    {
      BalConcat(a, b, q);
    }
    BalConcat(a, b, |a + b|);
  }

  /** Wrapping a special string in 1 ... 0 gives a minimal special one. */
  lemma Wrap(x: seq<char>)
    requires Special(x)
    ensures MinimalSpecial("1" + x + "0")
  {
    var w := "1" + x + "0";
    assert w == "1" + (x + "0");
    forall q | 0 <= q <= |w|
      ensures q > 0 ==> Bal(w, q) > 0 || q == |w|
      ensures Bal(w, q) >= 0
    {
      BalConcat("1", x + "0", q);
      if q >= 1 {
        BalConcat(x, "0", q - 1);
      }
    }
    BalConcat("1", x + "0", |w|);
    BalConcat(x, "0", |x| + 1);
  }

  /** A minimal special string is 1 s' 0 with s' special. */
  lemma Unwrap(t: seq<char>)
    requires MinimalSpecial(t)
    ensures |t| >= 2 && t[0] == '1' && t[|t| - 1] == '0'
    ensures Special(t[1..|t| - 1])
  {
    var n := |t|;
    assert Bal(t, 1) == Step(t[0]);
    assert Bal(t, n - 1) > 0;
    var inner := t[1..n - 1];
    forall q | 0 <= q <= |inner|
      ensures Bal(inner, q) == Bal(t, q + 1) - 1
    {
      BalTake(t[1..], n - 2, q);
      assert t[1..][..n - 2] == inner;
      BalDrop(t, 1, q);
    }
    assert Bal(inner, |inner|) == 0;
  }

  /** A single character is never special. */
  lemma NotSingle(t: seq<char>)
    ensures Special(t) ==> |t| != 1
  {
    if |t| == 1 {
      assert Bal(t, 1) == Step(t[0]);
    }
  }

  // ---------------------------------------------------------------------
  // Chunks

  /** Chunks are never longer than the range, and shorter when there are
      several. */
  lemma {:induction false} ChunksShorter(t: seq<char>)
    ensures forall c :: c in Chunks(t) ==> |c| <= |t|
    ensures |Chunks(t)| != 1 ==> forall c :: c in Chunks(t) ==> |c| < |t|
    decreases |t|
  {
    if |t| > 1 && FirstReturn(t, 0).Some? {
      var j := FirstReturn(t, 0).value;
      ChunksShorter(t[j + 1..]);
      var rest := Chunks(t[j + 1..]);
      assert Chunks(t) == [t[..j + 1]] + rest;
      if |rest| > 0 {
        assert j + 1 < |t|;
      }
    }
  }

  /** getSubstrings on a special string cuts it into minimal special chunks
      whose concatenation is the whole string. */
  lemma {:induction false} ChunksOfSpecial(t: seq<char>)
    requires Special(t)
    ensures LexOrder.Flatten(Chunks(t)) == t
    ensures forall i :: 0 <= i < |Chunks(t)| ==> MinimalSpecial(Chunks(t)[i])
    decreases |t|
  {
    NotSingle(t);
    if |t| > 1 {
      assert Bal(t, |t|) == 0;
      assert FirstReturn(t, 0).Some?;
      var j := FirstReturn(t, 0).value;
      var head, rest := t[..j + 1], t[j + 1..];
      HeadMinimal(t, j);
      RestSpecial(t, j);
      ChunksOfSpecial(rest);
      assert Chunks(t) == [head] + Chunks(rest);
      assert t == head + rest;
    }
  }

  lemma HeadMinimal(t: seq<char>, j: nat)
    requires Special(t) && |t| > 1 && FirstReturn(t, 0) == Some(j)
    ensures MinimalSpecial(t[..j + 1])
  {
    var head := t[..j + 1];
    forall q | 0 <= q <= |head|
      ensures Bal(head, q) == Bal(t, q)
    {
      BalTake(t, j + 1, q);
    }
    forall q | 0 < q < |head|
      ensures Bal(head, q) > 0
    {
      assert Bal(t, (q - 1) + 1) != 0;
    }
  }

  lemma RestSpecial(t: seq<char>, j: nat)
    requires Special(t) && |t| > 1 && FirstReturn(t, 0) == Some(j)
    ensures Special(t[j + 1..])
  {
    var rest := t[j + 1..];
    forall q | 0 <= q <= |rest|
      ensures Bal(rest, q) == Bal(t, j + 1 + q)
    {
      BalDrop(t, j + 1, q);
    }
  }

  // ---------------------------------------------------------------------
  // What solve returns

  /** solve maps a special string to a special string with the same
      characters: a rearrangement of its 1s and 0s. */
  lemma {:induction false} SolvePreserves(t: seq<char>)
    requires Special(t)
    ensures Special(Solve(t)) && multiset(Solve(t)) == multiset(t)
    decreases |t|
  {
    NotSingle(t);
    if |t| > 1 {
      var cs := Chunks(t);
      ChunksOfSpecial(t);
      if |cs| == 1 {
        assert t == LexOrder.Flatten(cs) == cs[0] + [];
        assert MinimalSpecial(cs[0]);
        Unwrap(t);
        SolvePreserves(t[1..|t| - 1]);
        SolveSingle(t);
      } else {
        ChunksShorter(t);
        forall c | c in cs
          ensures Special(Solve(c)) && multiset(Solve(c)) == multiset(c)
        {
          var i :| 0 <= i < |cs| && cs[i] == c;
          SolvePreserves(c);
        }
        SolveSeveral(t);
      }
    }
  }

  /** The step for a single chunk 1s'0, given that s' is solved into a
      special rearrangement of itself. */
  lemma SolveSingle(t: seq<char>)
    requires |t| >= 2 && t[0] == '1' && t[|t| - 1] == '0' && |Chunks(t)| == 1
    requires Special(Solve(t[1..|t| - 1])) && multiset(Solve(t[1..|t| - 1])) == multiset(t[1..|t| - 1])
    ensures Special(Solve(t)) && multiset(Solve(t)) == multiset(t)
  {
    var inner := t[1..|t| - 1];
    SolveOneChunk(t);
    Wrap(Solve(inner));
    MultisetWrap(t);
  }

  lemma MultisetWrap(t: seq<char>)
    requires |t| >= 2 && t[0] == '1' && t[|t| - 1] == '0'
    ensures multiset(t) == multiset("1" + t[1..|t| - 1] + "0")
  {
    assert t == "1" + t[1..|t| - 1] + "0";
  }

  /** The step for several chunks, given that each chunk is solved into a
      special rearrangement of itself. */
  lemma SolveSeveral(t: seq<char>)
    requires Special(t) && |t| > 1 && |Chunks(t)| != 1
    requires forall c :: c in Chunks(t) ==> Special(Solve(c)) && multiset(Solve(c)) == multiset(c)
    ensures Special(Solve(t)) && multiset(Solve(t)) == multiset(t)
  {
    var cs := Chunks(t);
    ChunksOfSpecial(t);
    ChunksShorter(t);
    var solved := SolveEach(cs, |t|);
    forall i | 0 <= i < |cs|
      ensures Special(solved[i]) && multiset(solved[i]) == multiset(cs[i])
    {
      SolveEachAt(cs, |t|, i);
      assert cs[i] in cs;
    }
    var sorted := LexOrder.Sort(solved, true);
    LexOrder.FlattenSort(solved, true);
    SolvedFlatten(cs, solved);
    forall i | 0 <= i < |sorted|
      ensures Special(sorted[i])
    {
      assert sorted[i] in multiset(solved);
    }
    AllSpecial(sorted);
    assert Solve(t) == LexOrder.Flatten(sorted);
  }

  lemma {:induction false} SolvedFlatten(cs: seq<seq<char>>, solved: seq<seq<char>>)
    requires |cs| == |solved|
    requires forall i :: 0 <= i < |cs| ==> multiset(solved[i]) == multiset(cs[i])
    ensures multiset(LexOrder.Flatten(solved)) == multiset(LexOrder.Flatten(cs))
  {
    if |cs| > 0 {
      SolvedFlatten(cs[1..], solved[1..]);
    }
  }

  lemma {:induction false} AllSpecial(xs: seq<seq<char>>)
    requires forall i :: 0 <= i < |xs| ==> Special(xs[i])
    ensures Special(LexOrder.Flatten(xs))
  {
    if |xs| > 0 {
      AllSpecial(xs[1..]);
      SpecialConcat(xs[0], LexOrder.Flatten(xs[1..]));
    }
  }

  /** With several chunks, the solved chunks appear in descending order, and
      any sort of them gives the same string, so the unstable std::sort and
      the insertion sort here agree. */
  lemma SeveralChunks(t: seq<char>, order: seq<seq<char>>)
    requires |t| > 1 && |Chunks(t)| != 1
    requires forall c :: c in Chunks(t) ==> |c| < |t|
    requires LexOrder.Sorted(order, true)
    requires multiset(order) == multiset(SolveEach(Chunks(t), |t|))
    ensures Solve(t) == LexOrder.Flatten(order)
  {
    ChunksShorter(t);
    var solved := SolveEach(Chunks(t), |t|);
    LexOrder.SortSorted(solved, true);
    LexOrder.SortedUnique(LexOrder.Sort(solved, true), order, true);
  }

  // ---------------------------------------------------------------------
  // The expected results in parsing/special_binary_string.cc

  lemma Examples()
    ensures MakeLargestSpecial("1010") == "1010"
  {
    ChunksTenTen();
    SolveTen();
    SolveSeveralChunks("1010");
    assert SolveEach(["10", "10"], 4) == ["10", "10"];
    assert LexOrder.Sort(["10", "10"], true) == ["10", "10"] by {
      LexOrder.Irreflexive("10");
    }
    assert LexOrder.Flatten(["10", "10"]) == "1010" by {
      ChunksOfTenTen();
    }
  }

  lemma ChunksTenTen()
    ensures Chunks("1010") == ["10", "10"]
  {
    assert FirstReturn("1010", 0) == Some(1);
    assert "1010"[2..] == "10" && "1010"[..2] == "10";
    assert "10"[..2] == "10" && "10"[2..] == [];
    assert Chunks("10") == ["10"];
  }

  lemma ChunksOfTenTen()
    ensures LexOrder.Flatten(["10", "10"]) == "1010"
  {
    assert Bal("10", 1) == 1;
    ChunksTenTen();
    ChunksOfSpecial("1010");
  }

  lemma SolveTen()
    ensures Solve("10") == "10"
  {
    assert "10"[..2] == "10" && "10"[2..] == [];
    assert Chunks("10") == ["10"];
  }

  lemma ChunksOneOneZeroZero()
    ensures Chunks("1100") == ["1100"]
  {
    assert FirstReturn("1100", 0) == Some(3);
    assert "1100"[..4] == "1100" && "1100"[4..] == [];
  }

  lemma SolveOneOneZeroZero()
    ensures Solve("1100") == "1100"
  {
    ChunksOneOneZeroZero();
    assert "1100"[1..3] == "10";
    SolveTen();
  }

  lemma ChunksInner()
    ensures Chunks("101100") == ["10", "1100"]
  {
    assert FirstReturn("101100", 0) == Some(1);
    assert "101100"[..2] == "10" && "101100"[2..] == "1100";
    ChunksOneOneZeroZero();
  }

  lemma SolveEachInner()
    ensures SolveEach(["10", "1100"], 6) == ["10", "1100"]
  {
    SolveTen();
    SolveOneOneZeroZero();
  }

  lemma SortInner()
    ensures LexOrder.Sort(["10", "1100"], true) == ["1100", "10"]
  {
    assert LexOrder.Less("10", "1100");
  }

  lemma SolveInner()
    ensures Solve("101100") == "110010"
  {
    var t := "101100";
    ChunksInner();
    SolveEachInner();
    SortInner();
    SolveSeveralChunks(t);
    assert SolveEach(Chunks(t), |t|) == ["10", "1100"];
    assert LexOrder.Sort(SolveEach(Chunks(t), |t|), true) == ["1100", "10"];
    FlattenInner();
  }

  lemma FlattenInner()
    ensures LexOrder.Flatten(["1100", "10"]) == "110010"
  {
    assert ["1100", "10"][1..] == ["10"];
    assert ["10"][1..] == [];
  }

  /** Several chunks are solved, sorted in descending order and joined. */
  lemma SolveSeveralChunks(t: seq<char>)
    requires |t| > 1 && |Chunks(t)| != 1
    ensures forall c :: c in Chunks(t) ==> |c| < |t|
    ensures Solve(t) == LexOrder.Flatten(LexOrder.Sort(SolveEach(Chunks(t), |t|), true))
  {
    ChunksShorter(t);
  }

  lemma ChunksOuter()
    ensures Chunks("11011000") == ["11011000"]
  {
    var t := "11011000";
    assert Bal(t, 1) == 1 && Bal(t, 2) == 2 && Bal(t, 3) == 1 && Bal(t, 4) == 2;
    assert Bal(t, 5) == 3 && Bal(t, 6) == 2 && Bal(t, 7) == 1 && Bal(t, 8) == 0;
    assert FirstReturn(t, 0) == Some(7);
    assert t[..8] == t && t[8..] == [];
  }

  /** A single chunk 1s'0 is solved as 1 solve(s') 0. */
  lemma SolveOneChunk(t: seq<char>)
    requires |t| > 1 && |Chunks(t)| == 1
    ensures Solve(t) == "1" + Solve(t[1..|t| - 1]) + "0"
  {
  }

  lemma NestedExample()
    ensures MakeLargestSpecial("11011000") == "11100100"
  {
    var t := "11011000";
    ChunksOuter();
    SolveOneChunk(t);
    SliceOuter();
    SolveInner();
    assert Solve(t) == "1" + "110010" + "0";
    WrapInner();
  }

  lemma WrapInner()
    ensures "1" + "110010" + "0" == "11100100"
  {
    var w := "1" + "110010" + "0";
    assert |w| == 8;
    assert w[0] == '1' && w[1] == '1' && w[2] == '1' && w[3] == '0';
    assert w[4] == '0' && w[5] == '1' && w[6] == '0' && w[7] == '0';
  }

  lemma SliceOuter()
    ensures "11011000"[1..7] == "101100"
  {
    var w := "11011000"[1..7];
    assert |w| == 6;
    assert w[0] == '1' && w[1] == '0' && w[2] == '1';
    assert w[3] == '1' && w[4] == '0' && w[5] == '0';
  }

  // ---------------------------------------------------------------------
  // Solving strings built from minimal special pieces

  /** A minimal special prefix is the first chunk. */
  lemma ChunksMinimalPrefix(a: seq<char>, rest: seq<char>)
    requires MinimalSpecial(a)
    ensures Chunks(a + rest) == [a] + Chunks(rest)
  {
    Unwrap(a);
    var t := a + rest;
    forall q | 0 <= q <= |a|
      ensures Bal(t, q) == Bal(a, q)
    {
      BalConcat(a, rest, q);
    }
    assert FirstReturn(t, 0) == Some(|a| - 1);
    assert t[..|a|] == a && t[|a|..] == rest;
  }

  /** getSubstrings recovers the minimal special pieces a string was
      joined from. */
  lemma {:induction false} ChunksOfMinimals(cs: seq<seq<char>>)
    requires forall i :: 0 <= i < |cs| ==> MinimalSpecial(cs[i])
    ensures Chunks(LexOrder.Flatten(cs)) == cs
  {
    if |cs| > 0 {
      ChunksOfMinimals(cs[1..]);
      ChunksMinimalPrefix(cs[0], LexOrder.Flatten(cs[1..]));
      assert cs == [cs[0]] + cs[1..];
    }
  }

  /** A single chunk 1s'0 becomes "1" + solve(s') + "0". */
  lemma SolveWrap(x: seq<char>)
    requires Special(x)
    ensures Solve("1" + x + "0") == "1" + Solve(x) + "0"
  {
    var w := "1" + x + "0";
    Wrap(x);
    ChunksOfMinimals([w]);
    assert LexOrder.Flatten([w]) == w + [];
    SolveOneChunk(w);
    assert w[1..|w| - 1] == x;
  }

  /** Several minimal special pieces are each solved, sorted in descending
      order and joined. */
  lemma SolveJoined(cs: seq<seq<char>>)
    requires |cs| >= 2 && forall i :: 0 <= i < |cs| ==> MinimalSpecial(cs[i])
    ensures forall c :: c in cs ==> |c| < |LexOrder.Flatten(cs)|
    ensures Solve(LexOrder.Flatten(cs)) == LexOrder.Flatten(LexOrder.Sort(SolveEach(cs, |LexOrder.Flatten(cs)|), true))
  {
    var t := LexOrder.Flatten(cs);
    ChunksOfMinimals(cs);
    assert |t| > 1 by {
      Unwrap(cs[0]);
      assert t == cs[0] + LexOrder.Flatten(cs[1..]);
    }
    SolveSeveralChunks(t);
  }

  /** The strings of the second case, spelt out from their pieces. */
  lemma Spell(a: seq<char>, d: seq<char>)
    requires a == "1" + [] + "0" && d == "1" + ("1" + ("1" + a + "0") + "0") + "0"
    ensures "1" + (a + ("1" + (a + (a + (d + []))) + "0" + [])) + "0" == "110110101111000000"
    ensures "1" + ("1" + (d + (a + (a + []))) + "0" + (a + [])) + "0" == "111111000010100100"
  {
    assert a == "10";
    assert d == "11110000";
  }

  /** A special string wrapped in 1...0 is minimal and solves to its own
      solution wrapped. */
  lemma Wrapped(x: seq<char>)
    requires Special(x)
    ensures MinimalSpecial("1" + x + "0") && Solve("1" + x + "0") == "1" + Solve(x) + "0"
  {
    Wrap(x);
    SolveWrap(x);
  }

  /** Sorting a list given by its first block. */
  lemma SortCons(x: seq<char>, xs: seq<seq<char>>)
    ensures LexOrder.Sort([x] + xs, true) == LexOrder.Insert(x, LexOrder.Sort(xs, true), true)
  {
    assert ([x] + xs)[1..] == xs;
  }

  /** Inserting past a block that must come first. */
  lemma InsertPast(x: seq<char>, y: seq<char>, ys: seq<seq<char>>)
    requires LexOrder.Less(x, y)
    ensures LexOrder.Insert(x, [y] + ys, true) == [y] + LexOrder.Insert(x, ys, true)
  {
    assert ([y] + ys)[0] == y && ([y] + ys)[1..] == ys;
  }

  /** Inserting before a block that may come later. */
  lemma InsertHere(x: seq<char>, ys: seq<seq<char>>)
    requires |ys| == 0 || !LexOrder.Less(x, ys[0])
    ensures LexOrder.Insert(x, ys, true) == [x] + ys
  {
  }

  /** Blocks 10 f, where f starts 11, sort to f 10. */
  lemma SortTwo(a: seq<char>, f: seq<char>)
    requires |a| == 2 && a[0] == '1' && a[1] == '0' && |f| >= 2 && f[0] == '1' && f[1] == '1'
    ensures LexOrder.Sort([a, f], true) == [f, a]
  {
    LexOrder.LessAt(a, f, 1);
    SortCons(f, []);
    InsertHere(f, []);
    assert [f] + [] == [f];
    SortCons(a, [f]);
    assert [a] + [f] == [a, f];
    InsertPast(a, f, []);
    InsertHere(a, []);
    assert [f] + ([a] + []) == [f, a];
  }

  /** Blocks 10 10 d, where d starts 11, sort to d 10 10. */
  lemma SortThree(a: seq<char>, d: seq<char>)
    requires |a| == 2 && a[0] == '1' && a[1] == '0' && |d| >= 2 && d[0] == '1' && d[1] == '1'
    ensures LexOrder.Sort([a, a, d], true) == [d, a, a]
  {
    SortTwo(a, d);
    LexOrder.LessAt(a, d, 1);
    LexOrder.Irreflexive(a);
    SortCons(a, [a, d]);
    assert [a] + [a, d] == [a, a, d];
    assert [d, a] == [d] + [a];
    InsertPast(a, d, [a]);
    InsertHere(a, [a]);
    assert [d] + ([a] + [a]) == [d, a, a];
  }

  lemma FlattenThree(x: seq<char>, y: seq<char>, z: seq<char>)
    ensures LexOrder.Flatten([x, y, z]) == x + (y + (z + []))
  {
    assert [x, y, z][1..] == [y, z] && [y, z][1..] == [z] && [z][1..] == [];
    assert LexOrder.Flatten([z]) == z + LexOrder.Flatten([]);
    assert LexOrder.Flatten([y, z]) == y + LexOrder.Flatten([z]);
  }

  lemma FlattenTwo(x: seq<char>, y: seq<char>)
    ensures LexOrder.Flatten([x, y]) == x + (y + [])
  {
    assert [x, y][1..] == [y] && [y][1..] == [];
    assert LexOrder.Flatten([y]) == y + LexOrder.Flatten([]);
  }

  /** Solving 10 10 d block by block, when each is its own solution. */
  lemma EachThree(a: seq<char>, d: seq<char>, n: nat)
    requires |a| < n && |d| < n && Solve(a) == a && Solve(d) == d
    ensures forall c :: c in [a, a, d] ==> |c| < n
    ensures SolveEach([a, a, d], n) == [a, a, d]
  {
    assert [a, a, d][1..] == [a, d] && [a, d][1..] == [d] && [d][1..] == [];
    assert SolveEach([d], n) == [d];
    assert SolveEach([a, d], n) == [a] + [d];
  }

  /** Solving 10 f block by block. */
  lemma EachTwo(a: seq<char>, f: seq<char>, f': seq<char>, n: nat)
    requires |a| < n && |f| < n && Solve(a) == a && Solve(f) == f'
    ensures forall c :: c in [a, f] ==> |c| < n
    ensures SolveEach([a, f], n) == [a, f']
  {
    assert [a, f][1..] == [f] && [f][1..] == [];
    assert SolveEach([f], n) == [f'];
  }

  lemma MinimalThree(a: seq<char>, d: seq<char>)
    requires MinimalSpecial(a) && MinimalSpecial(d)
    ensures forall i :: 0 <= i < |[a, a, d]| ==> MinimalSpecial([a, a, d][i])
  {
  }

  /** Two minimal blocks 10 and d, each its own solution, joined as
      10 10 d: solved to d 10 10. */
  lemma SolveThree(a: seq<char>, d: seq<char>)
    requires MinimalSpecial(a) && Solve(a) == a && MinimalSpecial(d) && Solve(d) == d
    requires |a| == 2 && a[0] == '1' && a[1] == '0' && |d| >= 2 && d[0] == '1' && d[1] == '1'
    ensures Solve(a + (a + (d + []))) == d + (a + (a + []))
  {
    MinimalThree(a, d);
    SolveJoined([a, a, d]);
    FlattenThree(a, a, d);
    EachThree(a, d, |a + (a + (d + []))|);
    SortThree(a, d);
    FlattenThree(d, a, a);
  }

  /** Minimal blocks 10 and f, with f solving to f' that starts 11, joined
      as 10 f: solved to f' 10. */
  lemma SolveTwo(a: seq<char>, f: seq<char>, f': seq<char>)
    requires MinimalSpecial(a) && Solve(a) == a && MinimalSpecial(f) && Solve(f) == f'
    requires |a| == 2 && a[0] == '1' && a[1] == '0' && |f'| >= 2 && f'[0] == '1' && f'[1] == '1'
    ensures Solve(a + (f + [])) == f' + (a + [])
  {
    SolveJoined([a, f]);
    FlattenTwo(a, f);
    EachTwo(a, f, f', |a + (f + [])|);
    SortTwo(a, f');
    FlattenTwo(f', a);
  }

  /** 10, 1100, 111000, 11110000: each minimal and its own solution. */
  lemma Tower(a: seq<char>, b: seq<char>, c: seq<char>, d: seq<char>)
    requires a == "1" + [] + "0" && b == "1" + a + "0" && c == "1" + b + "0" && d == "1" + c + "0"
    ensures MinimalSpecial(a) && Solve(a) == a && MinimalSpecial(d) && Solve(d) == d
  {
    Wrapped([]);
    Wrapped(a);
    Wrapped(b);
    Wrapped(c);
  }

  /** The first two characters of 10 and of 11110000. */
  lemma TowerShape(a: seq<char>, d: seq<char>)
    requires a == "1" + [] + "0" && d == "1" + ("1" + ("1" + a + "0") + "0") + "0"
    ensures |a| == 2 && a[0] == '1' && a[1] == '0' && |d| >= 2 && d[0] == '1' && d[1] == '1'
  {
  }

  /** The second case of special_binary_string.cc: one chunk around
      10 + 11010111100000, whose second block wraps 10 + 10 + 11110000. */
  lemma LongExample()
    ensures MakeLargestSpecial("110110101111000000") == "111111000010100100"
  {
    var a: seq<char> := "1" + [] + "0";
    var b := "1" + a + "0";
    var c := "1" + b + "0";
    var d := "1" + c + "0";
    Tower(a, b, c, d);
    TowerShape(a, d);
    // 101011110000 solves to 111100001010.
    var e := a + (a + (d + []));
    SolveThree(a, d);
    SpecialConcat(d, []);
    SpecialConcat(a, d + []);
    SpecialConcat(a, a + (d + []));
    // 11010111100000 solves to 11111000010100.
    Wrapped(e);
    var f := "1" + e + "0";
    var f' := "1" + (d + (a + (a + []))) + "0";
    // 1011010111100000 solves to 1111100001010010.
    SolveTwo(a, f, f');
    SpecialConcat(f, []);
    SpecialConcat(a, f + []);
    // the whole string.
    Wrapped(a + (f + []));
    Spell(a, d);
  }
}
