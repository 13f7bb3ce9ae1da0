/** parsing/special_binary_string.hh: the move the problem allows, swapping
    two consecutive non-empty special substrings, and the proof that what
    solve returns is reached from its input by a sequence of such moves. */
module SpecialBinaryMoves {
  import opened SpecialBinaryString
  import LexOrder

  /** A string cut as pre + x + y + post, to become pre + y + x + post. */
  datatype Move = Move(pre: seq<char>, x: seq<char>, y: seq<char>, post: seq<char>)

  /** The move applies to s, and the two blocks it swaps are non-empty and
      special. */
  ghost predicate Allowed(s: seq<char>, m: Move)
  {
    s == m.pre + m.x + m.y + m.post && |m.x| > 0 && |m.y| > 0 && Special(m.x) && Special(m.y)
  }

  /** The string after the move. */
  function Swap(m: Move): seq<char>
  {
    m.pre + m.y + m.x + m.post
  }

  /** The moves ms, applied in turn from s, are each allowed and end at t. */
  ghost predicate Leads(s: seq<char>, ms: seq<Move>, t: seq<char>)
    decreases |ms|
  {
    if |ms| == 0 then s == t
    else Allowed(s, ms[0]) && Leads(Swap(ms[0]), ms[1..], t)
  }

  /** t can be reached from s by swapping consecutive special substrings. */
  ghost predicate Reachable(s: seq<char>, t: seq<char>)
  {
    exists ms :: Leads(s, ms, t)
  }

  /** A move keeps the characters. */
  lemma SwapKeeps(s: seq<char>, m: Move)
    requires Allowed(s, m)
    ensures multiset(Swap(m)) == multiset(s)
  {
  }

  /** Moves keep the characters. */
  lemma {:induction false} LeadsKeeps(s: seq<char>, ms: seq<Move>, t: seq<char>)
    requires Leads(s, ms, t)
    ensures multiset(t) == multiset(s)
    decreases |ms|
  {
    if |ms| > 0 {
      SwapKeeps(s, ms[0]);
      LeadsKeeps(Swap(ms[0]), ms[1..], t);
    }
  }

  /** One allowed move followed by more. */
  lemma {:induction false} LeadsCons(s: seq<char>, m: Move, ms: seq<Move>, t: seq<char>)
    requires Allowed(s, m) && Leads(Swap(m), ms, t)
    ensures Leads(s, [m] + ms, t)
  {
    assert ([m] + ms)[0] == m && ([m] + ms)[1..] == ms;
  }

  /** Moves from s to u followed by moves from u to t lead from s to t. */
  lemma {:induction false} LeadsChain(s: seq<char>, ms1: seq<Move>, u: seq<char>, ms2: seq<Move>, t: seq<char>)
    requires Leads(s, ms1, u) && Leads(u, ms2, t)
    ensures Leads(s, ms1 + ms2, t)
    decreases |ms1|
  {
    if |ms1| == 0 {
      assert ms1 + ms2 == ms2;
    } else {
      LeadsChain(Swap(ms1[0]), ms1[1..], u, ms2, t);
      assert (ms1 + ms2)[0] == ms1[0] && (ms1 + ms2)[1..] == ms1[1..] + ms2;
    }
  }

  /** A move made with a before the string and b after it. */
  function Within(a: seq<char>, m: Move, b: seq<char>): Move
  {
    Move(a + m.pre, m.x, m.y, m.post + b)
  }

  /** The moves ms, each made with a before the string and b after it. */
  function Shifted(a: seq<char>, ms: seq<Move>, b: seq<char>): (r: seq<Move>)
    ensures |r| == |ms| && forall n :: 0 <= n < |ms| ==> r[n] == Within(a, ms[n], b)
  {
    seq(|ms|, n requires 0 <= n < |ms| => Within(a, ms[n], b))
  }

  /** One move inside s, made inside a + s + b. */
  lemma SwapInContext(a: seq<char>, s: seq<char>, m: Move, b: seq<char>)
    requires Allowed(s, m)
    ensures Allowed(a + s + b, Within(a, m, b)) && Swap(Within(a, m, b)) == a + Swap(m) + b
  {
  }

  /** Moves inside s remain allowed with a before s and b after it. */
  lemma {:induction false} LeadsInContext(a: seq<char>, s: seq<char>, ms: seq<Move>, t: seq<char>, b: seq<char>)
    requires Leads(s, ms, t)
    ensures Leads(a + s + b, Shifted(a, ms, b), a + t + b)
    decreases |ms|
  {
    if |ms| > 0 {
      var m := ms[0];
      SwapInContext(a, s, m, b);
      LeadsInContext(a, Swap(m), ms[1..], t, b);
      LeadsCons(a + s + b, Within(a, m, b), Shifted(a, ms[1..], b), a + t + b);
      assert [Within(a, m, b)] + Shifted(a, ms[1..], b) == Shifted(a, ms, b);
    }
  }

  /** Moves that lead between two strings lead between equal ones. */
  lemma LeadsEq(s: seq<char>, ms: seq<Move>, t: seq<char>, s': seq<char>, t': seq<char>)
    requires Leads(s, ms, t) && s == s' && t == t'
    ensures Leads(s', ms, t')
  {
  }

  /** Regrouping and the empty string, for sequences alone. */
  lemma Regroup(a: seq<char>, b: seq<char>, c: seq<char>)
    ensures a + (b + c) == a + b + c && a + b + [] == a + b && [] + a + b == a + b
  {
  }

  /** Flatten of a list given by its first block. */
  lemma FlattenCons(y: seq<char>, rest: seq<seq<char>>)
    ensures LexOrder.Flatten([y] + rest) == y + LexOrder.Flatten(rest)
  {
    assert ([y] + rest)[1..] == rest;
  }

  /** The move that swaps two leading special blocks x and y. */
  lemma FrontMove(x: seq<char>, y: seq<char>, f: seq<char>)
    requires Special(x) && |x| > 0 && Special(y) && |y| > 0
    ensures Allowed(x + y + f, Move([], x, y, f)) && Swap(Move([], x, y, f)) == y + (x + f) + []
  {
    Regroup(x, y, f);
    Regroup(y, x, f);
    Regroup(y, x + f, []);
  }

  /** Moves from c to u and moves from f to g, made one after the other,
      lead from c + f to u + g. */
  lemma LeadsSideBySide(c: seq<char>, m0: seq<Move>, u: seq<char>, f: seq<char>, ms1: seq<Move>, g: seq<char>)
    returns (ms: seq<Move>)
    requires Leads(c, m0, u) && Leads(f, ms1, g)
    ensures Leads(c + f, ms, u + g)
  {
    LeadsInContext([], c, m0, u, f);
    LeadsInContext(u, f, ms1, g, []);
    Regroup(c, f, []);
    Regroup(u, f, []);
    Regroup(u, g, []);
    LeadsEq([] + c + f, Shifted([], m0, f), [] + u + f, c + f, u + f);
    LeadsEq(u + f + [], Shifted(u, ms1, []), u + g + [], u + f, u + g);
    LeadsChain(c + f, Shifted([], m0, f), u + f, Shifted(u, ms1, []), u + g);
    ms := Shifted([], m0, f) + Shifted(u, ms1, []);
  }

  /** Inserting a non-empty special block into a list of such blocks, by
      the descending insertion that Sort uses, is a sequence of moves that
      carry the block right past each block that must precede it. */
  lemma {:induction false} InsertReachable(x: seq<char>, ys: seq<seq<char>>) returns (ms: seq<Move>)
    requires Special(x) && |x| > 0
    requires forall y :: y in ys ==> Special(y) && |y| > 0
    ensures Leads(x + LexOrder.Flatten(ys), ms, LexOrder.Flatten(LexOrder.Insert(x, ys, true)))
    decreases |ys|
  {
    if |ys| == 0 {
      FlattenCons(x, []);
      ms := [];
    } else if LexOrder.InOrder(x, ys[0], true) {
      FlattenCons(x, ys);
      ms := [];
    } else {
      var y, rest := ys[0], ys[1..];
      assert y in ys;
      var f := LexOrder.Flatten(rest);
      var inserted := LexOrder.Insert(x, rest, true);
      var g := LexOrder.Flatten(inserted);
      var m := Move([], x, y, f);
      FrontMove(x, y, f);
      var ms' := InsertReachable(x, rest);
      LeadsInContext(y, x + f, ms', g, []);
      LeadsCons(x + y + f, m, Shifted(y, ms', []), y + g + []);
      ms := [m] + Shifted(y, ms', []);
      assert ys == [y] + rest;
      FlattenCons(y, rest);
      FlattenCons(y, inserted);
      Regroup(x, y, f);
      Regroup(y, g, []);
      assert LexOrder.Insert(x, ys, true) == [y] + inserted;
      LeadsEq(x + y + f, ms, y + g + [], x + LexOrder.Flatten(ys), LexOrder.Flatten(LexOrder.Insert(x, ys, true)));
    }
  }

  /** Moves from f to g, made with x before the string, lead from x + f
      to x + g. */
  lemma LeadsAfterPrefix(x: seq<char>, f: seq<char>, ms1: seq<Move>, g: seq<char>)
    requires Leads(f, ms1, g)
    ensures Leads(x + f, Shifted(x, ms1, []), x + g)
  {
    LeadsInContext(x, f, ms1, g, []);
    Regroup(x, f, []);
    Regroup(x, g, []);
    LeadsEq(x + f + [], Shifted(x, ms1, []), x + g + [], x + f, x + g);
  }

  /** Moves from f to g behind x, then moves from x + g to h, lead from
      x + f to h. */
  lemma LeadsThenFront(x: seq<char>, f: seq<char>, ms1: seq<Move>, g: seq<char>, ms2: seq<Move>, h: seq<char>)
    returns (ms: seq<Move>)
    requires Leads(f, ms1, g) && Leads(x + g, ms2, h)
    ensures Leads(x + f, ms, h)
  {
    LeadsAfterPrefix(x, f, ms1, g);
    LeadsChain(x + f, Shifted(x, ms1, []), x + g, ms2, h);
    ms := Shifted(x, ms1, []) + ms2;
  }

  /** Sorting keeps every block a non-empty special string. */
  lemma SortKeepsBlocks(xs: seq<seq<char>>)
    requires forall x :: x in xs ==> Special(x) && |x| > 0
    ensures forall y :: y in LexOrder.Sort(xs, true) ==> Special(y) && |y| > 0
  {
    forall y | y in LexOrder.Sort(xs, true)
      ensures Special(y) && |y| > 0
    {
      assert y in multiset(LexOrder.Sort(xs, true));
      assert y in multiset(xs);
    }
  }

  /** Sorting a list of non-empty special blocks in descending order is
      reached by moves. */
  lemma {:induction false} SortReachable(xs: seq<seq<char>>) returns (ms: seq<Move>)
    requires forall x :: x in xs ==> Special(x) && |x| > 0
    ensures Leads(LexOrder.Flatten(xs), ms, LexOrder.Flatten(LexOrder.Sort(xs, true)))
    decreases |xs|
  {
    if |xs| == 0 {
      ms := [];
    } else {
      var x, rest := xs[0], xs[1..];
      assert x in xs;
      assert forall y :: y in rest ==> y in xs;
      var ms1 := SortReachable(rest);
      var sorted := LexOrder.Sort(rest, true);
      SortKeepsBlocks(rest);
      var ms2 := InsertReachable(x, sorted);
      ms := LeadsThenFront(x, LexOrder.Flatten(rest), ms1, LexOrder.Flatten(sorted), ms2,
                           LexOrder.Flatten(LexOrder.Sort(xs, true)));
      assert xs == [x] + rest;
      FlattenCons(x, rest);
    }
  }

  /** Solving each special block in place is reached by moves inside the
      blocks, one block after another. */
  lemma {:induction false} EachReachable(cs: seq<seq<char>>, bound: nat) returns (ms: seq<Move>)
    requires forall c :: c in cs ==> |c| < bound
    requires forall i :: 0 <= i < |cs| ==> Special(cs[i])
    ensures Leads(LexOrder.Flatten(cs), ms, LexOrder.Flatten(SolveEach(cs, bound)))
    decreases bound, 0, |cs|
  {
    if |cs| == 0 {
      ms := [];
    } else {
      var c, rest := cs[0], cs[1..];
      assert c in cs;
      assert forall d :: d in rest ==> d in cs;
      var f := LexOrder.Flatten(rest);
      var m0 := SolveReachable(c);
      var ms1 := EachReachable(rest, bound);
      var g := LexOrder.Flatten(SolveEach(rest, bound));
      var u := Solve(c);
      ms := LeadsSideBySide(c, m0, u, f, ms1, g);
      assert cs == [c] + rest;
      FlattenCons(c, rest);
      assert SolveEach(cs, bound) == [u] + SolveEach(rest, bound);
      FlattenCons(u, SolveEach(rest, bound));
      LeadsEq(c + f, ms, u + g, LexOrder.Flatten(cs), LexOrder.Flatten(SolveEach(cs, bound)));
    }
  }

  /** A string of two or more characters is its first, its middle and its
      last. */
  lemma Ends(t: seq<char>)
    requires |t| >= 2
    ensures t == [t[0]] + t[1..|t| - 1] + [t[|t| - 1]]
  {
  }

  /** solve's result is reached from a special input by moves: a single
      chunk 1s'0 by moves inside s', several chunks by moves inside each
      chunk and then by the swaps that sort them. */
  lemma {:induction false} SolveReachable(t: seq<char>) returns (ms: seq<Move>)
    requires Special(t)
    ensures Leads(t, ms, Solve(t))
    decreases |t|, 2
  {
    NotSingle(t);
    if |t| <= 1 {
      ms := [];
    } else if |Chunks(t)| == 1 {
      ms := OneChunkReachable(t);
    } else {
      ms := ManyChunksReachable(t);
    }
  }

  /** One chunk 1s'0: the moves that solve s', made inside it. */
  lemma {:induction false} OneChunkReachable(t: seq<char>) returns (ms: seq<Move>)
    requires Special(t) && |t| > 1 && |Chunks(t)| == 1
    ensures Leads(t, ms, Solve(t))
    decreases |t|, 1
  {
    var cs := Chunks(t);
    ChunksOfSpecial(t);
    assert t == LexOrder.Flatten(cs) == cs[0] + [];
    assert MinimalSpecial(cs[0]);
    Unwrap(t);
    var inner := t[1..|t| - 1];
    var ms0 := SolveReachable(inner);
    LeadsInContext("1", inner, ms0, Solve(inner), "0");
    Ends(t);
    ms := Shifted("1", ms0, "0");
    LeadsEq("1" + inner + "0", ms, "1" + Solve(inner) + "0", t, Solve(t));
  }

  /** Several chunks: each solved in place, then sorted by swaps. */
  lemma {:induction false} ManyChunksReachable(t: seq<char>) returns (ms: seq<Move>)
    requires Special(t) && |t| > 1 && |Chunks(t)| != 1
    ensures Leads(t, ms, Solve(t))
    decreases |t|, 1
  {
    var cs := Chunks(t);
    ChunksOfSpecial(t);
    ChunksShorter(t);
    forall i | 0 <= i < |cs|
      ensures Special(cs[i])
    {
      assert MinimalSpecial(cs[i]);
    }
    var ms1 := EachReachable(cs, |t|);
    var solved := SolveEach(cs, |t|);
    forall x | x in solved
      ensures Special(x) && |x| > 0
    {
      var i :| 0 <= i < |solved| && solved[i] == x;
      SolveEachAt(cs, |t|, i);
      assert MinimalSpecial(cs[i]);
      SolvePreserves(cs[i]);
      assert |x| == |multiset(x)| == |multiset(cs[i])| == |cs[i]|;
    }
    var ms2 := SortReachable(solved);
    LeadsChain(t, ms1, LexOrder.Flatten(solved), ms2, Solve(t));
    ms := ms1 + ms2;
  }

  /** makeLargestSpecial returns a special string, made of the input's
      characters, that the allowed moves reach from the input. */
  lemma MakeLargestSpecialReachable(s: seq<char>)
    requires Special(s)
    ensures Reachable(s, MakeLargestSpecial(s))
    ensures Special(MakeLargestSpecial(s)) && multiset(MakeLargestSpecial(s)) == multiset(s)
  {
    var ms := SolveReachable(s);
    SolvePreserves(s);
  }

  /** Anything the moves reach from a special string is special and uses
      its characters. */
  lemma {:induction false} ReachableSpecial(s: seq<char>, ms: seq<Move>, t: seq<char>)
    requires Special(s) && Leads(s, ms, t)
    ensures Special(t) && multiset(t) == multiset(s)
    decreases |ms|
  {
    LeadsKeeps(s, ms, t);
    if |ms| > 0 {
      SwapSpecial(s, ms[0]);
      ReachableSpecial(Swap(ms[0]), ms[1..], t);
    }
  }

  /** One allowed move keeps a special string special. */
  lemma SwapSpecial(s: seq<char>, m: Move)
    requires Special(s) && Allowed(s, m)
    ensures Special(Swap(m))
  {
    assert s == m.pre + (m.x + m.y) + m.post;
    assert Swap(m) == m.pre + (m.y + m.x) + m.post;
    SpecialConcat(m.x, m.y);
    SpecialConcat(m.y, m.x);
    SwapBalance(m.pre, m.x + m.y, m.y + m.x, m.post);
  }

  /** Replacing the special middle block of a special string by another
      special block of the same length keeps it special. */
  lemma SwapBalance(pre: seq<char>, mid: seq<char>, mid2: seq<char>, post: seq<char>)
    requires Special(pre + mid + post) && Special(mid) && Special(mid2) && |mid| == |mid2|
    ensures Special(pre + mid2 + post)
  {
    var s, t := pre + mid + post, pre + mid2 + post;
    forall q | 0 <= q <= |t|
      ensures Bal(t, q) >= 0 && (q == |t| ==> Bal(t, q) == 0)
    {
      BalBlocks(pre, mid2, post, q);
      BalBlocks(pre, mid, post, q);
      BalBlocks(pre, mid, post, |pre|);
      BalBlocks(pre, mid, post, |pre| + |mid|);
    }
    forall i | 0 <= i < |t|
      ensures t[i] == '0' || t[i] == '1'
    {
      if i < |pre| {
        assert t[i] == s[i];
      } else if i < |pre| + |mid2| {
        assert t[i] == mid2[i - |pre|];
      } else {
        assert t[i] == s[i];
      }
    }
  }

  /** The count over a prefix of pre + mid + post, block by block. */
  lemma BalBlocks(pre: seq<char>, mid: seq<char>, post: seq<char>, q: nat)
    requires q <= |pre| + |mid| + |post|
    ensures q <= |pre| ==> Bal(pre + mid + post, q) == Bal(pre, q)
    ensures |pre| <= q <= |pre| + |mid| ==> Bal(pre + mid + post, q) == Bal(pre, |pre|) + Bal(mid, q - |pre|)
    ensures |pre| + |mid| <= q ==> Bal(pre + mid + post, q) == Bal(pre, |pre|) + Bal(mid, |mid|) + Bal(post, q - |pre| - |mid|)
  {
    assert pre + mid + post == pre + (mid + post);
    BalConcat(pre, mid + post, q);
    if q >= |pre| {
      BalConcat(mid, post, q - |pre|);
    }
  }
}
