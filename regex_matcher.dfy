/** parsing/regex_matcher.hh: full matching of a string against a pattern
    of characters, '.' (any one character) and "x*" (zero or more x), by a
    recursion over a position in the string and a position in the pattern,
    memoised in an (|s|+1) x (|p|+1) table. */
module RegexMatcher {

  /** kNullChar: what the matcher reads past the end of the string. */
  const NULL_CHAR: char := '!'

  /** The end marker must not occur in the pattern: it would match the end
      of the string and send the matcher past the table. */
  predicate NoNull(p: seq<char>)
  {
    forall k :: 0 <= k < |p| ==> p[k] != NULL_CHAR
  }

  /** isMatch(sPos, pPos) without the table: does s[i..] match p[j..]? */
  function Rec(s: seq<char>, p: seq<char>, i: nat, j: nat): bool
    requires NoNull(p) && i <= |s| && j <= |p|
    decreases |s| - i, |p| - j
  {
    var sTerm := i >= |s|;
    if sTerm && j == |p| then true
    else if j == |p| then false
    else
      var sch := if sTerm then NULL_CHAR else s[i];
      var pch := p[j];
      var currIsDot := pch == '.';
      var nextIsStar := j != |p| - 1 && p[j + 1] == '*';
      var currMatches := sch == pch || (currIsDot && !sTerm);
      if !nextIsStar then
        currMatches && Rec(s, p, i + 1, j + 1)
      else
        (currMatches && Rec(s, p, i + 1, j + 2))
        || (currMatches && Rec(s, p, i + 1, j))
        || Rec(s, p, i, j + 2)
  }

  // ---- the language of a pattern ----

  /** One pattern element: a character ('.' for any) and whether a '*'
      follows it. */
  datatype Elem = Elem(c: char, star: bool)

  /** The elements of a pattern, read left to right; a '*' with nothing
      before it is read as a plain character, as the matcher does. */
  function Parse(p: seq<char>): seq<Elem>
  {
    if p == [] then []
    else if |p| >= 2 && p[1] == '*' then [Elem(p[0], true)] + Parse(p[2..])
    else [Elem(p[0], false)] + Parse(p[1..])
  }

  predicate CharMatch(ch: char, pc: char)
  {
    pc == '.' || pc == ch
  }

  predicate AllMatch(t: seq<char>, pc: char)
  {
    forall k :: 0 <= k < |t| ==> CharMatch(t[k], pc)
  }

  /** t is in the language of es: a starred element takes any number of
      matching characters, a plain one exactly one. */
  ghost predicate Lang(t: seq<char>, es: seq<Elem>)
    decreases |es|
  {
    if es == [] then t == []
    else if es[0].star then
      exists k :: 0 <= k <= |t| && AllMatch(t[..k], es[0].c) && Lang(t[k..], es[1..])
    else
      |t| >= 1 && CharMatch(t[0], es[0].c) && Lang(t[1..], es[1..])
  }

  /** The language of a starred element followed by more elements. */
  lemma LangStar(t: seq<char>, e: Elem, rest: seq<Elem>)
    requires e.star
    ensures Lang(t, [e] + rest)
        <==> exists k :: 0 <= k <= |t| && AllMatch(t[..k], e.c) && Lang(t[k..], rest)
  {
    var es := [e] + rest;
    assert es[0] == e && es[1..] == rest;
  }

  /** A match of a starred element takes no character, or takes one and
      matches the rest with the same element. */
  lemma StarPeel(t: seq<char>, e: Elem, rest: seq<Elem>)
    requires e.star && Lang(t, [e] + rest)
    ensures Lang(t, rest) || (|t| >= 1 && CharMatch(t[0], e.c) && Lang(t[1..], [e] + rest))
  {
    LangStar(t, e, rest);
    var k :| 0 <= k <= |t| && AllMatch(t[..k], e.c) && Lang(t[k..], rest);
    if k == 0 {
      assert t[k..] == t;
    } else {
      assert CharMatch(t[..k][0], e.c);
      var t' := t[1..];
      var u := t'[..k - 1];
      assert AllMatch(u, e.c) by {
        forall m | 0 <= m < |u|
          ensures CharMatch(u[m], e.c)
        {
          assert u[m] == t[..k][m + 1];
        }
      }
      assert t'[k - 1..] == t[k..];
      LangStar(t', e, rest);
    }
  }

  /** A starred element may match nothing. */
  lemma StarZero(t: seq<char>, e: Elem, rest: seq<Elem>)
    requires e.star && Lang(t, rest)
    ensures Lang(t, [e] + rest)
  {
    LangStar(t, e, rest);
    assert t[0..] == t;
    assert AllMatch(t[..0], e.c) && Lang(t[0..], rest);
  }

  /** A starred element may take one more matching character. */
  lemma StarMore(t: seq<char>, e: Elem, rest: seq<Elem>)
    requires e.star && |t| >= 1 && CharMatch(t[0], e.c) && Lang(t[1..], [e] + rest)
    ensures Lang(t, [e] + rest)
  {
    var t' := t[1..];
    LangStar(t', e, rest);
    var k :| 0 <= k <= |t'| && AllMatch(t'[..k], e.c) && Lang(t'[k..], rest);
    assert t[k + 1..] == t'[k..];
    var v := t[..k + 1];
    assert AllMatch(v, e.c) by {
      forall m | 0 <= m < |v|
        ensures CharMatch(v[m], e.c)
      {
        if m > 0 {
          assert v[m] == t'[..k][m - 1];
        }
      }
    }
    LangStar(t, e, rest);
    assert 0 <= k + 1 <= |t| && AllMatch(t[..k + 1], e.c) && Lang(t[k + 1..], rest);
  }

  /** A starred element matches nothing, or one character and then itself
      again. */
  lemma StarUnfold(t: seq<char>, e: Elem, rest: seq<Elem>)
    requires e.star
    ensures Lang(t, [e] + rest)
        <==> Lang(t, rest) || (|t| >= 1 && CharMatch(t[0], e.c) && Lang(t[1..], [e] + rest))
  {
    if Lang(t, [e] + rest) {
      StarPeel(t, e, rest);
    }
    if Lang(t, rest) {
      StarZero(t, e, rest);
    } else if |t| >= 1 && CharMatch(t[0], e.c) && Lang(t[1..], [e] + rest) {
      StarMore(t, e, rest);
    }
  }

  /** The pattern from position j on, as elements. */
  lemma ParseAt(p: seq<char>, j: nat)
    requires j < |p|
    ensures j + 1 < |p| && p[j + 1] == '*' ==>
      Parse(p[j..]) == [Elem(p[j], true)] + Parse(p[j + 2..])
    ensures !(j + 1 < |p| && p[j + 1] == '*') ==>
      Parse(p[j..]) == [Elem(p[j], false)] + Parse(p[j + 1..])
  {
    assert p[j..][1..] == p[j + 1..];
    if j + 1 < |p| {
      assert p[j..][2..] == p[j + 2..];
    }
  }

  /** The matcher decides the language of the pattern: s[i..] matches
      p[j..] exactly when it is in the language of p[j..]'s elements. */
  lemma {:induction false} RecIsLang(s: seq<char>, p: seq<char>, i: nat, j: nat)
    requires NoNull(p) && i <= |s| && j <= |p|
    ensures Rec(s, p, i, j) <==> Lang(s[i..], Parse(p[j..]))
    decreases |s| - i, |p| - j
  {
    var t := s[i..];
    if j == |p| {
      assert p[j..] == [];
    } else {
      ParseAt(p, j);
      assert i < |s| ==> t[0] == s[i] && t[1..] == s[i + 1..];
      var nextIsStar := j != |p| - 1 && p[j + 1] == '*';
      var m := i < |s| && CharMatch(s[i], p[j]);
      if !nextIsStar {
        if i < |s| {
          RecIsLang(s, p, i + 1, j + 1);
        }
        var es := Parse(p[j..]);
        assert es[0] == Elem(p[j], false) && es[1..] == Parse(p[j + 1..]);
      } else {
        var e, rest := Elem(p[j], true), Parse(p[j + 2..]);
        StarUnfold(t, e, rest);
        RecIsLang(s, p, i, j + 2);
        if i < |s| {
          RecIsLang(s, p, i + 1, j);
          RecIsLang(s, p, i + 1, j + 2);
          if m && Lang(t[1..], rest) {
            StarUnfold(t[1..], e, rest);
          }
        }
      }
    }
  }

  /** isMatch(s, p) is a full match of s against p. */
  lemma MatchIsLang(s: seq<char>, p: seq<char>)
    requires NoNull(p)
    ensures Rec(s, p, 0, 0) <==> Lang(s, Parse(p))
  {
    RecIsLang(s, p, 0, 0);
    assert s[0..] == s && p[0..] == p;
  }

  /** The three cases from the tests. */
  lemma Examples()
    ensures !Rec("aa", "a", 0, 0)
    ensures Rec("aa", "a*", 0, 0)
    ensures Rec("ab", ".*", 0, 0)
  {
  }

  /** The table entry for a result: 1 for true, 0 for false. */
  function Entry(b: bool): int
  {
    if b then 1 else 0
  }

  /** RegexMatcher: the lengths and the memo table of the current call. */
  class Matcher {
    var slen: nat
    var plen: nat
    var cache: array2<int>

    /** Every table entry is unset (-1) or holds the answer for its
        positions. */
    ghost predicate Valid(s: seq<char>, p: seq<char>)
      reads this, cache
    {
      && NoNull(p) && slen == |s| && plen == |p|
      && cache.Length0 == slen + 1 && cache.Length1 == plen + 1
      && forall i, j :: 0 <= i <= slen && 0 <= j <= plen ==>
           cache[i, j] == -1 || cache[i, j] == Entry(Rec(s, p, i, j))
    }

    constructor()
    {
      slen, plen := 0, 0;
      cache := new int[1, 1];
    }

    /** isMatch(s, p): a fresh table, then the recursion from (0, 0). */
    method IsMatch(s: seq<char>, p: seq<char>) returns (b: bool)
      requires NoNull(p)
      modifies this
      ensures b == Rec(s, p, 0, 0)
      ensures b <==> Lang(s, Parse(p))
    {
      slen := |s|;
      plen := |p|;
      cache := new int[slen + 1, plen + 1]((i, j) => -1);
      b := IsMatchAt(0, 0, s, p);
      MatchIsLang(s, p);
    }

    /** `result = b`: records an answer in the table. */
    method Store(sPos: nat, pPos: nat, b: bool, s: seq<char>, p: seq<char>)
      requires Valid(s, p) && sPos <= slen && pPos <= plen && b == Rec(s, p, sPos, pPos)
      modifies cache
      ensures Valid(s, p) && cache[sPos, pPos] == Entry(b)
    {
      cache[sPos, pPos] := Entry(b);
    }

    /** isMatch(sPos, pPos, s, p). */
    method IsMatchAt(sPos: nat, pPos: nat, s: seq<char>, p: seq<char>) returns (b: bool)
      requires Valid(s, p) && sPos <= slen && pPos <= plen
      modifies cache
      ensures Valid(s, p) && b == Rec(s, p, sPos, pPos)
      decreases slen - sPos, plen - pPos
    {
      var result := cache[sPos, pPos];
      if result != -1 {
        return result == 1;
      }
      var sTerm := sPos >= slen;
      if sTerm && pPos == plen {
        Store(sPos, pPos, true, s, p);
        return true;
      }
      if pPos == plen {
        Store(sPos, pPos, false, s, p);
        return false;
      }
      var sch := if sTerm then NULL_CHAR else s[sPos];
      var pch := p[pPos];
      var currIsDot := pch == '.';
      var nextIsStar := pPos != plen - 1 && p[pPos + 1] == '*';
      var currMatches := sch == pch || (currIsDot && !sTerm);
      if !nextIsStar {
        b := false;
        if currMatches {
          b := IsMatchAt(sPos + 1, pPos + 1, s, p);
        }
        Store(sPos, pPos, b, s, p);
        return;
      }
      if currMatches {
        var r := IsMatchAt(sPos + 1, pPos + 2, s, p);
        if r {
          Store(sPos, pPos, true, s, p);
          return true;
        }
        r := IsMatchAt(sPos + 1, pPos, s, p);
        if r {
          Store(sPos, pPos, true, s, p);
          return true;
        }
      }
      b := IsMatchAt(sPos, pPos + 2, s, p);
      Store(sPos, pPos, b, s, p);
    }
  }
}
