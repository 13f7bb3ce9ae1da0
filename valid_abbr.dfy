/** parsing/valid_abbr.py: does abbr abbreviate word? Letters of abbr must
    match word character for character; a number skips that many
    characters of word and may not start with '0'. */
module ValidAbbr {
  import opened Decimal

  predicate IsLetter(c: char)
  {
    'a' <= c <= 'z' || 'A' <= c <= 'Z'
  }

  /** The characters an abbreviation is made of. */
  predicate AbbrChars(abbr: seq<char>)
  {
    forall i :: 0 <= i < |abbr| ==> IsLetter(abbr[i]) || IsDigit(abbr[i])
  }

  /** check(w_pos, a_pos). */
  function Check(word: seq<char>, abbr: seq<char>, w: nat, a: nat): bool
    requires AbbrChars(abbr) && a <= |abbr|
    decreases |abbr| - a
  {
    if w >= |word| || a >= |abbr| then a == |abbr| && w == |word|
    else if IsLetter(abbr[a]) then word[w] == abbr[a] && Check(word, abbr, w + 1, a + 1)
    else if abbr[a] == '0' then false
    else
      var e := DigitRunEnd(abbr, a + 1);
      Check(word, abbr, w + Value(abbr[a..e]), e)
  }

  /** validWordAbbreviation(word, abbr). */
  predicate Valid(word: seq<char>, abbr: seq<char>)
    requires AbbrChars(abbr)
  {
    Check(word, abbr, 0, 0)
  }

  /** The digit-scanning loop of check: the index of the last digit of the
      number that starts at aPos. */
  method ScanDigits(abbr: seq<char>, aPos: nat) returns (last: nat)
    requires aPos < |abbr|
    ensures last + 1 == DigitRunEnd(abbr, aPos + 1)
  {
    last := aPos;
    while last + 1 < |abbr| && IsDigit(abbr[last + 1])
      invariant aPos <= last < |abbr|
      invariant DigitRunEnd(abbr, last + 1) == DigitRunEnd(abbr, aPos + 1)
      decreases |abbr| - last
    {
      last := last + 1;
    }
  }

  /** check, as the source recurses. */
  method CheckFrom(word: seq<char>, abbr: seq<char>, wPos: nat, aPos: nat) returns (ok: bool)
    requires AbbrChars(abbr) && aPos <= |abbr|
    ensures ok == Check(word, abbr, wPos, aPos)
    decreases |abbr| - aPos
  {
    if wPos >= |word| || aPos >= |abbr| {
      return aPos == |abbr| && wPos == |word|;
    }
    var abbrCh := abbr[aPos];
    if IsLetter(abbrCh) {
      if word[wPos] != abbrCh {
        return false;
      }
      ok := CheckFrom(word, abbr, wPos + 1, aPos + 1);
      return;
    }
    if abbrCh == '0' {
      return false;
    }
    var lastDigitPos := ScanDigits(abbr, aPos);
    var num := Value(abbr[aPos..lastDigitPos + 1]);
    ok := CheckFrom(word, abbr, wPos + num, lastDigitPos + 1);
  }

  method ValidWordAbbreviation(word: seq<char>, abbr: seq<char>) returns (ok: bool)
    requires AbbrChars(abbr)
    ensures ok == Valid(word, abbr)
  {
    ok := CheckFrom(word, abbr, 0, 0);
  }

  /** An abbreviation read as tokens: a letter, or a count of skipped
      characters. */
  datatype Token = Lit(c: char) | Skip(n: nat)

  /** Letters are letters, counts are positive, and no two counts are
      adjacent (their digits would run together). */
  predicate Proper(ts: seq<Token>)
  {
    ts != [] ==>
      && (match ts[0]
          case Lit(c) => IsLetter(c)
          case Skip(n) => n >= 1 && (|ts| > 1 ==> ts[1].Lit?))
      && Proper(ts[1..])
  }

  /** The abbreviation's text: counts written in decimal. */
  function Render(ts: seq<Token>): seq<char>
  {
    if ts == [] then []
    else
      (match ts[0]
       case Lit(c) => [c]
       case Skip(n) => Digits(n)) + Render(ts[1..])
  }

  /** The tokens cover word exactly: letters match, counts skip. */
  predicate Fits(word: seq<char>, ts: seq<Token>)
    decreases |ts|
  {
    if ts == [] then word == []
    else match ts[0]
      case Lit(c) => |word| > 0 && word[0] == c && Fits(word[1..], ts[1..])
      case Skip(n) => n <= |word| && Fits(word[n..], ts[1..])
  }

  /** The tokens check reads from position a onwards. */
  function Parse(abbr: seq<char>, a: nat): seq<Token>
    requires AbbrChars(abbr) && a <= |abbr|
    decreases |abbr| - a
  {
    if a == |abbr| then []
    else if IsLetter(abbr[a]) then [Lit(abbr[a])] + Parse(abbr, a + 1)
    else
      var e := DigitRunEnd(abbr, a + 1);
      [Skip(Value(abbr[a..e]))] + Parse(abbr, e)
  }

  /** s[i..] split at j. */
  lemma SplitAt<T>(s: seq<T>, i: nat, j: nat)
    requires i <= j <= |s|
    ensures s[i..] == s[i..j] + s[j..]
  {
  }

  /** Dropping i and then k elements drops i + k. */
  lemma DropDrop<T>(s: seq<T>, i: nat, k: nat)
    requires i + k <= |s|
    ensures s[i..][k..] == s[i + k..]
  {
  }

  /** Every token sequence that fits word and renders as abbr makes check
      succeed. */
  lemma {:induction false} Complete(word: seq<char>, abbr: seq<char>, w: nat, a: nat, ts: seq<Token>)
    requires AbbrChars(abbr) && a <= |abbr| && w <= |word|
    requires Proper(ts) && abbr[a..] == Render(ts) && Fits(word[w..], ts)
    ensures Check(word, abbr, w, a)
    decreases |ts|
  {
    if ts != [] {
      var rest := Render(ts[1..]);
      match ts[0]
      case Lit(c) =>
        assert abbr[a..] == [c] + rest;
        assert abbr[a] == c && IsLetter(c);
        assert abbr[a + 1..] == rest;
        DropDrop(word, w, 1);
        Complete(word, abbr, w + 1, a + 1, ts[1..]);
        CheckLetter(word, abbr, w, a);
      case Skip(n) =>
        assert ts[1..] == [] || (ts[1..][0].Lit? && IsLetter(ts[1..][0].c));
        SkipToken(abbr, a, n, ts[1..]);
        var e := a + |Digits(n)|;
        DropDrop(word, w, n);
        Complete(word, abbr, w + n, e, ts[1..]);
        CheckCount(word, abbr, w, a, n, e);
    }
  }

  /** A matching letter: check goes on one position further in both. */
  lemma CheckLetter(word: seq<char>, abbr: seq<char>, w: nat, a: nat)
    requires AbbrChars(abbr) && w < |word| && a < |abbr|
    requires IsLetter(abbr[a]) && word[w] == abbr[a] && Check(word, abbr, w + 1, a + 1)
    ensures Check(word, abbr, w, a)
  {
  }

  /** A count n whose digits end at e: check goes on n characters further
      in word and at e in abbr. */
  lemma CheckCount(word: seq<char>, abbr: seq<char>, w: nat, a: nat, n: nat, e: nat)
    requires AbbrChars(abbr) && w < |word| && a < |abbr|
    requires !IsLetter(abbr[a]) && abbr[a] != '0' && DigitRunEnd(abbr, a + 1) == e
    requires Value(abbr[a..e]) == n && Check(word, abbr, w + n, e)
    ensures Check(word, abbr, w, a)
  {
  }

  /** A count rendered at a and followed by a letter or the end: check
      reads back the same number and resumes after its digits. */
  lemma SkipToken(abbr: seq<char>, a: nat, n: nat, next: seq<Token>)
    requires AbbrChars(abbr) && a <= |abbr| && n >= 1
    requires abbr[a..] == Digits(n) + Render(next)
    requires next == [] || (next[0].Lit? && IsLetter(next[0].c))
    ensures a + |Digits(n)| <= |abbr| && !IsLetter(abbr[a]) && abbr[a] != '0'
    ensures DigitRunEnd(abbr, a + 1) == a + |Digits(n)|
    ensures Value(abbr[a..a + |Digits(n)|]) == n && abbr[a + |Digits(n)|..] == Render(next)
  {
    var ds := Digits(n);
    var rest := Render(next);
    var e := a + |ds|;
    assert abbr[a..e] == ds;
    assert abbr[e..] == rest;
    DigitsLead(n);
    assert abbr[a] == ds[0];
    var sub := abbr[a + 1..e];
    assert AllDigits(sub) by {
      forall k | 0 <= k < |sub|
        ensures IsDigit(sub[k])
      {
        assert sub[k] == ds[k + 1];
      }
    }
    assert e == |abbr| || !IsDigit(abbr[e]) by {
      if e < |abbr| {
        assert abbr[e] == rest[0] == next[0].c;
      }
    }
    RunEndAt(abbr, a + 1, e);
    ValueOfDigits(n);
  }

  /** When check succeeds, the tokens it read are proper, render as the
      rest of abbr, and fit the rest of word. */
  lemma {:induction false} Sound(word: seq<char>, abbr: seq<char>, w: nat, a: nat)
    requires AbbrChars(abbr) && a <= |abbr|
    requires Check(word, abbr, w, a)
    ensures w <= |word|
    ensures var ts := Parse(abbr, a); Proper(ts) && Render(ts) == abbr[a..] && Fits(word[w..], ts)
    decreases |abbr| - a
  {
    var ts := Parse(abbr, a);
    if w >= |word| || a >= |abbr| {
      assert ts == [];
    } else if IsLetter(abbr[a]) {
      Sound(word, abbr, w + 1, a + 1);
      var rest := Parse(abbr, a + 1);
      assert ts[1..] == rest;
      SplitAt(abbr, a, a + 1);
      DropDrop(word, w, 1);
    } else {
      var e := DigitRunEnd(abbr, a + 1);
      var ds := abbr[a..e];
      assert AllDigits(ds) by {
        assert ds == [abbr[a]] + abbr[a + 1..e];
      }
      var n := Value(ds);
      Sound(word, abbr, w + n, e);
      var rest := Parse(abbr, e);
      assert ts[1..] == rest;
      ValuePositive(ds);
      DigitsOfValue(ds);
      SplitAt(abbr, a, e);
      DropDrop(word, w, n);
      assert rest != [] ==> rest[0].Lit? by {
        if rest != [] {
          assert e < |abbr| && !IsDigit(abbr[e]);
        }
      }
      assert |ts| > 1 ==> ts[1] == rest[0];
    }
  }

  /** validWordAbbreviation holds exactly when abbr is a proper
      abbreviation of word. */
  lemma ValidIff(word: seq<char>, abbr: seq<char>)
    requires AbbrChars(abbr)
    ensures Valid(word, abbr) <==> exists ts :: Proper(ts) && Render(ts) == abbr && Fits(word, ts)
  {
    if Valid(word, abbr) {
      Sound(word, abbr, 0, 0);
      assert abbr[0..] == abbr && word[0..] == word;
      var ts := Parse(abbr, 0);
      assert Proper(ts) && Render(ts) == abbr && Fits(word, ts);
    }
    if exists ts :: Proper(ts) && Render(ts) == abbr && Fits(word, ts) {
      var ts :| Proper(ts) && Render(ts) == abbr && Fits(word, ts);
      assert abbr[0..] == abbr && word[0..] == word;
      Complete(word, abbr, 0, 0, ts);
    }
  }
}
