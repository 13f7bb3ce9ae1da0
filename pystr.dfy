/** Python's str.split(sep) and sep.join(parts) for a one-character
    separator, as the string exercises use them. */
module PyStr {
  import opened Common

  /** No separator inside a piece. */
  predicate NoSep(w: seq<char>, sep: char)
  {
    forall i :: 0 <= i < |w| ==> w[i] != sep
  }

  /** s.split(sep): the pieces between separators, always at least one (an
      empty string gives [""]). */
  function Split(s: seq<char>, sep: char): (parts: seq<seq<char>>)
    ensures |parts| >= 1
  {
    if s == [] then [[]]
    else if s[0] == sep then [[]] + Split(s[1..], sep)
    else
      var rest := Split(s[1..], sep);
      [[s[0]] + rest[0]] + rest[1..]
  }

  /** sep.join(parts). */
  function Join(parts: seq<seq<char>>, sep: char): seq<char>
  {
    if |parts| == 0 then []
    else if |parts| == 1 then parts[0]
    else parts[0] + [sep] + Join(parts[1..], sep)
  }

  /** Joining the pieces of a split gives back the string. */
  lemma {:induction false} JoinSplit(s: seq<char>, sep: char)
    ensures Join(Split(s, sep), sep) == s
    decreases |s|
  {
    if s != [] {
      JoinSplit(s[1..], sep);
      var rest := Split(s[1..], sep);
      if s[0] == sep {
        assert s == [sep] + s[1..];
      } else {
        var parts := Split(s, sep);
        assert parts == [[s[0]] + rest[0]] + rest[1..];
        if |rest| > 1 {
          assert Join(rest, sep) == rest[0] + [sep] + Join(rest[1..], sep);
          assert parts[1..] == rest[1..];
          assert Join(parts, sep) == [s[0]] + rest[0] + [sep] + Join(rest[1..], sep);
        }
        assert s == [s[0]] + s[1..];
      }
    }
  }

  /** No piece of a split holds the separator. */
  lemma {:induction false} SplitPieces(s: seq<char>, sep: char)
    ensures forall k :: 0 <= k < |Split(s, sep)| ==> NoSep(Split(s, sep)[k], sep)
    decreases |s|
  {
    if s != [] {
      SplitPieces(s[1..], sep);
      var rest := Split(s[1..], sep);
      if s[0] != sep {
        var parts := Split(s, sep);
        var first := [s[0]] + rest[0];
        assert parts == [first] + rest[1..];
        assert NoSep(first, sep) by {
          forall i | 0 <= i < |first|
            ensures first[i] != sep
          {
            if i > 0 {
              assert first[i] == rest[0][i - 1];
            }
          }
        }
        forall k | 1 <= k < |parts|
          ensures NoSep(parts[k], sep)
        {
          assert parts[k] == rest[k];
        }
      }
    }
  }

  /** The tail of a separator-free word is separator-free. */
  lemma NoSepTail(w: seq<char>, sep: char)
    requires w != [] && NoSep(w, sep)
    ensures NoSep(w[1..], sep)
  {
    forall i | 0 <= i < |w[1..]|
      ensures w[1..][i] != sep
    {
      assert w[1..][i] == w[i + 1];
    }
  }

  /** A separator-free word splits into just itself. */
  lemma {:induction false} SplitWord(w: seq<char>, sep: char)
    requires NoSep(w, sep)
    ensures Split(w, sep) == [w]
    decreases |w|
  {
    if w != [] {
      NoSepTail(w, sep);
      SplitWord(w[1..], sep);
      assert [w[0]] + w[1..] == w;
    }
  }

  /** A separator-free word followed by the separator contributes one
      piece. */
  lemma {:induction false} SplitCons(w: seq<char>, sep: char, t: seq<char>)
    requires NoSep(w, sep)
    ensures Split(w + [sep] + t, sep) == [w] + Split(t, sep)
    decreases |w|
  {
    if w == [] {
      assert w + [sep] + t == [sep] + t;
      assert ([sep] + t)[1..] == t;
    } else {
      NoSepTail(w, sep);
      SplitCons(w[1..], sep, t);
      assert (w + [sep] + t)[1..] == w[1..] + [sep] + t;
      assert [w[0]] + w[1..] == w;
    }
  }

  /** Joining separator-free pieces and splitting again gives the pieces
      back. */
  lemma {:induction false} SplitJoin(cs: seq<seq<char>>, sep: char)
    requires |cs| >= 1
    requires forall k :: 0 <= k < |cs| ==> NoSep(cs[k], sep)
    ensures Split(Join(cs, sep), sep) == cs
  {
    if |cs| == 1 {
      SplitWord(cs[0], sep);
    } else {
      SplitJoin(cs[1..], sep);
      SplitCons(cs[0], sep, Join(cs[1..], sep));
      assert [cs[0]] + cs[1..] == cs;
    }
  }

  /** Splitting distributes over a separator between two parts. */
  lemma {:induction false} SplitAppend(p: seq<char>, sep: char, t: seq<char>)
    ensures Split(p + [sep] + t, sep) == Split(p, sep) + Split(t, sep)
    decreases |p|
  {
    var whole := p + [sep] + t;
    if p == [] {
      assert whole == [sep] + t;
      assert whole[1..] == t;
    } else {
      SplitAppend(p[1..], sep, t);
      assert whole[0] == p[0];
      assert whole[1..] == p[1..] + [sep] + t;
      var rest, tail := Split(p[1..], sep), Split(t, sep);
      if p[0] != sep {
        assert Split(whole, sep) == [[p[0]] + (rest + tail)[0]] + (rest + tail)[1..];
        assert (rest + tail)[0] == rest[0];
        assert (rest + tail)[1..] == rest[1..] + tail;
        var first := [[p[0]] + rest[0]];
        assert Split(whole, sep) == first + (rest[1..] + tail);
        assert Split(p, sep) == first + rest[1..];
        ConcatAssoc(first, rest[1..], tail);
      } else {
        var first: seq<seq<char>> := [[]];
        assert Split(whole, sep) == first + (rest + tail);
        assert Split(p, sep) == first + rest;
        ConcatAssoc(first, rest, tail);
      }
    }
  }
}
