/** parsing/string_compressor.hh: run-length compression of a char array,
    in place. Each group of equal characters is written as the character,
    followed by the decimal length of the group when that is more than 1;
    the new length is returned. */
module StringCompressor {
  import opened Common
  import opened Decimal

  /** The placeholder read past the end ('\xFF'); it may not occur in the
      input. */
  const SENTINEL: char := 'ÿ'

  /** Length of the group of equal characters s starts with. */
  function RunLen(s: seq<char>): (l: nat)
    requires s != []
    ensures 1 <= l <= |s|
  {
    if |s| == 1 || s[1] != s[0] then 1 else 1 + RunLen(s[1..])
  }

  /** The group RunLen measures is all copies of its first character and
      stops before a different one. */
  lemma {:induction false} RunLenGroup(s: seq<char>)
    requires s != []
    ensures forall i :: 0 <= i < RunLen(s) ==> s[i] == s[0]
    ensures RunLen(s) == |s| || s[RunLen(s)] != s[0]
  {
    if |s| > 1 && s[1] == s[0] {
      RunLenGroup(s[1..]);
    }
  }

  /** What one group of l copies of c is written as. */
  function Piece(c: char, l: nat): seq<char>
  {
    [c] + (if l > 1 then Digits(l) else [])
  }

  /** The compressed form of s, group by group. */
  function Encode(s: seq<char>): seq<char>
    decreases |s|
  {
    if s == [] then [] else Piece(s[0], RunLen(s)) + Encode(s[RunLen(s)..])
  }

  /** The group at the front is characterised by its extent. */
  lemma {:induction false} RunLenIs(s: seq<char>, l: nat)
    requires 1 <= l <= |s|
    requires forall i :: 0 <= i < l ==> s[i] == s[0]
    requires l == |s| || s[l] != s[0]
    ensures RunLen(s) == l
  {
    if l > 1 {
      assert s[1] == s[0];
      RunLenIs(s[1..], l - 1);
    }
  }

  /** A group appended after a different character is compressed on its
      own, after what came before. */
  lemma {:induction false} EncodeSnoc(p: seq<char>, g: seq<char>)
    requires g != [] && forall i :: 0 <= i < |g| ==> g[i] == g[0]
    requires p == [] || p[|p| - 1] != g[0]
    ensures Encode(p + g) == Encode(p) + Piece(g[0], |g|)
    decreases |p|
  {
    if p == [] {
      assert p + g == g;
      RunLenIs(g, |g|);
      assert g[|g|..] == [];
    } else {
      var m := RunLen(p);
      RunLenGroup(p);
      var s := p + g;
      var head := Piece(p[0], m);
      if m < |p| {
        RunLenIs(s, m);
        var rest := p[m..];
        assert s[m..] == rest + g;
        assert rest[|rest| - 1] == p[|p| - 1];
        EncodeSnoc(rest, g);
        assert Encode(s) == head + (Encode(rest) + Piece(g[0], |g|));
        assert Encode(p) == head + Encode(rest);
        ConcatAssoc(head, Encode(rest), Piece(g[0], |g|));
      } else {
        assert p[|p| - 1] == p[0];
        RunLenIs(s, m);
        assert s[m..] == g;
        RunLenIs(g, |g|);
        assert g[|g|..] == [];
        assert Encode(g) == Piece(g[0], |g|);
        assert p[m..] == [];
        assert Encode(p) == head;
      }
    }
  }

  /** Every group takes at most as many characters compressed as it
      covers. */
  lemma PieceShort(c: char, l: nat)
    requires l >= 1
    ensures |Piece(c, l)| <= l
  {
    DigitsShort(l);
  }

  /** Compressing never makes the text longer. */
  lemma {:induction false} EncodeShort(s: seq<char>)
    ensures |Encode(s)| <= |s|
    decreases |s|
  {
    if s != [] {
      PieceShort(s[0], RunLen(s));
      EncodeShort(s[RunLen(s)..]);
    }
  }

  /** Copies t into chars from position w on, one character at a time. */
  method WriteText(chars: array<char>, w: nat, t: seq<char>) returns (w': nat)
    requires w + |t| <= chars.Length
    modifies chars
    ensures w' == w + |t|
    ensures chars[..w'] == old(chars[..w]) + t
    ensures forall k :: w' <= k < chars.Length ==> chars[k] == old(chars[k])
  {
    ghost var kept := chars[..w];
    w' := w;
    for k := 0 to |t|
      invariant w' == w + k
      invariant chars[..w'] == kept + t[..k]
      invariant forall j :: w' <= j < chars.Length ==> chars[j] == old(chars[j])
    {
      ghost var written := chars[..w'];
      chars[w'] := t[k];
      assert chars[..w' + 1] == written + [t[k]];
      assert t[..k + 1] == t[..k] + [t[k]];
      w' := w' + 1;
    }
    assert t[..|t|] == t;
  }

  /** Writes one group at position w: the character, then the digits of
      its length when that is more than 1. */
  method WritePiece(chars: array<char>, w: nat, c: char, l: nat) returns (w': nat)
    requires w + |Piece(c, l)| <= chars.Length
    modifies chars
    ensures w' == w + |Piece(c, l)|
    ensures chars[..w'] == old(chars[..w]) + Piece(c, l)
    ensures forall k :: w' <= k < chars.Length ==> chars[k] == old(chars[k])
  {
    ghost var kept := chars[..w];
    chars[w] := c;
    assert chars[..w + 1] == kept + [c];
    w' := w + 1;
    if l > 1 {
      var lenStr := Digits(l);
      w' := WriteText(chars, w', lenStr);
    }
  }

  /** orig[start..end] is a group of c that began where the character
      before it differs. */
  ghost predicate InGroup(orig: seq<char>, start: nat, end: nat, c: char)
  {
    start < end <= |orig| && (forall k :: start <= k < end ==> orig[k] == c)
    && (start == 0 || orig[start - 1] != c)
  }

  /** A group grows by one more equal character. */
  lemma GroupGrows(orig: seq<char>, start: nat, end: nat, c: char)
    requires InGroup(orig, start, end, c) && end < |orig| && orig[end] == c
    ensures InGroup(orig, start, end + 1, c)
  {
  }

  /** The finished group [s, e) of orig extends the compressed prefix. */
  lemma GroupDone(orig: seq<char>, s: nat, e: nat, c: char)
    requires InGroup(orig, s, e, c)
    ensures Encode(orig[..e]) == Encode(orig[..s]) + Piece(c, e - s)
  {
    var g := orig[s..e];
    assert g[0] == c;
    assert orig[..e] == orig[..s] + g;
    EncodeSnoc(orig[..s], g);
  }

  /** The else branch of compress: writes the finished group of
      runLength copies of c (found at orig[start..]) behind what is
      written so far. The write never reaches the unread input. */
  method EmitGroup(chars: array<char>, ghost orig: seq<char>, writePos: nat, ghost start: nat,
                   c: char, runLength: nat) returns (w: nat)
    requires |orig| == chars.Length && InGroup(orig, start, start + runLength, c)
    requires writePos <= start
    requires forall k :: writePos <= k < chars.Length ==> chars[k] == orig[k]
    modifies chars
    ensures w <= start + runLength
    ensures chars[..w] == old(chars[..writePos]) + Piece(c, runLength)
    ensures forall k :: w <= k < chars.Length ==> chars[k] == orig[k]
  {
    ghost var before := chars[..writePos];
    PieceShort(c, runLength);
    w := WritePiece(chars, writePos, c, runLength);
    assert chars[..w] == before + Piece(c, runLength);
    forall k | w <= k < chars.Length
      ensures chars[k] == orig[k]
    {
      assert chars[k] == old(chars[k]);
    }
  }

  /** The state of compress's loop over the original contents orig: the
      front of cs holds the compressed text of orig[..start], the rest of cs
      is still orig, and nextChar is either the sentinel once everything is
      written, or the last character read, whose group is
      orig[start..readPos]. */
  ghost predicate Scanning(cs: seq<char>, orig: seq<char>, readPos: int, writePos: int, start: int, runLength: int, nextChar: char)
  {
    && |cs| == |orig| && 1 <= readPos <= |orig| && 0 <= writePos <= |orig|
    && (forall k :: writePos <= k < |orig| ==> cs[k] == orig[k])
    && (nextChar != SENTINEL ==>
        && 0 <= start && start + runLength == readPos && writePos <= start
        && InGroup(orig, start, readPos, nextChar)
        && cs[..writePos] == Encode(orig[..start]))
    && (nextChar == SENTINEL ==> cs[..writePos] == Encode(orig))
  }

  /** One turn of compress's loop: read the next character (or the
      sentinel past the end); a repeat extends the group, anything else
      writes the finished group out. */
  method ScanStep(chars: array<char>, ghost orig: seq<char>, readPos: int, writePos: int, ghost start: int,
                  runLength: int, nextChar: char)
    returns (readPos': int, writePos': int, ghost start': int, runLength': int, nextChar': char)
    requires nextChar != SENTINEL && forall i :: 0 <= i < |orig| ==> orig[i] != SENTINEL
    requires Scanning(chars[..], orig, readPos, writePos, start, runLength, nextChar)
    modifies chars
    ensures Scanning(chars[..], orig, readPos', writePos', start', runLength', nextChar')
    ensures readPos < readPos' || (readPos' == readPos && nextChar' == SENTINEL)
  {
    var prevChar := nextChar;
    if readPos < chars.Length {
      nextChar' := chars[readPos];
      readPos' := readPos + 1;
    } else {
      nextChar' := SENTINEL;
      readPos' := readPos;
    }
    if prevChar == nextChar' {
      ScanGrows(chars[..], orig, readPos, writePos, start, runLength, prevChar);
      writePos', start', runLength' := writePos, start, runLength + 1;
    } else {
      writePos' := ScanFlush(chars, orig, readPos, writePos, start, runLength, prevChar, readPos', nextChar');
      start', runLength' := readPos, 1;
    }
  }

  /** A repeated character extends the current group. */
  lemma ScanGrows(cs: seq<char>, orig: seq<char>, readPos: int, writePos: int, start: int, runLength: int, c: char)
    requires c != SENTINEL && Scanning(cs, orig, readPos, writePos, start, runLength, c)
    requires readPos < |orig| && orig[readPos] == c
    ensures Scanning(cs, orig, readPos + 1, writePos, start, runLength + 1, c)
  {
    GroupGrows(orig, start, readPos, c);
  }

  /** A different character, or the end, writes the finished group out;
      the character read starts the next group. */
  method ScanFlush(chars: array<char>, ghost orig: seq<char>, readPos: int, writePos: int, ghost start: int,
                   runLength: int, prevChar: char, readPos': int, nextChar': char) returns (w: int)
    requires prevChar != SENTINEL && Scanning(chars[..], orig, readPos, writePos, start, runLength, prevChar)
    requires || (readPos < |orig| && readPos' == readPos + 1 && nextChar' == orig[readPos] != prevChar && nextChar' != SENTINEL)
             || (readPos == |orig| && readPos' == readPos && nextChar' == SENTINEL)
    modifies chars
    ensures Scanning(chars[..], orig, readPos', w, readPos, 1, nextChar')
  {
    GroupDone(orig, start, readPos, prevChar);
    w := EmitGroup(chars, orig, writePos, start, prevChar, runLength);
    if nextChar' == SENTINEL {
      assert orig[..readPos] == orig;
    }
  }

  /** compress(chars): rewrites the front of chars with the compressed text
      and returns its length. */
  method Compress(chars: array<char>) returns (len: int)
    requires chars.Length >= 1
    requires forall i :: 0 <= i < chars.Length ==> chars[i] != SENTINEL
    modifies chars
    ensures 0 <= len <= chars.Length
    ensures chars[..len] == Encode(old(chars[..]))
  {
    ghost var orig := chars[..];
    var n := chars.Length;
    var readPos := 1;
    var writePos := 0;
    var nextChar := chars[0];
    var runLength := 1;
    ghost var start := 0;
    assert orig[..0] == [];
    while nextChar != SENTINEL
      invariant Scanning(chars[..], orig, readPos, writePos, start, runLength, nextChar)
      decreases n - readPos + (if nextChar == SENTINEL then 0 else 1)
    {
      readPos, writePos, start, runLength, nextChar := ScanStep(chars, orig, readPos, writePos, start, runLength, nextChar);
    }
    len := writePos;
  }

  /** Reading a compressed text back: each character is followed by an
      optional count. */
  function Expand(t: seq<char>): seq<char>
    decreases |t|
  {
    if t == [] then []
    else
      var e := DigitRunEnd(t, 1);
      (if e == 1 then [t[0]] else Copies(t[0], Value(t[1..e]))) + Expand(t[e..])
  }

  function Copies(c: char, n: nat): seq<char>
  {
    if n == 0 then [] else [c] + Copies(c, n - 1)
  }

  /** A group of equal characters is the character repeated. */
  lemma {:induction false} GroupIsCopies(s: seq<char>, l: nat)
    requires s != [] && l <= |s| && forall i :: 0 <= i < l ==> s[i] == s[0]
    ensures s[..l] == Copies(s[0], l)
  {
    if l > 0 {
      GroupIsCopies(s, l - 1);
      assert s[..l] == s[..l - 1] + [s[0]];
      CopiesSnoc(s[0], l - 1);
    }
  }

  lemma {:induction false} CopiesSnoc(c: char, n: nat)
    ensures Copies(c, n + 1) == Copies(c, n) + [c]
  {
    if n > 0 {
      CopiesSnoc(c, n - 1);
    }
  }

  /** One piece followed by text that starts with a non-digit is read back
      as its group. */
  lemma ExpandPiece(c: char, l: nat, t: seq<char>)
    requires l >= 1 && !IsDigit(c)
    requires t == [] || !IsDigit(t[0])
    ensures Expand(Piece(c, l) + t) == Copies(c, l) + Expand(t)
  {
    var u := Piece(c, l) + t;
    var ds := if l > 1 then Digits(l) else [];
    var e := 1 + |ds|;
    assert u[1..e] == ds;
    assert u[e..] == t;
    RunEndAt(u, 1, e);
    if l > 1 {
      ValueOfDigits(l);
    } else {
      assert Copies(c, 1) == [c];
    }
  }

  /** For text without digits, expanding the compressed form gives the
      text back. */
  lemma {:induction false} ExpandEncode(s: seq<char>)
    requires forall i :: 0 <= i < |s| ==> !IsDigit(s[i])
    ensures Expand(Encode(s)) == s
    decreases |s|
  {
    if s != [] {
      var l := RunLen(s);
      RunLenGroup(s);
      var rest := s[l..];
      assert s == s[..l] + rest;
      ExpandEncode(rest);
      var t := Encode(rest);
      assert t == [] || !IsDigit(t[0]) by {
        if rest != [] {
          var head := Piece(rest[0], RunLen(rest));
          assert t == head + Encode(rest[RunLen(rest)..]);
          assert head[0] == rest[0];
        }
      }
      ExpandPiece(s[0], l, t);
      GroupIsCopies(s, l);
    }
  }

  /** The example of the tests: "aaabbbbcdde" becomes "a3b4cd2e". */
  lemma Example(s: seq<char>)
    requires s == "aaabbbbcdde"
    ensures Encode(s) == "a3b4cd2e"
  {
    var s1, s2, s3, s4 := s[3..], s[7..], s[8..], s[10..];
    assert s1[4..] == s2 && s2[1..] == s3 && s3[2..] == s4 && s4[1..] == [];
    RunLenIs(s, 3);
    RunLenIs(s1, 4);
    RunLenIs(s2, 1);
    RunLenIs(s3, 2);
    RunLenIs(s4, 1);
    assert Digits(3) == "3" && Digits(4) == "4" && Digits(2) == "2";
    assert Encode(s4) == "e";
    assert Encode(s3) == "d2e";
    assert Encode(s2) == "cd2e";
    assert Encode(s1) == "b4cd2e";
  }
}
