/** parsing/decode_string.py: expands "k[s]" into s repeated k times with a
    character stack. Every character other than ']' is pushed; ']' pops back
    to the most recent '[', then pops the digits just before it, and pushes
    the enclosed text repeated that many times. */
module DecodeString {
  import opened Common
  import opened Decimal

  /** Python's inner * num. */
  function Repeat(s: seq<char>, n: nat): seq<char>
  {
    if n == 0 then [] else s + Repeat(s, n - 1)
  }

  /** Index of the last '[' on the stack, if any. */
  function LastOpen(st: seq<char>): (j: Option<nat>)
    ensures j.Some? ==> j.value < |st| && st[j.value] == '['
  {
    if st == [] then None
    else if st[|st| - 1] == '[' then Some(|st| - 1)
    else LastOpen(st[..|st| - 1])
  }

  /** Where the run of digits at the top of the stack begins. */
  function DigitStart(st: seq<char>): (i: nat)
    ensures i <= |st| && AllDigits(st[i..])
  {
    if st != [] && IsDigit(st[|st| - 1]) then
      var i := DigitStart(st[..|st| - 1]);
      assert st[i..] == st[..|st| - 1][i..] + [st[|st| - 1]];
      i
    else |st|
  }

  /** What ']' does to the stack: None where the source raises, because
      there is no '[' to pop back to (IndexError) or no digits before it
      (ValueError from int('')). */
  function Close(st: seq<char>): Option<seq<char>>
  {
    match LastOpen(st)
    case None => None
    case Some(j) =>
      var i := DigitStart(st[..j]);
      if i == j then None
      else Some(st[..i] + Repeat(st[j + 1..], Value(st[i..j])))
  }

  /** The stack machine run over the rest of the input. */
  function Run(st: seq<char>, s: seq<char>): Option<seq<char>>
    decreases |s|
  {
    if s == [] then Some(st)
    else if s[0] != ']' then Run(st + [s[0]], s[1..])
    else match Close(st)
      case None => None
      case Some(st') => Run(st', s[1..])
  }

  /** decode_string(s); None where the source raises. */
  function Decode(s: seq<char>): Option<seq<char>>
  {
    Run([], s)
  }

  /** The first loop of the ']' step: pop back to the most recent '['.
      found is false where the source pops an empty stack. */
  method PopToOpen(st: seq<char>) returns (found: bool, pre: seq<char>, inner: seq<char>)
    ensures found <==> LastOpen(st).Some?
    ensures found ==> LastOpen(st) == Some(|pre|) && st == pre + "[" + inner
  {
    var stack := st;
    inner := [];
    while true
      invariant stack + inner == st
      invariant LastOpen(stack) == LastOpen(st)
      decreases |stack|
    {
      if stack == [] {
        return false, [], [];
      }
      var top := stack[|stack| - 1];
      assert stack == stack[..|stack| - 1] + [top];
      stack := stack[..|stack| - 1];
      if top != '[' {
        inner := [top] + inner;
      } else {
        break;
      }
    }
    found, pre := true, stack;
  }

  /** The second loop of the ']' step: pop the digits of the count. The
      source pops a non-digit and pushes it back; here the top is looked at
      instead. */
  method PopCount(pre: seq<char>) returns (stack: seq<char>, digits: seq<char>)
    ensures pre == stack + digits && |stack| == DigitStart(pre)
  {
    stack, digits := pre, [];
    while stack != [] && IsDigit(stack[|stack| - 1])
      invariant stack + digits == pre
      invariant DigitStart(stack) == DigitStart(pre)
      decreases |stack|
    {
      var top := stack[|stack| - 1];
      assert stack == stack[..|stack| - 1] + [top];
      digits := [top] + digits;
      stack := stack[..|stack| - 1];
    }
  }

  /** The ']' step: pop back to '[', then pop the count before it, and
      push the enclosed text repeated. */
  method CloseGroup(st: seq<char>) returns (r: Option<seq<char>>)
    ensures r == Close(st)
  {
    var found, pre, inner := PopToOpen(st);
    if !found {
      return None;
    }
    assert st[..|pre|] == pre && st[|pre| + 1..] == inner;
    var stack, digits := PopCount(pre);
    if digits == [] {
      return None;
    }
    assert st[|stack|..|pre|] == digits && st[..|stack|] == stack;
    r := Some(stack + Repeat(inner, Value(digits)));
  }

  /** The main loop of decode_string. */
  method DecodeStringLoop(s: seq<char>) returns (r: Option<seq<char>>)
    ensures r == Decode(s)
  {
    var stack: seq<char> := [];
    for k := 0 to |s|
      invariant Run(stack, s[k..]) == Decode(s)
    {
      var ch := s[k];
      assert s[k..][1..] == s[k + 1..];
      if ch != ']' {
        stack := stack + [ch];
      } else {
        var closed := CloseGroup(stack);
        if closed.None? {
          return None;
        }
        stack := closed.value;
      }
    }
    r := Some(stack);
  }

  /** Characters without ']' are only pushed. */
  lemma {:induction false} RunPush(st: seq<char>, w: seq<char>, rest: seq<char>)
    requires forall i :: 0 <= i < |w| ==> w[i] != ']'
    ensures Run(st, w + rest) == Run(st + w, rest)
    decreases |w|
  {
    if w != [] {
      assert (w + rest)[0] == w[0];
      assert (w + rest)[1..] == w[1..] + rest;
      assert forall i :: 0 <= i < |w[1..]| ==> w[1..][i] == w[i + 1];
      RunPush(st + [w[0]], w[1..], rest);
      assert st + [w[0]] + w[1..] == st + w;
    } else {
      assert w + rest == rest && st + w == st;
    }
  }

  /** A string without ']' comes back unchanged. */
  lemma NoBrackets(s: seq<char>)
    requires forall i :: 0 <= i < |s| ==> s[i] != ']'
    ensures Decode(s) == Some(s)
  {
    RunPush([], s, []);
    assert s + [] == s;
    assert [] + s == s;
  }

  /** A ']' with no '[' before it fails. */
  lemma UnmatchedClose(s: seq<char>, rest: seq<char>)
    requires forall i :: 0 <= i < |s| ==> s[i] != '[' && s[i] != ']'
    ensures Decode(s + "]" + rest) == None
  {
    RunPush([], s, "]" + rest);
    assert s + "]" + rest == s + ("]" + rest);
    NoOpen(s);
  }

  /** A '[' with no count before it fails when it is closed. */
  lemma MissingCount(body: seq<char>)
    requires forall i :: 0 <= i < |body| ==> body[i] != '[' && body[i] != ']'
    ensures Decode("[" + body + "]") == None
  {
    var w := "[" + body;
    RunPush([], w, "]");
    assert w + "]" == "[" + body + "]";
    LastOpenAfter([], body);
    assert ([] + w)[..0] == [];
  }

  lemma {:induction false} NoOpen(st: seq<char>)
    requires forall i :: 0 <= i < |st| ==> st[i] != '['
    ensures LastOpen(st) == None
  {
    if st != [] {
      NoOpen(st[..|st| - 1]);
    }
  }

  /** The last '[' is the one before a text without brackets. */
  lemma {:induction false} LastOpenAfter(pre: seq<char>, x: seq<char>)
    requires forall i :: 0 <= i < |x| ==> x[i] != '['
    ensures LastOpen(pre + "[" + x) == Some(|pre|)
    decreases |x|
  {
    var st := pre + "[" + x;
    if x != [] {
      var x' := x[..|x| - 1];
      LastOpenAfter(pre, x');
      assert st[..|st| - 1] == pre + "[" + x';
    }
  }

  /** The digit run before '[' starts right after a non-digit. */
  lemma {:induction false} DigitStartAfter(pre: seq<char>, ds: seq<char>)
    requires pre == [] || !IsDigit(pre[|pre| - 1])
    requires AllDigits(ds)
    ensures DigitStart(pre + ds) == |pre|
    decreases |ds|
  {
    var st := pre + ds;
    if ds != [] {
      var ds' := ds[..|ds| - 1];
      DigitStartAfter(pre, ds');
      assert st[..|st| - 1] == pre + ds';
    } else {
      assert st == pre;
    }
  }

  /** Closing a group written as count, '[', bracket-free text. */
  lemma CloseGroupOf(pre: seq<char>, k: nat, x: seq<char>)
    requires pre == [] || !IsDigit(pre[|pre| - 1])
    requires forall i :: 0 <= i < |x| ==> x[i] != '['
    ensures Close(pre + Digits(k) + "[" + x) == Some(pre + Repeat(x, k))
  {
    var ds := Digits(k);
    var st := pre + ds + "[" + x;
    LastOpenAfter(pre + ds, x);
    var j := |pre| + |ds|;
    assert LastOpen(st) == Some(j);
    assert st[..j] == pre + ds;
    assert st[j + 1..] == x;
    DigitStartAfter(pre, ds);
    var i := |pre|;
    assert DigitStart(st[..j]) == i;
    assert st[..i] == pre;
    assert st[i..j] == ds;
    ValueOfDigits(k);
    assert Close(st) == Some(st[..i] + Repeat(st[j + 1..], Value(st[i..j])));
  }

  /** Encoded text: letters and counted groups. */
  datatype Piece = Letter(c: char) | Group(k: nat, body: seq<Piece>)

  /** Letters are neither digits nor brackets. */
  predicate Plain(c: char)
  {
    !IsDigit(c) && c != '[' && c != ']'
  }

  predicate WellFormed(ps: seq<Piece>)
    decreases ps
  {
    forall i :: 0 <= i < |ps| ==>
      match ps[i]
      case Letter(c) => Plain(c)
      case Group(_, body) => WellFormed(body)
  }

  /** The encoded string: each group as its count, '[', body, ']'. */
  function Encode(ps: seq<Piece>): seq<char>
    decreases ps
  {
    if ps == [] then []
    else match ps[0]
      case Letter(c) => [c] + Encode(ps[1..])
      case Group(k, body) => Digits(k) + "[" + Encode(body) + "]" + Encode(ps[1..])
  }

  /** The meaning of an encoded string: each group's body repeated. */
  function Expand(ps: seq<Piece>): seq<char>
    decreases ps
  {
    if ps == [] then []
    else match ps[0]
      case Letter(c) => [c] + Expand(ps[1..])
      case Group(k, body) => Repeat(Expand(body), k) + Expand(ps[1..])
  }

  lemma {:induction false} RepeatPlain(s: seq<char>, n: nat)
    requires forall i :: 0 <= i < |s| ==> Plain(s[i])
    ensures forall i :: 0 <= i < |Repeat(s, n)| ==> Plain(Repeat(s, n)[i])
  {
    if n > 0 {
      RepeatPlain(s, n - 1);
      var r := Repeat(s, n);
      assert r == s + Repeat(s, n - 1);
      assert forall i :: |s| <= i < |r| ==> r[i] == Repeat(s, n - 1)[i - |s|];
    }
  }

  /** The expansion of well-formed text holds only letters. */
  lemma {:induction false} ExpandPlain(ps: seq<Piece>)
    requires WellFormed(ps)
    ensures forall i :: 0 <= i < |Expand(ps)| ==> Plain(Expand(ps)[i])
    decreases ps
  {
    if ps != [] {
      assert WellFormed(ps[1..]) by {
        assert forall i :: 0 <= i < |ps[1..]| ==> ps[1..][i] == ps[i + 1];
      }
      ExpandPlain(ps[1..]);
      var tail := Expand(ps[1..]);
      match ps[0]
      case Letter(c) =>
        assert forall i :: 1 <= i < |Expand(ps)| ==> Expand(ps)[i] == tail[i - 1];
      case Group(k, body) =>
        assert WellFormed(body) by {
          assert ps[0] == Group(k, body);
        }
        ExpandPlain(body);
        RepeatPlain(Expand(body), k);
        var rep := Repeat(Expand(body), k);
        assert forall i :: |rep| <= i < |Expand(ps)| ==> Expand(ps)[i] == tail[i - |rep|];
    }
  }

  /** Running the machine over encoded text pushes its expansion, provided
      the stack does not end in a digit. */
  lemma {:induction false} RunEncoded(st: seq<char>, ps: seq<Piece>, rest: seq<char>)
    requires st == [] || !IsDigit(st[|st| - 1])
    requires WellFormed(ps)
    ensures Run(st, Encode(ps) + rest) == Run(st + Expand(ps), rest)
    decreases ps
  {
    if ps == [] {
      assert st + [] == st;
      assert [] + rest == rest;
    } else {
      assert WellFormed(ps[1..]) by {
        assert forall i :: 0 <= i < |ps[1..]| ==> ps[1..][i] == ps[i + 1];
      }
      match ps[0]
      case Letter(c) =>
        assert Plain(c) by {
          assert ps[0] == Letter(c);
        }
        var tail := Encode(ps[1..]) + rest;
        assert Encode(ps) + rest == [c] + tail;
        RunPush(st, [c], tail);
        RunEncoded(st + [c], ps[1..], rest);
        ConcatAssoc(st, [c], Expand(ps[1..]));
      case Group(k, body) =>
        assert WellFormed(body) by {
          assert ps[0] == Group(k, body);
        }
        var after := Encode(ps[1..]) + rest;
        var x := Expand(body);
        var entered := st + Digits(k) + "[";
        GroupText(ps, rest);
        PushCount(st, k, Encode(body) + "]" + after);
        ConcatAssoc(Encode(body), "]", after);
        assert Run(st, Encode(ps) + rest) == Run(entered, Encode(body) + ("]" + after));
        RunEncoded(entered, body, "]" + after);
        ExpandPlain(body);
        GroupClose(st, k, x, after);
        assert Run(st, Encode(ps) + rest) == Run(st + Repeat(x, k), after);
        RunEncoded(st + Repeat(x, k), ps[1..], rest);
        ConcatAssoc(st, Repeat(x, k), Expand(ps[1..]));
        assert Expand(ps) == Repeat(x, k) + Expand(ps[1..]);
    }
  }

  /** The text of a leading group, cut where the machine needs it. */
  lemma GroupText(ps: seq<Piece>, rest: seq<char>)
    requires ps != [] && ps[0].Group?
    ensures Encode(ps) + rest
      == Digits(ps[0].k) + "[" + (Encode(ps[0].body) + "]" + (Encode(ps[1..]) + rest))
  {
  }

  /** The count and '[' are pushed. */
  lemma PushCount(st: seq<char>, k: nat, t: seq<char>)
    ensures Run(st, Digits(k) + "[" + t) == Run(st + Digits(k) + "[", t)
  {
    var w := Digits(k) + "[";
    assert forall i :: 0 <= i < |w| ==> w[i] != ']';
    RunPush(st, w, t);
    assert st + w == st + Digits(k) + "[";
  }

  /** ']' after a group's expanded body replaces it, with its count, by the
      repeated body, and the stack still does not end in a digit. */
  lemma GroupClose(st: seq<char>, k: nat, x: seq<char>, after: seq<char>)
    requires st == [] || !IsDigit(st[|st| - 1])
    requires forall i :: 0 <= i < |x| ==> Plain(x[i])
    ensures Run(st + Digits(k) + "[" + x, "]" + after) == Run(st + Repeat(x, k), after)
    ensures var st' := st + Repeat(x, k); st' == [] || !IsDigit(st'[|st'| - 1])
  {
    CloseGroupOf(st, k, x);
    assert ("]" + after)[1..] == after;
    RepeatPlain(x, k);
    var rep := Repeat(x, k);
    var st' := st + rep;
    if rep != [] {
      assert st'[|st'| - 1] == rep[|rep| - 1];
    } else {
      assert st' == st;
    }
  }

  /** Decoding encoded text gives its expansion: counts are read whole,
      and nested groups are expanded from the innermost out. */
  lemma DecodeEncode(ps: seq<Piece>)
    requires WellFormed(ps)
    ensures Decode(Encode(ps)) == Some(Expand(ps))
  {
    RunEncoded([], ps, []);
    assert Encode(ps) + [] == Encode(ps);
    assert [] + Expand(ps) == Expand(ps);
  }
}
