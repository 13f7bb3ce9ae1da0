/** parsing/basic_calculator.hh: an expression of non-negative integers,
    + and -, parentheses and spaces is split into tokens and fed to a stack
    parser; a closing parenthesis replaces everything after the last open
    one by its value, and the final stack is summed, each number signed by
    the most recent + or -. */
module BasicCalculator {
  import opened Common
  import opened Decimal

  /** Token: a number or one of the four symbols. */
  datatype Token = Num(value: int) | Plus | Minus | Open | Close

  predicate IsSymbol(c: char)
  {
    c == '+' || c == '-' || c == '(' || c == ')'
  }

  /** The characters an expression is made of. */
  predicate CalcChars(s: seq<char>)
  {
    forall i :: 0 <= i < |s| ==> s[i] == ' ' || IsSymbol(s[i]) || IsDigit(s[i])
  }

  /** The characters left once the spaces are gone. */
  predicate LexChars(t: seq<char>)
  {
    forall i :: 0 <= i < |t| ==> IsSymbol(t[i]) || IsDigit(t[i])
  }

  function SymbolToken(c: char): (t: Token)
    requires IsSymbol(c)
    ensures !t.Num?
  {
    if c == '+' then Plus else if c == '-' then Minus else if c == '(' then Open else Close
  }

  /** The text with its spaces dropped: tokenize skips a space without
      ending the number being read. */
  function Strip(s: seq<char>): seq<char>
  {
    if s == [] then [] else (if s[0] == ' ' then [] else [s[0]]) + Strip(s[1..])
  }

  /** The tokens of space-free text: each symbol is one token and each
      maximal run of digits one number. */
  function Lex(t: seq<char>): seq<Token>
    requires LexChars(t)
    decreases |t|
  {
    if t == [] then []
    else if IsSymbol(t[0]) then [SymbolToken(t[0])] + Lex(t[1..])
    else
      var e := DigitRunEnd(t, 0);
      assert t[..e] == t[0..e];
      [Num(Value(t[..e]))] + Lex(t[e..])
  }

  lemma {:induction false} StripChars(s: seq<char>)
    requires CalcChars(s)
    ensures LexChars(Strip(s))
  {
    if s != [] {
      StripChars(s[1..]);
    }
  }

  /** The tokens tokenize produces for an expression. */
  function Tokens(s: seq<char>): seq<Token>
    requires CalcChars(s)
  {
    StripChars(s);
    Lex(Strip(s))
  }

  /** Stripping the text from position i on. */
  lemma StripAt(s: seq<char>, i: nat)
    requires i < |s|
    ensures Strip(s[i..]) == (if s[i] == ' ' then [] else [s[i]]) + Strip(s[i + 1..])
  {
    assert s[i..][1..] == s[i + 1..];
  }

  /** A digit run ended by a symbol is one number token, then the symbol. */
  lemma LexNumSym(num: seq<char>, c: char, rest: seq<char>)
    requires num != [] && AllDigits(num) && IsSymbol(c) && LexChars(rest)
    ensures LexChars(num + [c] + rest)
    ensures Lex(num + [c] + rest) == [Num(Value(num)), SymbolToken(c)] + Lex(rest)
  {
    var t := num + [c] + rest;
    assert t[..|num|] == num && t[|num|..] == [c] + rest;
    assert t[0..|num|] == num;
    RunEndAt(t, 0, |num|);
    assert ([c] + rest)[1..] == rest;
  }

  /** A symbol with no number before it is one token. */
  lemma LexSym(c: char, rest: seq<char>)
    requires IsSymbol(c) && LexChars(rest)
    ensures LexChars([c] + rest)
    ensures Lex([c] + rest) == [SymbolToken(c)] + Lex(rest)
  {
    assert ([c] + rest)[1..] == rest;
  }

  /** A final digit run is one number token. */
  lemma LexNum(num: seq<char>)
    requires num != [] && AllDigits(num)
    ensures LexChars(num) && Lex(num) == [Num(Value(num))]
  {
    assert num[0..|num|] == num && num[..|num|] == num;
    RunEndAt(num, 0, |num|);
  }

  /** The number still being read, as tokens. */
  function Pending(num: seq<char>): seq<Token>
    requires AllDigits(num)
  {
    if num == [] then [] else [Num(Value(num))]
  }

  /** One symbol in tokenize: the pending number, if any, is emitted,
      then the symbol. */
  lemma SymbolStep(currNum: seq<char>, c: char, rest: seq<char>)
    requires AllDigits(currNum) && IsSymbol(c) && LexChars(rest)
    ensures LexChars(currNum + ([c] + rest))
    ensures Lex(currNum + ([c] + rest)) == Pending(currNum) + ([SymbolToken(c)] + Lex(rest))
  {
    if currNum == [] {
      assert currNum + ([c] + rest) == [c] + rest;
      LexSym(c, rest);
    } else {
      assert currNum + ([c] + rest) == currNum + [c] + rest;
      LexNumSym(currNum, c, rest);
    }
  }

  /** One digit in tokenize: it extends the pending number. */
  lemma DigitStep(currNum: seq<char>, c: char, rest: seq<char>)
    requires AllDigits(currNum) && IsDigit(c)
    ensures AllDigits(currNum + [c])
    ensures currNum + ([c] + rest) == (currNum + [c]) + rest
  {
  }

  /** tokenize(s). */
  method Tokenize(s: seq<char>) returns (tokens: seq<Token>)
    requires CalcChars(s)
    ensures tokens == Tokens(s)
  {
    StripChars(s);
    ghost var all := Lex(Strip(s));
    tokens := [];
    var currNum: seq<char> := [];
    assert s[0..] == s;
    assert currNum + Strip(s[0..]) == Strip(s);
    assert all == tokens + all;
    for i := 0 to |s|
      invariant AllDigits(currNum) && LexChars(currNum + Strip(s[i..]))
      invariant all == tokens + Lex(currNum + Strip(s[i..]))
    {
      var c := s[i];
      StripAt(s, i);
      StripChars(s[i + 1..]);
      ghost var rest := Strip(s[i + 1..]);
      if c == ' ' {
        assert Strip(s[i..]) == rest;
        continue;
      }
      assert Strip(s[i..]) == [c] + rest;
      if IsSymbol(c) {
        SymbolStep(currNum, c, rest);
        ghost var lexRest := Lex(rest);
        ConcatAssoc(tokens, Pending(currNum), [SymbolToken(c)] + lexRest);
        ConcatAssoc(tokens + Pending(currNum), [SymbolToken(c)], lexRest);
        if currNum != [] {
          tokens := tokens + [Num(Value(currNum))];
        } else {
          assert tokens + [] == tokens;
        }
        tokens := tokens + [SymbolToken(c)];
        currNum := [];
        assert currNum + rest == rest;
      } else {
        DigitStep(currNum, c, rest);
        currNum := currNum + [c];
      }
    }
    assert Strip(s[|s|..]) == [];
    assert currNum + [] == currNum;
    if currNum != [] {
      LexNum(currNum);
      tokens := tokens + [Num(Value(currNum))];
    } else {
      assert tokens + [] == tokens;
    }
  }

  // ---- what tokenize promises ----

  /** The symbols of a token sequence, in order. */
  function SymbolsOf(ts: seq<Token>): seq<char>
  {
    if ts == [] then []
    else
      (match ts[0]
       case Num(_) => []
       case Plus => "+"
       case Minus => "-"
       case Open => "("
       case Close => ")") + SymbolsOf(ts[1..])
  }

  /** The symbol characters of a text, in order. */
  function SymbolChars(t: seq<char>): seq<char>
  {
    if t == [] then [] else (if IsSymbol(t[0]) then [t[0]] else []) + SymbolChars(t[1..])
  }

  /** Skipping a run of digits skips no symbol. */
  lemma {:induction false} SymbolCharsSkip(t: seq<char>, i: nat, e: nat)
    requires i <= e <= |t| && AllDigits(t[i..e])
    ensures SymbolChars(t[i..]) == SymbolChars(t[e..])
    decreases e - i
  {
    if i < e {
      assert t[i] == t[i..e][0];
      assert t[i..][1..] == t[i + 1..];
      assert t[i + 1..e] == t[i..e][1..];
      SymbolCharsSkip(t, i + 1, e);
    }
  }

  /** Every symbol of the text becomes a token, in the same order, and no
      other symbol token appears. */
  lemma {:induction false} LexSymbols(t: seq<char>)
    requires LexChars(t)
    ensures SymbolsOf(Lex(t)) == SymbolChars(t)
    decreases |t|
  {
    if t != [] {
      var ts := Lex(t);
      if IsSymbol(t[0]) {
        LexSymbols(t[1..]);
        assert ts[1..] == Lex(t[1..]);
      } else {
        var e := DigitRunEnd(t, 0);
        LexSymbols(t[e..]);
        assert t[0..] == t;
        SymbolCharsSkip(t, 0, e);
        assert ts[1..] == Lex(t[e..]);
      }
    }
  }

  /** Numbers are read whole: two number tokens are never adjacent. */
  lemma {:induction false} LexMaximal(t: seq<char>)
    requires LexChars(t)
    ensures forall k :: 0 <= k < |Lex(t)| - 1 ==> !(Lex(t)[k].Num? && Lex(t)[k + 1].Num?)
    decreases |t|
  {
    if t != [] {
      var ts := Lex(t);
      var rest := if IsSymbol(t[0]) then t[1..] else t[DigitRunEnd(t, 0)..];
      LexMaximal(rest);
      assert ts[1..] == Lex(rest);
      if !IsSymbol(t[0]) && rest != [] {
        assert IsSymbol(rest[0]);
        assert ts[1] == Lex(rest)[0];
      }
      forall k | 1 <= k < |ts| - 1
        ensures !(ts[k].Num? && ts[k + 1].Num?)
      {
        assert ts[k] == Lex(rest)[k - 1] && ts[k + 1] == Lex(rest)[k];
      }
    }
  }

  // ---- evaluate ----

  /** The loop of evaluate from a given multiplier on: a number adds
      multiplier * value; + sets the multiplier to 1 and any other symbol
      to -1. */
  function EvalFrom(ts: seq<Token>, m: int): int
  {
    if ts == [] then 0
    else
      match ts[0]
      case Num(v) => m * v + EvalFrom(ts[1..], m)
      case Plus => EvalFrom(ts[1..], 1)
      case _ => EvalFrom(ts[1..], -1)
  }

  /** The sign in force after ts: that of its most recent symbol, or m if
      it has none. */
  function SignAfter(ts: seq<Token>, m: int): int
  {
    if ts == [] then m
    else
      match ts[|ts| - 1]
      case Num(_) => SignAfter(ts[..|ts| - 1], m)
      case Plus => 1
      case _ => -1
  }

  /** The sum of the numbers of ts, each times the sign in force before
      it. */
  function SignedSum(ts: seq<Token>, m: int): int
  {
    if ts == [] then 0
    else
      var init := ts[..|ts| - 1];
      SignedSum(init, m) + (if ts[|ts| - 1].Num? then SignAfter(init, m) * ts[|ts| - 1].value else 0)
  }

  /** Extending the tokens at the end adds the last token's signed value. */
  lemma {:induction false} EvalSnoc(ts: seq<Token>, t: Token, m: int)
    ensures EvalFrom(ts + [t], m) == EvalFrom(ts, m) + (if t.Num? then SignAfter(ts, m) * t.value else 0)
    decreases |ts|
  {
    if ts == [] {
      assert ([] + [t])[1..] == [];
    } else {
      var m' := match ts[0] case Num(_) => m case Plus => 1 case _ => -1;
      EvalSnoc(ts[1..], t, m');
      assert (ts + [t])[1..] == ts[1..] + [t];
      SignAfterFront(ts, m);
    }
  }

  /** SignAfter read from the front: the first token sets the sign for the
      rest. */
  lemma {:induction false} SignAfterFront(ts: seq<Token>, m: int)
    requires ts != []
    ensures SignAfter(ts, m)
      == SignAfter(ts[1..], match ts[0] case Num(_) => m case Plus => 1 case _ => -1)
    decreases |ts|
  {
    if |ts| > 1 {
      var init := ts[..|ts| - 1];
      SignAfterFront(init, m);
      assert init[1..] == ts[1..][..|ts[1..]| - 1];
      assert init[0] == ts[0];
    }
  }

  /** evaluate sums the numbers, each signed by the most recent + or -
      before it (+ when there is none). */
  lemma {:induction false} EvalIsSignedSum(ts: seq<Token>, m: int)
    ensures EvalFrom(ts, m) == SignedSum(ts, m)
    decreases |ts|
  {
    if ts != [] {
      var init, last := ts[..|ts| - 1], ts[|ts| - 1];
      EvalIsSignedSum(init, m);
      EvalSnoc(init, last, m);
      assert init + [last] == ts;
    }
  }

  // ---- the parser state ----

  /** A snapshot of StackParser: the token stack and the stack indices of
      its open parentheses. */
  datatype Parser = Parser(stack: seq<Token>, opens: seq<nat>)

  /** The parser's invariant: no ) on the stack, and opens lists exactly the
      positions of the ( tokens, in increasing order. */
  ghost predicate WellFormed(p: Parser)
  {
    && (forall i :: 0 <= i < |p.stack| ==> p.stack[i] != Close)
    && (forall j :: 0 <= j < |p.opens| ==> p.opens[j] < |p.stack| && p.stack[p.opens[j]] == Open)
    && (forall j, k :: 0 <= j < k < |p.opens| ==> p.opens[j] < p.opens[k])
    && (forall i :: 0 <= i < |p.stack| && p.stack[i] == Open ==> i in p.opens)
  }

  /** push(token): a ) needs an open parenthesis to close. */
  function Step(p: Parser, t: Token): Parser
    requires WellFormed(p) && (t == Close ==> p.opens != [])
  {
    if t == Open then Parser(p.stack + [Open], p.opens + [|p.stack|])
    else if t == Close then
      var last := p.opens[|p.opens| - 1];
      Parser(p.stack[..last] + [Num(EvalFrom(p.stack[last + 1..], 1))], p.opens[..|p.opens| - 1])
    else Parser(p.stack + [t], p.opens)
  }

  /** Pushing a ( keeps the invariant. */
  lemma StepOpenWellFormed(p: Parser)
    requires WellFormed(p)
    ensures WellFormed(Step(p, Open))
  {
    var q := Step(p, Open);
    forall i | 0 <= i < |q.stack| && q.stack[i] == Open
      ensures i in q.opens
    {
      if i < |p.stack| {
        var j :| 0 <= j < |p.opens| && p.opens[j] == i;
        assert q.opens[j] == i;
      } else {
        assert q.opens[|p.opens|] == i;
      }
    }
  }

  /** Pushing a ) keeps the invariant. */
  lemma StepCloseWellFormed(p: Parser)
    requires WellFormed(p) && p.opens != []
    ensures WellFormed(Step(p, Close))
  {
    var q := Step(p, Close);
    var n := |p.opens|;
    var last := p.opens[n - 1];
    forall i | 0 <= i < |q.stack| && q.stack[i] == Open
      ensures i in q.opens
    {
      assert i < last && p.stack[i] == Open;
      var j :| 0 <= j < n && p.opens[j] == i;
      assert j < n - 1;
      assert q.opens[j] == i;
    }
    forall j | 0 <= j < |q.opens|
      ensures q.opens[j] < |q.stack| && q.stack[q.opens[j]] == Open
    {
      assert p.opens[j] < last;
    }
  }

  /** Every push keeps the invariant. */
  lemma StepWellFormed(p: Parser, t: Token)
    requires WellFormed(p) && (t == Close ==> p.opens != [])
    ensures WellFormed(Step(p, t))
  {
    if t == Close {
      StepCloseWellFormed(p);
    } else if t == Open {
      StepOpenWellFormed(p);
    } else {
      var q := Step(p, t);
      forall i | 0 <= i < |q.stack| && q.stack[i] == Open
        ensures i in q.opens
      {
        assert i < |p.stack| && p.stack[i] == Open;
      }
    }
  }

  /** The ( that the next ) would close is the last ( on the stack: the
      tokens after it hold no parenthesis. */
  lemma AfterLastOpen(p: Parser)
    requires WellFormed(p) && p.opens != []
    ensures forall i :: p.opens[|p.opens| - 1] < i < |p.stack| ==> p.stack[i] != Open && p.stack[i] != Close
  {
    var n := |p.opens|;
    forall i | p.opens[n - 1] < i < |p.stack|
      ensures p.stack[i] != Open
    {
      forall j | 0 <= j < n
        ensures p.opens[j] < i
      {
        if j < n - 1 {
          assert p.opens[j] < p.opens[n - 1];
        }
      }
      assert i !in p.opens;
    }
  }

  /** The nesting depth left after ts, starting from depth d. */
  function DepthAfter(d: int, ts: seq<Token>): int
    decreases |ts|
  {
    if ts == [] then d
    else DepthAfter(if ts[0] == Open then d + 1 else if ts[0] == Close then d - 1 else d, ts[1..])
  }

  /** Starting at depth d, no ) in ts comes without an open ( to close. */
  predicate Fits(d: int, ts: seq<Token>)
    decreases |ts|
  {
    ts == [] ||
    ((ts[0] == Close ==> d >= 1) &&
     Fits(if ts[0] == Open then d + 1 else if ts[0] == Close then d - 1 else d, ts[1..]))
  }

  /** Parentheses match: every ) closes an earlier (, and none is left
      open. */
  predicate Balanced(ts: seq<Token>)
  {
    Fits(0, ts) && DepthAfter(0, ts) == 0
  }

  /** Pushing a whole token sequence. */
  function PushAll(p: Parser, ts: seq<Token>): (q: Parser)
    requires WellFormed(p) && Fits(|p.opens|, ts)
    ensures WellFormed(q) && |q.opens| == DepthAfter(|p.opens|, ts)
    decreases |ts|
  {
    if ts == [] then p
    else
      StepWellFormed(p, ts[0]);
      PushAll(Step(p, ts[0]), ts[1..])
  }

  /** The value of a balanced token sequence. */
  function TokensValue(ts: seq<Token>): int
    requires Balanced(ts)
  {
    EvalFrom(PushAll(Parser([], []), ts).stack, 1)
  }

  /** calculate(s): the sum left on the stack once every token is
      pushed. */
  function Calculation(s: seq<char>): int
    requires CalcChars(s) && Balanced(Tokens(s))
  {
    TokensValue(Tokens(s))
  }

  /** Pushing two sequences one after the other. */
  lemma {:induction false} PushAllAppend(p: Parser, a: seq<Token>, b: seq<Token>)
    requires WellFormed(p) && Fits(|p.opens|, a + b)
    ensures Fits(|p.opens|, a) && Fits(DepthAfter(|p.opens|, a), b)
    ensures PushAll(p, a + b) == PushAll(PushAll(p, a), b)
    decreases |a|
  {
    if a == [] {
      assert a + b == b;
    } else {
      assert (a + b)[0] == a[0] && (a + b)[1..] == a[1..] + b;
      StepWellFormed(p, a[0]);
      PushAllAppend(Step(p, a[0]), a[1..], b);
    }
  }

  predicate ParenFree(ts: seq<Token>)
  {
    forall i :: 0 <= i < |ts| ==> ts[i] != Open && ts[i] != Close
  }

  /** Tokens without parentheses are pushed as they are. */
  lemma {:induction false} PushParenFree(p: Parser, ts: seq<Token>)
    requires WellFormed(p) && ParenFree(ts)
    ensures Fits(|p.opens|, ts)
    ensures PushAll(p, ts) == Parser(p.stack + ts, p.opens)
    decreases |ts|
  {
    if ts != [] {
      StepWellFormed(p, ts[0]);
      PushParenFree(Step(p, ts[0]), ts[1..]);
      assert p.stack + [ts[0]] + ts[1..] == p.stack + ts;
    }
  }

  /** Pushing a token and then a sequence. */
  lemma PushCons(p: Parser, t: Token, ts: seq<Token>)
    requires WellFormed(p) && (t == Close ==> p.opens != [])
    ensures WellFormed(Step(p, t))
    ensures Fits(|Step(p, t).opens|, ts) ==>
      Fits(|p.opens|, [t] + ts) && PushAll(p, [t] + ts) == PushAll(Step(p, t), ts)
  {
    StepWellFormed(p, t);
    assert ([t] + ts)[0] == t && ([t] + ts)[1..] == ts;
  }

  /** Closing a group whose tokens were pushed as they are. */
  lemma CloseGroup(p: Parser, inner: seq<Token>)
    requires WellFormed(p)
    requires WellFormed(Parser(p.stack + [Open] + inner, p.opens + [|p.stack|]))
    ensures Step(Parser(p.stack + [Open] + inner, p.opens + [|p.stack|]), Close)
         == Parser(p.stack + [Num(EvalFrom(inner, 1))], p.opens)
  {
    var st := p.stack + [Open] + inner;
    assert st[..|p.stack|] == p.stack;
    assert st[|p.stack| + 1..] == inner;
    assert (p.opens + [|p.stack|])[..|p.opens|] == p.opens;
  }

  /** The tokens of a group after its (, then its ). */
  lemma PushInnerClose(p1: Parser, inner: seq<Token>)
    requires WellFormed(p1) && p1.opens != [] && ParenFree(inner)
    ensures Fits(|p1.opens|, inner + [Close])
    ensures WellFormed(Parser(p1.stack + inner, p1.opens))
    ensures PushAll(p1, inner + [Close]) == Step(Parser(p1.stack + inner, p1.opens), Close)
  {
    PushParenFree(p1, inner);
    var p2 := PushAll(p1, inner);
    StepWellFormed(p2, Close);
    assert Fits(|p2.opens|, [Close]);
    FitsJoin(|p1.opens|, inner, [Close]);
    PushAllAppend(p1, inner, [Close]);
    assert PushAll(p2, [Close]) == Step(p2, Close);
  }

  /** A parenthesised group without inner parentheses leaves its value as
      one number where the group stood. */
  lemma GroupReduces(p: Parser, inner: seq<Token>)
    requires WellFormed(p) && ParenFree(inner)
    ensures Fits(|p.opens|, [Open] + inner + [Close])
    ensures PushAll(p, [Open] + inner + [Close]) == Parser(p.stack + [Num(EvalFrom(inner, 1))], p.opens)
  {
    PushCons(p, Open, inner + [Close]);
    var p1 := Step(p, Open);
    PushInnerClose(p1, inner);
    CloseGroup(p, inner);
    ConcatAssoc([Open], inner, [Close]);
  }

  /** A token sequence without parentheses evaluates to its signed sum. */
  lemma ParenFreeValue(ts: seq<Token>)
    requires ParenFree(ts)
    ensures Fits(0, ts) && DepthAfter(0, ts) == 0
    ensures TokensValue(ts) == SignedSum(ts, 1)
  {
    PushParenFree(Parser([], []), ts);
    assert [] + ts == ts;
    EvalIsSignedSum(ts, 1);
  }

  /** After any prefix, a group and its value push to the same state, and
      the rest of the tokens fit after either. */
  lemma GroupOrValue(p: Parser, inner: seq<Token>, post: seq<Token>)
    requires WellFormed(p) && ParenFree(inner)
    requires Fits(|p.opens|, [Open] + inner + [Close] + post)
    ensures Fits(|p.opens|, [Num(EvalFrom(inner, 1))] + post)
    ensures PushAll(p, [Open] + inner + [Close] + post) == PushAll(p, [Num(EvalFrom(inner, 1))] + post)
    ensures DepthAfter(|p.opens|, [Open] + inner + [Close] + post)
         == DepthAfter(|p.opens|, [Num(EvalFrom(inner, 1))] + post)
  {
    var g := [Open] + inner + [Close];
    var t := Num(EvalFrom(inner, 1));
    PushAllAppend(p, g, post);
    GroupReduces(p, inner);
    PushCons(p, t, post);
    assert Step(p, t) == PushAll(p, g);
    DepthAppend(|p.opens|, g, post);
    DepthAppend(|p.opens|, [t], post);
  }

  /** Innermost group first: the calculation of a token sequence is that of
      the sequence with its group replaced by the group's value. */
  lemma GroupRewrite(pre: seq<Token>, inner: seq<Token>, post: seq<Token>)
    requires ParenFree(inner)
    requires Balanced(pre + [Open] + inner + [Close] + post)
    ensures Balanced(pre + [Num(EvalFrom(inner, 1))] + post)
    ensures PushAll(Parser([], []), pre + [Open] + inner + [Close] + post)
         == PushAll(Parser([], []), pre + [Num(EvalFrom(inner, 1))] + post)
    ensures TokensValue(pre + [Open] + inner + [Close] + post)
         == TokensValue(pre + [Num(EvalFrom(inner, 1))] + post)
  {
    var p0 := Parser([], []);
    var gp := [Open] + inner + [Close] + post;
    var np := [Num(EvalFrom(inner, 1))] + post;
    assert pre + [Open] + inner + [Close] + post == pre + gp;
    assert pre + [Num(EvalFrom(inner, 1))] + post == pre + np;
    PushAllAppend(p0, pre, gp);
    var p := PushAll(p0, pre);
    GroupOrValue(p, inner, post);
    FitsJoin(0, pre, np);
    PushAllAppend(p0, pre, np);
    DepthAppend(0, pre, gp);
    DepthAppend(0, pre, np);
  }

  /** Depth is additive over concatenation. */
  lemma {:induction false} DepthAppend(d: int, a: seq<Token>, b: seq<Token>)
    ensures DepthAfter(d, a + b) == DepthAfter(DepthAfter(d, a), b)
    decreases |a|
  {
    if a == [] {
      assert a + b == b;
    } else {
      assert (a + b)[0] == a[0] && (a + b)[1..] == a[1..] + b;
      DepthAppend(if a[0] == Open then d + 1 else if a[0] == Close then d - 1 else d, a[1..], b);
    }
  }

  /** Fits over a concatenation. */
  lemma {:induction false} FitsJoin(d: int, a: seq<Token>, b: seq<Token>)
    requires Fits(d, a) && Fits(DepthAfter(d, a), b)
    ensures Fits(d, a + b)
    decreases |a|
  {
    if a == [] {
      assert a + b == b;
    } else {
      assert (a + b)[0] == a[0] && (a + b)[1..] == a[1..] + b;
      FitsJoin(if a[0] == Open then d + 1 else if a[0] == Close then d - 1 else d, a[1..], b);
    }
  }

  // ---- the grammar the parser evaluates ----

  /** The expression grammar read by recursive descent: items up to the
      next ) or the end of ts, each number signed by the sign in force (m
      at the start, then that of the latest + or -), and a parenthesised
      group evaluated from sign 1 and then signed as one number. Returns
      the value and the tokens left, which start at the ) that stopped it. */
  function Group(ts: seq<Token>, m: int): (r: (int, seq<Token>))
    ensures |r.1| <= |ts| && (r.1 == [] || r.1[0] == Close)
    decreases |ts|
  {
    if ts == [] then (0, [])
    else
      match ts[0]
      case Close => (0, ts)
      case Num(v) => var x := Group(ts[1..], m); (m * v + x.0, x.1)
      case Plus => Group(ts[1..], 1)
      case Minus => Group(ts[1..], -1)
      case Open =>
        var g := Group(ts[1..], 1);
        if g.1 == [] then (m * g.0, [])
        else var x := Group(g.1[1..], m); (m * g.0 + x.0, x.1)
  }

  /** The value of an expression by the grammar. */
  function EvalExpr(ts: seq<Token>): int
  {
    Group(ts, 1).0
  }

  /** Without parentheses the grammar reads to the end, or to a ) after the
      tokens, and agrees with evaluate. */
  lemma {:induction false} GroupParenFree(inner: seq<Token>, x: seq<Token>, m: int)
    requires ParenFree(inner) && (x == [] || x[0] == Close)
    ensures Group(inner + x, m) == (EvalFrom(inner, m), x)
    decreases |inner|
  {
    if inner == [] {
      assert inner + x == x;
    } else {
      assert (inner + x)[0] == inner[0] && (inner + x)[1..] == inner[1..] + x;
      assert inner[0] != Open && inner[0] != Close;
      GroupParenFree(inner[1..], x, if inner[0] == Plus then 1 else if inner[0] == Minus then -1 else m);
    }
  }

  /** z and z' read alike from any sign: same value, same tokens left. */
  ghost predicate SameGroups(z: seq<Token>, z': seq<Token>)
  {
    z != [] && z' != [] && z[0] != Close && z'[0] != Close &&
    forall m :: Group(z, m) == Group(z', m)
  }

  /** A parenthesis-free group and its value read alike. */
  lemma GroupBase(inner: seq<Token>, post: seq<Token>)
    requires ParenFree(inner)
    ensures SameGroups([Open] + inner + [Close] + post, [Num(EvalFrom(inner, 1))] + post)
  {
    var z, z' := [Open] + inner + [Close] + post, [Num(EvalFrom(inner, 1))] + post;
    assert z[1..] == inner + ([Close] + post);
    assert ([Close] + post)[1..] == post && z'[1..] == post;
    forall m
      ensures Group(z, m) == Group(z', m)
    {
      GroupParenFree(inner, [Close] + post, 1);
    }
  }

  /** Readings of pre + z and pre + z' that agree: the same value, and they
      stop at the same point, or at the same point k of pre followed by z
      and by z' respectively. */
  ghost predicate Agree(r: (int, seq<Token>), r': (int, seq<Token>), pre: seq<Token>, z: seq<Token>, z': seq<Token>, k: int)
  {
    r.0 == r'.0 &&
    ((k == -1 && r.1 == r'.1) || (0 <= k < |pre| && r.1 == pre[k..] + z && r'.1 == pre[k..] + z'))
  }

  /** Agreement after pre[n..] is agreement after pre, with k moved by n. */
  lemma AgreeShift(r: (int, seq<Token>), r': (int, seq<Token>), pre: seq<Token>, n: nat, z: seq<Token>, z': seq<Token>, k: int)
    requires n <= |pre| && Agree(r, r', pre[n..], z, z', k)
    ensures Agree(r, r', pre, z, z', if k == -1 then -1 else k + n)
  {
    if k != -1 {
      assert pre[n..][k..] == pre[k + n..];
    }
  }

  /** The first token of pre + z, and the rest. */
  lemma ConsSplit(pre: seq<Token>, z: seq<Token>)
    requires pre != []
    ensures (pre + z)[0] == pre[0] && (pre + z)[1..] == pre[1..] + z
  {
  }

  /** Tokens that read alike, placed after any pre, are read alike. */
  lemma {:induction false} GroupSame(pre: seq<Token>, z: seq<Token>, z': seq<Token>, m: int) returns (k: int)
    requires SameGroups(z, z')
    ensures Agree(Group(pre + z, m), Group(pre + z', m), pre, z, z', k)
    decreases |pre|, 1
  {
    if pre == [] {
      assert pre + z == z && pre + z' == z';
      k := -1;
    } else {
      ConsSplit(pre, z);
      ConsSplit(pre, z');
      if pre[0] == Open {
        k := GroupSameOpen(pre, z, z', m);
      } else if pre[0] == Close {
        k := 0;
      } else {
        var m1 := if pre[0] == Plus then 1 else if pre[0] == Minus then -1 else m;
        var k1 := GroupSame(pre[1..], z, z', m1);
        AgreeShift(Group(pre + z, m), Group(pre + z', m), pre, 1, z, z', k1);
        k := if k1 == -1 then -1 else k1 + 1;
      }
    }
  }

  /** The case of GroupSame where pre opens a group. */
  lemma {:induction false} GroupSameOpen(pre: seq<Token>, z: seq<Token>, z': seq<Token>, m: int) returns (k: int)
    requires SameGroups(z, z') && pre != [] && pre[0] == Open
    ensures Agree(Group(pre + z, m), Group(pre + z', m), pre, z, z', k)
    decreases |pre|, 0
  {
    ConsSplit(pre, z);
    ConsSplit(pre, z');
    var k1 := GroupSame(pre[1..], z, z', 1);
    var g, g' := Group(pre[1..] + z, 1), Group(pre[1..] + z', 1);
    if k1 == -1 {
      k := -1;
    } else {
      var rest := pre[k1 + 2..];
      assert pre[1..][k1..] == [pre[k1 + 1]] + rest;
      ConsSplit([pre[k1 + 1]] + rest, z);
      ConsSplit([pre[k1 + 1]] + rest, z');
      assert ([pre[k1 + 1]] + rest)[1..] == rest;
      var k2 := GroupSame(rest, z, z', m);
      AgreeShift(Group(rest + z, m), Group(rest + z', m), pre, k1 + 2, z, z', k2);
      k := if k2 == -1 then -1 else k2 + k1 + 2;
    }
  }

  /** The first ), or |ts| when there is none. */
  function FirstClose(ts: seq<Token>): (j: nat)
    ensures j <= |ts| && (j < |ts| ==> ts[j] == Close)
    ensures forall k :: 0 <= k < j ==> ts[k] != Close
    decreases |ts|
  {
    if ts == [] then 0
    else if ts[0] == Close then 0
    else 1 + FirstClose(ts[1..])
  }

  /** The last ( before position j, or -1 when there is none. */
  function LastOpenBefore(ts: seq<Token>, j: nat): (i: int)
    requires j <= |ts|
    ensures -1 <= i < j && (i >= 0 ==> ts[i] == Open)
    ensures forall k :: i < k < j ==> ts[k] != Open
  {
    if j == 0 then -1
    else if ts[j - 1] == Open then j - 1
    else LastOpenBefore(ts, j - 1)
  }

  /** Without ) the depth never falls. */
  lemma {:induction false} DepthNoClose(d: int, ts: seq<Token>)
    requires forall k :: 0 <= k < |ts| ==> ts[k] != Close
    ensures DepthAfter(d, ts) >= d
    decreases |ts|
  {
    if ts != [] {
      DepthNoClose(if ts[0] == Open then d + 1 else d, ts[1..]);
    }
  }

  /** Without ( the depth never rises. */
  lemma {:induction false} DepthNoOpen(d: int, ts: seq<Token>)
    requires forall k :: 0 <= k < |ts| ==> ts[k] != Open
    ensures DepthAfter(d, ts) <= d
    decreases |ts|
  {
    if ts != [] {
      DepthNoOpen(if ts[0] == Close then d - 1 else d, ts[1..]);
    }
  }

  /** Where a ) stands, the depth before it is at least 1. */
  lemma {:induction false} FitsClose(d: int, ts: seq<Token>, j: nat)
    requires Fits(d, ts) && j < |ts| && ts[j] == Close
    ensures DepthAfter(d, ts[..j]) >= 1
    decreases j
  {
    if j > 0 {
      assert ts[..j][0] == ts[0] && ts[..j][1..] == ts[1..][..j - 1];
      FitsClose(if ts[0] == Open then d + 1 else if ts[0] == Close then d - 1 else d, ts[1..], j - 1);
    }
  }

  /** A balanced sequence with a parenthesis has a group with none inside:
      the first ) and the last ( before it. */
  lemma InnermostGroup(ts: seq<Token>) returns (i: nat, j: nat)
    requires Balanced(ts) && !ParenFree(ts)
    ensures i < j < |ts| && ts[i] == Open && ts[j] == Close && ParenFree(ts[i + 1..j])
  {
    j := FirstClose(ts);
    var o :| 0 <= o < |ts| && (ts[o] == Open || ts[o] == Close);
    if j == |ts| {
      assert ts == ts[..o] + ([Open] + ts[o + 1..]);
      assert ([Open] + ts[o + 1..])[1..] == ts[o + 1..];
      DepthAppend(0, ts[..o], [Open] + ts[o + 1..]);
      DepthNoClose(0, ts[..o]);
      DepthNoClose(DepthAfter(0, ts[..o]) + 1, ts[o + 1..]);
      assert false;
    }
    FitsClose(0, ts, j);
    var li := LastOpenBefore(ts, j);
    if li == -1 {
      DepthNoOpen(0, ts[..j]);
      assert false;
    }
    i := li;
  }

  /** Without parentheses the parser and the grammar both give evaluate's
      sum. */
  lemma ParenFreeIsEval(ts: seq<Token>)
    requires ParenFree(ts)
    ensures Balanced(ts) && TokensValue(ts) == EvalExpr(ts)
  {
    PushParenFree(Parser([], []), ts);
    assert [] + ts == ts;
    GroupParenFree(ts, [], 1);
    assert ts + [] == ts;
  }

  /** A parenthesis-free group replaced by its value keeps the grammar's
      value of the whole. */
  lemma EvalSwap(pre: seq<Token>, inner: seq<Token>, post: seq<Token>)
    requires ParenFree(inner)
    ensures EvalExpr(pre + [Open] + inner + [Close] + post) == EvalExpr(pre + [Num(EvalFrom(inner, 1))] + post)
  {
    var z, z' := [Open] + inner + [Close] + post, [Num(EvalFrom(inner, 1))] + post;
    GroupBase(inner, post);
    var k := GroupSame(pre, z, z', 1);
    assert pre + [Open] + inner + [Close] + post == pre + z;
    assert pre + [Num(EvalFrom(inner, 1))] + post == pre + z';
  }

  /** The parser computes the grammar's value of a balanced expression. */
  lemma {:induction false} TokensValueIsEval(ts: seq<Token>)
    requires Balanced(ts)
    ensures TokensValue(ts) == EvalExpr(ts)
    decreases |ts|
  {
    if ParenFree(ts) {
      ParenFreeIsEval(ts);
    } else {
      var i, j := InnermostGroup(ts);
      var pre, inner, post := ts[..i], ts[i + 1..j], ts[j + 1..];
      assert ts == pre + [Open] + inner + [Close] + post;
      GroupRewrite(pre, inner, post);
      EvalSwap(pre, inner, post);
      TokensValueIsEval(pre + [Num(EvalFrom(inner, 1))] + post);
    }
  }

  /** calculate(s) is the grammar's value of the tokens of s. */
  lemma CalculationIsEval(s: seq<char>)
    requires CalcChars(s) && Balanced(Tokens(s))
    ensures Calculation(s) == EvalExpr(Tokens(s))
  {
    TokensValueIsEval(Tokens(s));
  }

  // ---- the parser object ----

  /** StackParser: stack_ and open_parens_. */
  class StackParser {
    var stack: seq<Token>
    var openParens: seq<nat>

    ghost function State(): Parser
      reads this
    {
      Parser(stack, openParens)
    }

    ghost predicate Valid()
      reads this
    {
      WellFormed(State())
    }

    constructor()
      ensures Valid() && stack == [] && openParens == []
    {
      stack := [];
      openParens := [];
    }

    /** push(token); a ) requires an unmatched ( before it. */
    method Push(token: Token)
      requires Valid() && (token == Close ==> openParens != [])
      modifies this
      ensures Valid() && State() == Step(old(State()), token)
    {
      StepWellFormed(State(), token);
      if token != Open && token != Close {
        stack := stack + [token];
        return;
      }
      if token == Open {
        stack := stack + [token];
        openParens := openParens + [|stack| - 1];
        return;
      } else {
        PopLastOpen();
      }
    }

    /** pop_last_open(): the tokens after the last ( are replaced, with
        that (, by their value. */
    method PopLastOpen()
      requires Valid() && openParens != []
      modifies this
      ensures Valid() && State() == Step(old(State()), Close)
    {
      StepWellFormed(State(), Close);
      var lastOpenIdx := openParens[|openParens| - 1];
      openParens := openParens[..|openParens| - 1];
      var partial := Evaluate(lastOpenIdx + 1);
      stack := stack[..lastOpenIdx];
      stack := stack + [Num(partial)];
    }

    /** evaluate(start_idx). */
    method Evaluate(startIdx: nat) returns (value: int)
      requires startIdx <= |stack|
      ensures value == EvalFrom(stack[startIdx..], 1)
    {
      value := 0;
      var multiplier := 1;
      for i := startIdx to |stack|
        invariant value + EvalFrom(stack[i..], multiplier) == EvalFrom(stack[startIdx..], 1)
      {
        var token := stack[i];
        assert stack[i..][1..] == stack[i + 1..];
        if token.Num? {
          value := value + multiplier * token.value;
        } else {
          multiplier := if token == Plus then 1 else -1;
        }
      }
    }

    /** flush(). */
    method Flush() returns (value: int)
      ensures value == EvalFrom(stack, 1)
    {
      value := Evaluate(0);
      assert stack[0..] == stack;
    }
  }

  /** calculate(s): the expression's parentheses must match. */
  method Calculate(s: seq<char>) returns (r: int)
    requires CalcChars(s) && Balanced(Tokens(s))
    ensures r == Calculation(s)
  {
    var tokens := Tokenize(s);
    var parser := new StackParser();
    var init := parser.State();
    assert tokens[0..] == tokens;
    for i := 0 to |tokens|
      invariant parser.Valid() && Fits(|parser.openParens|, tokens[i..])
      invariant PushAll(parser.State(), tokens[i..]) == PushAll(init, tokens)
    {
      assert tokens[i..][1..] == tokens[i + 1..];
      parser.Push(tokens[i]);
    }
    r := parser.Flush();
  }
}
