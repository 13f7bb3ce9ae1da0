/** trees/serdes.py: a binary tree written as its preorder values, each
    followed by a space, with the value 1001 standing for an empty subtree,
    and read back by a recursive descent over the space-separated tokens. */
module Serdes {
  import opened Common
  import opened Decimal
  import opened PyStr

  /** NULL_VAL: the token written for an empty subtree. */
  const NULL_VAL: int := 1001

  datatype Tree = Nil | Node(val: int, left: Tree, right: Tree)

  /** What dsr_wrap gives back: the subtree read and the index just past it,
      or Raised where Python raises an exception. */
  datatype Read = Raised | Read(tree: Tree, next: nat)

  /** No node holds the value that stands for an empty subtree. */
  predicate NoNull(t: Tree)
  {
    match t
    case Nil => true
    case Node(v, l, r) => v != NULL_VAL && NoNull(l) && NoNull(r)
  }

  /** str(v) for a Python int. */
  function IntStr(v: int): seq<char>
  {
    if v < 0 then "-" + Digits(-v) else Digits(v)
  }

  /** int(tok): an optional sign followed by at least one digit; anything
      else raises ValueError, which is None here. */
  function ParseInt(tok: seq<char>): Option<int>
  {
    if tok != [] && (tok[0] == '-' || tok[0] == '+') then
      var ds := tok[1..];
      var n: int := if ds != [] && AllDigits(ds) then Value(ds) else 0;
      if ds != [] && AllDigits(ds) then Some(if tok[0] == '-' then -n else n)
      else None
    else if tok != [] && AllDigits(tok) then Some(Value(tok))
    else None
  }

  /** serialize(root). */
  function Serialize(t: Tree): seq<char>
  {
    match t
    case Nil => IntStr(NULL_VAL) + " "
    case Node(v, l, r) => IntStr(v) + " " + Serialize(l) + Serialize(r)
  }

  /** dsr_wrap(data, idx): the subtree whose preorder starts at token idx,
      and the index just past it; None where Python raises (IndexError past
      the end, ValueError on a token that is not a number). */
  function DsrWrap(data: seq<seq<char>>, idx: nat): (r: Read)
    ensures r.Read? ==> idx < r.next <= |data|
    decreases |data| - idx
  {
    if idx >= |data| then Raised
    else
      match ParseInt(data[idx])
      case None => Raised
      case Some(v) =>
        if v == NULL_VAL then Read(Nil, idx + 1)
        else
          var left := DsrWrap(data, idx + 1);
          if left.Raised? then Raised
          else
            var right := DsrWrap(data, left.next);
            if right.Raised? then Raised
            else Read(Node(v, left.tree, right.tree), right.next)
  }

  /** deserialize(data). */
  function Deserialize(data: seq<char>): Option<Tree>
  {
    var r := DsrWrap(Split(data, ' '), 0);
    if r.Raised? then None else Some(r.tree)
  }

  /** The preorder tokens of a tree. */
  function Tokens(t: Tree): seq<seq<char>>
  {
    match t
    case Nil => [IntStr(NULL_VAL)]
    case Node(v, l, r) => [IntStr(v)] + Tokens(l) + Tokens(r)
  }

  /** A written number holds no space and reads back as itself. */
  lemma ParseIntStr(v: int)
    ensures NoSep(IntStr(v), ' ') && ParseInt(IntStr(v)) == Some(v)
  {
    var ds := Digits(if v < 0 then -v else v);
    ValueOfDigits(if v < 0 then -v else v);
    assert AllDigits(ds) && IsDigit(ds[0]);
    if v < 0 {
      assert IntStr(v)[1..] == ds;
      assert forall i :: 1 <= i < |IntStr(v)| ==> IntStr(v)[i] == ds[i - 1];
    }
  }

  /** One node's step of SplitSerialize: a word, a space, then text that
      splits into the left subtree's tokens followed by the right's. */
  lemma SplitNodeText(w: seq<char>, sl: seq<char>, sr: seq<char>, rest: seq<char>,
                      tl: seq<seq<char>>, tr: seq<seq<char>>)
    requires NoSep(w, ' ')
    requires Split(sl + (sr + rest), ' ') == tl + Split(sr + rest, ' ')
    requires Split(sr + rest, ' ') == tr + Split(rest, ' ')
    ensures Split(w + " " + sl + sr + rest, ' ') == [w] + tl + tr + Split(rest, ' ')
  {
    calc {
      w + " " + sl + sr + rest;
      { ConcatAssoc(w + " " + sl, sr, rest); }
      (w + " " + sl) + (sr + rest);
      { ConcatAssoc(w + " ", sl, sr + rest); }
      w + [' '] + (sl + (sr + rest));
    }
    SplitCons(w, ' ', sl + (sr + rest));
    ConcatAssoc(tl, tr, Split(rest, ' '));
    ConcatAssoc([w], tl + tr, Split(rest, ' '));
    ConcatAssoc([w] + tl, tr, Split(rest, ' '));
  }

  /** The serialized text splits into the preorder tokens. */
  lemma {:induction false} SplitSerialize(t: Tree, rest: seq<char>)
    ensures Split(Serialize(t) + rest, ' ') == Tokens(t) + Split(rest, ' ')
  {
    match t
    case Nil =>
      ParseIntStr(NULL_VAL);
      SplitCons(IntStr(NULL_VAL), ' ', rest);
    case Node(v, l, r) =>
      ParseIntStr(v);
      SplitSerialize(r, rest);
      SplitSerialize(l, Serialize(r) + rest);
      SplitNodeText(IntStr(v), Serialize(l), Serialize(r), rest, Tokens(l), Tokens(r));
  }

  /** The tokens toks sit in data from index idx on. */
  predicate At(data: seq<seq<char>>, idx: nat, toks: seq<seq<char>>)
  {
    idx + |toks| <= |data| && forall i :: 0 <= i < |toks| ==> data[idx + i] == toks[i]
  }

  /** A node's tokens in place: its value, then the left subtree's tokens,
      then the right's. */
  lemma AtParts(data: seq<seq<char>>, idx: nat, w: seq<char>, tl: seq<seq<char>>, tr: seq<seq<char>>)
    requires At(data, idx, [w] + tl + tr)
    ensures data[idx] == w && At(data, idx + 1, tl) && At(data, idx + 1 + |tl|, tr)
  {
    var toks := [w] + tl + tr;
    assert data[idx + 0] == toks[0];
    forall i | 0 <= i < |tl| ensures data[idx + 1 + i] == tl[i] {
      assert data[idx + (1 + i)] == toks[1 + i];
    }
    forall i | 0 <= i < |tr| ensures data[idx + 1 + |tl| + i] == tr[i] {
      assert data[idx + (1 + |tl| + i)] == toks[1 + |tl| + i];
    }
  }

  /** One step of dsr_wrap on a number other than the null value: the
      left subtree is read from the next index, then the right one from
      where the left ended. */
  lemma DsrWrapNode(data: seq<seq<char>>, idx: nat, v: int, l: Tree, r: Tree, j: nat, k: nat)
    requires idx < |data| && ParseInt(data[idx]) == Some(v) && v != NULL_VAL
    requires DsrWrap(data, idx + 1) == Read(l, j) && DsrWrap(data, j) == Read(r, k)
    ensures DsrWrap(data, idx) == Read(Node(v, l, r), k)
  {
  }

  /** dsr_wrap reads a tree back from its tokens and returns the index just
      past them. */
  lemma {:induction false} DsrTokens(t: Tree, data: seq<seq<char>>, idx: nat)
    requires NoNull(t) && At(data, idx, Tokens(t))
    ensures DsrWrap(data, idx) == Read(t, idx + |Tokens(t)|)
  {
    match t
    case Nil =>
      assert data[idx + 0] == Tokens(t)[0];
      ParseIntStr(NULL_VAL);
    case Node(v, l, r) =>
      var mid, end := idx + 1 + |Tokens(l)|, idx + |Tokens(t)|;
      assert ParseInt(data[idx]) == Some(v) && DsrWrap(data, idx + 1) == Read(l, mid)
        && DsrWrap(data, mid) == Read(r, end) by {
        AtParts(data, idx, IntStr(v), Tokens(l), Tokens(r));
        ParseIntStr(v);
        DsrTokens(l, data, idx + 1);
        DsrTokens(r, data, mid);
      }
      DsrWrapNode(data, idx, v, l, r, mid, end);
  }

  /** What dsr_wrap reads is a tree without the null value, and it consumes
      exactly as many tokens as that tree writes. */
  lemma {:induction false} DsrConsumes(data: seq<seq<char>>, idx: nat)
    requires DsrWrap(data, idx).Read?
    ensures NoNull(DsrWrap(data, idx).tree)
    ensures DsrWrap(data, idx).next == idx + |Tokens(DsrWrap(data, idx).tree)|
    decreases |data| - idx
  {
    var v := ParseInt(data[idx]).value;
    if v != NULL_VAL {
      DsrConsumes(data, idx + 1);
      DsrConsumes(data, DsrWrap(data, idx + 1).next);
    }
  }

  /** deserialize(serialize(t)) == t for every tree without the value
      1001. */
  lemma RoundTrip(t: Tree)
    requires NoNull(t)
    ensures Deserialize(Serialize(t)) == Some(t)
  {
    var data := Tokens(t) + [[]];
    SplitSerialize(t, []);
    assert Serialize(t) + [] == Serialize(t);
    assert Split(Serialize(t), ' ') == data;
    assert At(data, 0, Tokens(t)) by {
      forall i | 0 <= i < |Tokens(t)| ensures data[0 + i] == Tokens(t)[i] { }
    }
    DsrTokens(t, data, 0);
  }

  /** The empty tree is written as "1001 " and read back. */
  lemma EmptyTree()
    ensures Serialize(Nil) == "1001 " && Deserialize("1001 ") == Some(Nil)
  {
    assert Digits(1001) == "1001";
    RoundTrip(Nil);
  }

  /** A node holding 1001 is read back as an empty tree: the restriction
      on values is needed. */
  lemma NullValueLost()
    ensures Deserialize(Serialize(Node(NULL_VAL, Nil, Nil))) == Some(Nil)
  {
    var t := Node(NULL_VAL, Nil, Nil);
    SplitSerialize(t, []);
    assert Serialize(t) + [] == Serialize(t);
    ParseIntStr(NULL_VAL);
  }
}
