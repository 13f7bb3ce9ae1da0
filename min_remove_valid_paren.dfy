/** strings/min_remove_valid_paren.py: delete as few parentheses as possible
    so that the rest is balanced. A forward pass marks every ')' that has no
    open '(' before it, a backward pass marks every '(' that has no ')' after
    it, both on the original string, and the marked positions are dropped. */
module MinRemoveValidParen {

  /** What a character adds to the count of '(' minus ')'. */
  function Step(c: char): int
  {
    if c == '(' then 1 else if c == ')' then -1 else 0
  }

  /** '(' minus ')' over the first q characters of t. */
  function P(t: seq<char>, q: nat): int
    requires q <= |t|
  {
    if q == 0 then 0 else P(t, q - 1) + Step(t[q - 1])
  }

  /** Balanced parentheses: no prefix closes more than it opened, and the
      whole string opens as many as it closes. */
  ghost predicate Valid(t: seq<char>)
  {
    P(t, |t|) == 0 && forall q :: 0 <= q <= |t| ==> P(t, q) >= 0
  }

  /** The characters of s[..p] whose positions are not in del, in order. */
  function KeepUpTo(s: seq<char>, del: set<int>, p: nat): seq<char>
    requires p <= |s|
  {
    if p == 0 then []
    else KeepUpTo(s, del, p - 1) + (if p - 1 in del then [] else [s[p - 1]])
  }

  /** s with the positions in del dropped. */
  function Keep(s: seq<char>, del: set<int>): seq<char>
  {
    KeepUpTo(s, del, |s|)
  }

  /** How many positions below p are in del and hold c. */
  function Deleted(s: seq<char>, del: set<int>, p: nat, c: char): nat
    requires p <= |s|
  {
    if p == 0 then 0 else Deleted(s, del, p - 1, c) + (if p - 1 in del && s[p - 1] == c then 1 else 0)
  }

  /** How many positions at or above p are in del and hold c. */
  function DeletedFrom(s: seq<char>, del: set<int>, p: nat, c: char): nat
    requires p <= |s|
    decreases |s| - p
  {
    if p == |s| then 0 else DeletedFrom(s, del, p + 1, c) + (if p in del && s[p] == c then 1 else 0)
  }

  /** How many positions below p are in del. */
  function DeletedAll(s: seq<char>, del: set<int>, p: nat): nat
    requires p <= |s|
  {
    if p == 0 then 0 else DeletedAll(s, del, p - 1) + (if p - 1 in del then 1 else 0)
  }

  function Min(a: int, b: int): int
  {
    if a <= b then a else b
  }

  /** The lowest prefix count among P(s, 0), ..., P(s, p). */
  function MinUpTo(s: seq<char>, p: nat): int
    requires p <= |s|
  {
    if p == 0 then 0 else Min(MinUpTo(s, p - 1), P(s, p))
  }

  /** The lowest prefix count among P(s, p), ..., P(s, |s|). */
  function MinFrom(s: seq<char>, p: nat): int
    requires p <= |s|
    decreases |s| - p
  {
    if p == |s| then P(s, |s|) else Min(P(s, p), MinFrom(s, p + 1))
  }

  // ---------------------------------------------------------------------
  // The two passes

  /** The forward walk: delta counts the '(' still open; a ')' with none open
      is marked. Among the first p characters it marks as many ')' as the
      deepest deficit of ')' over '(' in a prefix up to p. */
  method ForwardPass(s: seq<char>) returns (toDelete: set<int>)
    ensures forall k :: k in toDelete ==> 0 <= k < |s| && s[k] == ')'
    ensures forall p :: 0 <= p <= |s| ==> Deleted(s, toDelete, p, ')') == -MinUpTo(s, p)
  {
    var delta := 0;
    toDelete := {};
    for i := 0 to |s|
      invariant delta == P(s, i) - MinUpTo(s, i)
      invariant forall k :: k in toDelete ==> 0 <= k < i && s[k] == ')'
      invariant forall p :: 0 <= p <= i ==> Deleted(s, toDelete, p, ')') == -MinUpTo(s, p)
    {
      MinUpToBelow(s, i);
      if s[i] == '(' {
        delta := delta + 1;
      }
      if s[i] == ')' {
        if delta > 0 {
          delta := delta - 1;
        } else {
          forall p | 0 <= p <= i
            ensures Deleted(s, toDelete + {i}, p, ')') == Deleted(s, toDelete, p, ')')
          {
            DeletedIgnoresAbove(s, toDelete, i, p, ')');
          }
          toDelete := toDelete + {i};
        }
      }
      assert Deleted(s, toDelete, i + 1, ')') == -MinUpTo(s, i + 1);
    }
  }

  /** The backward walk: delta counts the ')' still unmatched; a '(' with none
      left is marked. At or above p it marks as many '(' as the largest
      surplus of '(' over ')' in a suffix starting at or after p. */
  method BackwardPass(s: seq<char>) returns (toDelete: set<int>)
    ensures forall k :: k in toDelete ==> 0 <= k < |s| && s[k] == '('
    ensures forall p :: 0 <= p <= |s| ==> DeletedFrom(s, toDelete, p, '(') == P(s, |s|) - MinFrom(s, p)
  {
    var delta := 0;
    toDelete := {};
    var j := |s|;
    while j > 0
      invariant 0 <= j <= |s|
      invariant delta == P(s, j) - MinFrom(s, j)
      invariant forall k :: k in toDelete ==> j <= k < |s| && s[k] == '('
      invariant forall p :: j <= p <= |s| ==> DeletedFrom(s, toDelete, p, '(') == P(s, |s|) - MinFrom(s, p)
    {
      j := j - 1;
      MinFromBelow(s, j + 1);
      if s[j] == ')' {
        delta := delta + 1;
      }
      if s[j] == '(' {
        if delta > 0 {
          delta := delta - 1;
        } else {
          forall p | j + 1 <= p <= |s|
            ensures DeletedFrom(s, toDelete + {j}, p, '(') == DeletedFrom(s, toDelete, p, '(')
          {
            DeletedFromIgnoresBelow(s, toDelete, j, p, '(');
          }
          toDelete := toDelete + {j};
        }
      }
      assert DeletedFrom(s, toDelete, j, '(') == P(s, |s|) - MinFrom(s, j);
    }
  }

  /** minRemoveToMakeValid: drop what either pass marked. The result is
      balanced, only parentheses were dropped, and no balanced string obtained
      by deleting positions of s is longer. */
  method MinRemoveToMakeValid(s: seq<char>) returns (r: seq<char>, ghost deleted: set<int>)
    ensures r == Keep(s, deleted)
    ensures forall k :: k in deleted ==> 0 <= k < |s| && (s[k] == '(' || s[k] == ')')
    ensures Valid(r)
    ensures forall del: set<int> :: Valid(Keep(s, del)) ==> |Keep(s, del)| <= |r|
  {
    var toDeleteF := ForwardPass(s);
    var toDeleteB := BackwardPass(s);
    var toDelete := toDeleteF + toDeleteB;
    r := Keep(s, toDelete);
    deleted := toDelete;
    ResultValid(s, toDeleteF, toDeleteB);
    forall del: set<int> | Valid(Keep(s, del))
      ensures |Keep(s, del)| <= |r|
    {
      Longest(s, toDeleteF, toDeleteB, del);
    }
  }

  // ---------------------------------------------------------------------
  // Facts about the prefix counts

  lemma {:induction false} MinUpToBelow(s: seq<char>, p: nat)
    requires p <= |s|
    ensures MinUpTo(s, p) <= P(s, p) && MinUpTo(s, p) <= 0
  {
    if p > 0 {
      MinUpToBelow(s, p - 1);
    }
  }

  lemma MinFromBelow(s: seq<char>, p: nat)
    requires p <= |s|
    ensures MinFrom(s, p) <= P(s, p)
  {
  }

  /** The minimum over all prefixes splits at any p. */
  lemma {:induction false} MinSplit(s: seq<char>, p: nat)
    requires p <= |s|
    ensures MinFrom(s, 0) == Min(MinUpTo(s, p), MinFrom(s, p))
  {
    if p > 0 {
      MinSplit(s, p - 1);
      MinUpToBelow(s, p - 1);
      MinFromBelow(s, p);
    }
  }

  lemma {:induction false} DeletedIgnoresAbove(s: seq<char>, del: set<int>, x: int, p: nat, c: char)
    requires p <= |s| && x >= p
    ensures Deleted(s, del + {x}, p, c) == Deleted(s, del, p, c)
  {
    if p > 0 {
      DeletedIgnoresAbove(s, del, x, p - 1, c);
    }
  }

  lemma {:induction false} DeletedFromIgnoresBelow(s: seq<char>, del: set<int>, x: int, p: nat, c: char)
    requires p <= |s| && x < p
    ensures DeletedFrom(s, del + {x}, p, c) == DeletedFrom(s, del, p, c)
    decreases |s| - p
  {
    if p < |s| {
      DeletedFromIgnoresBelow(s, del, x, p + 1, c);
    }
  }

  /** Below p plus at or above p is everything. */
  lemma {:induction false} DeletedSplit(s: seq<char>, del: set<int>, p: nat, c: char)
    requires p <= |s|
    ensures Deleted(s, del, p, c) + DeletedFrom(s, del, p, c) == Deleted(s, del, |s|, c)
    decreases |s| - p
  {
    if p < |s| {
      DeletedSplit(s, del, p + 1, c);
    }
  }

  /** Positions holding c are counted the same in del and in del + other,
      when other holds no c. */
  lemma {:induction false} DeletedUnion(s: seq<char>, del: set<int>, other: set<int>, p: nat, c: char)
    requires p <= |s|
    requires forall k :: k in other && 0 <= k < |s| ==> s[k] != c
    ensures Deleted(s, del + other, p, c) == Deleted(s, del, p, c)
  {
    if p > 0 {
      DeletedUnion(s, del, other, p - 1, c);
    }
  }

  lemma {:induction false} DeletedFromUnion(s: seq<char>, del: set<int>, other: set<int>, p: nat, c: char)
    requires p <= |s|
    requires forall k :: k in other && 0 <= k < |s| ==> s[k] != c
    ensures DeletedFrom(s, del + other, p, c) == DeletedFrom(s, del, p, c)
    decreases |s| - p
  {
    if p < |s| {
      DeletedFromUnion(s, del, other, p + 1, c);
    }
  }

  /** Dropping positions changes the count by the '(' and ')' dropped, and
      the length by the number dropped. */
  lemma {:induction false} KeepCount(s: seq<char>, del: set<int>, p: nat)
    requires p <= |s|
    ensures P(KeepUpTo(s, del, p), |KeepUpTo(s, del, p)|) == P(s, p) - Deleted(s, del, p, '(') + Deleted(s, del, p, ')')
    ensures |KeepUpTo(s, del, p)| == p - DeletedAll(s, del, p)
  {
    if p > 0 {
      KeepCount(s, del, p - 1);
      var k := KeepUpTo(s, del, p - 1);
      if p - 1 !in del {
        assert KeepUpTo(s, del, p) == k + [s[p - 1]];
        PAppend(k, s[p - 1]);
      } else {
        assert KeepUpTo(s, del, p) == k;
      }
    }
  }

  lemma PAppend(t: seq<char>, c: char)
    ensures P(t + [c], |t| + 1) == P(t, |t|) + Step(c)
  {
    PSamePrefix(t + [c], t, |t|);
  }

  /** P only looks at the first q characters. */
  lemma {:induction false} PSamePrefix(t: seq<char>, u: seq<char>, q: nat)
    requires q <= |t| && q <= |u| && t[..q] == u[..q]
    ensures P(t, q) == P(u, q)
  {
    if q > 0 {
      assert t[q - 1] == t[..q][q - 1] == u[..q][q - 1] == u[q - 1];
      assert t[..q - 1] == t[..q][..q - 1] && u[..q - 1] == u[..q][..q - 1];
      PSamePrefix(t, u, q - 1);
    }
  }

  /** Keeping from a shorter prefix gives a prefix of the kept string. */
  lemma {:induction false} KeepPrefix(s: seq<char>, del: set<int>, q: nat, p: nat)
    requires q <= p <= |s|
    ensures |KeepUpTo(s, del, q)| <= |KeepUpTo(s, del, p)|
    ensures KeepUpTo(s, del, p)[..|KeepUpTo(s, del, q)|] == KeepUpTo(s, del, q)
    decreases p - q
  {
    if q < p {
      KeepPrefix(s, del, q, p - 1);
      var a, b := KeepUpTo(s, del, q), KeepUpTo(s, del, p - 1);
      var tail := if p - 1 in del then [] else [s[p - 1]];
      assert KeepUpTo(s, del, p) == b + tail;
      assert (b + tail)[..|a|] == b[..|a|];
    }
  }

  lemma {:induction false} DeletedMonotone(s: seq<char>, del: set<int>, q: nat, p: nat, c: char)
    requires q <= p <= |s|
    ensures Deleted(s, del, q, c) <= Deleted(s, del, p, c)
    decreases p - q
  {
    if q < p {
      DeletedMonotone(s, del, q, p - 1, c);
    }
  }

  /** Every dropped '(' and every dropped ')' is a dropped position. */
  lemma {:induction false} DeletedAllCovers(s: seq<char>, del: set<int>, p: nat)
    requires p <= |s|
    ensures DeletedAll(s, del, p) >= Deleted(s, del, p, '(') + Deleted(s, del, p, ')')
  {
    if p > 0 {
      DeletedAllCovers(s, del, p - 1);
    }
  }

  // ---------------------------------------------------------------------
  // The result is balanced

  /** Dropping both passes' marks leaves a balanced string. */
  lemma ResultValid(s: seq<char>, f: set<int>, b: set<int>)
    requires forall k :: k in f ==> 0 <= k < |s| && s[k] == ')'
    requires forall k :: k in b ==> 0 <= k < |s| && s[k] == '('
    requires forall p :: 0 <= p <= |s| ==> Deleted(s, f, p, ')') == -MinUpTo(s, p)
    requires forall p :: 0 <= p <= |s| ==> DeletedFrom(s, b, p, '(') == P(s, |s|) - MinFrom(s, p)
    ensures Valid(Keep(s, f + b))
  {
    var t := Keep(s, f + b);
    forall q | 0 <= q <= |t|
      ensures P(t, q) >= 0
    {
      var p := PositionOf(s, f + b, q);
      KeptCountAt(s, f, b, p);
      KeepPrefix(s, f + b, p, |s|);
      PSamePrefix(t, KeepUpTo(s, f + b, p), q);
    }
    KeptCountAt(s, f, b, |s|);
  }

  /** Some prefix s[..p] keeps exactly the first q kept characters. */
  lemma {:induction false} PositionOf(s: seq<char>, del: set<int>, q: nat) returns (p: nat)
    requires q <= |Keep(s, del)|
    ensures p <= |s| && |KeepUpTo(s, del, p)| == q
  {
    p := |s|;
    while |KeepUpTo(s, del, p)| > q
      invariant p <= |s| && |KeepUpTo(s, del, p)| >= q
      decreases p
    {
      p := p - 1;
    }
  }

  /** The kept prefix s[..p] has a non-negative count, and a zero one for
      the whole string. */
  lemma KeptCountAt(s: seq<char>, f: set<int>, b: set<int>, p: nat)
    requires p <= |s|
    requires forall k :: k in f ==> 0 <= k < |s| && s[k] == ')'
    requires forall k :: k in b ==> 0 <= k < |s| && s[k] == '('
    requires forall p :: 0 <= p <= |s| ==> Deleted(s, f, p, ')') == -MinUpTo(s, p)
    requires forall p :: 0 <= p <= |s| ==> DeletedFrom(s, b, p, '(') == P(s, |s|) - MinFrom(s, p)
    ensures P(KeepUpTo(s, f + b, p), |KeepUpTo(s, f + b, p)|) >= 0
    ensures p == |s| ==> P(KeepUpTo(s, f + b, p), |KeepUpTo(s, f + b, p)|) == 0
  {
    KeepCount(s, f + b, p);
    DeletedUnion(s, f, b, p, ')');
    assert f + b == b + f;
    DeletedUnion(s, b, f, p, '(');
    DeletedSplit(s, b, p, '(');
    DeletedSplit(s, b, 0, '(');
    assert Deleted(s, b, 0, '(') == 0;
    MinSplit(s, p);
    MinUpToBelow(s, p);
    MinFromBelow(s, p);
    MinSplit(s, |s|);
    MinUpToBelow(s, |s|);
  }

  // ---------------------------------------------------------------------
  // No balanced deletion keeps more

  /** Any balanced result of deleting positions drops at least the deepest
      ')' deficit of a prefix and the largest '(' surplus of a suffix, which
      is what the two passes drop. */
  lemma Longest(s: seq<char>, f: set<int>, b: set<int>, del: set<int>)
    requires forall k :: k in f ==> 0 <= k < |s| && s[k] == ')'
    requires forall k :: k in b ==> 0 <= k < |s| && s[k] == '('
    requires forall p :: 0 <= p <= |s| ==> Deleted(s, f, p, ')') == -MinUpTo(s, p)
    requires forall p :: 0 <= p <= |s| ==> DeletedFrom(s, b, p, '(') == P(s, |s|) - MinFrom(s, p)
    requires Valid(Keep(s, del))
    ensures |Keep(s, del)| <= |Keep(s, f + b)|
  {
    var n := |s|;
    var closes, opens := Deleted(s, del, n, ')'), Deleted(s, del, n, '(');
    forall q | 0 <= q <= n
      ensures closes >= -P(s, q) && opens >= P(s, n) - P(s, q)
    {
      DroppedAtLeast(s, del, q);
    }
    AtLeastMinUpTo(s, closes, n);
    AtLeastMinFrom(s, opens, 0);
    MinSplit(s, n);
    MinUpToBelow(s, n);
    KeepCount(s, del, n);
    DeletedAllCovers(s, del, n);
    // what the passes drop
    KeepCount(s, f + b, n);
    DroppedExactly(s, f, b);
    DeletedUnion(s, f, b, n, ')');
    assert f + b == b + f;
    DeletedUnion(s, b, f, n, '(');
    DeletedSplit(s, b, 0, '(');
  }

  /** The passes drop exactly their marks. */
  lemma DroppedExactly(s: seq<char>, f: set<int>, b: set<int>)
    requires forall k :: k in f ==> 0 <= k < |s| && s[k] == ')'
    requires forall k :: k in b ==> 0 <= k < |s| && s[k] == '('
    ensures DeletedAll(s, f + b, |s|) == Deleted(s, f + b, |s|, '(') + Deleted(s, f + b, |s|, ')')
  {
    DroppedOnlyParens(s, f + b, |s|);
  }

  lemma {:induction false} DroppedOnlyParens(s: seq<char>, del: set<int>, p: nat)
    requires p <= |s|
    requires forall k :: k in del && 0 <= k < |s| ==> s[k] == '(' || s[k] == ')'
    ensures DeletedAll(s, del, p) == Deleted(s, del, p, '(') + Deleted(s, del, p, ')')
  {
    if p > 0 {
      DroppedOnlyParens(s, del, p - 1);
    }
  }

  /** A balanced deletion result drops, up to each q, at least -P(s, q) of
      the ')' and, from q on, at least P(s, |s|) - P(s, q) of the '('. */
  lemma DroppedAtLeast(s: seq<char>, del: set<int>, q: nat)
    requires q <= |s| && Valid(Keep(s, del))
    ensures Deleted(s, del, |s|, ')') >= -P(s, q)
    ensures Deleted(s, del, |s|, '(') >= P(s, |s|) - P(s, q)
  {
    var t := Keep(s, del);
    KeepCount(s, del, q);
    KeepCount(s, del, |s|);
    KeepPrefix(s, del, q, |s|);
    var m := |KeepUpTo(s, del, q)|;
    PSamePrefix(t, KeepUpTo(s, del, q), m);
    assert P(t, m) >= 0;
    DeletedMonotone(s, del, q, |s|, ')');
    DeletedMonotone(s, del, q, |s|, '(');
    DeletedSplit(s, del, q, '(');
    DeletedSplit(s, del, q, ')');
  }

  lemma {:induction false} AtLeastMinUpTo(s: seq<char>, x: int, p: nat)
    requires p <= |s| && forall q :: 0 <= q <= p ==> x >= -P(s, q)
    ensures x >= -MinUpTo(s, p)
  {
    if p > 0 {
      AtLeastMinUpTo(s, x, p - 1);
      assert x >= -P(s, p);
    } else {
      assert x >= -P(s, 0);
    }
  }

  lemma {:induction false} AtLeastMinFrom(s: seq<char>, x: int, p: nat)
    requires p <= |s| && forall q :: p <= q <= |s| ==> x >= P(s, |s|) - P(s, q)
    ensures x >= P(s, |s|) - MinFrom(s, p)
    decreases |s| - p
  {
    if p < |s| {
      AtLeastMinFrom(s, x, p + 1);
    }
  }
}
