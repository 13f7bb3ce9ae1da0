/** trees/btree.hh, insertion: BTreeNode::insert, splitSelfIfNeeded,
    splitChild and splitChildNode. A new key goes into a leaf; a node left
    holding B keys asks its parent to split it, which promotes the node's
    middle key and may leave the parent full in turn. */
module BTreeInsert {
  import opened Common
  import opened BTreeEntries
  import opened BTreeNode

  /** A child that came back from insertion holding B keys. */
  predicate Full<V>(c: Node<V>, B: int)
  {
    |c.keys| == B && |c.values| == B && (IsLeaf(c) || |c.children| == B + 1)
  }

  /** The half of a full node that stays put: the keys before position
      B/2 and, for an inner node, the children around them. */
  function LeftHalf<V>(c: Node<V>, B: int): (l: Node<V>)
    requires B >= 2 && Full(c, B)
    ensures |l.keys| == B / 2
  {
    var m := B / 2;
    Node(c.keys[..m], c.values[..m], if IsLeaf(c) then [] else c.children[..m + 1])
  }

  /** The half that moves to a new sibling: the keys after position B/2. */
  function RightHalf<V>(c: Node<V>, B: int): (r: Node<V>)
    requires B >= 2 && Full(c, B)
    ensures |r.keys| == B - B / 2 - 1
  {
    var m := B / 2;
    Node(c.keys[m + 1..], c.values[m + 1..], if IsLeaf(c) then [] else c.children[m + 1..])
  }

  /** splitChildNode(i): a new child goes in at i + 1 holding the right
      half of the full child i, which keeps its left half. The key at B/2
      has already been promoted by splitChild. */
  function SplitChildNode<V>(p: Node<V>, i: nat, B: int): (r: Node<V>)
    requires B >= 2 && i < |p.children| && Full(p.children[i], B)
    ensures |r.children| == |p.children| + 1 && r.keys == p.keys && r.values == p.values
  {
    var c := p.children[i];
    p.(children := p.children[..i] + [LeftHalf(c, B), RightHalf(c, B)] + p.children[i + 1..])
  }

  /** The entry (k, v) placed at position i of a node's keys and values. */
  function Promote<V>(p: Node<V>, i: nat, k: int, v: Option<V>): (q: Node<V>)
    requires i <= |p.keys| && i <= |p.values|
    ensures |q.keys| == |p.keys| + 1 && q.children == p.children
  {
    p.(keys := p.keys[..i] + [k] + p.keys[i..], values := p.values[..i] + [v] + p.values[i..])
  }

  /** splitChild(midKey, midValue): the full child whose range holds
      midKey has its middle entry promoted into this node, at the position
      ownsKey gives, and is then split in two. */
  function SplitChild<V>(p: Node<V>, midKey: int, midValue: Option<V>, B: int): (r: Node<V>)
    requires B >= 2 && |p.values| == |p.keys|
    requires var i := OwnsKey(p.keys, midKey).1;
      i < |p.children| && Full(p.children[i], B)
  {
    var idx := OwnsKey(p.keys, midKey).1;
    SplitChildNode(Promote(p, idx, midKey, midValue), idx, B)
  }

  lemma {:induction false} PromoteEntries<V>(p: Node<V>, i: nat, k: int, v: Option<V>)
    requires |p.values| == |p.keys| && i <= |p.keys|
    ensures Es(Promote(p, i, k, v)) == Es(p)[..i] + [Entry(k, v)] + Es(p)[i..]
  {
    var q := Promote(p, i, k, v);
    var es := Es(p);
    forall j | 0 <= j < |Es(q)|
      ensures Es(q)[j] == (es[..i] + [Entry(k, v)] + es[i..])[j]
    {
      if j < i {
        assert q.keys[j] == p.keys[j] && q.values[j] == p.values[j];
      } else if j > i {
        assert q.keys[j] == p.keys[j - 1] && q.values[j] == p.values[j - 1];
      }
    }
  }

  /** Both halves keep the full node's shape. */
  lemma {:induction false} HalvesShaped<V>(c: Node<V>, h: nat, B: int)
    requires B >= 2 && Shaped(c, h) && Full(c, B)
    ensures Shaped(LeftHalf(c, B), h) && Shaped(RightHalf(c, B), h)
    ensures Fits(c, B) ==> Small(LeftHalf(c, B), B) && Small(RightHalf(c, B), B)
  {
    var m := B / 2;
    var l, r := LeftHalf(c, B), RightHalf(c, B);
    assert forall j :: 0 <= j < |l.children| ==> l.children[j] == c.children[j];
    assert forall j :: 0 <= j < |r.children| ==> r.children[j] == c.children[m + 1 + j];
  }

  /** A full node's walk is its left half, its middle entry and its right
      half. */
  lemma {:induction false} HalvesFlat<V>(c: Node<V>, h: nat, B: int)
    requires B >= 2 && Shaped(c, h) && Full(c, B)
    ensures Flat(c) == Flat(LeftHalf(c, B)) + [Es(c)[B / 2]] + Flat(RightHalf(c, B))
  {
    var m := B / 2;
    var l, r := LeftHalf(c, B), RightHalf(c, B);
    var es := Es(c);
    ZipSlice(c.keys, c.values, 0, m);
    ZipSlice(c.keys, c.values, m + 1, B);
    assert Es(l) == es[..m] && Es(r) == es[m + 1..];
    assert es == es[..m] + [es[m]] + es[m + 1..];
    if h > 0 {
      var cs := c.children;
      assert cs == cs[..m + 1] + cs[m + 1..];
      WeaveCat(cs[..m + 1], es[..m], es[m], cs[m + 1..], es[m + 1..]);
    }
  }

  /** A property every child has survives replacing child i by two nodes
      that have it. */
  lemma {:induction false} Splice<V>(cs: seq<Node<V>>, i: int, l: Node<V>, r: Node<V>, P: Node<V> -> bool)
    requires 0 <= i < |cs| && P(l) && P(r)
    requires forall j :: 0 <= j < |cs| && j != i ==> P(cs[j])
    ensures var ds := cs[..i] + [l, r] + cs[i + 1..];
      forall j :: 0 <= j < |ds| ==> P(ds[j])
  {
    var ds := cs[..i] + [l, r] + cs[i + 1..];
    forall j | 0 <= j < |ds|
      ensures P(ds[j])
    {
      if j < i {
        assert ds[j] == cs[j];
      } else if i + 1 < j {
        assert ds[j] == cs[j - 1];
      }
    }
  }

  /** The children after a split: the full child is replaced by its two
      halves, which keep its shape. */
  lemma {:induction false} SplitShaped<V>(p: Node<V>, h: nat, midKey: int, midValue: Option<V>, B: int)
    requires B >= 2 && Shaped(p, h) && h > 0
    requires var i := OwnsKey(p.keys, midKey).1; Full(p.children[i], B)
    ensures Shaped(SplitChild(p, midKey, midValue, B), h)
  {
    var i := OwnsKey(p.keys, midKey).1;
    var c := p.children[i];
    HalvesShaped(c, h - 1, B);
    Splice(p.children, i, LeftHalf(c, B), RightHalf(c, B), x => Shaped(x, h - 1));
  }

  /** ... and the size bound: each half holds fewer than B keys. */
  lemma {:induction false} SplitSmall<V>(p: Node<V>, h: nat, midKey: int, midValue: Option<V>, B: int)
    requires B >= 2 && Shaped(p, h) && h > 0
    requires var i := OwnsKey(p.keys, midKey).1;
      && Full(p.children[i], B) && Fits(p.children[i], B)
      && forall j :: 0 <= j < |p.children| && j != i ==> Small(p.children[j], B)
    ensures var r := SplitChild(p, midKey, midValue, B);
      forall j :: 0 <= j < |r.children| ==> Small(r.children[j], B)
  {
    var i := OwnsKey(p.keys, midKey).1;
    var c := p.children[i];
    HalvesShaped(c, h - 1, B);
    Splice(p.children, i, LeftHalf(c, B), RightHalf(c, B), x => Small(x, B));
  }

  /** Splitting keeps the walk: the promoted key sits between the two
      halves exactly as it sat inside the full child. The left half keeps
      the keys below position B/2, the right half those above. */
  lemma {:induction false} SplitChildSpec<V>(p: Node<V>, h: nat, midKey: int, midValue: Option<V>, B: int)
    requires B >= 2 && Shaped(p, h) && h > 0
    requires var i := OwnsKey(p.keys, midKey).1;
      && Full(p.children[i], B)
      && midKey == p.children[i].keys[B / 2] && midValue == p.children[i].values[B / 2]
    ensures var i := OwnsKey(p.keys, midKey).1; var r := SplitChild(p, midKey, midValue, B);
      && Shaped(r, h) && Flat(r) == Flat(p)
      && r.keys == p.keys[..i] + [midKey] + p.keys[i..]
      && r.children[i].keys == p.children[i].keys[..B / 2]
      && r.children[i + 1].keys == p.children[i].keys[B / 2 + 1..]
      && (Fits(p.children[i], B) && (forall j :: 0 <= j < |p.children| && j != i ==> Small(p.children[j], B))
          ==> forall j :: 0 <= j < |r.children| ==> Small(r.children[j], B))
  {
    var i := OwnsKey(p.keys, midKey).1;
    var c := p.children[i];
    SplitShaped(p, h, midKey, midValue, B);
    if Fits(c, B) && forall j :: 0 <= j < |p.children| && j != i ==> Small(p.children[j], B) {
      SplitSmall(p, h, midKey, midValue, B);
    }
    SplitFlat(p, h, midKey, midValue, B);
  }

  lemma {:induction false} SplitFlat<V>(p: Node<V>, h: nat, midKey: int, midValue: Option<V>, B: int)
    requires B >= 2 && Shaped(p, h) && h > 0
    requires var i := OwnsKey(p.keys, midKey).1;
      && Full(p.children[i], B)
      && midKey == p.children[i].keys[B / 2] && midValue == p.children[i].values[B / 2]
    ensures Flat(SplitChild(p, midKey, midValue, B)) == Flat(p)
  {
    var i := OwnsKey(p.keys, midKey).1;
    var r := SplitChild(p, midKey, midValue, B);
    var c := p.children[i];
    var cs, es := p.children, Es(p);
    var l, rt := LeftHalf(c, B), RightHalf(c, B);
    var e := Entry(midKey, midValue);
    var left, right := LeftPart(cs[..i], es[..i]), RightPart(es[i..], cs[i + 1..]);
    assert Es(c)[B / 2] == e;
    calc {
      Flat(r);
    == { assert r.children == cs[..i] + [l, rt] + cs[i + 1..]; PromoteEntries(p, i, midKey, midValue); }
      Weave(cs[..i] + [l, rt] + cs[i + 1..], es[..i] + [e] + es[i..]);
    == { Rebuild2(cs[..i], es[..i], l, e, rt, es[i..], cs[i + 1..]); }
      left + Flat(l) + [e] + Flat(rt) + right;
    == { var fl, fr := Flat(l), Flat(rt); assert left + fl + [e] + fr + right == left + (fl + [e] + fr) + right; }
      left + (Flat(l) + [e] + Flat(rt)) + right;
    == { HalvesFlat(c, h - 1, B); }
      left + Flat(c) + right;
    == { Around(p, h, i); }
      Flat(p);
    }
  }

  /** insert(key, value): an owned key has its value overwritten; an inner
      node hands the key to the child whose range holds it and splits that
      child if it came back full (the child's splitSelfIfNeeded, which
      finds this node through BTree::parent); a leaf takes the key at its
      sorted position. The result may hold B keys, for its own parent to
      split. */
  function Insert<V>(n: Node<V>, key: int, value: V, B: int, ghost h: nat): (r: Node<V>)
    requires B >= 2 && Shaped(n, h) && Small(n, B) && Ordered(n)
    ensures Shaped(r, h) && Fits(r, B) && Flat(r) == Put(Flat(n), key, Some(value))
    decreases n
  {
    var (owns, idx) := OwnsKey(n.keys, key);
    if owns then
      InsertOwned(n, h, key, value);
      n.(values := n.values[idx := Some(value)])
    else if !IsLeaf(n) then
      ChildOrdered(n, h, key, B);
      var c := Insert(n.children[idx], key, value, B, h - 1);
      InsertBelow(n, h, key, value, B, c);
      var n' := n.(children := n.children[idx := c]);
      if |c.keys| < B then n' else SplitChild(n', c.keys[B / 2], c.values[B / 2], B)
    else
      InsertLeaf(n, key, value);
      Promote(n, idx, key, Some(value))
  }

  lemma {:induction false} ChildOrdered<V>(n: Node<V>, h: nat, key: int, B: int)
    requires Shaped(n, h) && h > 0 && Small(n, B) && Ordered(n) && !OwnsKey(n.keys, key).0
    ensures var c := n.children[OwnsKey(n.keys, key).1]; Shaped(c, h - 1) && Small(c, B) && Ordered(c)
  {
    var a, rest := Descend(n, h, key);
  }

  lemma {:induction false} InsertOwned<V>(n: Node<V>, h: nat, key: int, value: V)
    requires Shaped(n, h) && Ordered(n) && OwnsKey(n.keys, key).0
    ensures var r := n.(values := n.values[OwnsKey(n.keys, key).1 := Some(value)]);
      Shaped(r, h) && Flat(r) == Put(Flat(n), key, Some(value))
  {
    var idx := OwnsKey(n.keys, key).1;
    var a, b := EntrySplit(n, h, idx, Some(value));
    SortedAround(a, Es(n)[idx], b);
    PutHit(a, Es(n)[idx], b, Some(value));
  }

  lemma {:induction false} InsertLeaf<V>(n: Node<V>, key: int, value: V)
    requires Shaped(n, 0) && Ordered(n) && !OwnsKey(n.keys, key).0
    ensures var r := Promote(n, OwnsKey(n.keys, key).1, key, Some(value));
      Shaped(r, 0) && Flat(r) == Put(Flat(n), key, Some(value))
  {
    var idx := OwnsKey(n.keys, key).1;
    var es := Es(n);
    PromoteEntries(n, idx, key, Some(value));
    assert es == es[..idx] + es[idx..];
    assert AllAbove(es[idx..], key) by {
      forall j | 0 <= j < |es[idx..]|
        ensures key < es[idx..][j].key
      {
        if j > 0 {
          assert es[idx].key < es[idx + j].key;
        }
      }
    }
    PutGap(es[..idx], es[idx..], key, Some(value));
  }

  /** The child's walk takes the key, and the node's walk takes it with
      it. */
  lemma {:induction false} InsertBelow<V>(n: Node<V>, h: nat, key: int, value: V, B: int, c: Node<V>)
    requires B >= 2 && Shaped(n, h) && h > 0 && Small(n, B) && Ordered(n) && !OwnsKey(n.keys, key).0
    requires var idx := OwnsKey(n.keys, key).1;
      Shaped(c, h - 1) && Fits(c, B) && Flat(c) == Put(Flat(n.children[idx]), key, Some(value))
    ensures var idx := OwnsKey(n.keys, key).1; var n' := n.(children := n.children[idx := c]);
      && Shaped(n', h) && Ordered(n') && Flat(n') == Put(Flat(n), key, Some(value))
      && (|c.keys| < B ==> Fits(n', B))
      && (|c.keys| >= B ==>
            && OwnsKey(n'.keys, c.keys[B / 2]).1 == idx && Full(c, B)
            && var r := SplitChild(n', c.keys[B / 2], c.values[B / 2], B);
               Shaped(r, h) && Fits(r, B) && Flat(r) == Flat(n'))
  {
    var idx := OwnsKey(n.keys, key).1;
    var n' := n.(children := n.children[idx := c]);
    InsertWalk(n, h, key, value, c);
    if |c.keys| < B {
      Replace1(n.children, idx, c, x => Small(x, B), n'.children);
    } else {
      SplitIndex(n', h, idx, B);
      SplitChildSpec(n', h, c.keys[B / 2], c.values[B / 2], B);
    }
  }

  lemma {:induction false} InsertWalk<V>(n: Node<V>, h: nat, key: int, value: V, c: Node<V>)
    requires Shaped(n, h) && h > 0 && Ordered(n) && !OwnsKey(n.keys, key).0
    requires var idx := OwnsKey(n.keys, key).1;
      Shaped(c, h - 1) && Flat(c) == Put(Flat(n.children[idx]), key, Some(value))
    ensures var idx := OwnsKey(n.keys, key).1; var n' := n.(children := n.children[idx := c]);
      Shaped(n', h) && Ordered(n') && Flat(n') == Put(Flat(n), key, Some(value))
  {
    var idx := OwnsKey(n.keys, key).1;
    var a, rest := Descend(n, h, key);
    ReplaceChild(n, h, idx, c);
    PutMiddle(a, Flat(n.children[idx]), rest, key, Some(value));
    PutSorted(Flat(n), key, Some(value));
  }

  /** ownsKey in the parent still names the child for any key the child
      holds, its middle key in particular, so a split lands there. */
  lemma {:induction false} SplitIndex<V>(n: Node<V>, h: nat, idx: nat, B: int)
    requires B >= 2 && Shaped(n, h) && h > 0 && Ordered(n) && idx < |n.children|
    requires |n.children[idx].keys| >= B && Fits(n.children[idx], B)
    ensures OwnsKey(n.keys, n.children[idx].keys[B / 2]).1 == idx && Full(n.children[idx], B)
  {
    var es, c := Es(n), n.children[idx];
    var midKey := c.keys[B / 2];
    var a, f, rest := LeftPart(n.children[..idx], es[..idx]), Flat(c), RightPart(es[idx..], n.children[idx + 1..]);
    Around(n, h, idx);
    EntryInFlat(c, h - 1, B / 2);
    assert a + f + rest == a + (f + rest);
    SortedCat(a, f + rest);
    SortedCat(f, rest);
    KeySetCat(f, rest);
    PrecedesBelow(a, f + rest, midKey);
    PrecedesAbove(f, rest, midKey);
    forall j | 0 <= j < idx
      ensures n.keys[j] < midKey
    {
      LeftHas(n.children[..idx], es[..idx], j);
      BelowMember(a, es[..idx][j], midKey);
    }
    if idx < |n.keys| {
      assert rest[0] == es[idx];
    }
    OwnsKeyAt(n.keys, midKey, idx);
  }
}
