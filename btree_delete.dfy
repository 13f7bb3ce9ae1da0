/** trees/btree.hh, deletion: BTreeNode::deleteKey and the parent-managed
    steps deleteFromChild, deleteFromLeafChild, attemptKeyBorrowing,
    mergeChildWithSibling and deleteFromInternalChild. A key is erased from
    a leaf that can spare it, or after borrowing a key through the parent
    from a sibling that can, or by merging the leaf with a sibling when the
    parent can spare a key; otherwise its value is cleared and the key stays
    as a tombstone, as it does in an inner node. */
module BTreeDelete {
  import opened Common
  import opened BTreeEntries
  import opened BTreeNode

  /** kMinKeys: the fewest keys a node may keep when giving one up. */
  function MinKeys(B: int): int
  {
    (B + 1) / 2 - 1
  }

  /** A node after a deletion, and how much the tree's tombstone count
      grows (one when a present value was cleared). */
  datatype Deleted<V> = Deleted(node: Node<V>, bump: nat)

  /** What deleting k does to the walk: its entry is dropped, or its value
      is cleared and the count grows when there was a value. */
  ghost predicate Removed<V>(before: seq<Entry<V>>, after: seq<Entry<V>>, k: int, bump: nat)
  {
    || (after == Drop(before, k) && bump == 0)
    || (after == Clear(before, k) && bump == if Find(before, k).Some? then 1 else 0)
  }

  /** vector::erase at position i. */
  function EraseAt<T>(s: seq<T>, i: nat): (r: seq<T>)
    requires i < |s|
    ensures |r| == |s| - 1
    ensures forall j :: 0 <= j < |r| ==> r[j] == if j < i then s[j] else s[j + 1]
  {
    s[..i] + s[i + 1..]
  }

  lemma {:induction false} ZipErase<V>(ks: seq<int>, vs: seq<Option<V>>, i: nat)
    requires |ks| == |vs| && i < |ks|
    ensures Zip(EraseAt(ks, i), EraseAt(vs, i)) == Zip(ks, vs)[..i] + Zip(ks, vs)[i + 1..]
  {
    ZipCat(ks[..i], vs[..i], ks[i + 1..], vs[i + 1..]);
    ZipSlice(ks, vs, 0, i);
    ZipSlice(ks, vs, i + 1, |ks|);
  }

  lemma {:induction false} Zip3<V>(k1: seq<int>, v1: seq<Option<V>>, k2: seq<int>, v2: seq<Option<V>>, k3: seq<int>, v3: seq<Option<V>>)
    requires |k1| == |v1| && |k2| == |v2| && |k3| == |v3|
    ensures Zip(k1 + k2 + k3, v1 + v2 + v3) == Zip(k1, v1) + Zip(k2, v2) + Zip(k3, v3)
  {
    ZipCat(k1 + k2, v1 + v2, k3, v3);
    ZipCat(k1, v1, k2, v2);
  }

  /** A leaf's entry i erased (the first branch of deleteFromLeafChild). */
  function EraseEntry<V>(c: Node<V>, i: nat): (r: Node<V>)
    requires |c.values| == |c.keys| && i < |c.keys|
    ensures |r.keys| == |r.values| == |c.keys| - 1 && r.children == c.children
    ensures Es(r) == Es(c)[..i] + Es(c)[i + 1..]
  {
    ZipErase(c.keys, c.values, i);
    c.(keys := EraseAt(c.keys, i), values := EraseAt(c.values, i))
  }

  /** A leaf below a parent of shape h sits at height 0, as do its
      siblings. */
  lemma {:induction false} LeafLevel<V>(p: Node<V>, h: nat, ci: int)
    requires Shaped(p, h) && h > 0 && 0 <= ci < |p.children| && IsLeaf(p.children[ci])
    ensures h == 1
    ensures forall j :: 0 <= j < |p.children| ==>
      Shaped(p.children[j], 0) && IsLeaf(p.children[j]) && |p.children[j].values| == |p.children[j].keys|
  {
    assert Shaped(p.children[ci], h - 1);
  }

  /** A child's keys and values line up. */
  lemma {:induction false} ChildShaped<V>(p: Node<V>, h: nat, ci: int)
    requires Shaped(p, h) && h > 0 && 0 <= ci < |p.children|
    ensures Shaped(p.children[ci], h - 1) && |p.children[ci].values| == |p.children[ci].keys|
  {
  }

  /** The entry of a leaf child, dropped from the parent's walk when the
      parts around the leaf stay as they were. */
  lemma {:induction false} LeafEntryDropped<V>(L: seq<Entry<V>>, es: seq<Entry<V>>, i: int, R: seq<Entry<V>>)
    requires 0 <= i < |es| && Sorted(L + es + R)
    ensures Drop(L + es + R, es[i].key) == L + (es[..i] + es[i + 1..]) + R
    ensures Sorted(L + (es[..i] + es[i + 1..]) + R)
  {
    var P, S := L + es[..i], es[i + 1..] + R;
    assert es == es[..i] + [es[i]] + es[i + 1..];
    assert L + es + R == P + [es[i]] + S;
    assert L + (es[..i] + es[i + 1..]) + R == P + S;
    DropAround(P, es[i], S);
  }

  /** The first branch of deleteFromLeafChild: the leaf can spare a key. */
  lemma {:induction false} EraseSpec<V>(p: Node<V>, h: nat, ci: int, ki: int, B: int)
    requires Shaped(p, h) && h > 0 && Small(p, B) && Ordered(p)
    requires 0 <= ci < |p.children| && IsLeaf(p.children[ci]) && 0 <= ki < |p.children[ci].keys|
    requires |p.children[ci].values| == |p.children[ci].keys|
    ensures var r := p.(children := p.children[ci := EraseEntry(p.children[ci], ki)]);
      && Shaped(r, h) && Small(r, B) && Ordered(r)
      && Flat(r) == Drop(Flat(p), p.children[ci].keys[ki])
  {
    var c := p.children[ci];
    var c' := EraseEntry(c, ki);
    var r := p.(children := p.children[ci := c']);
    LeafLevel(p, h, ci);
    ReplaceChild(p, h, ci, c');
    Around(p, h, ci);
    Replace1(p.children, ci, c', x => Small(x, B), r.children);
    var L, R := LeftPart(p.children[..ci], Es(p)[..ci]), RightPart(Es(p)[ci..], p.children[ci + 1..]);
    LeafEntryDropped(L, Es(c), ki, R);
  }

  /** vector::pop_back on a leaf's keys and values. */
  function PopBack<V>(l: Node<V>): (r: Node<V>)
    requires |l.values| == |l.keys| > 0
    ensures |r.keys| == |r.values| == |l.keys| - 1 && r.children == l.children
    ensures Es(r) == Es(l)[..|l.keys| - 1]
  {
    var m := |l.keys| - 1;
    ZipSlice(l.keys, l.values, 0, m);
    l.(keys := l.keys[..m], values := l.values[..m])
  }

  /** Erasing a leaf's first key and value. */
  function PopFront<V>(l: Node<V>): (r: Node<V>)
    requires |l.values| == |l.keys| > 0
    ensures |r.keys| == |r.values| == |l.keys| - 1 && r.children == l.children
    ensures Es(r) == Es(l)[1..]
  {
    ZipSlice(l.keys, l.values, 1, |l.keys|);
    l.(keys := l.keys[1..], values := l.values[1..])
  }

  /** Inserting a key and value at a leaf's front. */
  function PushFront<V>(k: int, v: Option<V>, l: Node<V>): (r: Node<V>)
    requires |l.values| == |l.keys|
    ensures |r.keys| == |r.values| == |l.keys| + 1 && r.children == l.children
    ensures Es(r) == [Entry(k, v)] + Es(l)
  {
    ZipCat([k], [v], l.keys, l.values);
    l.(keys := [k] + l.keys, values := [v] + l.values)
  }

  /** Inserting a key and value at a leaf's end. */
  function PushBack<V>(l: Node<V>, k: int, v: Option<V>): (r: Node<V>)
    requires |l.values| == |l.keys|
    ensures |r.keys| == |r.values| == |l.keys| + 1 && r.children == l.children
    ensures Es(r) == Es(l) + [Entry(k, v)]
  {
    ZipCat(l.keys, l.values, [k], [v]);
    l.(keys := l.keys + [k], values := l.values + [v])
  }

  /** Two leaves and the parent's key between them, as one leaf. */
  function Join<V>(a: Node<V>, k: int, v: Option<V>, b: Node<V>): (r: Node<V>)
    requires |a.values| == |a.keys| && |b.values| == |b.keys|
    ensures |r.keys| == |r.values| == |a.keys| + 1 + |b.keys| && IsLeaf(r)
    ensures Es(r) == Es(a) + [Entry(k, v)] + Es(b)
  {
    Zip3(a.keys, a.values, [k], [v], b.keys, b.values);
    Node(a.keys + [k] + b.keys, a.values + [v] + b.values, [])
  }

  /** Children i - 1 and i replaced, and the key between them. */
  function Pair<V>(p: Node<V>, i: nat, l: Node<V>, e: Entry<V>, c: Node<V>): (r: Node<V>)
    requires 0 < i < |p.children| && i - 1 < |p.keys| && i - 1 < |p.values|
    ensures |r.keys| == |p.keys| && |r.values| == |p.values| && |r.children| == |p.children|
  {
    p.(keys := p.keys[i - 1 := e.key], values := p.values[i - 1 := e.value], children := p.children[i - 1 := l][i := c])
  }

  /** Children i - 1 and i, and the key between them, replaced by one
      node. */
  function Fuse<V>(p: Node<V>, i: nat, m: Node<V>): (r: Node<V>)
    requires 0 < i < |p.children| && i - 1 < |p.keys| && i - 1 < |p.values|
    ensures |r.keys| == |p.keys| - 1 && |r.values| == |p.values| - 1 && |r.children| == |p.children| - 1
  {
    Node(EraseAt(p.keys, i - 1), EraseAt(p.values, i - 1), p.children[..i - 1] + [m] + p.children[i + 1..])
  }

  /** p's walk around children i - 1 and i. */
  lemma {:induction false} PairParts<V>(p: Node<V>, h: nat, i: nat)
    requires Shaped(p, h) && h > 0 && 0 < i < |p.children|
    ensures var cs, es := p.children, Es(p);
      Flat(p) == LeftPart(cs[..i - 1], es[..i - 1]) + Flat(cs[i - 1]) + [es[i - 1]] + Flat(cs[i]) + RightPart(es[i..], cs[i + 1..])
  {
    var cs, es := p.children, Es(p);
    assert cs == cs[..i - 1] + [cs[i - 1], cs[i]] + cs[i + 1..];
    assert es == es[..i - 1] + [es[i - 1]] + es[i..];
    Rebuild2(cs[..i - 1], es[..i - 1], cs[i - 1], es[i - 1], cs[i], es[i..], cs[i + 1..]);
  }

  lemma {:induction false} PairFlat<V>(p: Node<V>, h: nat, i: nat, l: Node<V>, e: Entry<V>, c: Node<V>)
    requires Shaped(p, h) && h > 0 && 0 < i < |p.children| && Shaped(l, h - 1) && Shaped(c, h - 1)
    ensures var cs, es, r := p.children, Es(p), Pair(p, i, l, e, c);
      && Shaped(r, h)
      && Flat(r) == LeftPart(cs[..i - 1], es[..i - 1]) + Flat(l) + [e] + Flat(c) + RightPart(es[i..], cs[i + 1..])
  {
    var cs, es, r := p.children, Es(p), Pair(p, i, l, e, c);
    assert r.children == cs[..i - 1] + [l, c] + cs[i + 1..];
    assert Es(r) == es[..i - 1] + [e] + es[i..] by {
      assert Es(r) == es[i - 1 := e];
    }
    Rebuild2(cs[..i - 1], es[..i - 1], l, e, c, es[i..], cs[i + 1..]);
    assert forall j :: 0 <= j < |r.children| ==> r.children[j] == if j == i - 1 then l else if j == i then c else cs[j];
  }

  lemma {:induction false} FuseFlat<V>(p: Node<V>, h: nat, i: nat, m: Node<V>)
    requires Shaped(p, h) && h > 0 && 0 < i < |p.children| && Shaped(m, h - 1)
    ensures var cs, es, r := p.children, Es(p), Fuse(p, i, m);
      && Shaped(r, h)
      && Flat(r) == LeftPart(cs[..i - 1], es[..i - 1]) + Flat(m) + RightPart(es[i..], cs[i + 1..])
  {
    var cs, es, r := p.children, Es(p), Fuse(p, i, m);
    ZipErase(p.keys, p.values, i - 1);
    assert Es(r) == es[..i - 1] + es[i..];
    Rebuild(cs[..i - 1], es[..i - 1], m, es[i..], cs[i + 1..]);
    assert forall j :: 0 <= j < |r.children| ==> r.children[j] == if j < i - 1 then cs[j] else if j == i - 1 then m else cs[j + 1];
  }

  /** Each child of Pair and Fuse keeps the size bound when the new ones
      do. */
  lemma {:induction false} PairSmall<V>(p: Node<V>, i: nat, l: Node<V>, e: Entry<V>, c: Node<V>, B: int)
    requires Small(p, B) && 0 < i < |p.children| && i - 1 < |p.keys| && i - 1 < |p.values| && Small(l, B) && Small(c, B)
    ensures Small(Pair(p, i, l, e, c), B)
  {
    var r := Pair(p, i, l, e, c);
    assert forall j :: 0 <= j < |r.children| ==> r.children[j] == if j == i - 1 then l else if j == i then c else p.children[j];
  }

  lemma {:induction false} FuseSmall<V>(p: Node<V>, i: nat, m: Node<V>, B: int)
    requires Small(p, B) && 0 < i < |p.children| && i - 1 < |p.keys| && i - 1 < |p.values| && Small(m, B)
    ensures Small(Fuse(p, i, m), B)
  {
    var r := Fuse(p, i, m);
    assert forall j :: 0 <= j < |r.children| ==> r.children[j] == if j < i - 1 then p.children[j] else if j == i - 1 then m else p.children[j + 1];
  }

  /** Borrowing through the parent from the left sibling: the child's key
      goes, the parent's key before the child moves to the child's front,
      and the left sibling's last key takes its place in the parent. */
  function BorrowLeft<V>(p: Node<V>, ci: nat, ki: nat): (r: Node<V>)
    requires |p.values| == |p.keys| && |p.children| == |p.keys| + 1 && 0 < ci < |p.children|
    requires |p.children[ci].values| == |p.children[ci].keys| && ki < |p.children[ci].keys|
    requires |p.children[ci - 1].values| == |p.children[ci - 1].keys| > 0
  {
    var c, l := p.children[ci], p.children[ci - 1];
    var m := |l.keys| - 1;
    Pair(p, ci, PopBack(l), Entry(l.keys[m], l.values[m]), PushFront(p.keys[ci - 1], p.values[ci - 1], EraseEntry(c, ki)))
  }

  /** Borrowing from the right sibling: the child's key goes, the parent's
      key after the child moves to the child's end, and the right sibling's
      first key takes its place in the parent. */
  function BorrowRight<V>(p: Node<V>, ci: nat, ki: nat): (r: Node<V>)
    requires |p.values| == |p.keys| && |p.children| == |p.keys| + 1 && ci + 1 < |p.children|
    requires |p.children[ci].values| == |p.children[ci].keys| && ki < |p.children[ci].keys|
    requires |p.children[ci + 1].values| == |p.children[ci + 1].keys| > 0
  {
    var c, s := p.children[ci], p.children[ci + 1];
    Pair(p, ci + 1, PushBack(EraseEntry(c, ki), p.keys[ci], p.values[ci]), Entry(s.keys[0], s.values[0]), PopFront(s))
  }

  /** attemptKeyBorrowing(childIdx, keyIdx): the left sibling is asked
      first, then the right; a sibling lends only when it holds more than
      kMinKeys keys. */
  function AttemptKeyBorrowing<V>(p: Node<V>, ci: nat, ki: nat, B: int, ghost h: nat): (r: Option<Node<V>>)
    requires B >= 2 && Shaped(p, h) && h > 0 && Small(p, B) && Ordered(p)
    requires ci < |p.children| && IsLeaf(p.children[ci]) && ki < |p.children[ci].keys|
    ensures r.None? <==>
      && (ci > 0 ==> |p.children[ci - 1].keys| <= MinKeys(B))
      && (ci + 1 < |p.children| ==> |p.children[ci + 1].keys| <= MinKeys(B))
    ensures r.Some? ==>
      && Shaped(r.value, h) && Small(r.value, B) && Ordered(r.value)
      && Flat(r.value) == Drop(Flat(p), p.children[ci].keys[ki])
  {
    LeafLevel(p, h, ci);
    if ci > 0 && |p.children[ci - 1].keys| > MinKeys(B) then
      BorrowLeftSpec(p, ci, ki, B);
      Some(BorrowLeft(p, ci, ki))
    else if ci + 1 < |p.children| && |p.children[ci + 1].keys| > MinKeys(B) then
      BorrowRightSpec(p, ci, ki, B);
      Some(BorrowRight(p, ci, ki))
    else
      None
  }

  /** Borrowing from the left, on the walk: the child's entry goes and the
      entries around it only regroup. */
  lemma {:induction false} LeftBorrowed<V>(LP: seq<Entry<V>>, El: seq<Entry<V>>, e: Entry<V>, Ec: seq<Entry<V>>, ki: int, RP: seq<Entry<V>>)
    requires |El| > 0 && 0 <= ki < |Ec| && Sorted(LP + El + [e] + Ec + RP)
    ensures var q := LP + El[..|El| - 1] + [El[|El| - 1]] + ([e] + (Ec[..ki] + Ec[ki + 1..])) + RP;
      Drop(LP + El + [e] + Ec + RP, Ec[ki].key) == q && Sorted(q)
  {
    var m, L := |El| - 1, LP + El + [e];
    assert El == El[..m] + [El[m]];
    assert LP + El[..m] + [El[m]] + ([e] + (Ec[..ki] + Ec[ki + 1..])) + RP == L + (Ec[..ki] + Ec[ki + 1..]) + RP;
    LeafEntryDropped(L, Ec, ki, RP);
  }

  /** Borrowing from the right, on the walk. */
  lemma {:induction false} RightBorrowed<V>(LP: seq<Entry<V>>, Ec: seq<Entry<V>>, ki: int, e: Entry<V>, Es: seq<Entry<V>>, RP: seq<Entry<V>>)
    requires |Es| > 0 && 0 <= ki < |Ec| && Sorted(LP + Ec + [e] + Es + RP)
    ensures var q := LP + ((Ec[..ki] + Ec[ki + 1..]) + [e]) + [Es[0]] + Es[1..] + RP;
      Drop(LP + Ec + [e] + Es + RP, Ec[ki].key) == q && Sorted(q)
  {
    var R := [e] + Es + RP;
    assert Es == [Es[0]] + Es[1..];
    assert LP + Ec + [e] + Es + RP == LP + Ec + R;
    assert LP + ((Ec[..ki] + Ec[ki + 1..]) + [e]) + [Es[0]] + Es[1..] + RP == LP + (Ec[..ki] + Ec[ki + 1..]) + R;
    LeafEntryDropped(LP, Ec, ki, R);
  }

  /** Merging into the left sibling, on the walk. */
  lemma {:induction false} LeftMerged<V>(LP: seq<Entry<V>>, El: seq<Entry<V>>, e: Entry<V>, Ec: seq<Entry<V>>, ki: int, RP: seq<Entry<V>>)
    requires 0 <= ki < |Ec| && Sorted(LP + El + [e] + Ec + RP)
    ensures var q := LP + (El + [e] + (Ec[..ki] + Ec[ki + 1..])) + RP;
      Drop(LP + El + [e] + Ec + RP, Ec[ki].key) == q && Sorted(q)
  {
    var L := LP + El + [e];
    assert LP + (El + [e] + (Ec[..ki] + Ec[ki + 1..])) + RP == L + (Ec[..ki] + Ec[ki + 1..]) + RP;
    LeafEntryDropped(L, Ec, ki, RP);
  }

  /** Merging into the right sibling, on the walk. */
  lemma {:induction false} RightMerged<V>(LP: seq<Entry<V>>, Ec: seq<Entry<V>>, ki: int, e: Entry<V>, Es: seq<Entry<V>>, RP: seq<Entry<V>>)
    requires 0 <= ki < |Ec| && Sorted(LP + Ec + [e] + Es + RP)
    ensures var q := LP + ((Ec[..ki] + Ec[ki + 1..]) + [e] + Es) + RP;
      Drop(LP + Ec + [e] + Es + RP, Ec[ki].key) == q && Sorted(q)
  {
    var R := [e] + Es + RP;
    assert LP + Ec + [e] + Es + RP == LP + Ec + R;
    assert LP + ((Ec[..ki] + Ec[ki + 1..]) + [e] + Es) + RP == LP + (Ec[..ki] + Ec[ki + 1..]) + R;
    LeafEntryDropped(LP, Ec, ki, R);
  }

  /** The walks before and after borrowing from the left sibling, with
      the parts away from the two leaves named LP and RP. */
  lemma {:induction false} BorrowLeftWalk<V>(p: Node<V>, ci: nat, ki: nat) returns (LP: seq<Entry<V>>, RP: seq<Entry<V>>)
    requires Shaped(p, 1) && 0 < ci < |p.children| && ki < |p.children[ci].keys| && |p.children[ci - 1].keys| > 0
    requires Shaped(p.children[ci - 1], 0) && Shaped(p.children[ci], 0)
    ensures var l, Ec, e := p.children[ci - 1], Es(p.children[ci]), Es(p)[ci - 1];
      && Shaped(BorrowLeft(p, ci, ki), 1)
      && Flat(p) == LP + Es(l) + [e] + Ec + RP
      && Flat(BorrowLeft(p, ci, ki)) == LP + Es(l)[..|l.keys| - 1] + [Es(l)[|l.keys| - 1]] + ([e] + (Ec[..ki] + Ec[ki + 1..])) + RP
  {
    var cs, es := p.children, Es(p);
    var c, l := cs[ci], cs[ci - 1];
    var m := |l.keys| - 1;
    var l', last, c' := PopBack(l), Entry(l.keys[m], l.values[m]), PushFront(p.keys[ci - 1], p.values[ci - 1], EraseEntry(c, ki));
    LP, RP := LeftPart(cs[..ci - 1], es[..ci - 1]), RightPart(es[ci..], cs[ci + 1..]);
    PairParts(p, 1, ci);
    PairFlat(p, 1, ci, l', last, c');
  }

  lemma {:induction false} BorrowLeftSpec<V>(p: Node<V>, ci: nat, ki: nat, B: int)
    requires B >= 2 && Shaped(p, 1) && Small(p, B) && Ordered(p)
    requires 0 < ci < |p.children| && ki < |p.children[ci].keys| && |p.children[ci - 1].keys| > MinKeys(B)
    requires forall j :: 0 <= j < |p.children| ==> Shaped(p.children[j], 0) && |p.children[j].values| == |p.children[j].keys|
    ensures var r := BorrowLeft(p, ci, ki);
      && Shaped(r, 1) && Small(r, B) && Ordered(r)
      && Flat(r) == Drop(Flat(p), p.children[ci].keys[ki])
  {
    var c, l := p.children[ci], p.children[ci - 1];
    var Ec, El, e := Es(c), Es(l), Es(p)[ci - 1];
    var m := |l.keys| - 1;
    var LP, RP := BorrowLeftWalk(p, ci, ki);
    PairSmall(p, ci, PopBack(l), Entry(l.keys[m], l.values[m]), PushFront(p.keys[ci - 1], p.values[ci - 1], EraseEntry(c, ki)), B);
    LeftBorrowed(LP, El, e, Ec, ki, RP);
  }

  /** The walks before and after borrowing from the right sibling. */
  lemma {:induction false} BorrowRightWalk<V>(p: Node<V>, ci: nat, ki: nat) returns (LP: seq<Entry<V>>, RP: seq<Entry<V>>)
    requires Shaped(p, 1) && ci + 1 < |p.children| && ki < |p.children[ci].keys| && |p.children[ci + 1].keys| > 0
    requires Shaped(p.children[ci], 0) && Shaped(p.children[ci + 1], 0)
    ensures var s, Ec, e := p.children[ci + 1], Es(p.children[ci]), Es(p)[ci];
      && Shaped(BorrowRight(p, ci, ki), 1)
      && Flat(p) == LP + Ec + [e] + Es(s) + RP
      && Flat(BorrowRight(p, ci, ki)) == LP + ((Ec[..ki] + Ec[ki + 1..]) + [e]) + [Es(s)[0]] + Es(s)[1..] + RP
  {
    var cs, es := p.children, Es(p);
    var c, s := cs[ci], cs[ci + 1];
    var c', first, s' := PushBack(EraseEntry(c, ki), p.keys[ci], p.values[ci]), Entry(s.keys[0], s.values[0]), PopFront(s);
    LP, RP := LeftPart(cs[..ci], es[..ci]), RightPart(es[ci + 1..], cs[ci + 2..]);
    PairParts(p, 1, ci + 1);
    PairFlat(p, 1, ci + 1, c', first, s');
  }

  lemma {:induction false} BorrowRightSpec<V>(p: Node<V>, ci: nat, ki: nat, B: int)
    requires B >= 2 && Shaped(p, 1) && Small(p, B) && Ordered(p)
    requires ci + 1 < |p.children| && ki < |p.children[ci].keys| && |p.children[ci + 1].keys| > MinKeys(B)
    requires forall j :: 0 <= j < |p.children| ==> Shaped(p.children[j], 0) && |p.children[j].values| == |p.children[j].keys|
    ensures var r := BorrowRight(p, ci, ki);
      && Shaped(r, 1) && Small(r, B) && Ordered(r)
      && Flat(r) == Drop(Flat(p), p.children[ci].keys[ki])
  {
    var c, s := p.children[ci], p.children[ci + 1];
    var Ec, Esib, e := Es(c), Es(s), Es(p)[ci];
    var LP, RP := BorrowRightWalk(p, ci, ki);
    PairSmall(p, ci + 1, PushBack(EraseEntry(c, ki), p.keys[ci], p.values[ci]), Entry(s.keys[0], s.values[0]), PopFront(s), B);
    RightBorrowed(LP, Ec, ki, e, Esib, RP);
  }

  /** mergeChildWithSibling(childIdx, keyIdx): with a left sibling, the
      parent's key before the child and the child's remaining keys are
      appended to it; otherwise the child's remaining keys and the parent's
      key after it go in front of the right sibling's. Either way the
      parent loses that key and the child. */
  function MergeChildWithSibling<V>(p: Node<V>, ci: nat, ki: nat): (r: Node<V>)
    requires |p.values| == |p.keys| && |p.children| == |p.keys| + 1 && ci < |p.children|
    requires |p.children[ci].values| == |p.children[ci].keys| && ki < |p.children[ci].keys|
    requires ci > 0 ==> |p.children[ci - 1].values| == |p.children[ci - 1].keys|
    requires ci == 0 ==> |p.children| > 1 && |p.children[1].values| == |p.children[1].keys|
  {
    var c := p.children[ci];
    if ci > 0 then
      Fuse(p, ci, Join(p.children[ci - 1], p.keys[ci - 1], p.values[ci - 1], EraseEntry(c, ki)))
    else
      Fuse(p, ci + 1, Join(EraseEntry(c, ki), p.keys[ci], p.values[ci], p.children[ci + 1]))
  }

  /** The walks before and after merging into the left sibling. */
  lemma {:induction false} MergeLeftWalk<V>(p: Node<V>, ci: nat, ki: nat) returns (LP: seq<Entry<V>>, RP: seq<Entry<V>>)
    requires Shaped(p, 1) && 0 < ci < |p.children| && ki < |p.children[ci].keys|
    requires Shaped(p.children[ci - 1], 0) && Shaped(p.children[ci], 0)
    ensures var l, Ec, e := p.children[ci - 1], Es(p.children[ci]), Es(p)[ci - 1];
      && Shaped(MergeChildWithSibling(p, ci, ki), 1)
      && Flat(p) == LP + Es(l) + [e] + Ec + RP
      && Flat(MergeChildWithSibling(p, ci, ki)) == LP + (Es(l) + [e] + (Ec[..ki] + Ec[ki + 1..])) + RP
  {
    var cs, es := p.children, Es(p);
    var m := Join(cs[ci - 1], p.keys[ci - 1], p.values[ci - 1], EraseEntry(cs[ci], ki));
    LP, RP := LeftPart(cs[..ci - 1], es[..ci - 1]), RightPart(es[ci..], cs[ci + 1..]);
    PairParts(p, 1, ci);
    FuseFlat(p, 1, ci, m);
  }

  /** The walks before and after merging the first child into its right
      sibling. */
  lemma {:induction false} MergeRightWalk<V>(p: Node<V>, ki: nat) returns (LP: seq<Entry<V>>, RP: seq<Entry<V>>)
    requires Shaped(p, 1) && 1 < |p.children| && ki < |p.children[0].keys|
    requires Shaped(p.children[0], 0) && Shaped(p.children[1], 0)
    ensures var s, Ec, e := p.children[1], Es(p.children[0]), Es(p)[0];
      && Shaped(MergeChildWithSibling(p, 0, ki), 1)
      && Flat(p) == LP + Ec + [e] + Es(s) + RP
      && Flat(MergeChildWithSibling(p, 0, ki)) == LP + ((Ec[..ki] + Ec[ki + 1..]) + [e] + Es(s)) + RP
  {
    var cs, es := p.children, Es(p);
    var m := Join(EraseEntry(cs[0], ki), p.keys[0], p.values[0], cs[1]);
    LP, RP := LeftPart(cs[..0], es[..0]), RightPart(es[1..], cs[2..]);
    PairParts(p, 1, 1);
    FuseFlat(p, 1, 1, m);
  }

  /** Merging keeps the shape; the merged leaf stays below B keys because
      neither part could spare a key (2 * kMinKeys < B). */
  lemma {:induction false} MergeSpec<V>(p: Node<V>, ci: nat, ki: nat, B: int)
    requires B >= 2 && Shaped(p, 1) && Small(p, B) && Ordered(p) && |p.keys| > MinKeys(B)
    requires ci < |p.children| && ki < |p.children[ci].keys| && |p.children[ci].keys| <= MinKeys(B)
    requires ci > 0 ==> |p.children[ci - 1].keys| <= MinKeys(B)
    requires ci + 1 < |p.children| ==> |p.children[ci + 1].keys| <= MinKeys(B)
    requires forall j :: 0 <= j < |p.children| ==> Shaped(p.children[j], 0) && |p.children[j].values| == |p.children[j].keys|
    ensures ci == 0 ==> |p.children| > 1
    ensures var r := MergeChildWithSibling(p, ci, ki);
      && Shaped(r, 1) && Small(r, B) && Ordered(r)
      && Flat(r) == Drop(Flat(p), p.children[ci].keys[ki])
  {
    var cs, es := p.children, Es(p);
    var c := cs[ci];
    var c' := EraseEntry(c, ki);
    if ci > 0 {
      var LP, RP := MergeLeftWalk(p, ci, ki);
      FuseSmall(p, ci, Join(cs[ci - 1], p.keys[ci - 1], p.values[ci - 1], c'), B);
      LeftMerged(LP, Es(cs[ci - 1]), es[ci - 1], Es(c), ki, RP);
    } else {
      var LP, RP := MergeRightWalk(p, ki);
      FuseSmall(p, 1, Join(c', p.keys[0], p.values[0], cs[1]), B);
      RightMerged(LP, Es(c), ki, es[0], Es(cs[1]), RP);
    }
  }

  /** deleteFromInternalChild(childIdx, keyIdx), also the last resort of
      deleteFromLeafChild: the child's value at keyIdx is cleared, and the
      tombstone count grows when there was a value. */
  function DeleteFromInternalChild<V>(p: Node<V>, ci: nat, ki: nat, B: int, ghost h: nat): (r: Deleted<V>)
    requires Shaped(p, h) && h > 0 && Small(p, B) && Ordered(p)
    requires ci < |p.children| && ki < |p.children[ci].keys|
    ensures Shaped(r.node, h) && Small(r.node, B) && Ordered(r.node)
    ensures var k := p.children[ci].keys[ki];
      && Flat(r.node) == Clear(Flat(p), k)
      && r.bump == if Find(Flat(p), k).Some? then 1 else 0
  {
    var c := p.children[ci];
    ChildShaped(p, h, ci);
    TombstoneSpec(p, h, ci, ki, B);
    Deleted(p.(children := p.children[ci := c.(values := c.values[ki := None])]), if c.values[ki].Some? then 1 else 0)
  }

  lemma Regroup<T>(L: seq<T>, a: seq<T>, x: seq<T>, b: seq<T>, R: seq<T>)
    ensures L + (a + x + b) + R == (L + a) + x + (b + R)
  {
  }

  /** The walks before and after clearing the child's value at ki. */
  lemma {:induction false} TombstoneWalk<V>(p: Node<V>, h: nat, ci: nat, ki: nat) returns (P: seq<Entry<V>>, S: seq<Entry<V>>)
    requires Shaped(p, h) && h > 0
    requires ci < |p.children| && ki < |p.children[ci].keys| == |p.children[ci].values|
    ensures var c := p.children[ci];
      var r := p.(children := p.children[ci := c.(values := c.values[ki := None])]);
      && Shaped(r, h)
      && Flat(p) == P + [Entry(c.keys[ki], c.values[ki])] + S
      && Flat(r) == P + [Entry(c.keys[ki], None)] + S
  {
    var c := p.children[ci];
    var c' := c.(values := c.values[ki := None]);
    assert Shaped(c, h - 1);
    var a, b := EntrySplit(c, h - 1, ki, None);
    ReplaceChild(p, h, ci, c');
    Around(p, h, ci);
    var L, R := LeftPart(p.children[..ci], Es(p)[..ci]), RightPart(Es(p)[ci..], p.children[ci + 1..]);
    P, S := L + a, b + R;
    var x, x' := Entry(c.keys[ki], c.values[ki]), Entry(c.keys[ki], None);
    assert Es(c)[ki] == x;
    calc {
      Flat(p);
      L + Flat(c) + R;
      L + (a + [x] + b) + R;
      { Regroup(L, a, [x], b, R); }
      P + [x] + S;
    }
    calc {
      Flat(p.(children := p.children[ci := c']));
      L + Flat(c') + R;
      L + (a + [x'] + b) + R;
      { Regroup(L, a, [x'], b, R); }
      P + [x'] + S;
    }
  }

  lemma {:induction false} TombstoneSpec<V>(p: Node<V>, h: nat, ci: nat, ki: nat, B: int)
    requires Shaped(p, h) && h > 0 && Small(p, B) && Ordered(p)
    requires ci < |p.children| && ki < |p.children[ci].keys| == |p.children[ci].values|
    ensures var c := p.children[ci]; var k := c.keys[ki];
      var r := p.(children := p.children[ci := c.(values := c.values[ki := None])]);
      && Shaped(r, h) && Small(r, B) && Ordered(r)
      && Flat(r) == Clear(Flat(p), k) && Find(Flat(p), k) == c.values[ki]
  {
    var c := p.children[ci];
    var c' := c.(values := c.values[ki := None]);
    var r := p.(children := p.children[ci := c']);
    var P, S := TombstoneWalk(p, h, ci, ki);
    Replace1(p.children, ci, c', x => Small(x, B), r.children);
    ClearAround(P, Entry(c.keys[ki], c.values[ki]), S);
  }

  /** deleteFromLeafChild(childIdx, keyIdx): erase when the leaf can spare
      a key, else borrow, else merge when this node can spare a key, else
      leave a tombstone. */
  function DeleteFromLeafChild<V>(p: Node<V>, ci: nat, ki: nat, B: int, ghost h: nat): (r: Deleted<V>)
    requires B >= 2 && Shaped(p, h) && h > 0 && Small(p, B) && Ordered(p)
    requires ci < |p.children| && IsLeaf(p.children[ci]) && ki < |p.children[ci].keys|
    ensures Shaped(r.node, h) && Small(r.node, B) && Ordered(r.node)
    ensures Removed(Flat(p), Flat(r.node), p.children[ci].keys[ki], r.bump)
  {
    var c := p.children[ci];
    LeafLevel(p, h, ci);
    if |c.keys| > MinKeys(B) then
      ChildShaped(p, h, ci);
      EraseSpec(p, h, ci, ki, B);
      Deleted(p.(children := p.children[ci := EraseEntry(c, ki)]), 0)
    else
      match AttemptKeyBorrowing(p, ci, ki, B, h)
      case Some(q) => Deleted(q, 0)
      case None =>
        if |p.keys| > MinKeys(B) then
          MergeSpec(p, ci, ki, B);
          Deleted(MergeChildWithSibling(p, ci, ki), 0)
        else
          DeleteFromInternalChild(p, ci, ki, B, h)
  }

  /** deleteFromChild(childIdx, keyIdx): the leaf and inner cases. */
  function DeleteFromChild<V>(p: Node<V>, ci: nat, ki: nat, B: int, ghost h: nat): (r: Deleted<V>)
    requires B >= 2 && Shaped(p, h) && h > 0 && Small(p, B) && Ordered(p)
    requires ci < |p.children| && ki < |p.children[ci].keys|
    ensures Shaped(r.node, h) && Small(r.node, B) && Ordered(r.node)
    ensures Removed(Flat(p), Flat(r.node), p.children[ci].keys[ki], r.bump)
  {
    if IsLeaf(p.children[ci]) then DeleteFromLeafChild(p, ci, ki, B, h) else DeleteFromInternalChild(p, ci, ki, B, h)
  }

  /** deleteKey(key, parent, prevIdx) on child ci of p, for a key that p
      does not own and whose range child ci covers: a child that owns the
      key has p delete it; an inner child passes the key down; a leaf that
      does not own it leaves everything as it was. */
  function DeleteIn<V>(p: Node<V>, ci: nat, key: int, B: int, ghost h: nat): (r: Deleted<V>)
    requires B >= 2 && Shaped(p, h) && h > 0 && Small(p, B) && Ordered(p)
    requires !OwnsKey(p.keys, key).0 && ci == OwnsKey(p.keys, key).1
    ensures Shaped(r.node, h) && Small(r.node, B) && Ordered(r.node)
    ensures Removed(Flat(p), Flat(r.node), key, r.bump)
    ensures key !in KeySet(Flat(p)) ==> r == Deleted(p, 0)
    decreases p.children[ci]
  {
    var c := p.children[ci];
    var (owns, idx) := OwnsKey(c.keys, key);
    if owns then
      OwnedBelow(p, h, ci, idx);
      DeleteFromChild(p, ci, idx, B, h)
    else if !IsLeaf(c) then
      ChildOk(p, h, key, B);
      var inner := DeleteIn(c, idx, key, B, h - 1);
      DeleteBelow(p, h, key, B, inner);
      Deleted(p.(children := p.children[ci := inner.node]), inner.bump)
    else
      MissingBelow(p, h, key);
      Deleted(p, 0)
  }

  /** The child that ownsKey names is shaped, small and ordered. */
  lemma {:induction false} ChildOk<V>(p: Node<V>, h: nat, key: int, B: int)
    requires Shaped(p, h) && h > 0 && Small(p, B) && Ordered(p) && !OwnsKey(p.keys, key).0
    ensures var c := p.children[OwnsKey(p.keys, key).1];
      Shaped(c, h - 1) && Small(c, B) && Ordered(c) && (h - 1 > 0 <==> !IsLeaf(c))
  {
    var a, rest := Descend(p, h, key);
    var c := p.children[OwnsKey(p.keys, key).1];
    assert Shaped(c, h - 1);
  }

  /** A key a child owns is in the parent's walk. */
  lemma {:induction false} OwnedBelow<V>(p: Node<V>, h: nat, ci: int, ki: int)
    requires Shaped(p, h) && h > 0 && 0 <= ci < |p.children| && 0 <= ki < |p.children[ci].keys|
    ensures p.children[ci].keys[ki] in KeySet(Flat(p))
  {
    Around(p, h, ci);
    EntryInFlat(p.children[ci], h - 1, ki);
    var L, R := LeftPart(p.children[..ci], Es(p)[..ci]), RightPart(Es(p)[ci..], p.children[ci + 1..]);
    KeySetCat(L + Flat(p.children[ci]), R);
    KeySetCat(L, Flat(p.children[ci]));
  }

  /** A leaf child that does not own key: key is nowhere in p's walk. */
  lemma {:induction false} MissingBelow<V>(p: Node<V>, h: nat, key: int)
    requires Shaped(p, h) && h > 0 && Ordered(p) && !OwnsKey(p.keys, key).0
    requires var c := p.children[OwnsKey(p.keys, key).1]; IsLeaf(c) && !OwnsKey(c.keys, key).0
    ensures key !in KeySet(Flat(p)) && Removed(Flat(p), Flat(p), key, 0)
  {
    var c := p.children[OwnsKey(p.keys, key).1];
    var a, rest := Descend(p, h, key);
    assert Shaped(c, h - 1);
    LeafLevel(p, h, OwnsKey(p.keys, key).1);
    LeafAbsent(c, key);
    KeySetCat(a + Flat(c), rest);
    KeySetCat(a, Flat(c));
    BelowKeys(a, key);
    AboveKeys(rest, key);
    DropAbsent(Flat(p), key);
  }

  /** The child's walk loses key as deleteKey promised, and the parent's
      walk loses it in the same way. */
  lemma {:induction false} DeleteBelow<V>(p: Node<V>, h: nat, key: int, B: int, inner: Deleted<V>)
    requires Shaped(p, h) && h > 0 && Small(p, B) && Ordered(p) && !OwnsKey(p.keys, key).0
    requires var c := p.children[OwnsKey(p.keys, key).1];
      && Shaped(inner.node, h - 1) && Small(inner.node, B) && Ordered(inner.node)
      && Removed(Flat(c), Flat(inner.node), key, inner.bump)
      && (key !in KeySet(Flat(c)) ==> inner == Deleted(c, 0))
    ensures var ci := OwnsKey(p.keys, key).1; var r := p.(children := p.children[ci := inner.node]);
      && Shaped(r, h) && Small(r, B) && Ordered(r)
      && Removed(Flat(p), Flat(r), key, inner.bump)
      && (key !in KeySet(Flat(p)) ==> r == p && inner.bump == 0)
  {
    var ci := OwnsKey(p.keys, key).1;
    var c := p.children[ci];
    var r := p.(children := p.children[ci := inner.node]);
    var a, rest := Descend(p, h, key);
    ReplaceChild(p, h, ci, inner.node);
    Replace1(p.children, ci, inner.node, x => Small(x, B), r.children);
    assert Flat(r) == a + Flat(inner.node) + rest;
    KeySetCat(a + Flat(c), rest);
    KeySetCat(a, Flat(c));
    if Flat(inner.node) == Drop(Flat(c), key) && inner.bump == 0 {
      DropMiddle(a, Flat(c), rest, key);
    } else {
      ClearMiddle(a, Flat(c), rest, key);
      FindMiddle(a, Flat(c), rest, key);
    }
    SortedSame(Flat(p), Flat(r), key, inner.bump);
  }

  /** Whatever Removed allows keeps sorted entries sorted. */
  lemma {:induction false} SortedSame<V>(before: seq<Entry<V>>, after: seq<Entry<V>>, k: int, bump: nat)
    requires Sorted(before) && Removed(before, after, k, bump)
    ensures Sorted(after)
  {
    if after == Drop(before, k) {
      DropSorted(before, k);
    } else {
      ClearSorted(before, k);
    }
  }
}
