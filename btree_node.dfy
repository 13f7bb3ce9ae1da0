/** trees/btree.hh, BTreeNode: a node holds sorted keys_, their values_
    (an empty value marks a tombstone) and, unless it is a leaf, one more
    child than keys. Nodes live by value inside their parent's children_
    vector, so a node is modelled as a datatype value and each in-place
    update as a function returning the updated node. The in-order walk of
    a node (Flat) is its abstract value. */
module BTreeNode {
  import opened Common
  import opened BTreeEntries

  datatype Node<V> = Node(keys: seq<int>, values: seq<Option<V>>, children: seq<Node<V>>)

  /** isLeaf(): no children. */
  predicate IsLeaf<V>(n: Node<V>)
  {
    |n.children| == 0
  }

  /** The node's own entries, keys_ and values_ side by side. */
  function Es<V>(n: Node<V>): seq<Entry<V>>
  {
    Zip(n.keys, n.values)
  }

  /** Every node has as many values as keys, every leaf lies at depth h
      and every inner node has one more child than keys (invariant 2 of
      the header comment). */
  ghost predicate Shaped<V>(n: Node<V>, h: nat)
    decreases n
  {
    && |n.values| == |n.keys|
    && if h == 0 then |n.children| == 0
       else |n.children| == |n.keys| + 1 && forall i :: 0 <= i < |n.children| ==> Shaped(n.children[i], h - 1)
  }

  /** Every node holds fewer than B keys (invariant 3 at rest). */
  ghost predicate Small<V>(n: Node<V>, B: int)
    decreases n
  {
    |n.keys| < B && forall i :: 0 <= i < |n.children| ==> Small(n.children[i], B)
  }

  /** A node that may have just become full: at most B keys, its
      children all below B. */
  ghost predicate Fits<V>(n: Node<V>, B: int)
  {
    |n.keys| <= B && forall i :: 0 <= i < |n.children| ==> Small(n.children[i], B)
  }

  /** The in-order walk: child 0, key 0, child 1, ..., the last child. */
  ghost function Flat<V>(n: Node<V>): seq<Entry<V>>
    decreases n
  {
    if |n.children| == 0 then Es(n) else Weave(n.children, Es(n))
  }

  ghost function Weave<V>(cs: seq<Node<V>>, es: seq<Entry<V>>): seq<Entry<V>>
    decreases cs
  {
    if |cs| == 0 then []
    else if |es| == 0 then Flat(cs[0])
    else Flat(cs[0]) + [es[0]] + Weave(cs[1..], es[1..])
  }

  /** The walk over the children and keys to the left of a child. */
  ghost function LeftPart<V>(cs: seq<Node<V>>, es: seq<Entry<V>>): seq<Entry<V>>
    requires |cs| == |es|
  {
    if |es| == 0 then [] else Weave(cs, es[..|es| - 1]) + [es[|es| - 1]]
  }

  /** The walk over the keys and children to the right of a child. */
  ghost function RightPart<V>(es: seq<Entry<V>>, cs: seq<Node<V>>): seq<Entry<V>>
    requires |es| == |cs|
  {
    if |es| == 0 then [] else [es[0]] + Weave(cs, es[1..])
  }

  /** The walk of a node the search tree orders. */
  ghost predicate Ordered<V>(n: Node<V>)
  {
    Sorted(Flat(n))
  }

  lemma {:induction false} WeaveCat<V>(cs1: seq<Node<V>>, es1: seq<Entry<V>>, e: Entry<V>, cs2: seq<Node<V>>, es2: seq<Entry<V>>)
    requires |cs1| == |es1| + 1 && |cs2| == |es2| + 1
    ensures Weave(cs1 + cs2, es1 + [e] + es2) == Weave(cs1, es1) + [e] + Weave(cs2, es2)
    decreases |es1|
  {
    var cs, es := cs1 + cs2, es1 + [e] + es2;
    assert cs[0] == cs1[0] && es[0] == (if |es1| == 0 then e else es1[0]);
    if |es1| == 0 {
      assert cs[1..] == cs2 && es[1..] == es2;
    } else {
      assert cs[1..] == cs1[1..] + cs2 && es[1..] == es1[1..] + [e] + es2;
      WeaveCat(cs1[1..], es1[1..], e, cs2, es2);
    }
  }

  /** The walk from a first child on. */
  lemma {:induction false} RebuildHead<V>(c: Node<V>, esB: seq<Entry<V>>, csB: seq<Node<V>>)
    requires |esB| == |csB|
    ensures Weave([c] + csB, esB) == Flat(c) + RightPart(esB, csB)
  {
    var cs := [c] + csB;
    assert cs[0] == c;
    if |esB| > 0 {
      assert cs[1..] == csB;
    }
  }

  /** The walk around one child, whatever the parts to either side. */
  lemma {:induction false} Rebuild<V>(csA: seq<Node<V>>, esA: seq<Entry<V>>, c: Node<V>, esB: seq<Entry<V>>, csB: seq<Node<V>>)
    requires |csA| == |esA| && |esB| == |csB|
    ensures Weave(csA + [c] + csB, esA + esB) == LeftPart(csA, esA) + Flat(c) + RightPart(esB, csB)
  {
    var k := |esA|;
    var tail := [c] + csB;
    RebuildHead(c, esB, csB);
    if k == 0 {
      assert csA + [c] + csB == tail && esA + esB == esB;
    } else {
      var es1, e := esA[..k - 1], esA[k - 1];
      assert csA + [c] + csB == csA + tail;
      assert esA + esB == es1 + [e] + esB;
      WeaveCat(csA, es1, e, tail, esB);
      assert LeftPart(csA, esA) == Weave(csA, es1) + [e];
    }
  }

  /** The walk around two neighbouring children and the key between them. */
  lemma {:induction false} Rebuild2<V>(csA: seq<Node<V>>, esA: seq<Entry<V>>, c1: Node<V>, e: Entry<V>, c2: Node<V>,
                    esB: seq<Entry<V>>, csB: seq<Node<V>>)
    requires |csA| == |esA| && |esB| == |csB|
    ensures Weave(csA + [c1, c2] + csB, esA + [e] + esB)
         == LeftPart(csA, esA) + Flat(c1) + [e] + Flat(c2) + RightPart(esB, csB)
  {
    assert csA + [c1, c2] + csB == (csA + [c1]) + [c2] + csB;
    assert esA + [e] + esB == (esA + [e]) + esB;
    Rebuild(csA + [c1], esA + [e], c2, esB, csB);
    assert (esA + [e])[..|esA|] == esA;
    Rebuild(csA, esA, c1, [], []);
    assert csA + [c1] + [] == csA + [c1] && esA + [] == esA;
  }

  /** An inner node's walk, split around its child i. */
  lemma {:induction false} Around<V>(n: Node<V>, h: nat, i: int)
    requires Shaped(n, h) && h > 0 && 0 <= i < |n.children|
    ensures Flat(n) == LeftPart(n.children[..i], Es(n)[..i]) + Flat(n.children[i]) + RightPart(Es(n)[i..], n.children[i + 1..])
  {
    var cs, es := n.children, Es(n);
    assert cs == cs[..i] + [cs[i]] + cs[i + 1..] && es == es[..i] + es[i..];
    Rebuild(cs[..i], es[..i], cs[i], es[i..], cs[i + 1..]);
  }

  /** A property every child has survives replacing child i by a node
      that has it. */
  lemma {:induction false} Replace1<V>(cs: seq<Node<V>>, i: int, c: Node<V>, P: Node<V> -> bool, ds: seq<Node<V>>)
    requires 0 <= i < |cs| && P(c) && ds == cs[i := c]
    requires forall j :: 0 <= j < |cs| && j != i ==> P(cs[j])
    ensures forall j :: 0 <= j < |ds| ==> P(ds[j])
  {
  }

  /** Replacing child i of an inner node by a node of the same height keeps
      the node's shape and changes its walk only in that child's place. */
  lemma {:induction false} ReplaceChild<V>(n: Node<V>, h: nat, i: int, c: Node<V>)
    requires Shaped(n, h) && h > 0 && 0 <= i < |n.children| && Shaped(c, h - 1)
    ensures var n' := n.(children := n.children[i := c]);
      && Shaped(n', h)
      && Flat(n') == LeftPart(n.children[..i], Es(n)[..i]) + Flat(c) + RightPart(Es(n)[i..], n.children[i + 1..])
  {
    var n' := n.(children := n.children[i := c]);
    Replace1(n.children, i, c, x => Shaped(x, h - 1), n'.children);
    Around(n', h, i);
    assert n'.children[..i] == n.children[..i] && n'.children[i + 1..] == n.children[i + 1..];
  }

  /** A node's walk, split around its own entry i; clearing or replacing
      that entry's value changes the walk only there. */
  lemma {:induction false} EntrySplit<V>(n: Node<V>, h: nat, i: int, v: Option<V>) returns (a: seq<Entry<V>>, b: seq<Entry<V>>)
    requires Shaped(n, h) && 0 <= i < |n.keys|
    ensures Flat(n) == a + [Es(n)[i]] + b
    ensures Flat(n.(values := n.values[i := v])) == a + [Entry(n.keys[i], v)] + b
  {
    var m := n.(values := n.values[i := v]);
    var es, es' := Es(n), Es(m);
    assert es' == es[i := Entry(n.keys[i], v)];
    if h == 0 {
      a, b := es[..i], es[i + 1..];
      assert es == a + [es[i]] + b;
      assert es' == a + [Entry(n.keys[i], v)] + b;
    } else {
      var cs := n.children;
      assert cs == cs[..i + 1] + cs[i + 1..];
      assert es == es[..i] + [es[i]] + es[i + 1..];
      assert es' == es[..i] + [Entry(n.keys[i], v)] + es[i + 1..];
      WeaveCat(cs[..i + 1], es[..i], es[i], cs[i + 1..], es[i + 1..]);
      WeaveCat(cs[..i + 1], es[..i], Entry(n.keys[i], v), cs[i + 1..], es[i + 1..]);
      a, b := Weave(cs[..i + 1], es[..i]), Weave(cs[i + 1..], es[i + 1..]);
    }
  }

  /** Every key of a node shows up in the walk over its children. */
  lemma {:induction false} WeaveHas<V>(cs: seq<Node<V>>, es: seq<Entry<V>>, j: int)
    requires |cs| == |es| + 1 && 0 <= j < |es|
    ensures es[j] in Weave(cs, es)
    decreases j
  {
    if j > 0 {
      WeaveHas(cs[1..], es[1..], j - 1);
      assert es[1..][j - 1] == es[j];
    }
  }

  lemma {:induction false} LeftHas<V>(cs: seq<Node<V>>, es: seq<Entry<V>>, j: int)
    requires |cs| == |es| && 0 <= j < |es|
    ensures es[j] in LeftPart(cs, es)
  {
    var k := |es| - 1;
    if j < k {
      WeaveHas(cs, es[..k], j);
      assert es[..k][j] == es[j];
    }
  }

  /** std::lower_bound over keys_: the first position whose key is not
      below key. */
  function LowerBound(keys: seq<int>, key: int): (i: nat)
    ensures i <= |keys|
    ensures forall j :: 0 <= j < i ==> keys[j] < key
    ensures i < |keys| ==> key <= keys[i]
  {
    if |keys| == 0 || key <= keys[0] then 0 else 1 + LowerBound(keys[1..], key)
  }

  /** ownsKey(key): whether keys_ holds key, and the position where key is
      or would go, which for an inner node is also the child whose range
      holds key. */
  function OwnsKey(keys: seq<int>, key: int): (r: (bool, nat))
    ensures r.1 <= |keys|
    ensures r.0 ==> r.1 < |keys| && keys[r.1] == key
    ensures !r.0 ==> forall j :: 0 <= j < |keys| && j < r.1 + 1 ==> keys[j] != key
  {
    var i := LowerBound(keys, key);
    (i < |keys| && keys[i] == key, i)
  }

  /** A position with smaller keys before it and a larger key at it is
      where ownsKey places key. */
  lemma {:induction false} OwnsKeyAt(keys: seq<int>, key: int, i: int)
    requires 0 <= i <= |keys|
    requires forall j :: 0 <= j < i ==> keys[j] < key
    requires i < |keys| ==> key < keys[i]
    ensures OwnsKey(keys, key) == (false, i)
  {
  }

  /** Every entry of a node shows up in its walk. */
  lemma {:induction false} EntryInFlat<V>(n: Node<V>, h: nat, i: int)
    requires Shaped(n, h) && 0 <= i < |n.keys|
    ensures n.keys[i] in KeySet(Flat(n))
  {
    var a, b := EntrySplit(n, h, i, n.values[i]);
    KeyIn(a + [Es(n)[i]] + b, |a|);
  }

  /** The parts to either side of the child that ownsKey names lie below
      and above key. */
  lemma {:induction false} Descend<V>(n: Node<V>, h: nat, key: int) returns (a: seq<Entry<V>>, c: seq<Entry<V>>)
    requires Shaped(n, h) && h > 0 && Ordered(n) && !OwnsKey(n.keys, key).0
    ensures var i := OwnsKey(n.keys, key).1;
      && Flat(n) == a + Flat(n.children[i]) + c
      && a == LeftPart(n.children[..i], Es(n)[..i]) && c == RightPart(Es(n)[i..], n.children[i + 1..])
      && AllBelow(a, key) && AllAbove(c, key) && Ordered(n.children[i])
  {
    var i := OwnsKey(n.keys, key).1;
    var cs, es := n.children, Es(n);
    Around(n, h, i);
    a, c := LeftPart(cs[..i], es[..i]), RightPart(es[i..], cs[i + 1..]);
    var f := Flat(cs[i]);
    assert a + f + c == a + (f + c);
    SortedCat(a, f + c);
    SortedCat(f, c);
    SortedCat(a + f, c);
    if i > 0 {
      var w := Weave(cs[..i], es[..i][..i - 1]);
      var last := es[..i][i - 1];
      assert a == w + [last];
      assert last.key == n.keys[i - 1] < key;
      SortedAround(w, last, f + c);
    }
    if i < |es| {
      var w := Weave(cs[i + 1..], es[i..][1..]);
      var first := es[i..][0];
      assert c == [first] + w;
      assert first.key == n.keys[i] && key < first.key;
      assert a + f + c == (a + f) + [first] + w;
      SortedAround(a + f, first, w);
    }
  }

  /** A leaf that does not own key does not hold it. */
  lemma {:induction false} LeafAbsent<V>(n: Node<V>, key: int)
    requires Shaped(n, 0) && Ordered(n) && !OwnsKey(n.keys, key).0
    ensures key !in KeySet(Flat(n))
  {
    var es := Es(n);
    var i := OwnsKey(n.keys, key).1;
    forall j | 0 <= j < |es|
      ensures es[j].key != key
    {
      if j > i {
        assert es[i].key < es[j].key;
      }
    }
    forall e | e in es
      ensures e.key != key
    {
      var j :| 0 <= j < |es| && es[j] == e;
    }
  }

  /** contains(key): the owning node answers whether the key has a value;
      a leaf that does not own it answers false. */
  function Contains<V>(n: Node<V>, key: int, ghost h: nat): bool
    requires Shaped(n, h)
    decreases n
  {
    var (owns, idx) := OwnsKey(n.keys, key);
    if owns then n.values[idx].Some?
    else if IsLeaf(n) then false
    else Contains(n.children[idx], key, h - 1)
  }

  /** value(key): the owning node's value, or empty. */
  function Value<V>(n: Node<V>, key: int, ghost h: nat): Option<V>
    requires Shaped(n, h)
    decreases n
  {
    var (owns, idx) := OwnsKey(n.keys, key);
    if owns then n.values[idx]
    else if IsLeaf(n) then None
    else Value(n.children[idx], key, h - 1)
  }

  /** In an ordered tree, value(key) answers what the walk stores for key. */
  lemma {:induction false} ValueFind<V>(n: Node<V>, h: nat, key: int)
    requires Shaped(n, h) && Ordered(n)
    ensures Value(n, key, h) == Find(Flat(n), key)
    decreases n
  {
    var (owns, idx) := OwnsKey(n.keys, key);
    if owns {
      var a, b := EntrySplit(n, h, idx, n.values[idx]);
      SortedAround(a, Es(n)[idx], b);
      FindHit(a, Es(n)[idx], b);
    } else if IsLeaf(n) {
      LeafAbsent(n, key);
      FindAbsent(Flat(n), key);
    } else {
      var a, c := Descend(n, h, key);
      FindMiddle(a, Flat(n.children[idx]), c, key);
      ValueFind(n.children[idx], h - 1, key);
    }
  }

  /** contains(key) holds exactly when value(key) is not empty. */
  lemma {:induction false} ContainsValue<V>(n: Node<V>, h: nat, key: int)
    requires Shaped(n, h)
    ensures Contains(n, key, h) == Value(n, key, h).Some?
    decreases n
  {
    var (owns, idx) := OwnsKey(n.keys, key);
    if !owns && !IsLeaf(n) {
      ContainsValue(n.children[idx], h - 1, key);
    }
  }
}
