/** trees/btree.hh, the BTree class that clients use: it owns the root
    node, splits the root when it fills up, turns a deletion the root owns
    into a tombstone and counts tombstones. Its abstract value is the map
    from every key with a present value to that value, read off the
    in-order walk of the tree. */
module BTreeMap {
  import opened Common
  import opened BTreeEntries
  import opened BTreeNode
  import opened BTreeInsert
  import opened BTreeDelete

  /** A key is live in a walk exactly when Find gives it a value. */
  lemma {:induction false} LiveFind<V>(es: seq<Entry<V>>, k: int)
    ensures k in Live(es) <==> Find(es, k).Some?
    ensures k in Live(es) ==> Live(es)[k] == Find(es, k).value
  {
    if k !in KeySet(es) {
      FindAbsent(es, k);
    }
  }

  /** A full root, pushed under a new empty root and split there: the
      tree grows one level and the walk stays as it was. */
  lemma {:induction false} SplitRootSpec<V>(r: Node<V>, h: nat, B: int)
    requires B >= 2 && Shaped(r, h) && Fits(r, B) && Ordered(r) && |r.keys| >= B
    ensures Full(r, B)
    ensures var t := SplitChild(Node([], [], [r]), r.keys[B / 2], r.values[B / 2], B);
      Shaped(t, h + 1) && Small(t, B) && Flat(t) == Flat(r) && Ordered(t) && |t.keys| == 1
  {
    var p: Node<V> := Node([], [], [r]);
    assert OwnsKey(p.keys, r.keys[B / 2]).1 == 0;
    assert Shaped(p, h + 1);
    assert Es(p) == [];
    SplitChildSpec(p, h + 1, r.keys[B / 2], r.values[B / 2], B);
  }

  /** The new root splitRoot() builds over a full root r of height h. */
  function GrowRoot<V>(r: Node<V>, ghost h: nat, B: int): (t: Node<V>)
    requires B >= 2 && Shaped(r, h) && Fits(r, B) && Ordered(r) && |r.keys| >= B
    ensures Shaped(t, h + 1) && Small(t, B) && Ordered(t) && Flat(t) == Flat(r)
  {
    SplitRootSpec(r, h, B);
    SplitChild(Node([], [], [r]), r.keys[B / 2], r.values[B / 2], B)
  }

  /** The root's own entry idx, cleared: the walk is cleared at that key
      and the cleared value is the one the walk stored. */
  lemma {:induction false} RootTombstone<V>(n: Node<V>, h: nat, idx: nat, B: int)
    requires Shaped(n, h) && Small(n, B) && Ordered(n) && idx < |n.keys|
    ensures var n' := n.(values := n.values[idx := None]);
      && Shaped(n', h) && Small(n', B) && Ordered(n')
      && Flat(n') == Clear(Flat(n), n.keys[idx]) && Find(Flat(n), n.keys[idx]) == n.values[idx]
  {
    var a, b := EntrySplit(n, h, idx, None);
    assert Es(n)[idx] == Entry(n.keys[idx], n.values[idx]);
    ClearAround(a, Es(n)[idx], b);
  }

  /** Deleting a key the walk does not hold changes nothing. */
  lemma {:induction false} RemovedAbsent<V>(es: seq<Entry<V>>, k: int)
    requires k !in KeySet(es)
    ensures Removed(es, es, k, 0)
  {
    DropAbsent(es, k);
  }

  /** What Removed means for the stored keys and the live map. */
  lemma {:induction false} RemovedLive<V>(before: seq<Entry<V>>, after: seq<Entry<V>>, k: int, bump: nat)
    requires Removed(before, after, k, bump)
    ensures Live(after) == Live(before) - {k}
    ensures KeySet(after) == KeySet(before) - {k} || KeySet(after) == KeySet(before)
    ensures bump == 1 ==> k in Live(before)
  {
    if after == Drop(before, k) && bump == 0 {
      LiveDrop(before, k);
      DropKeys(before, k);
    } else {
      LiveClear(before, k);
      ClearKeys(before, k);
      LiveFind(before, k);
    }
  }

  class BTree<V> {
    /** The template parameter B: nodes hold fewer than B keys at rest. */
    const B: int
    var root: Node<V>
    /** tombstones_: how many present values deletion has cleared. */
    var tombstones: nat
    /** The depth of every leaf. */
    ghost var height: nat

    ghost predicate Valid()
      reads this
    {
      B >= 2 && Shaped(root, height) && Small(root, B) && Ordered(root)
    }

    /** The abstract value: each key with a present value, mapped to it. */
    ghost function Contents(): map<int, V>
      reads this
    {
      Live(Flat(root))
    }

    /** Every key the tree stores, tombstones included. */
    ghost function Stored(): set<int>
      reads this
    {
      KeySet(Flat(root))
    }

    /** BTree(): an empty leaf as the root and no tombstones. */
    constructor(B: int)
      requires B >= 2
      ensures Valid() && this.B == B
      ensures Contents() == map[] && Stored() == {} && tombstones == 0
    {
      this.B := B;
      root := Node([], [], []);
      tombstones := 0;
      height := 0;
    }

    /** contains(key): whether the key has a present value. */
    function Contains(key: int): (b: bool)
      reads this
      requires Valid()
      ensures b <==> key in Contents()
    {
      ContainsValue(root, height, key);
      ValueFind(root, height, key);
      LiveFind(Flat(root), key);
      BTreeNode.Contains(root, key, height)
    }

    /** value(key): the key's value, or empty when it has none. */
    function Value(key: int): (r: Option<V>)
      reads this
      requires Valid()
      ensures r.Some? <==> key in Contents()
      ensures r.Some? ==> r.value == Contents()[key]
    {
      ValueFind(root, height, key);
      LiveFind(Flat(root), key);
      BTreeNode.Value(root, key, height)
    }

    /** tombstones() */
    function Tombstones(): (n: int)
      reads this
      ensures n >= 0
    {
      tombstones
    }

    /** insert(key, value): the key now maps to the value, whatever it
        held before; a root left holding B keys is split. */
    method Insert(key: int, value: V)
      requires Valid()
      modifies this
      ensures Valid() && tombstones == old(tombstones)
      ensures Contents() == old(Contents())[key := value]
      ensures Stored() == old(Stored()) + {key}
      ensures Flat(root) == Put(old(Flat(root)), key, Some(value))
    {
      var r := BTreeInsert.Insert(root, key, value, B, height);
      LivePut(Flat(root), key, value);
      PutKeys(Flat(root), key, Some(value));
      PutSorted(Flat(root), key, Some(value));
      root := r;
      if |r.keys| >= B {
        SplitRoot();
      }
    }

    /** splitRoot(): the full root moves under a new root, which splits
        it and takes its middle key. */
    method SplitRoot()
      requires B >= 2 && Shaped(root, height) && Fits(root, B) && Ordered(root) && |root.keys| >= B
      modifies this`root, this`height
      ensures Valid() && Flat(root) == old(Flat(root)) && height == old(height) + 1
    {
      var temp := root;
      var t := GrowRoot(temp, height, B);
      root, height := t, height + 1;
    }

    /** deleteKey(key): the key loses its value. A key the root owns
        becomes a tombstone there; otherwise the deletion is handed to the
        child whose range holds the key, with the root as its parent. */
    method DeleteKey(key: int)
      requires Valid()
      modifies this
      ensures Valid()
      ensures Contents() == old(Contents()) - {key}
      ensures Stored() == old(Stored()) - {key} || Stored() == old(Stored())
      ensures tombstones >= old(tombstones)
      ensures Removed(old(Flat(root)), Flat(root), key, tombstones - old(tombstones))
      ensures tombstones == old(tombstones) + 1 <==> key in old(Contents()) && key in Stored()
      ensures key !in old(Stored()) ==> root == old(root) && tombstones == old(tombstones)
    {
      ghost var before := Flat(root);
      var (owns, idx) := OwnsKey(root.keys, key);
      if owns {
        EntryInFlat(root, height, idx);
        DeleteFromRoot(idx);
      } else if !IsLeaf(root) {
        var d := DeleteIn(root, idx, key, B, height);
        root := d.node;
        tombstones := tombstones + d.bump;
      } else {
        LeafAbsent(root, key);
        RemovedAbsent(before, key);
      }
      RemovedLive(before, Flat(root), key, tombstones - old(tombstones));
      RemovedKept(before, Flat(root), key, tombstones - old(tombstones));
    }

    /** deleteFromRoot(keyIdx): the root's value at keyIdx is cleared, and
        the count grows when there was a value. */
    method DeleteFromRoot(idx: nat)
      requires Valid() && idx < |root.keys|
      modifies this`root, this`tombstones
      ensures Valid()
      ensures tombstones >= old(tombstones)
      ensures Flat(root) == Clear(old(Flat(root)), old(root.keys[idx]))
      ensures tombstones - old(tombstones) == if Find(old(Flat(root)), old(root.keys[idx])).Some? then 1 else 0
    {
      RootTombstone(root, height, idx, B);
      var bump := if root.values[idx].Some? then 1 else 0;
      root := root.(values := root.values[idx := None]);
      tombstones := tombstones + bump;
    }
  }

  /** The count grows by one exactly when the key had a value and stays
      stored as a tombstone. */
  lemma {:induction false} RemovedKept<V>(before: seq<Entry<V>>, after: seq<Entry<V>>, k: int, bump: nat)
    requires Removed(before, after, k, bump)
    ensures bump == 1 <==> k in Live(before) && k in KeySet(after)
  {
    LiveFind(before, k);
    if after == Drop(before, k) && bump == 0 {
      DropKeys(before, k);
    } else {
      ClearKeys(before, k);
      if k in Live(before) {
        assert k in KeySet(before);
      }
    }
  }

  /** testBasic: five insertions into a tree with B = 4, then lookups. */
  method TestBasic() returns (val4: Option<int>, contains8: bool, contains6: bool)
    ensures val4 == Some(104) && contains8 && !contains6
  {
    var t := BasicTree();
    val4 := t.Value(4);
    contains8 := t.Contains(8);
    contains6 := t.Contains(6);
  }

  /** The five insertions of testBasic. */
  method BasicTree() returns (t: BTree<int>)
    ensures t.Valid() && t.Contents() == map[1 := 101, 5 := 105, 8 := 108, 4 := 104, 7 := 107]
  {
    t := new BTree<int>(4);
    t.Insert(1, 101);
    t.Insert(5, 105);
    t.Insert(8, 108);
    t.Insert(4, 104);
    t.Insert(7, 107);
  }

  /** The keys testDoubleSplit inserts, in order. */
  const DOUBLE_SPLIT_KEYS: seq<int> := [100, 200, 300, 400, 150, 125, 140, 130, 120, 110]

  /** testDoubleSplit: ten insertions that split a leaf and then the root
      again; every key is found, with its value. */
  method TestDoubleSplit() returns (found: seq<bool>, vals: seq<Option<int>>)
    ensures |found| == |vals| == |DOUBLE_SPLIT_KEYS|
    ensures forall j :: 0 <= j < |found| ==> found[j] && vals[j] == Some(DOUBLE_SPLIT_KEYS[j] + 100)
  {
    var t := DoubleSplitTree(DOUBLE_SPLIT_KEYS);
    found, vals := LookUpAll(t, DOUBLE_SPLIT_KEYS);
  }

  /** The lookups of testDoubleSplit: contains and value for each key. */
  method LookUpAll(t: BTree<int>, vec: seq<int>) returns (found: seq<bool>, vals: seq<Option<int>>)
    requires t.Valid()
    requires forall k :: k in t.Contents() ==> t.Contents()[k] == k + 100
    requires forall j :: 0 <= j < |vec| ==> vec[j] in t.Contents()
    ensures |found| == |vals| == |vec|
    ensures forall j :: 0 <= j < |vec| ==> found[j] && vals[j] == Some(vec[j] + 100)
  {
    var i := 0;
    found, vals := [], [];
    while i < |vec|
      invariant 0 <= i <= |vec| && |found| == |vals| == i
      invariant forall j :: 0 <= j < i ==> found[j] && vals[j] == Some(vec[j] + 100)
    {
      var has := t.Contains(vec[i]);
      var val := t.Value(vec[i]);
      found, vals := found + [has], vals + [val];
      i := i + 1;
    }
  }

  /** The insertions of testDoubleSplit: each key v maps to v + 100. */
  method DoubleSplitTree(vec: seq<int>) returns (t: BTree<int>)
    ensures t.Valid()
    ensures forall k :: k in t.Contents() ==> t.Contents()[k] == k + 100
    ensures forall j :: 0 <= j < |vec| ==> vec[j] in t.Contents()
  {
    t := new BTree<int>(4);
    var i := 0;
    while i < |vec|
      invariant 0 <= i <= |vec| && t.Valid() && t.B == 4
      invariant forall k :: k in t.Contents() ==> t.Contents()[k] == k + 100
      invariant forall j :: 0 <= j < i ==> vec[j] in t.Contents()
    {
      t.Insert(vec[i], vec[i] + 100);
      i := i + 1;
    }
  }
}
