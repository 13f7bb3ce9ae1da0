/** The abstract value of a B-tree: its key/value entries in key order.
    A key whose value was cleared (a tombstone) is still stored but holds
    no value. */
module BTreeEntries {
  import opened Common

  datatype Entry<V> = Entry(key: int, value: Option<V>)

  /** keys_ and values_ read side by side. */
  function Zip<V>(ks: seq<int>, vs: seq<Option<V>>): (es: seq<Entry<V>>)
    ensures |es| == if |ks| < |vs| then |ks| else |vs|
    ensures forall i :: 0 <= i < |es| ==> es[i] == Entry(ks[i], vs[i])
  {
    seq(if |ks| < |vs| then |ks| else |vs|, i requires 0 <= i < |ks| && i < |vs| => Entry(ks[i], vs[i]))
  }

  lemma {:induction false} ZipCat<V>(ks1: seq<int>, vs1: seq<Option<V>>, ks2: seq<int>, vs2: seq<Option<V>>)
    requires |ks1| == |vs1| && |ks2| == |vs2|
    ensures Zip(ks1 + ks2, vs1 + vs2) == Zip(ks1, vs1) + Zip(ks2, vs2)
  {
    assert forall i :: 0 <= i < |ks1| + |ks2| ==> Zip(ks1 + ks2, vs1 + vs2)[i] == (Zip(ks1, vs1) + Zip(ks2, vs2))[i];
  }

  lemma {:induction false} ZipSlice<V>(ks: seq<int>, vs: seq<Option<V>>, a: int, b: int)
    requires |ks| == |vs| && 0 <= a <= b <= |ks|
    ensures Zip(ks[a..b], vs[a..b]) == Zip(ks, vs)[a..b]
  {
  }

  lemma {:induction false} ZipUpdate<V>(ks: seq<int>, vs: seq<Option<V>>, i: int, v: Option<V>)
    requires |ks| == |vs| && 0 <= i < |ks|
    ensures Zip(ks, vs[i := v]) == Zip(ks, vs)[i := Entry(ks[i], v)]
  {
  }

  /** The stored keys, tombstones included. */
  ghost function KeySet<V>(es: seq<Entry<V>>): set<int>
  {
    set e | e in es :: e.key
  }

  /** The value stored under k: empty when k is absent or a tombstone. */
  function Find<V>(es: seq<Entry<V>>, k: int): Option<V>
  {
    if |es| == 0 then None
    else if es[0].key == k then es[0].value
    else Find(es[1..], k)
  }

  /** The live contents: every key that holds a value, with that value. */
  ghost function Live<V>(es: seq<Entry<V>>): map<int, V>
  {
    map k | k in KeySet(es) && Find(es, k).Some? :: Find(es, k).value
  }

  /** Keys strictly increase along the entries. */
  ghost predicate Sorted<V>(es: seq<Entry<V>>)
  {
    forall i, j :: 0 <= i < j < |es| ==> es[i].key < es[j].key
  }

  /** Every key of a is below every key of b. */
  ghost predicate Precedes<V>(a: seq<Entry<V>>, b: seq<Entry<V>>)
  {
    forall i, j :: 0 <= i < |a| && 0 <= j < |b| ==> a[i].key < b[j].key
  }

  ghost predicate AllBelow<V>(es: seq<Entry<V>>, k: int)
  {
    forall i :: 0 <= i < |es| ==> es[i].key < k
  }

  ghost predicate AllAbove<V>(es: seq<Entry<V>>, k: int)
  {
    forall i :: 0 <= i < |es| ==> k < es[i].key
  }

  lemma {:induction false} SortedCat<V>(a: seq<Entry<V>>, b: seq<Entry<V>>)
    ensures Sorted(a + b) <==> Sorted(a) && Sorted(b) && Precedes(a, b)
  {
    if Sorted(a + b) {
      forall i, j | 0 <= i < |a| && 0 <= j < |b|
        ensures a[i].key < b[j].key
      {
        assert (a + b)[i] == a[i] && (a + b)[|a| + j] == b[j];
      }
      forall i, j | 0 <= i < j < |b|
        ensures b[i].key < b[j].key
      {
        assert (a + b)[|a| + i] == b[i] && (a + b)[|a| + j] == b[j];
      }
      forall i, j | 0 <= i < j < |a|
        ensures a[i].key < a[j].key
      {
        assert (a + b)[i] == a[i] && (a + b)[j] == a[j];
      }
    }
  }

  /** In sorted entries, everything before an entry has a smaller key and
      everything after it a larger one. */
  lemma {:induction false} SortedAround<V>(a: seq<Entry<V>>, x: Entry<V>, b: seq<Entry<V>>)
    requires Sorted(a + [x] + b)
    ensures AllBelow(a, x.key) && AllAbove(b, x.key) && Sorted(a) && Sorted(b)
  {
    SortedCat(a + [x], b);
    SortedCat(a, [x]);
    forall i | 0 <= i < |a|
      ensures a[i].key < x.key
    {
      assert [x][0] == x;
    }
    forall i | 0 <= i < |b|
      ensures x.key < b[i].key
    {
      assert (a + [x])[|a|] == x;
    }
  }

  lemma {:induction false} KeyIn<V>(es: seq<Entry<V>>, i: int)
    requires 0 <= i < |es|
    ensures es[i].key in KeySet(es)
  {
    assert es[i] in es;
  }

  lemma {:induction false} KeySetCat<V>(a: seq<Entry<V>>, b: seq<Entry<V>>)
    ensures KeySet(a + b) == KeySet(a) + KeySet(b)
  {
    forall k | k in KeySet(a + b)
      ensures k in KeySet(a) + KeySet(b)
    {
      var e :| e in a + b && e.key == k;
    }
    forall k | k in KeySet(a) + KeySet(b)
      ensures k in KeySet(a + b)
    {
      var e :| (e in a || e in b) && e.key == k;
      assert e in a + b;
    }
  }

  lemma {:induction false} BelowKeys<V>(es: seq<Entry<V>>, k: int)
    requires AllBelow(es, k)
    ensures k !in KeySet(es)
  {
    forall e | e in es
      ensures e.key != k
    {
      var i :| 0 <= i < |es| && es[i] == e;
    }
  }

  lemma {:induction false} AboveKeys<V>(es: seq<Entry<V>>, k: int)
    requires AllAbove(es, k)
    ensures k !in KeySet(es)
  {
    forall e | e in es
      ensures e.key != k
    {
      var i :| 0 <= i < |es| && es[i] == e;
    }
  }

  /** Everything before a part holding k lies below k ... */
  lemma {:induction false} PrecedesBelow<V>(a: seq<Entry<V>>, m: seq<Entry<V>>, k: int)
    requires Precedes(a, m) && k in KeySet(m)
    ensures AllBelow(a, k)
  {
    var e :| e in m && e.key == k;
    var t :| 0 <= t < |m| && m[t] == e;
  }

  /** ... and everything after it above k. */
  lemma {:induction false} PrecedesAbove<V>(m: seq<Entry<V>>, c: seq<Entry<V>>, k: int)
    requires Precedes(m, c) && k in KeySet(m)
    ensures AllAbove(c, k)
  {
    var e :| e in m && e.key == k;
    var t :| 0 <= t < |m| && m[t] == e;
  }

  lemma {:induction false} BelowMember<V>(es: seq<Entry<V>>, x: Entry<V>, k: int)
    requires AllBelow(es, k) && x in es
    ensures x.key < k
  {
    var t :| 0 <= t < |es| && es[t] == x;
  }

  /** Looking a key up in a concatenation: the first part answers when it
      stores the key, the second otherwise. */
  lemma {:induction false} FindCat<V>(a: seq<Entry<V>>, b: seq<Entry<V>>, k: int)
    ensures Find(a + b, k) == if k in KeySet(a) then Find(a, k) else Find(b, k)
  {
    if |a| == 0 {
      assert a + b == b;
    } else {
      assert (a + b)[1..] == a[1..] + b;
      FindCat(a[1..], b, k);
      assert a == [a[0]] + a[1..];
      KeySetCat([a[0]], a[1..]);
    }
  }

  /** A key absent from the entries finds nothing. */
  lemma {:induction false} FindAbsent<V>(es: seq<Entry<V>>, k: int)
    requires k !in KeySet(es)
    ensures Find(es, k) == None
  {
    if |es| > 0 {
      assert es[0] in es;
      assert es == [es[0]] + es[1..];
      KeySetCat([es[0]], es[1..]);
      FindAbsent(es[1..], k);
    }
  }

  /** In sorted entries the entry at position i is the one found for its key. */
  lemma {:induction false} FindAt<V>(es: seq<Entry<V>>, i: int)
    requires Sorted(es) && 0 <= i < |es|
    ensures Find(es, es[i].key) == es[i].value
  {
    var a, b := es[..i], [es[i]] + es[i + 1..];
    assert es == a + b;
    assert AllBelow(a, es[i].key) by {
      forall j | 0 <= j < |a|
        ensures a[j].key < es[i].key
      {
        assert a[j] == es[j];
      }
    }
    BelowKeys(a, es[i].key);
    FindCat(a, b, es[i].key);
  }

  /** Looking up the key of an entry preceded by smaller keys finds it. */
  lemma {:induction false} FindHit<V>(a: seq<Entry<V>>, x: Entry<V>, b: seq<Entry<V>>)
    requires AllBelow(a, x.key)
    ensures Find(a + [x] + b, x.key) == x.value
  {
    BelowKeys(a, x.key);
    assert a + [x] + b == a + ([x] + b);
    FindCat(a, [x] + b, x.key);
  }

  /** Looking up a key between the smaller and the larger keys around a
      middle part looks in that part only. */
  lemma {:induction false} FindMiddle<V>(a: seq<Entry<V>>, m: seq<Entry<V>>, c: seq<Entry<V>>, k: int)
    requires AllBelow(a, k) && AllAbove(c, k)
    ensures Find(a + m + c, k) == Find(m, k)
  {
    BelowKeys(a, k);
    AboveKeys(c, k);
    assert a + m + c == a + (m + c);
    FindCat(a, m + c, k);
    FindCat(m, c, k);
    FindAbsent(c, k);
    if k !in KeySet(m) {
      FindAbsent(m, k);
    }
  }

  /** Put(es, k, v): k's value becomes v; a new k goes in at its sorted
      place. */
  ghost function Put<V>(es: seq<Entry<V>>, k: int, v: Option<V>): seq<Entry<V>>
  {
    if |es| == 0 then [Entry(k, v)]
    else if es[0].key == k then [Entry(k, v)] + es[1..]
    else if k < es[0].key then [Entry(k, v)] + es
    else [es[0]] + Put(es[1..], k, v)
  }

  lemma {:induction false} PutFind<V>(es: seq<Entry<V>>, k: int, v: Option<V>, x: int)
    ensures Find(Put(es, k, v), x) == if x == k then v else Find(es, x)
  {
    if |es| > 0 && es[0].key != k && !(k < es[0].key) {
      PutFind(es[1..], k, v, x);
    }
  }

  lemma {:induction false} PutKeys<V>(es: seq<Entry<V>>, k: int, v: Option<V>)
    ensures KeySet(Put(es, k, v)) == KeySet(es) + {k}
  {
    if |es| == 0 {
      assert Put(es, k, v)[0] in Put(es, k, v);
    } else {
      assert es == [es[0]] + es[1..];
      KeySetCat([es[0]], es[1..]);
      if es[0].key == k {
        KeySetCat([Entry(k, v)], es[1..]);
      } else if k < es[0].key {
        KeySetCat([Entry(k, v)], es);
      } else {
        PutKeys(es[1..], k, v);
        KeySetCat([es[0]], Put(es[1..], k, v));
      }
    }
  }

  /** Sorted entries are a first entry followed by sorted larger ones. */
  lemma {:induction false} SortedCons<V>(x: Entry<V>, rest: seq<Entry<V>>)
    ensures Sorted([x] + rest) <==> AllAbove(rest, x.key) && Sorted(rest)
  {
    var es := [x] + rest;
    assert forall i :: 0 <= i < |rest| ==> es[i + 1] == rest[i];
    if Sorted(es) {
      forall i | 0 <= i < |rest|
        ensures x.key < rest[i].key
      {
        assert es[0] == x && es[i + 1] == rest[i];
      }
      forall i, j | 0 <= i < j < |rest|
        ensures rest[i].key < rest[j].key
      {
        assert es[i + 1] == rest[i] && es[j + 1] == rest[j];
      }
    }
    if AllAbove(rest, x.key) && Sorted(rest) {
      forall i, j | 0 <= i < j < |es|
        ensures es[i].key < es[j].key
      {
        if i > 0 {
          assert es[i] == rest[i - 1];
        }
      }
    }
  }

  lemma {:induction false} PutAbove<V>(es: seq<Entry<V>>, k: int, v: Option<V>, lo: int)
    requires AllAbove(es, lo) && lo < k
    ensures AllAbove(Put(es, k, v), lo)
  {
    if |es| > 0 && es[0].key != k && !(k < es[0].key) {
      PutAbove(es[1..], k, v, lo);
    }
  }

  lemma {:induction false} PutSorted<V>(es: seq<Entry<V>>, k: int, v: Option<V>)
    requires Sorted(es)
    ensures Sorted(Put(es, k, v))
  {
    if |es| > 0 {
      var x, tail := es[0], es[1..];
      assert es == [x] + tail;
      SortedCons(x, tail);
      if x.key == k {
        SortedCons(Entry(k, v), tail);
      } else if k < x.key {
        SortedCons(Entry(k, v), es);
      } else {
        PutSorted(tail, k, v);
        PutAbove(tail, k, v, x.key);
        SortedCons(x, Put(tail, k, v));
      }
    }
  }

  /** Put passes over a prefix of smaller keys ... */
  lemma {:induction false} PutPastBelow<V>(a: seq<Entry<V>>, b: seq<Entry<V>>, k: int, v: Option<V>)
    requires AllBelow(a, k)
    ensures Put(a + b, k, v) == a + Put(b, k, v)
  {
    if |a| > 0 {
      var x, tail := a[0], a[1..];
      assert x.key < k;
      assert AllBelow(tail, k) by {
        assert forall i :: 0 <= i < |tail| ==> tail[i] == a[i + 1];
      }
      calc {
        Put(a + b, k, v);
      == { assert (a + b)[0] == x && (a + b)[1..] == tail + b; }
        [x] + Put(tail + b, k, v);
      == { PutPastBelow(tail, b, k, v); }
        [x] + (tail + Put(b, k, v));
      == { assert a == [x] + tail; }
        a + Put(b, k, v);
      }
    } else {
      assert a + b == b;
    }
  }

  /** ... and leaves a suffix of larger keys alone. */
  lemma {:induction false} PutBeforeAbove<V>(b: seq<Entry<V>>, c: seq<Entry<V>>, k: int, v: Option<V>)
    requires AllAbove(c, k)
    ensures Put(b + c, k, v) == Put(b, k, v) + c
  {
    if |b| == 0 {
      assert b + c == c;
    } else {
      assert (b + c)[0] == b[0] && (b + c)[1..] == b[1..] + c;
      if b[0].key != k && !(k < b[0].key) {
        PutBeforeAbove(b[1..], c, k, v);
      }
    }
  }

  /** Put on the entry that holds the key replaces its value in place. */
  lemma {:induction false} PutHit<V>(a: seq<Entry<V>>, x: Entry<V>, b: seq<Entry<V>>, v: Option<V>)
    requires AllBelow(a, x.key)
    ensures Put(a + [x] + b, x.key, v) == a + [Entry(x.key, v)] + b
  {
    assert a + [x] + b == a + ([x] + b);
    PutPastBelow(a, [x] + b, x.key, v);
    assert ([x] + b)[1..] == b;
  }

  /** Put of a new key between smaller and larger keys inserts it there. */
  lemma {:induction false} PutGap<V>(a: seq<Entry<V>>, b: seq<Entry<V>>, k: int, v: Option<V>)
    requires AllBelow(a, k) && AllAbove(b, k)
    ensures Put(a + b, k, v) == a + [Entry(k, v)] + b
  {
    PutPastBelow(a, b, k, v);
    PutBeforeAbove([], b, k, v);
    assert [] + b == b;
  }

  /** Put confined to a middle part whose neighbours are below and above k. */
  lemma {:induction false} PutMiddle<V>(a: seq<Entry<V>>, m: seq<Entry<V>>, c: seq<Entry<V>>, k: int, v: Option<V>)
    requires AllBelow(a, k) && AllAbove(c, k)
    ensures Put(a + m + c, k, v) == a + Put(m, k, v) + c
  {
    assert a + m + c == a + (m + c);
    PutPastBelow(a, m + c, k, v);
    PutBeforeAbove(m, c, k, v);
  }

  lemma {:induction false} LivePut<V>(es: seq<Entry<V>>, k: int, v: V)
    ensures Live(Put(es, k, Some(v))) == Live(es)[k := v]
  {
    PutKeys(es, k, Some(v));
    forall x
      ensures Find(Put(es, k, Some(v)), x) == if x == k then Some(v) else Find(es, x)
    {
      PutFind(es, k, Some(v), x);
    }
  }

  /** Drop(es, k): the entries without k's. */
  ghost function Drop<V>(es: seq<Entry<V>>, k: int): seq<Entry<V>>
  {
    if |es| == 0 then []
    else (if es[0].key == k then [] else [es[0]]) + Drop(es[1..], k)
  }

  lemma {:induction false} DropCat<V>(a: seq<Entry<V>>, b: seq<Entry<V>>, k: int)
    ensures Drop(a + b, k) == Drop(a, k) + Drop(b, k)
  {
    if |a| == 0 {
      assert a + b == b;
    } else {
      assert (a + b)[0] == a[0] && (a + b)[1..] == a[1..] + b;
      DropCat(a[1..], b, k);
    }
  }

  lemma {:induction false} DropAbsent<V>(es: seq<Entry<V>>, k: int)
    requires k !in KeySet(es)
    ensures Drop(es, k) == es
  {
    if |es| > 0 {
      assert es[0] in es;
      assert es == [es[0]] + es[1..];
      KeySetCat([es[0]], es[1..]);
      DropAbsent(es[1..], k);
    }
  }

  lemma {:induction false} DropFind<V>(es: seq<Entry<V>>, k: int, x: int)
    ensures Find(Drop(es, k), x) == if x == k then None else Find(es, x)
  {
    if |es| > 0 {
      DropFind(es[1..], k, x);
      if es[0].key != k {
        assert Drop(es, k) == [es[0]] + Drop(es[1..], k);
      } else {
        assert Drop(es, k) == Drop(es[1..], k);
      }
    }
  }

  lemma {:induction false} DropKeys<V>(es: seq<Entry<V>>, k: int)
    ensures KeySet(Drop(es, k)) == KeySet(es) - {k}
  {
    if |es| > 0 {
      DropKeys(es[1..], k);
      assert es == [es[0]] + es[1..];
      KeySetCat([es[0]], es[1..]);
      KeySetCat(if es[0].key == k then [] else [es[0]], Drop(es[1..], k));
      assert KeySet([es[0]]) == {es[0].key} by {
        assert es[0] in [es[0]];
      }
      var none: seq<Entry<V>> := [];
      assert KeySet(none) == {};
    }
  }

  lemma {:induction false} DropSorted<V>(es: seq<Entry<V>>, k: int)
    requires Sorted(es)
    ensures Sorted(Drop(es, k))
  {
    if |es| > 0 {
      assert es == [es[0]] + es[1..];
      SortedCat([es[0]], es[1..]);
      DropSorted(es[1..], k);
      if es[0].key != k {
        var rest := Drop(es[1..], k);
        DropKeys(es[1..], k);
        forall j | 0 <= j < |rest|
          ensures es[0].key < rest[j].key
        {
          KeyIn(rest, j);
          var e :| e in es[1..] && e.key == rest[j].key;
        }
        SortedCat([es[0]], rest);
      }
    }
  }

  /** Dropping the one entry with key k from sorted entries. */
  lemma {:induction false} DropHit<V>(a: seq<Entry<V>>, x: Entry<V>, b: seq<Entry<V>>)
    requires AllBelow(a, x.key) && AllAbove(b, x.key)
    ensures Drop(a + [x] + b, x.key) == a + b
  {
    var k := x.key;
    var none: seq<Entry<V>> := [];
    calc {
      Drop(a + [x] + b, k);
    == { DropCat(a + [x], b, k); }
      Drop(a + [x], k) + Drop(b, k);
    == { DropCat(a, [x], k); }
      Drop(a, k) + Drop([x], k) + Drop(b, k);
    == { assert Drop([x], k) == none + Drop(none, k) by { assert [x][1..] == none; } }
      Drop(a, k) + Drop(b, k);
    == { BelowKeys(a, k); DropAbsent(a, k); AboveKeys(b, k); DropAbsent(b, k); }
      a + b;
    }
  }

  /** In sorted entries P + [x] + S, dropping x's key leaves P + S, still
      sorted. */
  lemma {:induction false} DropAround<V>(P: seq<Entry<V>>, x: Entry<V>, S: seq<Entry<V>>)
    requires Sorted(P + [x] + S)
    ensures Drop(P + [x] + S, x.key) == P + S && Sorted(P + S)
  {
    SortedAround(P, x, S);
    DropHit(P, x, S);
    DropSorted(P + [x] + S, x.key);
  }

  /** Drop confined to a middle part whose neighbours are below and above k. */
  lemma {:induction false} DropMiddle<V>(a: seq<Entry<V>>, m: seq<Entry<V>>, c: seq<Entry<V>>, k: int)
    requires AllBelow(a, k) && AllAbove(c, k)
    ensures Drop(a + m + c, k) == a + Drop(m, k) + c
  {
    DropCat(a + m, c, k);
    DropCat(a, m, k);
    BelowKeys(a, k);
    DropAbsent(a, k);
    AboveKeys(c, k);
    DropAbsent(c, k);
  }

  lemma {:induction false} LiveDrop<V>(es: seq<Entry<V>>, k: int)
    ensures Live(Drop(es, k)) == Live(es) - {k}
  {
    DropKeys(es, k);
    forall x
      ensures Find(Drop(es, k), x) == if x == k then None else Find(es, x)
    {
      DropFind(es, k, x);
    }
  }

  /** Clear(es, k): k's entries keep their key and lose their value. */
  ghost function Clear<V>(es: seq<Entry<V>>, k: int): seq<Entry<V>>
  {
    seq(|es|, i requires 0 <= i < |es| => if es[i].key == k then Entry(k, None) else es[i])
  }

  lemma {:induction false} ClearCat<V>(a: seq<Entry<V>>, b: seq<Entry<V>>, k: int)
    ensures Clear(a + b, k) == Clear(a, k) + Clear(b, k)
  {
  }

  lemma {:induction false} ClearAbsent<V>(es: seq<Entry<V>>, k: int)
    requires k !in KeySet(es)
    ensures Clear(es, k) == es
  {
    forall i | 0 <= i < |es|
      ensures Clear(es, k)[i] == es[i]
    {
      KeyIn(es, i);
    }
  }

  lemma {:induction false} ClearFind<V>(es: seq<Entry<V>>, k: int, x: int)
    ensures Find(Clear(es, k), x) == if x == k then None else Find(es, x)
  {
    if |es| > 0 {
      assert Clear(es, k)[1..] == Clear(es[1..], k);
      ClearFind(es[1..], k, x);
    }
  }

  lemma {:induction false} ClearKeys<V>(es: seq<Entry<V>>, k: int)
    ensures KeySet(Clear(es, k)) == KeySet(es)
  {
    forall x | x in KeySet(es)
      ensures x in KeySet(Clear(es, k))
    {
      var i :| 0 <= i < |es| && es[i].key == x;
      KeyIn(Clear(es, k), i);
    }
    forall x | x in KeySet(Clear(es, k))
      ensures x in KeySet(es)
    {
      var i :| 0 <= i < |es| && Clear(es, k)[i].key == x;
      KeyIn(es, i);
    }
  }

  lemma {:induction false} ClearSorted<V>(es: seq<Entry<V>>, k: int)
    requires Sorted(es)
    ensures Sorted(Clear(es, k))
  {
  }

  /** Clearing the one entry with key k from sorted entries. */
  lemma {:induction false} ClearHit<V>(a: seq<Entry<V>>, x: Entry<V>, b: seq<Entry<V>>)
    requires AllBelow(a, x.key) && AllAbove(b, x.key)
    ensures Clear(a + [x] + b, x.key) == a + [Entry(x.key, None)] + b
  {
    BelowKeys(a, x.key);
    AboveKeys(b, x.key);
    ClearCat(a + [x], b, x.key);
    ClearCat(a, [x], x.key);
    ClearAbsent(a, x.key);
    ClearAbsent(b, x.key);
  }

  /** In sorted entries P + [x] + S, clearing x's key leaves a tombstone in
      x's place, still sorted; x held Find's answer for its key. */
  lemma {:induction false} ClearAround<V>(P: seq<Entry<V>>, x: Entry<V>, S: seq<Entry<V>>)
    requires Sorted(P + [x] + S)
    ensures Clear(P + [x] + S, x.key) == P + [Entry(x.key, None)] + S
    ensures Sorted(P + [Entry(x.key, None)] + S) && Find(P + [x] + S, x.key) == x.value
  {
    SortedAround(P, x, S);
    ClearHit(P, x, S);
    ClearSorted(P + [x] + S, x.key);
    FindHit(P, x, S);
  }

  /** Clear confined to a middle part whose neighbours are below and above
      k. */
  lemma {:induction false} ClearMiddle<V>(a: seq<Entry<V>>, m: seq<Entry<V>>, c: seq<Entry<V>>, k: int)
    requires AllBelow(a, k) && AllAbove(c, k)
    ensures Clear(a + m + c, k) == a + Clear(m, k) + c
  {
    ClearCat(a + m, c, k);
    ClearCat(a, m, k);
    BelowKeys(a, k);
    ClearAbsent(a, k);
    AboveKeys(c, k);
    ClearAbsent(c, k);
  }

  lemma {:induction false} LiveClear<V>(es: seq<Entry<V>>, k: int)
    ensures Live(Clear(es, k)) == Live(es) - {k}
  {
    ClearKeys(es, k);
    forall x
      ensures Find(Clear(es, k), x) == if x == k then None else Find(es, x)
    {
      ClearFind(es, k, x);
    }
  }
}
