/** Lexicographic order on strings, as C++ std::string and Python str compare
    them: the first differing character decides, and a proper prefix comes
    first. Sortedness, uniqueness of a sorted permutation, and an insertion
    sort used where the sources call a library sort. */
module LexOrder {

  /** a comes strictly before b. */
  predicate Less(a: seq<char>, b: seq<char>)
    decreases |a|
  {
    if |a| == 0 then |b| > 0
    else if |b| == 0 then false
    else if a[0] != b[0] then a[0] < b[0]
    else Less(a[1..], b[1..])
  }

  lemma {:induction false} Irreflexive(a: seq<char>)
    ensures !Less(a, a)
    decreases |a|
  {
    if |a| > 0 {
      Irreflexive(a[1..]);
    }
  }

  lemma {:induction false} Asymmetric(a: seq<char>, b: seq<char>)
    requires Less(a, b)
    ensures !Less(b, a)
    decreases |a|
  {
    if |a| > 0 && |b| > 0 && a[0] == b[0] {
      Asymmetric(a[1..], b[1..]);
    }
  }

  lemma {:induction false} Transitive(a: seq<char>, b: seq<char>, c: seq<char>)
    requires Less(a, b) && Less(b, c)
    ensures Less(a, c)
    decreases |a|
  {
    if |a| > 0 && a[0] == b[0] && b[0] == c[0] {
      Transitive(a[1..], b[1..], c[1..]);
    }
  }

  /** Any two strings are equal or ordered one way. */
  lemma {:induction false} Total(a: seq<char>, b: seq<char>)
    ensures a == b || Less(a, b) || Less(b, a)
    decreases |a|
  {
    if |a| > 0 && |b| > 0 && a[0] == b[0] {
      Total(a[1..], b[1..]);
      if a[1..] == b[1..] {
        assert a == [a[0]] + a[1..] && b == [b[0]] + b[1..];
      }
    }
  }

  /** A proper prefix comes first. */
  lemma {:induction false} PrefixLess(a: seq<char>, b: seq<char>)
    requires |a| < |b| && b[..|a|] == a
    ensures Less(a, b)
    decreases |a|
  {
    if |a| > 0 {
      assert b[1..][..|a| - 1] == a[1..];
      PrefixLess(a[1..], b[1..]);
    }
  }

  /** With a shared prefix of length k, the characters at k decide. */
  lemma {:induction false} LessAt(a: seq<char>, b: seq<char>, k: nat)
    requires k < |a| && k < |b| && a[..k] == b[..k] && a[k] < b[k]
    ensures Less(a, b)
    decreases k
  {
    if k > 0 {
      assert a[0] == a[..k][0] == b[..k][0] == b[0];
      assert a[1..][..k - 1] == a[..k][1..] == b[..k][1..] == b[1..][..k - 1];
      LessAt(a[1..], b[1..], k - 1);
    }
  }

  /** a may stand before b: in descending order when desc, else ascending. */
  predicate InOrder(a: seq<char>, b: seq<char>, desc: bool)
  {
    if desc then !Less(a, b) else !Less(b, a)
  }

  predicate Sorted(xs: seq<seq<char>>, desc: bool)
  {
    forall i, j :: 0 <= i < j < |xs| ==> InOrder(xs[i], xs[j], desc)
  }

  /** Two strings each allowed before the other are the same string. */
  lemma BothInOrder(a: seq<char>, b: seq<char>, desc: bool)
    requires InOrder(a, b, desc) && InOrder(b, a, desc)
    ensures a == b
  {
    Total(a, b);
  }

  /** A sorted order of a multiset of strings is unique: any two sorts of the
      same input, stable or not, give the same list. */
  lemma {:induction false} SortedUnique(xs: seq<seq<char>>, ys: seq<seq<char>>, desc: bool)
    requires Sorted(xs, desc) && Sorted(ys, desc) && multiset(xs) == multiset(ys)
    ensures xs == ys
    decreases |xs|
  {
    assert |xs| == |multiset(xs)| == |multiset(ys)| == |ys|;
    if |xs| > 0 {
      SameHead(xs, ys, desc);
      SameTail(xs, ys);
      assert Sorted(xs[1..], desc) && Sorted(ys[1..], desc);
      SortedUnique(xs[1..], ys[1..], desc);
      assert xs == [xs[0]] + xs[1..] && ys == [ys[0]] + ys[1..];
    }
  }

  /** Two sorts of the same multiset start with the same string. */
  lemma SameHead(xs: seq<seq<char>>, ys: seq<seq<char>>, desc: bool)
    requires |xs| > 0 && |ys| > 0
    requires Sorted(xs, desc) && Sorted(ys, desc) && multiset(xs) == multiset(ys)
    ensures xs[0] == ys[0]
  {
    assert xs[0] in multiset(ys);
    var k :| 0 <= k < |ys| && ys[k] == xs[0];
    assert ys[0] in multiset(xs);
    var m :| 0 <= m < |xs| && xs[m] == ys[0];
    Irreflexive(xs[0]);
    Irreflexive(ys[0]);
    if k > 0 {
      assert InOrder(ys[0], ys[k], desc);
    }
    if m > 0 {
      assert InOrder(xs[0], xs[m], desc);
    }
    BothInOrder(xs[0], ys[0], desc);
  }

  lemma SameTail<T>(xs: seq<T>, ys: seq<T>)
    requires |xs| > 0 && |ys| > 0 && xs[0] == ys[0] && multiset(xs) == multiset(ys)
    ensures multiset(xs[1..]) == multiset(ys[1..])
  {
    assert xs == [xs[0]] + xs[1..] && ys == [ys[0]] + ys[1..];
    assert multiset(xs) == multiset{xs[0]} + multiset(xs[1..]);
    assert multiset(ys) == multiset{ys[0]} + multiset(ys[1..]);
    calc {
      multiset(xs[1..]);
      multiset(xs) - multiset{xs[0]};
      multiset(ys) - multiset{ys[0]};
      multiset(ys[1..]);
    }
  }

  /** Inserts x before the first element it may stand before. */
  function Insert(x: seq<char>, xs: seq<seq<char>>, desc: bool): (r: seq<seq<char>>)
    ensures multiset(r) == multiset(xs) + multiset{x}
  {
    if |xs| == 0 then [x]
    else if InOrder(x, xs[0], desc) then [x] + xs
    else
      assert xs == [xs[0]] + xs[1..];
      [xs[0]] + Insert(x, xs[1..], desc)
  }

  /** Two sorted lists, each element of the first allowed before each
      element of the second, concatenate to a sorted list. */
  lemma SortedConcat(a: seq<seq<char>>, b: seq<seq<char>>, desc: bool)
    requires Sorted(a, desc) && Sorted(b, desc)
    requires forall x, y :: x in a && y in b ==> InOrder(x, y, desc)
    ensures Sorted(a + b, desc)
  {
    var c := a + b;
    forall i, j | 0 <= i < j < |c|
      ensures InOrder(c[i], c[j], desc)
    {
      if j < |a| {
        assert c[i] == a[i] && c[j] == a[j];
      } else if i >= |a| {
        assert c[i] == b[i - |a|] && c[j] == b[j - |a|];
      } else {
        assert c[i] in a && c[j] in b;
      }
    }
  }

  /** Insertion sort. */
  function Sort(xs: seq<seq<char>>, desc: bool): (r: seq<seq<char>>)
    ensures multiset(r) == multiset(xs)
  {
    if |xs| == 0 then []
    else
      assert xs == [xs[0]] + xs[1..];
      Insert(xs[0], Sort(xs[1..], desc), desc)
  }

  lemma {:induction false} InsertSorted(x: seq<char>, xs: seq<seq<char>>, desc: bool)
    requires Sorted(xs, desc)
    ensures Sorted(Insert(x, xs, desc), desc)
  {
    if |xs| > 0 {
      if InOrder(x, xs[0], desc) {
        forall j | 0 < j < |xs|
          ensures InOrder(x, xs[j], desc)
        {
          Chain(x, xs[0], xs[j], desc);
        }
      } else {
        InsertSorted(x, xs[1..], desc);
        var r := Insert(x, xs[1..], desc);
        if desc {
          Asymmetric(x, xs[0]);
        } else {
          Asymmetric(xs[0], x);
        }
        forall j | 0 <= j < |r|
          ensures InOrder(xs[0], r[j], desc)
        {
          assert r[j] in multiset(xs[1..]) + multiset{x};
          if r[j] != x {
            assert r[j] in multiset(xs[1..]);
            var k :| 0 <= k < |xs[1..]| && xs[1..][k] == r[j];
            assert xs[k + 1] == r[j];
          }
        }
      }
    }
  }

  /** InOrder chains. */
  lemma Chain(a: seq<char>, b: seq<char>, c: seq<char>, desc: bool)
    requires InOrder(a, b, desc) && InOrder(b, c, desc)
    ensures InOrder(a, c, desc)
  {
    Total(a, b);
    Total(b, c);
    if a != b && b != c {
      if desc {
        Transitive(c, b, a);
        Asymmetric(c, a);
      } else {
        Transitive(a, b, c);
        Asymmetric(a, c);
      }
    }
  }

  /** Sort gives a sorted permutation of its input. */
  lemma {:induction false} SortSorted(xs: seq<seq<char>>, desc: bool)
    ensures Sorted(Sort(xs, desc), desc)
  {
    if |xs| > 0 {
      SortSorted(xs[1..], desc);
      InsertSorted(xs[0], Sort(xs[1..], desc), desc);
    }
  }

  /** The sequences of xs one after another (reduce with +). */
  function Flatten<T>(xs: seq<seq<T>>): seq<T>
  {
    if |xs| == 0 then [] else xs[0] + Flatten(xs[1..])
  }

  lemma {:induction false} FlattenAppend<T>(xs: seq<seq<T>>, ys: seq<seq<T>>)
    ensures Flatten(xs + ys) == Flatten(xs) + Flatten(ys)
  {
    if |xs| == 0 {
      assert xs + ys == ys;
    } else {
      FlattenAppend(xs[1..], ys);
      assert (xs + ys)[0] == xs[0];
      assert (xs + ys)[1..] == xs[1..] + ys;
      calc {
        Flatten(xs + ys);
        xs[0] + Flatten(xs[1..] + ys);
        xs[0] + (Flatten(xs[1..]) + Flatten(ys));
        (xs[0] + Flatten(xs[1..])) + Flatten(ys);
      }
    }
  }

  lemma {:induction false} FlattenInsert(x: seq<char>, xs: seq<seq<char>>, desc: bool)
    ensures multiset(Flatten(Insert(x, xs, desc))) == multiset(x) + multiset(Flatten(xs))
  {
    if |xs| > 0 && !InOrder(x, xs[0], desc) {
      FlattenInsert(x, xs[1..], desc);
      assert Insert(x, xs, desc)[1..] == Insert(x, xs[1..], desc);
    }
    if |xs| > 0 && InOrder(x, xs[0], desc) {
      assert Insert(x, xs, desc)[1..] == xs;
    }
  }

  /** Sorting the pieces does not change which characters their
      concatenation holds. */
  lemma {:induction false} FlattenSort(xs: seq<seq<char>>, desc: bool)
    ensures multiset(Flatten(Sort(xs, desc))) == multiset(Flatten(xs))
  {
    if |xs| > 0 {
      FlattenSort(xs[1..], desc);
      FlattenInsert(xs[0], Sort(xs[1..], desc), desc);
    }
  }
}
