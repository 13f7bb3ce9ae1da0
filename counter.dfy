/** utils/counter.hh: a multiset kept as an ordered map from key to count.
    Keys are integers; the map's order is std::less (ascending) or, as
    MaxSegmentSum instantiates it, std::greater (descending). */
module Counter {
  import opened Common

  /** COMP(a, b): a sorts strictly before b. */
  predicate Comp(descending: bool, a: int, b: int)
  {
    if descending then a > b else a < b
  }

  /** A key of s that nothing in s sorts before. */
  predicate IsFirst(s: set<int>, descending: bool, k: int)
  {
    k in s && forall k' :: k' in s ==> !Comp(descending, k', k)
  }

  /** Every non-empty finite set has a first key. */
  lemma {:induction false} FirstExists(s: set<int>, descending: bool)
    requires s != {}
    ensures exists k :: IsFirst(s, descending, k)
    decreases |s|
  {
    var x := PickElement(s);
    if s != {x} {
      FirstExists(s - {x}, descending);
      var k :| IsFirst(s - {x}, descending, k);
      if Comp(descending, x, k) {
        forall k' | k' in s
          ensures !Comp(descending, k', x)
        {
          if k' != x {
            assert !Comp(descending, k', k);
          }
        }
        assert IsFirst(s, descending, x);
      } else {
        assert IsFirst(s, descending, k);
      }
    } else {
      assert IsFirst(s, descending, x);
    }
  }

  /** The first key of s, or K() = 0 when s is empty. */
  function First(s: set<int>, descending: bool): (k: int)
    ensures s == {} ==> k == 0
    ensures s != {} ==> IsFirst(s, descending, k)
  {
    if s == {} then 0
    else
      FirstExists(s, descending);
      var k :| IsFirst(s, descending, k); k
  }

  /** How often k occurs in the multiset that counts represents. */
  function CountIn(counts: map<int, int>, k: int): int
  {
    if k in counts then counts[k] else 0
  }

  class Counter {
    /** map_: key to a positive count. */
    var counts: map<int, int>
    const descending: bool

    ghost predicate Valid()
      reads this
    {
      forall k :: k in counts ==> counts[k] >= 1
    }

    constructor(descending: bool)
      ensures Valid() && counts == map[] && this.descending == descending
    {
      counts := map[];
      this.descending := descending;
    }

    /** increment(key): map_[key]++, starting from 0 for a new key. */
    method Increment(key: int)
      requires Valid()
      modifies this
      ensures Valid()
      ensures counts.Keys == old(counts.Keys) + {key}
      ensures forall k :: CountIn(counts, k) == CountIn(old(counts), k) + (if k == key then 1 else 0)
    {
      counts := counts[key := CountIn(counts, key) + 1];
    }

    /** decrement(key): one occurrence fewer; a key whose count reaches 0 is
        erased, and an absent key is left alone. */
    method Decrement(key: int)
      requires Valid()
      modifies this
      ensures Valid()
      ensures forall k :: CountIn(counts, k) == CountIn(old(counts), k) - (if k == key && k in old(counts) then 1 else 0)
      ensures counts.Keys == old(counts.Keys) - (if CountIn(old(counts), key) == 1 then {key} else {})
    {
      if key in counts {
        var c := counts[key] - 1;
        if c == 0 {
          counts := counts - {key};
        } else {
          counts := counts[key := c];
        }
      }
    }

    /** firstKey(): the first key in the map's order, or K() when empty. */
    function FirstKey(): (k: int)
      reads this
      ensures counts == map[] ==> k == 0
      ensures counts != map[] ==> k in counts && forall k' :: k' in counts ==> !Comp(descending, k', k)
    {
      if counts == map[] then 0
      else
        assert |counts.Keys| > 0;
        First(counts.Keys, descending)
    }

    /** lastKey(): the last key in the map's order, or K() when empty. */
    function LastKey(): (k: int)
      reads this
      ensures counts == map[] ==> k == 0
      ensures counts != map[] ==> k in counts && forall k' :: k' in counts ==> !Comp(descending, k, k')
    {
      if counts == map[] then 0
      else
        assert |counts.Keys| > 0;
        First(counts.Keys, !descending)
    }
  }
}
