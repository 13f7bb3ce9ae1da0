/** low_level/bits/bit_manipulator.hh: the bitwise AND over a range, and the
    count of a in [1, x) with a ^ x > x. Both work on non-negative values, so
    the bitwise operators are modelled on naturals. */
module BitManipulator {
  import PyInt

  /** 2^k, as PyInt defines it. */
  function Pow2(k: nat): nat
  {
    PyInt.Pow2(k)
  }

  /** Bit b of n. */
  function BitOf(n: nat, b: nat): nat
    decreases b
  {
    if b == 0 then n % 2 else BitOf(n / 2, b - 1)
  }

  // And, Or and Xor are kept here on naturals rather than taken from PyInt,
  // whose versions cover negative (two's-complement) operands: the operands
  // here are never negative, and the proofs stay much cheaper on naturals.

  /** a & c on non-negative values. */
  function And(a: nat, c: nat): nat
    decreases a
  {
    if a == 0 || c == 0 then 0
    else 2 * And(a / 2, c / 2) + (if a % 2 == 1 && c % 2 == 1 then 1 else 0)
  }

  /** a | c on non-negative values. */
  function Or(a: nat, c: nat): nat
    decreases a + c
  {
    if a == 0 then c
    else if c == 0 then a
    else 2 * Or(a / 2, c / 2) + (if a % 2 == 1 || c % 2 == 1 then 1 else 0)
  }

  /** a ^ c on non-negative values. */
  function Xor(a: nat, c: nat): nat
    decreases a + c
  {
    if a == 0 then c
    else if c == 0 then a
    else 2 * Xor(a / 2, c / 2) + (if a % 2 == c % 2 then 0 else 1)
  }

  // ---------------------------------------------------------------------
  // Arithmetic facts about powers of two

  lemma DivUnique(x: int, m: int, q: int, r: int)
    requires m > 0 && 0 <= r < m && x == m * q + r
    ensures x / m == q && x % m == r
  {
    PyInt.ModUnique(x, m, q, r);
  }

  lemma Pow2Step(k: nat)
    requires k > 0
    ensures Pow2(k) == 2 * Pow2(k - 1)
  {
  }

  lemma {:induction false} Pow2Monotone(j: nat, k: nat)
    requires j <= k
    ensures Pow2(j) <= Pow2(k)
    decreases k
  {
    if j < k {
      Pow2Monotone(j, k - 1);
    }
  }

  /** Halving n, then reducing mod 2^k, is reducing mod 2^(k+1), then halving. */
  lemma ModHalf(n: nat, k: nat)
    ensures (n % Pow2(k + 1)) / 2 == (n / 2) % Pow2(k)
    ensures (n % Pow2(k + 1)) % 2 == n % 2
    ensures n / Pow2(k + 1) == (n / 2) / Pow2(k)
  {
    var p := Pow2(k);
    var h, q, s := n / 2, (n / 2) / p, (n / 2) % p;
    assert n == 2 * h + n % 2;
    assert h == p * q + s;
    assert n == (2 * p) * q + (2 * s + n % 2);
    DivUnique(n, 2 * p, q, 2 * s + n % 2);
    DivUnique(2 * s + n % 2, 2, s, n % 2);
  }

  /** Bit b of n is the parity of n / 2^b. */
  lemma {:induction false} BitOfDiv(n: nat, b: nat)
    ensures BitOf(n, b) == (n / Pow2(b)) % 2
    decreases b
  {
    if b > 0 {
      BitOfDiv(n / 2, b - 1);
      ModHalf(n, b - 1);
    }
  }

  /** Two values with the same bits are equal. */
  lemma {:induction false} BitsEqual(m: nat, n: nat)
    requires forall b: nat :: BitOf(m, b) == BitOf(n, b)
    ensures m == n
    decreases m + n
  {
    assert BitOf(m, 0) == BitOf(n, 0);
    if m != 0 || n != 0 {
      forall b: nat
        ensures BitOf(m / 2, b) == BitOf(n / 2, b)
      {
        assert BitOf(m, b + 1) == BitOf(n, b + 1);
      }
      BitsEqual(m / 2, n / 2);
    }
  }

  /** A value below 2^k has no bit at k or above. */
  lemma {:induction false} BitsAbove(n: nat, k: nat, b: nat)
    requires n < Pow2(k) && b >= k
    ensures BitOf(n, b) == 0
  {
    Pow2Monotone(k, b);
    BitOfDiv(n, b);
    DivUnique(n, Pow2(b), 0, n);
  }

  /** x & (1 << b) is 2^b when bit b of x is set, and 0 otherwise. */
  lemma {:induction false} AndPow2(x: nat, b: nat)
    ensures And(x, Pow2(b)) == if BitOf(x, b) == 1 then Pow2(b) else 0
    decreases b
  {
    if x == 0 {
      ZeroBits(b);
    } else if b > 0 {
      AndPow2(x / 2, b - 1);
      Pow2Step(b);
      var p, p' := Pow2(b), Pow2(b - 1);
      assert p / 2 == p' && p % 2 == 0;
      assert And(x, p) == 2 * And(x / 2, p');
    }
  }

  /** x & ((1 << b) - 1) keeps the low b bits: x mod 2^b. */
  lemma {:induction false} AndLowMask(x: nat, b: nat)
    ensures And(x, Pow2(b) - 1) == x % Pow2(b)
    decreases b
  {
    if b > 0 && x > 0 {
      AndLowMask(x / 2, b - 1);
      Pow2Step(b);
      var m := Pow2(b) - 1;
      assert m / 2 == Pow2(b - 1) - 1 && m % 2 == 1;
      assert And(x, m) == 2 * And(x / 2, m / 2) + x % 2;
      ModHalf(x, b - 1);
      var r := x % Pow2(b);
      assert r == 2 * (r / 2) + r % 2;
    }
  }

  /** Or-ing a bit above x adds it. */
  lemma {:induction false} OrHigh(x: nat, b: nat)
    requires x < Pow2(b)
    ensures Or(x, Pow2(b)) == x + Pow2(b)
    decreases b
  {
    if b > 0 && x > 0 {
      Pow2Step(b);
      OrHigh(x / 2, b - 1);
      assert Pow2(b) / 2 == Pow2(b - 1) && Pow2(b) % 2 == 0;
    }
  }

  /** x mod 2^(k+1) adds bit k of x to x mod 2^k. */
  lemma ModStep(x: nat, k: nat)
    ensures x % Pow2(k + 1) == x % Pow2(k) + Pow2(k) * BitOf(x, k)
  {
    var p := Pow2(k);
    var q, r := x / p, x % p;
    assert x == p * q + r;
    assert q == 2 * (q / 2) + q % 2;
    assert x == (2 * p) * (q / 2) + (p * (q % 2) + r);
    DivUnique(x, 2 * p, q / 2, p * (q % 2) + r);
    BitOfDiv(x, k);
  }

  /** Bit b of a & c is set iff it is set in both. */
  lemma {:induction false} AndBit(a: nat, c: nat, b: nat)
    ensures BitOf(And(a, c), b) == BitOf(a, b) * BitOf(c, b)
    decreases b
  {
    if a == 0 || c == 0 {
      ZeroBits(b);
    } else if b > 0 {
      AndBit(a / 2, c / 2, b - 1);
    }
  }

  lemma {:induction false} ZeroBits(b: nat)
    ensures BitOf(0, b) == 0
  {
    if b > 0 {
      ZeroBits(b - 1);
    }
  }

  // ---------------------------------------------------------------------
  // rangeBitwiseAnd

  /** l & (l + 1) & ... & r. */
  function RangeAnd(l: nat, r: nat): nat
    requires l <= r
    decreases r - l
  {
    if l == r then r else And(RangeAnd(l, r - 1), r)
  }

  /** Bit b is set in every integer of [l, r]. */
  predicate AllSet(l: nat, r: nat, b: nat)
  {
    forall k: nat :: l <= k <= r ==> BitOf(k, b) == 1
  }

  /** Bit b of the range AND is set iff every member has it. */
  lemma {:induction false} RangeAndBit(l: nat, r: nat, b: nat)
    requires l <= r
    ensures BitOf(RangeAnd(l, r), b) == 1 <==> AllSet(l, r, b)
    decreases r - l
  {
    if l < r {
      RangeAndBit(l, r - 1, b);
      AndBit(RangeAnd(l, r - 1), r, b);
      BitIsBit(RangeAnd(l, r - 1), b);
      BitIsBit(r, b);
    }
  }

  lemma {:induction false} BitIsBit(n: nat, b: nat)
    ensures BitOf(n, b) == 0 || BitOf(n, b) == 1
    decreases b
  {
    if b > 0 {
      BitIsBit(n / 2, b - 1);
    }
  }

  /** The test the loop makes for bit b: l has the bit, and adding r - l to
      the bits of l below b does not carry into it. */
  predicate NoCarry(l: nat, r: nat, b: nat)
  {
    BitOf(l, b) == 1 && (r - l) + l % Pow2(b) <= Pow2(b) - 1
  }

  /** Bit b is set throughout [l, r] exactly when it is set in l and the
      climb from l to r does not carry into it. */
  lemma RangeCriterion(l: nat, r: nat, b: nat)
    requires l <= r
    ensures AllSet(l, r, b) <==> NoCarry(l, r, b)
  {
    if (r - l) + l % Pow2(b) <= Pow2(b) - 1 {
      forall k: nat | l <= k <= r
        ensures BitOf(k, b) == BitOf(l, b)
      {
        NoCarryKeepsBit(l, k, b);
      }
    } else if BitOf(l, b) == 1 {
      var k := CarryClearsBit(l, r, b);
    }
  }

  /** Without a carry into bit b, every k in [l, r] has l's bit b. */
  lemma NoCarryKeepsBit(l: nat, k: nat, b: nat)
    requires l <= k && (k - l) + l % Pow2(b) <= Pow2(b) - 1
    ensures BitOf(k, b) == BitOf(l, b)
  {
    SameQuotient(l, k, Pow2(b));
    BitOfDiv(l, b);
    BitOfDiv(k, b);
  }

  lemma SameQuotient(l: int, k: int, p: int)
    requires p > 0 && l <= k && (k - l) + l % p <= p - 1
    ensures k / p == l / p
  {
    var h, low := l / p, l % p;
    assert k == p * h + (low + (k - l));
    DivUnique(k, p, h, low + (k - l));
  }

  /** With a carry into bit b, the next multiple of 2^b lies in [l, r], and
      the carry clears bit b there. */
  lemma CarryClearsBit(l: nat, r: nat, b: nat) returns (k: nat)
    requires l <= r && (r - l) + l % Pow2(b) > Pow2(b) - 1 && BitOf(l, b) == 1
    ensures l <= k <= r && BitOf(k, b) == 0
  {
    BitOfDiv(l, b);
    k := NextQuotient(l, r, Pow2(b));
    BitOfDiv(k, b);
  }

  /** The next multiple of p above l: its quotient is one more than l's. */
  lemma NextQuotient(l: int, r: int, p: int) returns (k: int)
    requires p > 0 && 0 <= l <= r && (r - l) + l % p > p - 1
    ensures l <= k <= r && k / p == l / p + 1
  {
    var h, low := l / p, l % p;
    k := l + (p - low);
    assert k == p * (h + 1) by {
      assert l == p * h + low;
      assert p * (h + 1) == p * h + p;
    }
    DivUnique(k, p, h + 1, 0);
  }

  /** rangeBitwiseAnd(l, r): for each of the 32 bit positions, set bit b of x
      when the no-carry test holds. The source works on int; l and r are the
      problem's 0 <= l <= r <= 2^31 - 1. */
  method RangeBitwiseAnd(l: int, r: int) returns (x: int)
    requires 0 <= l <= r <= 0x7FFF_FFFF
    ensures x == RangeAnd(l, r)
  {
    x := 0;
    var d := r - l;
    var b := 0;
    while b <= 31
      invariant 0 <= b <= 32 && 0 <= x < Pow2(b)
      invariant forall c: nat :: c < b ==> (BitOf(x, c) == 1 <==> NoCarry(l, r, c))
    {
      LoopTest(l, r, b);
      ghost var x0 := x;
      if And(l, Pow2(b)) != 0 && d + And(l, Pow2(b) - 1) <= Pow2(b) - 1 {
        OrHigh(x, b);
        x := Or(x, Pow2(b));
        HighBit(x0, b);
      } else {
        Pow2Step(b + 1);
        BitsAbove(x, b, b);
      }
      assert BitOf(x, b) == 1 <==> NoCarry(l, r, b);
      b := b + 1;
    }
    FromBits(l, r, x);
  }

  /** A value below 2^32 whose bits are the no-carry tests is the AND of the
      range. */
  lemma FromBits(l: nat, r: nat, x: nat)
    requires l <= r <= 0x7FFF_FFFF && x < Pow2(32)
    requires forall c: nat :: c < 32 ==> (BitOf(x, c) == 1 <==> NoCarry(l, r, c))
    ensures x == RangeAnd(l, r)
  {
    Pow2Word31(l, r);
    forall c: nat
      ensures BitOf(x, c) == BitOf(RangeAnd(l, r), c)
    {
      RangeAndBit(l, r, c);
      RangeCriterion(l, r, c);
      BitIsBit(x, c);
      BitIsBit(RangeAnd(l, r), c);
      if c >= 32 {
        BitsAbove(x, 32, c);
      }
    }
    BitsEqual(x, RangeAnd(l, r));
  }

  /** The loop's test for bit b, written with & as the source does, is the
      no-carry criterion. */
  lemma LoopTest(l: nat, r: nat, b: nat)
    requires l <= r
    ensures (And(l, Pow2(b)) != 0 && (r - l) + And(l, Pow2(b) - 1) <= Pow2(b) - 1) <==> NoCarry(l, r, b)
  {
    AndPow2(l, b);
    AndLowMask(l, b);
  }

  /** Adding 2^b to a value below 2^b sets bit b and keeps the bits below. */
  lemma HighBit(x: nat, b: nat)
    requires x < Pow2(b)
    ensures BitOf(x + Pow2(b), b) == 1 && x + Pow2(b) < Pow2(b + 1)
    ensures forall c: nat :: c < b ==> BitOf(x + Pow2(b), c) == BitOf(x, c)
  {
    ModStep(x + Pow2(b), b);
    BitOfDiv(x + Pow2(b), b);
    DivUnique(x + Pow2(b), Pow2(b), 1, x);
    forall c: nat | c < b
      ensures BitOf(x + Pow2(b), c) == BitOf(x, c)
    {
      LowBits(x + Pow2(b), b, c);
      LowBits(x, b, c);
    }
  }

  /** The bits below k of n are those of n mod 2^k. */
  lemma {:induction false} LowBits(n: nat, k: nat, c: nat)
    requires c < k
    ensures BitOf(n, c) == BitOf(n % Pow2(k), c)
    decreases c
  {
    ModHalf(n, k - 1);
    if c > 0 {
      LowBits(n / 2, k - 1, c - 1);
    }
  }

  /** Nothing in [0, 2^31) has bit 31 or above, so no range has them all. */
  lemma Pow2Word31(l: nat, r: nat)
    requires l <= r <= 0x7FFF_FFFF
    ensures forall c: nat :: c >= 31 ==> !NoCarry(l, r, c)
  {
    assert Pow2(31) == 0x8000_0000 by {
      PyInt.Pow2Add(16, 15);
      assert Pow2(16) == 0x1_0000 by { PyInt.Pow2Add(8, 8); }
    }
    forall c: nat | c >= 31
      ensures BitOf(l, c) == 0
    {
      BitsAbove(l, 31, c);
    }
  }

  // ---------------------------------------------------------------------
  // theGreatXor

  /** The a in [1, x) with a ^ x > x. */
  ghost function GreatSet(x: int): set<nat>
  {
    if x <= 0 then {} else set a: nat | 1 <= a < x && Xor(a, x) > x
  }

  /** theGreatXor(x): for each power of two mask up to x, add mask when bit
      of x at mask is clear. The source works on long; mask <<= 1 overflows
      once x reaches 2^62, so x stays below that. */
  method TheGreatXor(x: int) returns (total: int)
    requires x < 0x4000_0000_0000_0000
    ensures total == |GreatSet(x)|
  {
    total := 0;
    var mask := 1;
    ghost var k: nat := 0;
    while mask <= x
      invariant mask == Pow2(k) && (k == 0 || Pow2(k - 1) <= x)
      invariant total == Pow2(k) - 1 - x % Pow2(k)
      decreases x - mask
    {
      AndPow2(x, k);
      BitIsBit(x, k);
      ModStep(x, k);
      total := total + (if And(x, mask) == 0 then 1 else 0) * mask;
      mask, k := mask * 2, k + 1;
    }
    if x >= 1 {
      DivUnique(x, Pow2(k), 0, x);
      GreatCount(x, k);
    }
  }

  /** Bit b of a ^ c is set iff exactly one of a, c has it. */
  lemma {:induction false} XorBit(a: nat, c: nat, b: nat)
    ensures BitOf(Xor(a, c), b) == (BitOf(a, b) + BitOf(c, b)) % 2
    decreases b
  {
    if a == 0 {
      ZeroBits(b);
      BitIsBit(c, b);
    } else if c == 0 {
      ZeroBits(b);
      BitIsBit(a, b);
    } else if b > 0 {
      XorBit(a / 2, c / 2, b - 1);
    }
  }

  /** Xor-ing twice with x gives back a. */
  lemma XorTwice(a: nat, x: nat)
    ensures Xor(Xor(a, x), x) == a
  {
    forall b: nat
      ensures BitOf(Xor(Xor(a, x), x), b) == BitOf(a, b)
    {
      XorBit(Xor(a, x), x, b);
      XorBit(a, x, b);
      BitIsBit(a, b);
      BitIsBit(x, b);
    }
    BitsEqual(Xor(Xor(a, x), x), a);
  }

  /** A value with no bit at k or above is below 2^k. */
  lemma {:induction false} BelowFromBits(n: nat, k: nat)
    requires forall b: nat :: b >= k ==> BitOf(n, b) == 0
    ensures n < Pow2(k)
    decreases k
  {
    if k == 0 {
      forall b: nat
        ensures BitOf(n, b) == BitOf(0, b)
      {
        ZeroBits(b);
      }
      BitsEqual(n, 0);
    } else {
      forall b: nat | b >= k - 1
        ensures BitOf(n / 2, b) == 0
      {
        assert BitOf(n, b + 1) == 0;
      }
      BelowFromBits(n / 2, k - 1);
    }
  }

  /** Xor-ing two values below 2^k stays below 2^k. */
  lemma XorBelow(a: nat, x: nat, k: nat)
    requires a < Pow2(k) && x < Pow2(k)
    ensures Xor(a, x) < Pow2(k)
  {
    forall b: nat | b >= k
      ensures BitOf(Xor(a, x), b) == 0
    {
      XorBit(a, x, b);
      BitsAbove(a, k, b);
      BitsAbove(x, k, b);
    }
    BelowFromBits(Xor(a, x), k);
  }

  /** When both also have the top bit k - 1, their xor is below 2^(k-1). */
  lemma XorTop(a: nat, x: nat, k: nat)
    requires k >= 1 && Pow2(k - 1) <= a < Pow2(k) && Pow2(k - 1) <= x < Pow2(k)
    ensures Xor(a, x) < Pow2(k - 1)
  {
    TopBit(a, k);
    TopBit(x, k);
    forall b: nat | b >= k - 1
      ensures BitOf(Xor(a, x), b) == 0
    {
      XorBit(a, x, b);
      if b >= k {
        BitsAbove(a, k, b);
        BitsAbove(x, k, b);
      }
    }
    BelowFromBits(Xor(a, x), k - 1);
  }

  lemma TopBit(a: nat, k: nat)
    requires k >= 1 && Pow2(k - 1) <= a < Pow2(k)
    ensures BitOf(a, k - 1) == 1
  {
    var p := Pow2(k - 1);
    Pow2Step(k);
    DivUnique(a, p, 1, a - p);
    BitOfDiv(a, k - 1);
  }

  /** An injective map keeps the size of a set. */
  lemma {:induction false} InjectiveImage(s: set<nat>, f: nat -> nat)
    requires forall a, b :: a in s && b in s && f(a) == f(b) ==> a == b
    ensures |set a | a in s :: f(a)| == |s|
    decreases |s|
  {
    if s != {} {
      var a := PickNat(s);
      InjectiveImage(s - {a}, f);
      var img, img' := set y | y in s :: f(y), set y | y in s - {a} :: f(y);
      assert img == img' + {f(a)};
      assert f(a) !in img';
    }
  }

  lemma PickNat(s: set<nat>) returns (a: nat)
    requires s != {}
    ensures a in s
  {
    if forall y :: y !in s {
      assert false;
    }
    a :| a in s;
  }

  /** The integers in [lo, hi). */
  ghost function Range(lo: nat, hi: nat): set<nat>
    decreases hi
  {
    if hi <= lo then {} else Range(lo, hi - 1) + {hi - 1}
  }

  lemma {:induction false} RangeSize(lo: nat, hi: nat)
    requires lo <= hi
    ensures |Range(lo, hi)| == hi - lo
    ensures forall y :: y in Range(lo, hi) <==> lo <= y < hi
    decreases hi
  {
    if lo < hi {
      RangeSize(lo, hi - 1);
    }
  }

  /** The number of a in [1, x) with a ^ x > x is 2^k - 1 - x, where 2^k is
      the first power of two above x: a ^ x permutes [0, 2^k), and exactly the
      a below x land above x. */
  lemma GreatCount(x: nat, k: nat)
    requires k >= 1 && Pow2(k - 1) <= x < Pow2(k)
    ensures |GreatSet(x)| == Pow2(k) - 1 - x
  {
    var s := set a: nat | a < Pow2(k) && Xor(a, x) > x;
    GreatSetIs(x, k, s);
    var n := CountPermuted(x, k, s);
    assert |GreatSet(x)| == n;
  }

  /** Every a below 2^k with a ^ x > x lies in [1, x). */
  lemma GreatSetIs(x: nat, k: nat, s: set<nat>)
    requires k >= 1 && Pow2(k - 1) <= x < Pow2(k)
    requires s == set a: nat | a < Pow2(k) && Xor(a, x) > x
    ensures GreatSet(x) == s
  {
    forall a: nat | a in s
      ensures 1 <= a < x
    {
      assert a != 0;
      if a >= x {
        XorTop(a, x, k);
        assert false;
      }
    }
  }

  /** a ^ x maps the a below 2^k with a ^ x > x one to one onto (x, 2^k). */
  lemma CountPermuted(x: nat, k: nat, s: set<nat>) returns (n: int)
    requires k >= 1 && Pow2(k - 1) <= x < Pow2(k)
    requires s == set a: nat | a < Pow2(k) && Xor(a, x) > x
    ensures n == |s| && n == Pow2(k) - 1 - x
  {
    var t := Range(x + 1, Pow2(k));
    RangeSize(x + 1, Pow2(k));
    var f := (a: nat) => Xor(a, x);
    forall a, b | a in s && b in s && f(a) == f(b)
      ensures a == b
    {
      XorTwice(a, x);
      XorTwice(b, x);
    }
    InjectiveImage(s, f);
    var img := set a | a in s :: f(a);
    XorImage(x, k, s, img, t);
    n := |s|;
  }

  lemma XorImage(x: nat, k: nat, s: set<nat>, img: set<nat>, t: set<nat>)
    requires k >= 1 && Pow2(k - 1) <= x < Pow2(k)
    requires forall a: nat :: a in s <==> a < Pow2(k) && Xor(a, x) > x
    requires img == set a | a in s :: Xor(a, x)
    requires forall y :: y in t <==> x + 1 <= y < Pow2(k)
    ensures img == t
  {
    forall y | y in t
      ensures y in img
    {
      XorTwice(y, x);
      XorBelow(y, x, k);
      assert Xor(y, x) in s;
    }
    forall a | a in s
      ensures Xor(a, x) in t
    {
      XorBelow(a, x, k);
    }
  }

  /** The expected values of the rangeBitwiseAnd tests: (5, 7) gives 4,
      (0, 0) gives 0 and (1, 2^31 - 1) gives 0. */
  lemma RangeAndTests()
    ensures RangeAnd(5, 7) == 4 && RangeAnd(0, 0) == 0
    ensures RangeAnd(1, 0x7FFF_FFFF) == 0
  {
    assert And(5, 6) == 4 by {
      assert And(2, 3) == 2 by {
        assert And(1, 1) == 1;
      }
    }
    assert And(4, 7) == 4 by {
      assert And(2, 3) == 2 by {
        assert And(1, 1) == 1;
      }
    }
    var v := RangeAnd(1, 0x7FFF_FFFF);
    forall b: nat
      ensures BitOf(v, b) == BitOf(0, b)
    {
      RangeAndBit(1, 0x7FFF_FFFF, b);
      BitIsBit(v, b);
      ZeroBits(b);
      if b == 0 {
        assert BitOf(2, 0) == 0;
      } else {
        ZeroBits(b - 1);
        assert BitOf(1, b) == 0;
      }
    }
    BitsEqual(v, 0);
  }

  /** The expected value of the theGreatXor test: 27 for x = 100. */
  lemma GreatXorTest()
    ensures |GreatSet(100)| == 27
  {
    assert Pow2(6) == 64 && Pow2(7) == 128;
    GreatCount(100, 7);
  }
}
