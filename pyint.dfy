/** Python's integer and list-index semantics, as the simulator and the
    exercises rely on them: integers are unbounded, `//` and `%` round toward
    negative infinity, shifts by a negative count raise, bitwise operators act
    on the infinite two's-complement expansion, and a list index i with
    -len <= i < 0 counts from the end. */
module PyInt {
  import opened Common

  /** 2**n */
  function Pow2(n: nat): (r: nat)
    ensures r >= 1
  {
    if n == 0 then 1 else 2 * Pow2(n - 1)
  }

  /** 2**32, the modulus every ALU result is reduced by. */
  const WORD: int := 0x1_0000_0000

  lemma Pow2Word()
    ensures Pow2(32) == WORD
  {
    assert Pow2(8) == 256;
    assert Pow2(16) == 256 * 256 by { Pow2Add(8, 8); }
    Pow2Add(16, 16);
  }

  lemma {:induction false} Pow2Add(a: nat, b: nat)
    ensures Pow2(a + b) == Pow2(a) * Pow2(b)
  {
    if a > 0 {
      Pow2Add(a - 1, b);
    }
  }

  /** Python's a // b. */
  function FloorDiv(a: int, b: int): int
    requires b != 0
  {
    if b > 0 || a % b == 0 then a / b else a / b - 1
  }

  /** a // b rounds toward negative infinity. */
  lemma FloorDivBounds(a: int, b: int)
    requires b != 0
    ensures b > 0 ==> b * FloorDiv(a, b) <= a < b * FloorDiv(a, b) + b
    ensures b < 0 ==> b * FloorDiv(a, b) >= a > b * FloorDiv(a, b) + b
  {
  }

  /** Python's a % b. */
  function PyMod(a: int, b: int): int
    requires b != 0
  {
    a - b * FloorDiv(a, b)
  }

  /** The remainder takes the sign of the divisor, and
      a == b * (a // b) + a % b. */
  lemma PyModBounds(a: int, b: int)
    requires b != 0
    ensures b > 0 ==> 0 <= PyMod(a, b) < b
    ensures b < 0 ==> b < PyMod(a, b) <= 0
    ensures a == b * FloorDiv(a, b) + PyMod(a, b)
  {
    FloorDivBounds(a, b);
  }

  /** x % m is r whenever x = m * q + r with 0 <= r < m. */
  lemma ModUnique(x: int, m: int, q: int, r: int)
    requires m > 0 && 0 <= r < m && x == m * q + r
    ensures x % m == r
  {
    var q', r' := x / m, x % m;
    assert m * (q - q') == r' - r;
    if q - q' >= 1 {
      assert m * (q - q') >= m by { MulAtLeast(m, q - q'); }
    } else if q - q' <= -1 {
      assert m * (q' - q) >= m by { MulAtLeast(m, q' - q); }
    }
  }

  lemma MulAtLeast(m: int, t: int)
    requires m > 0 && t >= 1
    ensures m * t >= m
  {
  }

  /** Python's a >> n for n >= 0 (an arithmetic shift). */
  function ShiftRight(a: int, n: nat): int
  {
    FloorDiv(a, Pow2(n))
  }

  /** Python's a << n for n >= 0. */
  function ShiftLeft(a: int, n: nat): int
  {
    a * Pow2(n)
  }

  /** Size measure for the bitwise recursions below: halving (rounding down)
      shrinks it unless the argument is already 0 or -1. */
  function Mag(a: int): nat
  {
    if a < 0 then -a else a
  }

  /** The low bit of a (0 or 1), also for negative a. */
  function Low(a: int): int
  {
    a % 2
  }

  /** Python's a ^ b on unbounded integers. */
  function Xor(a: int, b: int): int
    decreases Mag(a) + Mag(b)
  {
    if (a == 0 || a == -1) && (b == 0 || b == -1) then
      (if a == b then 0 else -1)
    else
      2 * Xor(FloorDiv(a, 2), FloorDiv(b, 2)) + (if Low(a) == Low(b) then 0 else 1)
  }

  /** Python's a & b on unbounded integers. */
  function And(a: int, b: int): int
    decreases Mag(a) + Mag(b)
  {
    if (a == 0 || a == -1) && (b == 0 || b == -1) then
      (if a == -1 && b == -1 then -1 else 0)
    else
      2 * And(FloorDiv(a, 2), FloorDiv(b, 2)) + (if Low(a) == 1 && Low(b) == 1 then 1 else 0)
  }

  /** Python's a | b on unbounded integers. */
  function Or(a: int, b: int): int
    decreases Mag(a) + Mag(b)
  {
    if (a == 0 || a == -1) && (b == 0 || b == -1) then
      (if a == 0 && b == 0 then 0 else -1)
    else
      2 * Or(FloorDiv(a, 2), FloorDiv(b, 2)) + (if Low(a) == 1 || Low(b) == 1 then 1 else 0)
  }

  /** x // m is q whenever x = m * q + r with 0 <= r < m. */
  lemma DivUnique(x: int, m: int, q: int, r: int)
    requires m > 0 && 0 <= r < m && x == m * q + r
    ensures x / m == q
  {
    ModUnique(x, m, q, r);
    assert m * (x / m) == m * q;
  }

  /** a & 0 == 0 */
  lemma {:induction false} AndZero(a: int)
    ensures And(a, 0) == 0
    decreases Mag(a)
  {
    if a != 0 && a != -1 {
      AndZero(FloorDiv(a, 2));
    }
  }

  /** a & (1 << i) keeps bit i of a and clears every other bit. */
  lemma {:induction false} AndPow2(a: int, i: nat)
    ensures And(a, Pow2(i)) == Pow2(i) * ((a / Pow2(i)) % 2)
    decreases i
  {
    if i == 0 {
      AndZero(FloorDiv(a, 2));
    } else {
      var p := Pow2(i - 1);
      AndHalf(a, i);
      AndPow2(a / 2, i - 1);
      HalfThenDiv(a, p);
      assert Pow2(i) == 2 * p;
    }
  }

  /** For i > 0, a & (1 << i) is (a >> 1) & (1 << (i - 1)) shifted back. */
  lemma AndHalf(a: int, i: nat)
    requires i > 0
    ensures And(a, Pow2(i)) == 2 * And(a / 2, Pow2(i - 1))
  {
    assert Pow2(i) == 2 * Pow2(i - 1);
    assert FloorDiv(Pow2(i), 2) == Pow2(i - 1);
    assert Low(Pow2(i)) == 0;
  }

  /** (a // 2) // p == a // (2 * p) */
  lemma HalfThenDiv(a: int, p: int)
    requires p > 0
    ensures (a / 2) / p == a / (2 * p)
  {
    var q := (a / 2) / p;
    assert a / 2 == p * q + (a / 2) % p;
    assert a == 2 * (a / 2) + a % 2;
    assert a == (2 * p) * q + (2 * ((a / 2) % p) + a % 2);
    DivUnique(a, 2 * p, q, 2 * ((a / 2) % p) + a % 2);
  }

  /** Position that a Python index i designates in a list of length n, or
      None where Python raises IndexError. */
  function PyIndex(n: nat, i: int): (r: Option<nat>)
    ensures r.Some? <==> 0 <= i + n && i < n
    ensures r.Some? ==> r.value < n && (r.value == i || r.value == n + i)
  {
    if 0 <= i < n then Some(i) else if 0 <= i + n && i < 0 then Some(n + i) else None
  }
}
