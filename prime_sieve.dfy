/** number_theory/prime_sieve.hh: the Sieve of Eratosthenes over 0..n, with
    a running count of the primes up to each k. */
module PrimeSieve {
  import opened Common
  import PyInt

  /** p is prime: at least 2, and no d in [2, p) divides it. */
  predicate IsPrime(p: int)
  {
    p >= 2 && forall d :: 2 <= d < p ==> p % d != 0
  }

  /** k is still marked after crossing out the proper multiples of every
      prime below i. */
  predicate Unmarked(k: int, i: int)
  {
    k >= 2 && forall d :: 2 <= d < i && d < k ==> k % d != 0
  }

  /** The number of primes in [0, k]. */
  function CountPrimes(k: int): nat
    decreases k
  {
    if k <= 0 then 0 else CountPrimes(k - 1) + (if IsPrime(k) then 1 else 0)
  }

  /** The primes in [0, k]. */
  ghost function PrimesAtMost(k: int): set<int>
  {
    set p | 0 <= p <= k && IsPrime(p)
  }

  /** CountPrimes(k) is the size of the set of primes up to k. */
  lemma {:induction false} CountIsCardinality(k: int)
    ensures CountPrimes(k) == |PrimesAtMost(k)|
    decreases k
  {
    if k <= 0 {
      assert PrimesAtMost(k) == {} by {
        forall p | p in PrimesAtMost(k)
          ensures false
        {
        }
      }
    } else {
      CountIsCardinality(k - 1);
      PrimesAtMostStep(k);
    }
  }

  lemma PrimesAtMostStep(k: int)
    requires k > 0
    ensures PrimesAtMost(k) == PrimesAtMost(k - 1) + (if IsPrime(k) then {k} else {})
  {
  }

  /** The count never decreases, and from k to b it grows by at most the
      number of integers in between. */
  lemma {:induction false} CountMonotone(a: int, b: int)
    requires a <= b
    ensures CountPrimes(a) <= CountPrimes(b) <= CountPrimes(a) + (b - a)
    decreases b - a
  {
    if a < b {
      CountMonotone(a, b - 1);
    }
  }

  /** A divisor of a divisor is a divisor. */
  lemma DividesTrans(d: int, i: int, k: int)
    requires d > 0 && i > 0 && i % d == 0 && k % i == 0
    ensures k % d == 0
  {
    var a, b := i / d, k / i;
    assert i == d * a;
    assert k == i * b;
    assert k == d * (a * b);
    PyInt.ModUnique(k, d, a * b, 0);
  }

  /** Between a multiple j of i and the next one, no other multiple. */
  lemma NextMultiple(i: int, j: int, k: int)
    requires i > 0 && j % i == 0 && k % i == 0 && j <= k < j + i
    ensures k == j
  {
    var a, b := j / i, k / i;
    assert j == i * a && k == i * b;
    assert i * (b - a) == k - j;
    if b - a >= 1 {
      PyInt.MulAtLeast(i, b - a);
    }
    if b - a < 0 {
      PyInt.MulAtLeast(i, a - b);
    }
  }

  /** Crossing out the multiples of a composite i changes nothing. */
  lemma CompositeStep(i: int, k: int)
    requires i >= 2 && !Unmarked(i, i)
    ensures Unmarked(k, i + 1) == Unmarked(k, i)
  {
    if Unmarked(k, i) && i < k && k % i == 0 {
      var d :| 2 <= d < i && i % d == 0;
      DividesTrans(d, i, k);
      assert false;
    }
  }

  class PrimeSieve {
    const n: int
    /** isPrime_: entry p says whether p is prime. */
    const isPrimeTable: array<bool>
    /** numPrimes_: entry k is the number of primes in [0, k]. */
    const numPrimesTable: array<int>

    ghost predicate Valid()
      reads this, isPrimeTable, numPrimesTable
    {
      && n >= 1
      && isPrimeTable.Length == n + 1 && numPrimesTable.Length == n + 1
      && (forall p :: 0 <= p <= n ==> isPrimeTable[p] == IsPrime(p))
      && (forall k :: 0 <= k <= n ==> numPrimesTable[k] == CountPrimes(k))
    }

    /** PrimeSieve(n): both tables filled at construction. n must be at least
        1, since slot 1 is written unconditionally. */
    constructor(n: int)
      requires n >= 1
      ensures Valid() && this.n == n
    {
      this.n := n;
      isPrimeTable := new bool[n + 1];
      numPrimesTable := new int[n + 1];
      new;
      PopulateIsPrime();
      PopulateNumPrimes();
    }

    /** populateIsPrime: every slot starts true, 0 and 1 are cleared, and each
        i still marked has its multiples 2i, 3i, ... up to n cleared. */
    method PopulateIsPrime()
      requires n >= 1 && isPrimeTable.Length == n + 1
      modifies isPrimeTable
      ensures forall p :: 0 <= p <= n ==> isPrimeTable[p] == IsPrime(p)
    {
      forall k | 0 <= k <= n {
        isPrimeTable[k] := true;
      }
      isPrimeTable[0] := false;
      isPrimeTable[1] := false;
      var i := 2;
      while i <= n
        invariant 2 <= i <= n + 1
        invariant forall k :: 0 <= k <= n ==> isPrimeTable[k] == Unmarked(k, i)
      {
        if !isPrimeTable[i] {
          forall k | 0 <= k <= n
            ensures Unmarked(k, i + 1) == Unmarked(k, i)
          {
            CompositeStep(i, k);
          }
          i := i + 1;
          continue;
        }
        CrossOutMultiples(i);
        forall k | 0 <= k <= n
          ensures Unmarked(k, i + 1) == (Unmarked(k, i) && !(k % i == 0 && i < k))
        {
        }
        i := i + 1;
      }
    }

    /** The inner loop of populateIsPrime: clears 2i, 3i, ... up to n. */
    method CrossOutMultiples(i: int)
      requires 2 <= i <= n && isPrimeTable.Length == n + 1
      modifies isPrimeTable
      ensures forall k :: 0 <= k <= n ==> isPrimeTable[k] == (old(isPrimeTable[k]) && !(k % i == 0 && i < k))
    {
      var j := 2 * i;
      ghost var m := 2;
      while j <= n
        invariant j == i * m && m >= 2
        invariant forall k :: 0 <= k <= n ==> isPrimeTable[k] == (old(isPrimeTable[k]) && !(k % i == 0 && i < k < j))
      {
        PyInt.ModUnique(j, i, m, 0);
        ghost var before := isPrimeTable[..];
        isPrimeTable[j] := false;
        forall k | 0 <= k <= n
          ensures isPrimeTable[k] == (old(isPrimeTable[k]) && !(k % i == 0 && i < k < j + i))
        {
          if k != j {
            assert isPrimeTable[k] == before[k];
            if k % i == 0 && j <= k < j + i {
              NextMultiple(i, j, k);
            }
          }
        }
        j, m := j + i, m + 1;
      }
    }

    /** populateNumPrimes: slot 0 is 0, and each slot adds its own primality
        to the one before. */
    method PopulateNumPrimes()
      requires n >= 1 && isPrimeTable.Length == n + 1 && numPrimesTable.Length == n + 1
      requires forall p :: 0 <= p <= n ==> isPrimeTable[p] == IsPrime(p)
      modifies numPrimesTable
      ensures forall k :: 0 <= k <= n ==> numPrimesTable[k] == CountPrimes(k)
    {
      numPrimesTable[0] := 0;
      var i := 1;
      while i <= n
        invariant 1 <= i <= n + 1
        invariant forall k :: 0 <= k < i ==> numPrimesTable[k] == CountPrimes(k)
      {
        numPrimesTable[i] := (if isPrimeTable[i] then 1 else 0) + numPrimesTable[i - 1];
        i := i + 1;
      }
    }

    /** isPrime(p): whether p is prime, or invalid_argument (None) for p
        outside [0, n]. */
    method IsPrimeAt(p: int) returns (r: Option<bool>)
      requires Valid()
      ensures r.None? <==> p < 0 || p > n
      ensures r.Some? ==> r.value == IsPrime(p)
    {
      if p < 0 || p > n {
        return None;
      }
      return Some(isPrimeTable[p]);
    }

    /** numPrimesAtMost(k): the number of primes in [0, k]; k is not checked
        by the source, so it must lie in [0, n]. */
    method NumPrimesAtMost(k: int) returns (r: int)
      requires Valid() && 0 <= k <= n
      ensures r == |PrimesAtMost(k)|
    {
      CountIsCardinality(k);
      return numPrimesTable[k];
    }
  }
}
