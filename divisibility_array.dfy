/** misc/divisibility_array.py: the divisibility array of a digit string.
    div[i] is 1 when the number spelled by word[0..i] is divisible by m. */
module DivisibilityArray {
  import opened PyInt

  /** ord(c) - ord('0') */
  function Digit(c: char): int
  {
    c as int - '0' as int
  }

  /** The number a string of digits spells, read left to right. */
  function Value(w: seq<char>): int
  {
    if |w| == 0 then 0 else Value(w[..|w| - 1]) * 10 + Digit(w[|w| - 1])
  }

  /** Reducing the running value mod m before the next digit does not
      change the remainder. */
  lemma ModStep(a: int, d: int, m: int)
    requires m > 0
    ensures (a * 10 + d) % m == ((a % m) * 10 + d) % m
  {
    var q, r := a / m, a % m;
    var s := (r * 10 + d) % m;
    var t := (r * 10 + d) / m;
    assert a * 10 + d == m * (q * 10 + t) + s;
    ModUnique(a * 10 + d, m, q * 10 + t, s);
  }

  /** divisibility_array(word, m): one pass carrying the prefix's value
      mod m. Python's % agrees with Dafny's for a positive modulus. */
  method DivisibilityArray(word: seq<char>, m: int) returns (result: seq<int>)
    requires m > 0
    ensures |result| == |word|
    ensures forall i :: 0 <= i < |word| ==> result[i] == (if Value(word[..i + 1]) % m == 0 then 1 else 0)
  {
    var n := |word|;
    result := seq(n, _ => 0);
    var curr := 0;
    for i := 0 to n
      invariant |result| == n
      invariant curr == Value(word[..i]) % m && 0 <= curr < m
      invariant forall j :: 0 <= j < i ==> result[j] == (if Value(word[..j + 1]) % m == 0 then 1 else 0)
      invariant forall j :: i <= j < n ==> result[j] == 0
    {
      assert word[..i + 1][..i] == word[..i];
      ModStep(Value(word[..i]), Digit(word[i]), m);
      curr := (curr * 10 + Digit(word[i])) % m;
      if curr == 0 {
        result := result[i := 1];
      }
    }
  }

  /** The entries are 0 or 1, and each says whether m divides the prefix. */
  lemma DivisibilityEntries(word: seq<char>, m: int, result: seq<int>, i: int)
    requires m > 0 && |result| == |word| && 0 <= i < |word|
    requires result[i] == (if Value(word[..i + 1]) % m == 0 then 1 else 0)
    ensures result[i] == 0 || result[i] == 1
    ensures result[i] == 1 <==> exists q :: Value(word[..i + 1]) == m * q
  {
    var v := Value(word[..i + 1]);
    if result[i] == 1 {
      assert v == m * (v / m);
    } else {
      if exists q :: v == m * q {
        var q :| v == m * q;
        ModUnique(v, m, q, 0);
      }
    }
  }
}
