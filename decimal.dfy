/** Decimal numerals as the exercises read and write them: Python's str(n)
    and int(s) on strings of ASCII digits, and the digit test they use.
    Only '0'..'9' count as digits here (Python's str.isdigit also accepts
    other Unicode digits). */
module Decimal {

  predicate IsDigit(c: char)
  {
    '0' <= c <= '9'
  }

  predicate AllDigits(ds: seq<char>)
  {
    forall i :: 0 <= i < |ds| ==> IsDigit(ds[i])
  }

  function DigitValue(c: char): (d: nat)
    requires IsDigit(c)
    ensures d < 10
  {
    (c as int) - ('0' as int)
  }

  function DigitChar(d: nat): (c: char)
    requires d < 10
    ensures IsDigit(c) && DigitValue(c) == d
  {
    (('0' as int) + d) as char
  }

  /** int(ds) for a string of digits, leading zeros allowed; the empty
      string has value 0 here (Python raises, and callers check for it). */
  function Value(ds: seq<char>): nat
    requires AllDigits(ds)
  {
    if ds == [] then 0 else 10 * Value(ds[..|ds| - 1]) + DigitValue(ds[|ds| - 1])
  }

  /** str(n): the shortest decimal numeral of n. */
  function Digits(n: nat): (ds: seq<char>)
    ensures |ds| >= 1 && AllDigits(ds)
  {
    if n < 10 then [DigitChar(n)] else Digits(n / 10) + [DigitChar(n % 10)]
  }

  /** Reading back a written number gives the number. */
  lemma {:induction false} ValueOfDigits(n: nat)
    ensures Value(Digits(n)) == n
  {
    var ds := Digits(n);
    if n >= 10 {
      ValueOfDigits(n / 10);
      assert ds[..|ds| - 1] == Digits(n / 10);
    } else {
      assert ds[..0] == [];
    }
  }

  /** str(n) has no leading zero unless n is 0. */
  lemma {:induction false} DigitsLead(n: nat)
    ensures Digits(n)[0] == '0' <==> n == 0
  {
    if n >= 10 {
      DigitsLead(n / 10);
    }
  }

  /** A number of at least 2 is written in fewer characters than its
      value. */
  lemma {:induction false} DigitsShort(n: nat)
    ensures n >= 2 ==> |Digits(n)| < n
  {
    if n >= 20 {
      DigitsShort(n / 10);
    }
  }

  /** The end of the run of digits that starts at i. */
  function DigitRunEnd(t: seq<char>, i: nat): (e: nat)
    requires i <= |t|
    ensures i <= e <= |t| && AllDigits(t[i..e])
    ensures e == |t| || !IsDigit(t[e])
    decreases |t| - i
  {
    if i < |t| && IsDigit(t[i]) then
      var e := DigitRunEnd(t, i + 1);
      assert t[i..e] == [t[i]] + t[i + 1..e];
      e
    else i
  }

  /** The digit run that starts at i ends at the first non-digit. */
  lemma {:induction false} RunEndAt(t: seq<char>, i: nat, e: nat)
    requires i <= e <= |t| && AllDigits(t[i..e])
    requires e == |t| || !IsDigit(t[e])
    ensures DigitRunEnd(t, i) == e
    decreases e - i
  {
    if i < e {
      assert t[i] == t[i..e][0];
      var sub := t[i + 1..e];
      assert AllDigits(sub) by {
        forall k | 0 <= k < |sub|
          ensures IsDigit(sub[k])
        {
          assert sub[k] == t[i..e][k + 1];
        }
      }
      RunEndAt(t, i + 1, e);
    }
  }

  /** A numeral without a leading zero is positive. */
  lemma {:induction false} ValuePositive(ds: seq<char>)
    requires ds != [] && AllDigits(ds) && ds[0] != '0'
    ensures Value(ds) >= 1
  {
    var init := ds[..|ds| - 1];
    if init != [] {
      assert init[0] == ds[0];
      ValuePositive(init);
    }
  }

  /** A numeral without a leading zero is how its value is written. */
  lemma {:induction false} DigitsOfValue(ds: seq<char>)
    requires ds != [] && AllDigits(ds) && ds[0] != '0'
    ensures Digits(Value(ds)) == ds
  {
    var init := ds[..|ds| - 1];
    var d := DigitValue(ds[|ds| - 1]);
    if init == [] {
      assert ds == [ds[0]];
      assert DigitChar(d) == ds[0];
    } else {
      assert init[0] == ds[0];
      ValuePositive(init);
      DigitsOfValue(init);
      var v := Value(ds);
      assert v == 10 * Value(init) + d;
      assert v / 10 == Value(init) && v % 10 == d;
      assert DigitChar(d) == ds[|ds| - 1];
      assert ds == init + [ds[|ds| - 1]];
    }
  }
}
