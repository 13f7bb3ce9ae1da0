/** strings/zigzag.py: writes s down and up across num_rows rows and reads
    the rows off top to bottom. */
module Zigzag {
  import opened Common
  import opened PyInt

  /** Characters before the pattern repeats: down num_rows - 1 rows, then
      up num_rows - 1 rows. */
  function Period(numRows: int): int
    requires numRows >= 2
  {
    2 * (numRows - 1)
  }

  /** The row the i-th character lands on. */
  function RowOf(i: nat, numRows: int): (row: int)
    requires numRows >= 2
    ensures 0 <= row < numRows
  {
    var p := i % Period(numRows);
    if p < numRows then p else Period(numRows) - p
  }

  /** The direction the writer moves in after the i-th character. */
  function DirOf(i: nat, numRows: int): int
    requires numRows >= 2
  {
    if i % Period(numRows) < numRows - 1 then 1 else -1
  }

  /** One step further along the pattern the phase grows by one, or wraps. */
  lemma NextPhase(i: nat, p: int)
    requires p >= 2
    ensures (i + 1) % p == if i % p + 1 < p then i % p + 1 else 0
  {
    var q, r := i / p, i % p;
    if r + 1 < p {
      ModUnique(i + 1, p, q, r + 1);
    } else {
      ModUnique(i + 1, p, q + 1, 0);
    }
  }

  /** Moving one row in the current direction lands on the next
      character's row, and the direction flips exactly when that row is the
      top or the bottom one. */
  lemma Bounce(i: nat, numRows: int)
    requires numRows >= 2
    ensures var row' := RowOf(i, numRows) + DirOf(i, numRows);
      && row' == RowOf(i + 1, numRows)
      && DirOf(i + 1, numRows) == (if 0 < row' < numRows - 1 then DirOf(i, numRows) else if row' != 0 then -1 else 1)
  {
    NextPhase(i, Period(numRows));
  }

  /** Positions among the first n characters that land on row k, in order. */
  function RowPositions(n: nat, k: int, numRows: int): (ps: seq<nat>)
    requires numRows >= 2
    ensures forall m :: 0 <= m < |ps| ==> ps[m] < n
  {
    if n == 0 then []
    else RowPositions(n - 1, k, numRows) + (if RowOf(n - 1, numRows) == k then [n - 1] else [])
  }

  /** Row k once the first n characters of s are written. */
  function RowChars(s: seq<char>, n: nat, k: int, numRows: int): (row: seq<char>)
    requires numRows >= 2 && n <= |s|
    ensures |row| == |RowPositions(n, k, numRows)|
  {
    var ps := RowPositions(n, k, numRows);
    seq(|ps|, m requires 0 <= m < |ps| => s[ps[m]])
  }

  /** All rows once the first n characters of s are written. */
  function Rows(s: seq<char>, n: nat, numRows: int): (rows: seq<seq<char>>)
    requires numRows >= 2 && n <= |s|
    ensures |rows| == numRows
  {
    seq(numRows, k requires 0 <= k < numRows => RowChars(s, n, k, numRows))
  }

  /** "".join of a list of strings. */
  function Join(rows: seq<seq<char>>): seq<char>
  {
    if |rows| == 0 then [] else rows[0] + Join(rows[1..])
  }

  /** What convert(s, num_rows) returns, or None where it raises: with no
      rows the first character's append indexes an empty list. */
  function Convert(s: seq<char>, numRows: int): Option<seq<char>>
  {
    if numRows == 1 then Some(s)
    else if numRows < 1 then (if |s| == 0 then Some([]) else None)
    else Some(Join(Rows(s, |s|, numRows)))
  }

  /** Writing one more character appends it to its own row only. */
  lemma RowCharsStep(s: seq<char>, n: nat, k: int, numRows: int)
    requires numRows >= 2 && n < |s|
    ensures RowChars(s, n + 1, k, numRows)
         == RowChars(s, n, k, numRows) + (if RowOf(n, numRows) == k then [s[n]] else [])
  {
  }

  /** convert: the row lists and the curr_row/curr_dir walk. */
  method ConvertLoop(s: seq<char>, numRows: int) returns (r: Option<seq<char>>)
    ensures r == Convert(s, numRows)
  {
    if numRows == 1 {
      return Some(s);
    }
    if numRows < 1 {
      return if |s| == 0 then Some([]) else None;
    }
    var charLists: seq<seq<char>> := seq(numRows, _ => []);
    var currRow := 0;
    var currDir := 1;
    for i := 0 to |s|
      invariant |charLists| == numRows
      invariant forall k :: 0 <= k < numRows ==> charLists[k] == RowChars(s, i, k, numRows)
      invariant currRow == RowOf(i, numRows) && currDir == DirOf(i, numRows)
    {
      forall k | 0 <= k < numRows
        ensures RowChars(s, i + 1, k, numRows)
             == charLists[k] + (if currRow == k then [s[i]] else [])
      {
        RowCharsStep(s, i, k, numRows);
      }
      Bounce(i, numRows);
      charLists := charLists[currRow := charLists[currRow] + [s[i]]];
      currRow := currRow + currDir;
      if 0 < currRow < numRows - 1 {
        continue;
      }
      currDir := if currRow != 0 then -1 else 1;
    }
    assert charLists == Rows(s, |s|, numRows);
    return Some(Join(charLists));
  }

  /** Appending a character to one row adds it once to the joined text. */
  lemma {:induction false} JoinAppendAt(rows: seq<seq<char>>, k: int, c: char)
    requires 0 <= k < |rows|
    ensures multiset(Join(rows[k := rows[k] + [c]])) == multiset(Join(rows)) + multiset{c}
  {
    if k > 0 {
      assert rows[k := rows[k] + [c]][1..] == rows[1..][k - 1 := rows[k] + [c]];
      JoinAppendAt(rows[1..], k - 1, c);
    } else {
      assert rows[0 := rows[0] + [c]][1..] == rows[1..];
    }
  }

  /** The rows written so far hold exactly the characters written so far. */
  lemma {:induction false} RowsPermutation(s: seq<char>, n: nat, numRows: int)
    requires numRows >= 2 && n <= |s|
    ensures multiset(Join(Rows(s, n, numRows))) == multiset(s[..n])
  {
    if n == 0 {
      var rows := Rows(s, 0, numRows);
      assert forall k :: 0 <= k < numRows ==> rows[k] == [];
      EmptyRowsJoin(rows);
    } else {
      RowsPermutation(s, n - 1, numRows);
      var k := RowOf(n - 1, numRows);
      var before := Rows(s, n - 1, numRows);
      RowsStep(s, n, numRows);
      JoinAppendAt(before, k, s[n - 1]);
      TakeOneMore(s, n);
    }
  }

  /** The first n characters are the first n - 1 and one more. */
  lemma TakeOneMore(s: seq<char>, n: nat)
    requires 1 <= n <= |s|
    ensures multiset(s[..n]) == multiset(s[..n - 1]) + multiset{s[n - 1]}
  {
    assert s[..n] == s[..n - 1] + [s[n - 1]];
  }

  /** Writing character n - 1 appends it to the row it lands on. */
  lemma RowsStep(s: seq<char>, n: nat, numRows: int)
    requires numRows >= 2 && 1 <= n <= |s|
    ensures var before := Rows(s, n - 1, numRows); var k := RowOf(n - 1, numRows);
      0 <= k < |before| && Rows(s, n, numRows) == before[k := before[k] + [s[n - 1]]]
  {
    var k := RowOf(n - 1, numRows);
    var before := Rows(s, n - 1, numRows);
    forall j | 0 <= j < numRows
      ensures Rows(s, n, numRows)[j] == before[k := before[k] + [s[n - 1]]][j]
    {
      RowCharsStep(s, n - 1, j, numRows);
    }
  }

  lemma {:induction false} EmptyRowsJoin(rows: seq<seq<char>>)
    requires forall k :: 0 <= k < |rows| ==> rows[k] == []
    ensures Join(rows) == []
  {
    if |rows| > 0 {
      EmptyRowsJoin(rows[1..]);
    }
  }

  /** The output is a rearrangement of s; one row gives s itself; only
      a non-empty s with fewer than one row fails. */
  lemma ConvertPermutation(s: seq<char>, numRows: int)
    ensures Convert(s, numRows).Some? <==> (numRows >= 1 || |s| == 0)
    ensures Convert(s, numRows).Some? ==> multiset(Convert(s, numRows).value) == multiset(s)
    ensures numRows == 1 ==> Convert(s, numRows) == Some(s)
  {
    if numRows >= 2 {
      RowsPermutation(s, |s|, numRows);
      assert s[..|s|] == s;
    }
  }

  /** Within a row, characters keep their input order: the row lists the
      positions that land on it, strictly increasing, and no others. */
  lemma {:induction false} RowPositionsOrdered(n: nat, k: int, numRows: int)
    requires numRows >= 2
    ensures var ps := RowPositions(n, k, numRows);
      && (forall a, b :: 0 <= a < b < |ps| ==> ps[a] < ps[b])
      && (forall j :: j in ps <==> 0 <= j < n && RowOf(j, numRows) == k)
  {
    if n > 0 {
      RowPositionsOrdered(n - 1, k, numRows);
    }
  }
}
