/** Cell ids such as `B12`: the `[A-Z]+[0-9]+` pattern, the two
    `parseCellId` helpers, and the two ways the program turns column letters
    into numbers and back — column labels in bijective base 26 (A, …, Z, AA)
    and `columnToIndex`, plain base 26 with A = 0. */
module CellIds {
  import opened Wrappers
  import opened Text
  import opened Numbers

  /** End of the run of capital letters that starts at `i`. */
  function UpperEnd(s: string, i: nat): (j: nat)
    requires i <= |s|
    ensures i <= j <= |s| && AllUpper(s[i..j])
    ensures j < |s| ==> !IsUpper(s[j])
    decreases |s| - i
  {
    if i < |s| && IsUpper(s[i]) then
      var j := UpperEnd(s, i + 1);
      assert s[i..j] == [s[i]] + s[i + 1..j];
      j
    else i
  }

  lemma {:induction false} UpperEndAt(s: string, i: nat, j: nat)
    requires i <= j <= |s|
    requires forall k :: i <= k < j ==> IsUpper(s[k])
    requires j == |s| || !IsUpper(s[j])
    ensures UpperEnd(s, i) == j
    decreases j - i
  {
    if i < j {
      UpperEndAt(s, i + 1, j);
    }
  }

  /** `/^[A-Z]+[0-9]+$/`: capital letters followed by digits, nothing else. */
  predicate IsCellRef(s: string) {
    var j := UpperEnd(s, 0);
    0 < j < |s| && AllDigits(s[j..])
  }

  /** A cell reference spelled out: letters, then digits. */
  lemma CellRefParts(letters: string, digits: string)
    requires |letters| > 0 && AllUpper(letters)
    requires |digits| > 0 && AllDigits(digits)
    ensures IsCellRef(letters + digits)
    ensures UpperEnd(letters + digits, 0) == |letters|
  {
    var s := letters + digits;
    assert !IsUpper(s[|letters|]) by { assert s[|letters|] == digits[0]; }
    UpperEndAt(s, 0, |letters|);
    assert s[|letters|..] == digits;
  }

  /** `s[p..q]` is a match of the global pattern `/[A-Z]+[0-9]+/g`: a cell
      reference that no capital letter precedes and no digit follows. */
  predicate MaximalRef(s: string, p: nat, q: nat) {
    p < q <= |s| && IsCellRef(s[p..q])
    && (p == 0 || !IsUpper(s[p - 1]))
    && (q == |s| || !IsDigit(s[q]))
  }

  /** Positions from which the regular-expression scan may start a match:
      the start, a position after a non-capital, or one inside a run of
      capitals that is not followed by a digit. */
  predicate ScanPoint(s: string, i: nat)
    requires i <= |s|
  {
    var j := UpperEnd(s, i);
    i == 0 || !IsUpper(s[i - 1]) || !(j < |s| && IsDigit(s[j]))
  }

  /** The matches of `/[A-Z]+[0-9]+/g` in `s` at or after position `i`, as
      start and end positions, left to right. */
  function SpansFrom(s: string, i: nat): (r: seq<(nat, nat)>)
    requires i <= |s| && ScanPoint(s, i)
    ensures forall k :: 0 <= k < |r| ==> i <= r[k].0 && MaximalRef(s, r[k].0, r[k].1)
    ensures forall k :: 0 < k < |r| ==> r[k - 1].1 <= r[k].0
    decreases |s| - i
  {
    if i == |s| then []
    else
      var j := UpperEnd(s, i);
      if j > i && j < |s| && IsDigit(s[j]) then
        var e := DigitEnd(s, j);
        RefFrom(s, i);
        [(i, e)] + SpansFrom(s, e)
      else
        ScanNext(s, i);
        SpansFrom(s, i + 1)
  }

  /** Capitals from `i` to `j` and digits from `j` to `e` spell a cell
      reference. */
  lemma RefShape(s: string, i: nat, j: nat, e: nat)
    requires i < j < e <= |s|
    requires AllUpper(s[i..j]) && AllDigits(s[j..e])
    ensures IsCellRef(s[i..e])
  {
    var t := s[i..e];
    assert forall k :: 0 <= k < j - i ==> IsUpper(t[k]) by {
      forall k | 0 <= k < j - i ensures IsUpper(t[k]) {
        assert t[k] == s[i..j][k];
      }
    }
    assert t[j - i] == s[j..e][0];
    UpperEndAt(t, 0, j - i);
    assert t[j - i..] == s[j..e];
  }

  /** A scan point followed by capitals and then a digit starts a match,
      which ends at the end of those digits, a scan point again. */
  lemma RefFrom(s: string, i: nat)
    requires i < |s| && ScanPoint(s, i)
    requires UpperEnd(s, i) > i && UpperEnd(s, i) < |s| && IsDigit(s[UpperEnd(s, i)])
    ensures var e := DigitEnd(s, UpperEnd(s, i));
      i < e <= |s| && MaximalRef(s, i, e) && ScanPoint(s, e)
  {
    var j := UpperEnd(s, i);
    var e := DigitEnd(s, j);
    RefShape(s, i, j, e);
    assert IsDigit(s[e - 1]) by { assert s[e - 1] == s[j..e][e - 1 - j]; }
  }

  /** A scan point where no match starts is followed by one. */
  lemma ScanNext(s: string, i: nat)
    requires i < |s| && ScanPoint(s, i)
    requires !(UpperEnd(s, i) > i && UpperEnd(s, i) < |s| && IsDigit(s[UpperEnd(s, i)]))
    ensures ScanPoint(s, i + 1)
  {
    assert IsUpper(s[i]) ==> UpperEnd(s, i + 1) == UpperEnd(s, i);
  }

  /** Where no match starts at `i`, the scan goes on at `i + 1`. */
  lemma ScanPast(s: string, i: nat)
    requires i < |s| && ScanPoint(s, i)
    requires !(UpperEnd(s, i) > i && UpperEnd(s, i) < |s| && IsDigit(s[UpperEnd(s, i)]))
    ensures ScanPoint(s, i + 1) && SpansFrom(s, i) == SpansFrom(s, i + 1)
  {
    assert IsUpper(s[i]) ==> UpperEnd(s, i + 1) == UpperEnd(s, i);
  }

  /** Where a match starts at `i`, it ends at the end of its digits and the
      scan goes on there. */
  lemma ScanRef(s: string, i: nat)
    requires i < |s| && ScanPoint(s, i)
    requires UpperEnd(s, i) > i && UpperEnd(s, i) < |s| && IsDigit(s[UpperEnd(s, i)])
    ensures var e := DigitEnd(s, UpperEnd(s, i));
      i < e <= |s| && ScanPoint(s, e) && SpansFrom(s, i) == [(i, e)] + SpansFrom(s, e)
  {
  }

  /** The letters of a match end at `m`, its digits at `q`. */
  lemma MatchShape(s: string, p: nat, q: nat) returns (m: nat)
    requires MaximalRef(s, p, q)
    ensures p < m < q
    ensures forall k :: p <= k < m ==> IsUpper(s[k])
    ensures forall k :: m <= k < q ==> IsDigit(s[k])
    ensures UpperEnd(s, p) == m && DigitEnd(s, m) == q
  {
    var t := s[p..q];
    var j := UpperEnd(t, 0);
    m := p + j;
    forall k | p <= k < m ensures IsUpper(s[k]) {
      assert t[..j][k - p] == s[k];
    }
    forall k | m <= k < q ensures IsDigit(s[k]) {
      assert t[j..][k - m] == s[k];
    }
    assert !IsUpper(s[m]) by { assert IsDigit(s[m]); }
    UpperEndAt(s, p, m);
    DigitEndAt(s, m, q);
  }

  /** Every match at or after a scan point is found. */
  lemma {:induction false} SpansFromComplete(s: string, i: nat, p: nat, q: nat)
    requires i <= |s| && ScanPoint(s, i)
    requires i <= p && MaximalRef(s, p, q)
    ensures (p, q) in SpansFrom(s, i)
    decreases |s| - i
  {
    var j := UpperEnd(s, i);
    if i == p {
      var m := MatchShape(s, p, q);
    } else if j > i && j < |s| && IsDigit(s[j]) {
      MatchAfter(s, i, p, q);
      ScanRef(s, i);
      SpansFromComplete(s, DigitEnd(s, j), p, q);
    } else {
      ScanPast(s, i);
      SpansFromComplete(s, i + 1, p, q);
    }
  }

  /** A match found at `i` ends no later than any match starting after `i`
      begins: matches do not overlap. */
  lemma MatchAfter(s: string, i: nat, p: nat, q: nat)
    requires i < p && MaximalRef(s, p, q)
    requires UpperEnd(s, i) > i && UpperEnd(s, i) < |s| && IsDigit(s[UpperEnd(s, i)])
    ensures p >= DigitEnd(s, UpperEnd(s, i))
  {
    var m := MatchShape(s, p, q);
    var j := UpperEnd(s, i);
    var e := DigitEnd(s, j);
    assert forall k :: i <= k < j ==> IsUpper(s[k]) by {
      assert forall k :: i <= k < j ==> s[i..j][k - i] == s[k];
    }
    assert forall k :: j <= k < e ==> IsDigit(s[k]) by {
      assert forall k :: j <= k < e ==> s[j..e][k - j] == s[k];
    }
  }

  /** The matches of `/[A-Z]+[0-9]+/g` in `s`, as `s.match(...)` lists them
      (an empty list in place of `null`). */
  function CellRefs(s: string): (refs: seq<string>)
    ensures forall k :: 0 <= k < |refs| ==> IsCellRef(refs[k])
  {
    var spans := SpansFrom(s, 0);
    seq(|spans|, k requires 0 <= k < |spans| => s[spans[k].0..spans[k].1])
  }

  /** A text is among the matches exactly when it occurs in `s` as a cell
      reference with no capital letter before it and no digit after it. */
  lemma CellRefsExactly(s: string, x: string)
    ensures x in CellRefs(s) <==> exists p: nat, q: nat :: MaximalRef(s, p, q) && s[p..q] == x
  {
    if x in CellRefs(s) {
      CellRefsSound(s, x);
    }
    if exists p: nat, q: nat :: MaximalRef(s, p, q) && s[p..q] == x {
      var p: nat, q: nat :| MaximalRef(s, p, q) && s[p..q] == x;
      CellRefsComplete(s, p, q);
    }
  }

  /** Every match is a maximal reference in `s`. */
  lemma CellRefsSound(s: string, x: string)
    requires x in CellRefs(s)
    ensures exists p: nat, q: nat :: MaximalRef(s, p, q) && s[p..q] == x
  {
    var spans := SpansFrom(s, 0);
    var k :| 0 <= k < |spans| && CellRefs(s)[k] == x;
    assert MaximalRef(s, spans[k].0, spans[k].1);
  }

  /** Every maximal reference in `s` is a match. */
  lemma CellRefsComplete(s: string, p: nat, q: nat)
    requires MaximalRef(s, p, q)
    ensures s[p..q] in CellRefs(s)
  {
    var spans := SpansFrom(s, 0);
    SpansFromComplete(s, 0, p, q);
    var k :| 0 <= k < |spans| && spans[k] == (p, q);
    assert CellRefs(s)[k] == s[p..q];
  }

  /** A whole cell id is its own single match. */
  lemma CellRefsOfRef(s: string)
    requires IsCellRef(s)
    ensures CellRefs(s) == [s]
  {
    var j := UpperEnd(s, 0);
    DigitEndAt(s, j, |s|);
    assert s[0..|s|] == s;
    assert SpansFrom(s, |s|) == [];
  }

  /** `v` occurs in `s` at `k`, no capital comes before it and none follows
      it: the leftmost maximal run of capitals when `v` is one. */
  predicate UpperRunAt(s: string, k: nat, v: string)
  {
    k + |v| <= |s| && (forall i :: 0 <= i < k ==> !IsUpper(s[i]))
    && v == s[k..k + |v|] && (k + |v| == |s| || !IsUpper(s[k + |v|]))
  }

  /** The same for digits. */
  predicate DigitRunAt(s: string, k: nat, v: string)
  {
    k + |v| <= |s| && (forall i :: 0 <= i < k ==> !IsDigit(s[i]))
    && v == s[k..k + |v|] && (k + |v| == |s| || !IsDigit(s[k + |v|]))
  }

  /** A run found after a first character that is not in it is a run of
      the whole string too. */
  lemma UpperRunShift(s: string, v: string)
    requires s != [] && !IsUpper(s[0]) && exists k :: UpperRunAt(s[1..], k, v)
    ensures exists k :: UpperRunAt(s, k, v)
  {
    var k: nat :| UpperRunAt(s[1..], k, v);
    assert forall j :: 1 <= j < |s| ==> s[j] == s[1..][j - 1];
    assert s[1..][k..k + |v|] == s[k + 1..k + 1 + |v|];
    assert UpperRunAt(s, k + 1, v);
  }

  /** The first run of capital letters in `s`, if any (`s.match(/[A-Z]+/)`). */
  function FirstUpperRun(s: string): (r: Option<string>)
    ensures r.Some? <==> exists k :: 0 <= k < |s| && IsUpper(s[k])
    ensures r.Some? ==> |r.value| > 0 && AllUpper(r.value)
    ensures r.Some? ==> exists k :: UpperRunAt(s, k, r.value)
    decreases |s|
  {
    if s == [] then None
    else if IsUpper(s[0]) then
      assert UpperRunAt(s, 0, s[..UpperEnd(s, 0)]);
      Some(s[..UpperEnd(s, 0)])
    else
      var r := FirstUpperRun(s[1..]);
      assert forall k :: 1 <= k < |s| ==> s[k] == s[1..][k - 1];
      if r.Some? then
        UpperRunShift(s, r.value);
        r
      else r
  }

  /** A run found after a first character that is not in it is a run of
      the whole string too. */
  lemma DigitRunShift(s: string, v: string)
    requires s != [] && !IsDigit(s[0]) && exists k :: DigitRunAt(s[1..], k, v)
    ensures exists k :: DigitRunAt(s, k, v)
  {
    var k: nat :| DigitRunAt(s[1..], k, v);
    assert forall j :: 1 <= j < |s| ==> s[j] == s[1..][j - 1];
    assert s[1..][k..k + |v|] == s[k + 1..k + 1 + |v|];
    assert DigitRunAt(s, k + 1, v);
  }

  /** The first run of digits in `s`, if any (`s.match(/[0-9]+/)`). */
  function FirstDigitRun(s: string): (r: Option<string>)
    ensures r.Some? <==> exists k :: 0 <= k < |s| && IsDigit(s[k])
    ensures r.Some? ==> |r.value| > 0 && AllDigits(r.value)
    ensures r.Some? ==> exists k :: DigitRunAt(s, k, r.value)
    decreases |s|
  {
    if s == [] then None
    else if IsDigit(s[0]) then
      assert DigitRunAt(s, 0, s[..DigitEnd(s, 0)]);
      Some(s[..DigitEnd(s, 0)])
    else
      var r := FirstDigitRun(s[1..]);
      assert forall k :: 1 <= k < |s| ==> s[k] == s[1..][k - 1];
      if r.Some? then
        DigitRunShift(s, r.value);
        r
      else r
  }

  /** `parseCellId` of the application: the first run of capitals and the
      first run of digits, as text; None where `match(...)[0]` throws. */
  function SplitCellId(id: string): (r: Option<(string, string)>)
    ensures r.Some? <==> FirstUpperRun(id).Some? && FirstDigitRun(id).Some?
  {
    match (FirstUpperRun(id), FirstDigitRun(id))
    case (Some(col), Some(row)) => Some((col, row))
    case _ => None
  }

  /** `parseCellId` of the store: the first run of capitals and the number
      `parseInt` reads from the first run of digits. */
  function ParseCellId(id: string): (r: Option<(string, nat)>)
    ensures r.Some? <==> SplitCellId(id).Some?
    ensures r.Some? ==> |r.value.0| > 0 && AllUpper(r.value.0)
  {
    match SplitCellId(id)
    case Some((col, row)) => Some((col, DigitsValue(row)))
    case None => None
  }

  /** The first run of capitals starting at the front of a cell id is its
      column part. */
  lemma FirstUpperRunOfRef(letters: string, rest: string)
    requires |letters| > 0 && AllUpper(letters)
    requires |rest| > 0 && !IsUpper(rest[0])
    ensures FirstUpperRun(letters + rest) == Some(letters)
  {
    var s := letters + rest;
    assert s[|letters|] == rest[0];
    UpperEndAt(s, 0, |letters|);
    assert s[..|letters|] == letters;
  }

  lemma {:induction false} FirstDigitRunAfterLetters(letters: string, digits: string)
    requires AllUpper(letters)
    requires |digits| > 0 && AllDigits(digits)
    ensures FirstDigitRun(letters + digits) == Some(digits)
    decreases |letters|
  {
    var s := letters + digits;
    if letters == [] {
      assert s == digits;
      DigitEndAt(s, 0, |s|);
      assert s[..|s|] == s;
    } else {
      assert !IsDigit(s[0]);
      assert s[1..] == letters[1..] + digits;
      FirstDigitRunAfterLetters(letters[1..], digits);
    }
  }

  /** Both `parseCellId` helpers take a cell id apart into its column letters
      and its row digits. */
  lemma SplitCellIdOfRef(letters: string, digits: string)
    requires |letters| > 0 && AllUpper(letters)
    requires |digits| > 0 && AllDigits(digits)
    ensures SplitCellId(letters + digits) == Some((letters, digits))
    ensures ParseCellId(letters + digits) == Some((letters, DigitsValue(digits)))
  {
    assert !IsUpper(digits[0]);
    FirstUpperRunOfRef(letters, digits);
    FirstDigitRunAfterLetters(letters, digits);
  }

  /** The id of the cell in column `col` and row `row`, as the program writes
      it: letters followed by `String(row)`. */
  function CellId(col: string, row: nat): string
  {
    col + NatToString(row)
  }

  /** `parseCellId` undoes `CellId`. */
  lemma ParseCellIdOfCellId(col: string, row: nat)
    requires |col| > 0 && AllUpper(col)
    ensures ParseCellId(CellId(col, row)) == Some((col, row))
  {
    SplitCellIdOfRef(col, NatToString(row));
    NatToStringValue(row);
  }

  /** Distinct columns or rows give distinct ids. */
  lemma CellIdInjective(c1: string, r1: nat, c2: string, r2: nat)
    requires |c1| > 0 && AllUpper(c1) && |c2| > 0 && AllUpper(c2)
    ensures CellId(c1, r1) == CellId(c2, r2) <==> c1 == c2 && r1 == r2
  {
    if CellId(c1, r1) == CellId(c2, r2) {
      ParseCellIdOfCellId(c1, r1);
      ParseCellIdOfCellId(c2, r2);
    }
  }

  /** The letter for `0 <= d < 26`: A for 0, Z for 25. */
  function Letter(d: int): char
    requires 0 <= d < 26
  {
    (65 + d) as char
  }

  /** `indexToColumn(i)` / `getColumnLabel(i)`: the column label of index
      `i` in bijective base 26 (0 → A, 25 → Z, 26 → AA); empty for a
      negative index. */
  function ColumnLabel(i: int): (r: string)
    ensures r == [] <==> i < 0
    ensures AllUpper(r)
    decreases if i < 0 then 0 else i + 1
  {
    if i < 0 then "" else ColumnLabel(i / 26 - 1) + [Letter(i % 26)]
  }

  /** The number a label denotes in bijective base 26 with A = 1, … Z = 26. */
  function BijectiveValue(s: string): int
    decreases |s|
  {
    if s == [] then 0 else 26 * BijectiveValue(s[..|s| - 1]) + (s[|s| - 1] as int - 64)
  }

  /** The label of `i` denotes `i + 1`. */
  lemma {:induction false} ColumnLabelValue(i: int)
    requires i >= 0
    ensures BijectiveValue(ColumnLabel(i)) == i + 1
    decreases i
  {
    var s := ColumnLabel(i);
    var p := ColumnLabel(i / 26 - 1);
    assert s[..|s| - 1] == p;
    if i >= 26 {
      ColumnLabelValue(i / 26 - 1);
    }
  }

  lemma {:induction false} BijectiveValuePositive(s: string)
    requires AllUpper(s)
    ensures s != [] ==> BijectiveValue(s) >= 1
    ensures BijectiveValue(s) >= 0
    decreases |s|
  {
    if s != [] {
      BijectiveValuePositive(s[..|s| - 1]);
    }
  }

  /** Every non-empty string of capitals is the label of exactly one index:
      the one it denotes, minus one. */
  lemma {:induction false} ColumnLabelOfValue(s: string)
    requires |s| > 0 && AllUpper(s)
    ensures ColumnLabel(BijectiveValue(s) - 1) == s
    decreases |s|
  {
    var p := s[..|s| - 1];
    var d := s[|s| - 1] as int - 65;
    var i := BijectiveValue(s) - 1;
    BijectiveValuePositive(p);
    assert i == 26 * BijectiveValue(p) + d;
    assert i / 26 - 1 == BijectiveValue(p) - 1;
    assert i % 26 == d;
    if p != [] {
      ColumnLabelOfValue(p);
    }
    assert s == p + [Letter(d)];
  }

  /** `columnToIndex(s)`: plain base 26 over character codes, A = 0. */
  function PlainBase26(s: string): int
    decreases |s|
  {
    if s == [] then 0 else 26 * PlainBase26(s[..|s| - 1]) + (s[|s| - 1] as int - 65)
  }

  /** `1 + 26 + … + 26^(n-1)`. */
  function Ones(n: nat): nat
  {
    if n == 0 then 0 else 26 * Ones(n - 1) + 1
  }

  /** Reading a label in plain base 26 loses one per digit position. */
  lemma {:induction false} PlainBijective(s: string)
    ensures PlainBase26(s) + Ones(|s|) == BijectiveValue(s)
    decreases |s|
  {
    if s != [] {
      PlainBijective(s[..|s| - 1]);
    }
  }

  /** `columnToIndex` undoes `indexToColumn` exactly on the single-letter
      columns A–Z: for two or more letters it reads `AA` as 0. */
  lemma ColumnToIndexOfLabel(i: nat)
    ensures PlainBase26(ColumnLabel(i)) == i <==> i < 26
  {
    var s := ColumnLabel(i);
    ColumnLabelValue(i);
    PlainBijective(s);
    if i >= 26 {
      assert |s| >= 2 by {
        assert s == ColumnLabel(i / 26 - 1) + [Letter(i % 26)];
      }
      assert Ones(|s|) >= 2 by { OnesGrow(|s|); }
    }
  }

  lemma {:induction false} OnesGrow(n: nat)
    requires n >= 2
    ensures Ones(n) >= 27
  {
    if n > 2 {
      OnesGrow(n - 1);
    }
  }

  /** `indexToColumn(index)`: prepends one letter per round. */
  method IndexToColumn(index: int) returns (column: string)
    ensures column == ColumnLabel(index)
  {
    var i := index;
    column := "";
    while i >= 0
      invariant ColumnLabel(i) + column == ColumnLabel(index)
      decreases if i < 0 then 0 else i + 1
    {
      column := [Letter(i % 26)] + column;
      i := i / 26 - 1;
    }
  }

  /** `columnToIndex(column)`: accumulates `index * 26 + code - 65`. */
  method ColumnToIndex(column: string) returns (index: int)
    ensures index == PlainBase26(column)
  {
    index := 0;
    var i := 0;
    while i < |column|
      invariant 0 <= i <= |column|
      invariant index == PlainBase26(column[..i])
    {
      assert column[..i + 1][..i] == column[..i];
      index := index * 26 + column[i] as int - 65;
      i := i + 1;
    }
    assert column[..|column|] == column;
  }
}
