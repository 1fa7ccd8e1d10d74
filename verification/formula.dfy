/** `FormulaHandler`: how a cell formula such as `=SUM(A1:B3)` or
    `=(A1+2)*B1` is evaluated. Cell values come from a resolver, the
    `getCellValue` callback; `show` stands for `String(x)` on a finite
    number, whose digits the model does not spell out. */
module Formula {
  import opened Wrappers
  import opened Text
  import opened Numbers
  import opened CellIds
  import Calc

  /** The outcome of `evaluate`: a value, or the parenthesis loop of
      `calculateExpression` running forever. */
  datatype Evaluation = Evaluated(v: Value) | Loops

  /** What `getRangeValues` produces: the values read, or the exception it
      throws when an endpoint has no capital letter or no digit. */
  datatype RangeResult = Values(vals: seq<Value>) | Throws

  /** The cells a range argument denotes: a list of ids, the argument itself
      taken as a literal value, or an exception. */
  datatype RangeCells = Ids(ids: seq<string>) | Literal(text: string) | Fails

  const FunctionNames: seq<string> := ["SUM", "AVERAGE", "MAX", "MIN", "COUNT", "TRIM", "UPPER", "LOWER"]
  const RangeFunctions: seq<string> := ["SUM", "AVERAGE", "MAX", "MIN", "COUNT"]

  /** `String.fromCharCode(code)`: the UTF-16 code unit `code mod 2^16`. A
      lone surrogate half, which a `char` cannot hold, becomes U+FFFD. */
  function CodeUnit(code: int): char
  {
    var u := code % 65536;
    if 0xD800 <= u <= 0xDFFF then '\U{FFFD}' else u as char
  }

  /** The id `getRangeValues` builds for a column number and a row:
      `String.fromCharCode(65 + col) + row`. */
  function CellAt(col: int, row: nat): string
  {
    [CodeUnit(65 + col)] + NatToString(row)
  }

  /** The ids of row `row`, columns `c1` up to but not including `c`. */
  function RowIds(c1: int, c: int, row: nat): (ids: seq<string>)
    ensures |ids| == if c <= c1 then 0 else c - c1
    decreases c - c1
  {
    if c <= c1 then [] else RowIds(c1, c - 1, row) + [CellAt(c - 1, row)]
  }

  /** Column `c1 + j` of the row comes at position `j`. */
  lemma {:induction false} RowIdsAt(c1: int, c: int, row: nat)
    ensures forall j :: 0 <= j < |RowIds(c1, c, row)| ==> RowIds(c1, c, row)[j] == CellAt(c1 + j, row)
    decreases c - c1
  {
    if c > c1 {
      RowIdsAt(c1, c - 1, row);
    }
  }

  lemma RowIdAt(c1: int, c: int, row: nat, j: nat)
    requires j < c - c1
    ensures RowIds(c1, c, row)[j] == CellAt(c1 + j, row)
  {
    RowIdsAt(c1, c, row);
  }

  /** The ids of rows `r1` up to but not including `r`, each row from
      column `c1` to column `c2`. */
  function Grid(c1: int, c2: int, r1: nat, r: nat): seq<string>
    decreases r - r1
  {
    if r <= r1 then [] else Grid(c1, c2, r1, r - 1) + RowIds(c1, c2 + 1, r - 1)
  }

  function Width(c1: int, c2: int): nat
  {
    if c2 < c1 then 0 else c2 - c1 + 1
  }

  /** `i` rows of width `w`: `i * w`, written as repeated addition. */
  function Offset(i: nat, w: nat): nat
  {
    if i == 0 then 0 else Offset(i - 1, w) + w
  }

  lemma {:induction false} OffsetIsProduct(i: nat, w: nat)
    ensures Offset(i, w) == i * w
  {
    if i > 0 {
      OffsetIsProduct(i - 1, w);
      assert i * w == (i - 1) * w + w;
    }
  }

  lemma {:induction false} OffsetBelow(i: nat, n: nat, w: nat, j: nat)
    requires i < n && j < w
    ensures Offset(i, w) + j < Offset(n, w)
  {
    if i + 1 < n {
      OffsetBelow(i, n - 1, w, j);
    }
  }

  /** `n` rows hold `n` times the width. */
  lemma {:induction false} GridLength(c1: int, c2: int, r1: nat, n: nat)
    ensures |Grid(c1, c2, r1, r1 + n)| == Offset(n, Width(c1, c2))
  {
    if n > 0 {
      GridLength(c1, c2, r1, n - 1);
      assert Grid(c1, c2, r1, r1 + n) == Grid(c1, c2, r1, r1 + (n - 1)) + RowIds(c1, c2 + 1, r1 + n - 1);
    }
  }

  /** The rectangle is listed row by row, left to right: the cell in row
      `r1 + i` and column `c1 + j` comes at position `i * width + j`. */
  lemma GridIndex(c1: int, c2: int, r1: nat, r: nat, i: nat, j: nat)
    requires r1 + i < r && j < Width(c1, c2)
    ensures Offset(i, Width(c1, c2)) + j < |Grid(c1, c2, r1, r)|
    ensures Grid(c1, c2, r1, r)[Offset(i, Width(c1, c2)) + j] == CellAt(c1 + j, r1 + i)
  {
    GridLength(c1, c2, r1, i);
    GridIndexFrom(c1, c2, r1, r, i, j, Offset(i, Width(c1, c2)) + j);
    RowIdAt(c1, c2 + 1, r1 + i, j);
  }

  /** Position `x`, `j` past the rows before row `r1 + i`, holds column
      `c1 + j` of that row. */
  lemma {:induction false} GridIndexFrom(c1: int, c2: int, r1: nat, r: nat, i: nat, j: nat, x: nat)
    requires r1 + i < r && j < Width(c1, c2)
    requires x == |Grid(c1, c2, r1, r1 + i)| + j
    ensures x < |Grid(c1, c2, r1, r)|
    ensures Grid(c1, c2, r1, r)[x] == RowIds(c1, c2 + 1, r1 + i)[j]
    decreases r - r1
  {
    var prev := Grid(c1, c2, r1, r - 1);
    var row := RowIds(c1, c2 + 1, r - 1);
    assert Grid(c1, c2, r1, r) == prev + row;
    if r1 + i < r - 1 {
      GridIndexFrom(c1, c2, r1, r - 1, i, j, x);
      assert (prev + row)[x] == prev[x];
    } else {
      assert (prev + row)[x] == row[j];
    }
  }

  /** `/^([A-Z]+)\((.*)\)$/`: a name of capitals, `(`, arguments on one
      line, `)` at the very end. */
  function CallForm(f: string): (r: Option<(string, string)>)
    ensures r.Some? ==> |r.value.0| > 0 && AllUpper(r.value.0)
    ensures r.Some? ==> f == r.value.0 + "(" + r.value.1 + ")"
  {
    var j := UpperEnd(f, 0);
    if 0 < j && j + 2 <= |f| && f[j] == '(' && f[|f| - 1] == ')'
       && forall k :: j < k < |f| - 1 ==> !IsLineTerminator(f[k])
    then
      assert f == f[..j] + "(" + f[j + 1..|f| - 1] + ")";
      Some((f[..j], f[j + 1..|f| - 1]))
    else None
  }

  /** A call of one of the eight functions, with its argument trimmed. */
  function KnownCall(f: string): (r: Option<(string, string)>)
    ensures r.Some? ==> r.value.0 in FunctionNames
  {
    match CallForm(f)
    case Some((name, args)) => if name in FunctionNames then Some((name, Trim(args))) else None
    case None => None
  }

  /** `NAME(args)` with one of the eight names and arguments on one line is
      recognised as a call of NAME on the trimmed arguments. */
  lemma CallRecognised(name: string, args: string)
    requires name in FunctionNames
    requires forall k :: 0 <= k < |args| ==> !IsLineTerminator(args[k])
    ensures KnownCall(name + "(" + args + ")") == Some((name, Trim(args)))
  {
    var f := name + "(" + args + ")";
    NamesUpper(name);
    var j := |name|;
    assert forall k :: 0 <= k < j ==> f[k] == name[k];
    assert f[j] == '(';
    UpperEndAt(f, 0, j);
    assert forall k :: j < k < |f| - 1 ==> f[k] == args[k - j - 1];
    assert f[..j] == name;
    assert f[j + 1..|f| - 1] == args;
    assert CallForm(f) == Some((name, args));
  }

  lemma NamesUpper(name: string)
    requires name in FunctionNames
    ensures |name| > 0 && AllUpper(name)
  {
  }

  /** The cells the range argument of SUM, AVERAGE, MAX, MIN or COUNT
      denotes. A single id is itself. Otherwise the argument is split at `:`
      and both ends trimmed; a missing end makes the argument a literal
      value. Each end's column is its first run of capitals read by
      `getColumnIndex`, its row the first run of digits. */
  function RangeOf(range: string): RangeCells
  {
    if IsCellRef(range) then Ids([range])
    else
      var (start, end) := RangeEnds(range);
      if start == "" || end == "" then Literal(range) else Rectangle(start, end)
  }

  /** `range.split(':').map(s => s.trim())`: the two ends, the second empty
      when there is no colon. */
  function RangeEnds(range: string): (ends: (string, string))
    ensures Trim(ends.0) == ends.0 && Trim(ends.1) == ends.1
  {
    var parts := Split(range, ':');
    TrimIdempotent(parts[0]);
    if |parts| > 1 then TrimIdempotent(parts[1]); (Trim(parts[0]), Trim(parts[1]))
    else (Trim(parts[0]), "")
  }

  /** The cells between two trimmed, non-empty ends. */
  function Rectangle(start: string, end: string): RangeCells
  {
    match (SplitCellId(start), SplitCellId(end))
    case (Some((c1, r1)), Some((c2, r2))) =>
      Ids(Grid(PlainBase26(c1), PlainBase26(c2), DigitsValue(r1), DigitsValue(r2) + 1))
    case _ => Fails
  }

  function Resolved(ids: seq<string>, resolve: string -> Value): (vals: seq<Value>)
    ensures |vals| == |ids| && forall k :: 0 <= k < |ids| ==> vals[k] == resolve(ids[k])
  {
    seq(|ids|, k requires 0 <= k < |ids| => resolve(ids[k]))
  }

  /** `getRangeValues(range, getCellValue)`. */
  function RangeValues(range: string, resolve: string -> Value): RangeResult
  {
    match RangeOf(range)
    case Ids(ids) => Values(Resolved(ids, resolve))
    case Literal(t) => Values([Str(t)])
    case Fails => Throws
  }

  /** The ids a range argument makes `getRangeValues` read, in order. */
  function RangeReads(range: string): seq<string>
  {
    match RangeOf(range)
    case Ids(ids) => ids
    case _ => []
  }

  /** A range written `A1:C2` denotes the rectangle between its ends. */
  lemma RangeOfRefs(l1: string, d1: string, l2: string, d2: string)
    requires |l1| > 0 && AllUpper(l1) && |d1| > 0 && AllDigits(d1)
    requires |l2| > 0 && AllUpper(l2) && |d2| > 0 && AllDigits(d2)
    ensures RangeOf(l1 + d1 + ":" + l2 + d2)
      == Ids(Grid(PlainBase26(l1), PlainBase26(l2), DigitsValue(d1), DigitsValue(d2) + 1))
  {
    var a := l1 + d1;
    var b := l2 + d2;
    assert l1 + d1 + ":" + l2 + d2 == a + ":" + b;
    RangeNotRef(l1, d1, b);
    NoSpaceTrim(a, l1, d1);
    NoSpaceTrim(b, l2, d2);
    SplitRange(a, b);
    SplitCellIdOfRef(l1, d1);
    SplitCellIdOfRef(l2, d2);
    RangeOfSplit(a + ":" + b, a, b, l1, d1, l2, d2);
  }

  lemma RangeOfSplit(s: string, a: string, b: string, l1: string, d1: string, l2: string, d2: string)
    requires !IsCellRef(s) && Split(s, ':') == [a, b]
    requires Trim(a) == a != "" && Trim(b) == b != ""
    requires SplitCellId(a) == Some((l1, d1)) && SplitCellId(b) == Some((l2, d2))
    ensures RangeOf(s) == Ids(Grid(PlainBase26(l1), PlainBase26(l2), DigitsValue(d1), DigitsValue(d2) + 1))
  {
    assert RangeEnds(s) == (a, b);
    RectangleOfIds(a, b, l1, d1, l2, d2);
  }

  lemma RectangleOfIds(a: string, b: string, l1: string, d1: string, l2: string, d2: string)
    requires SplitCellId(a) == Some((l1, d1)) && SplitCellId(b) == Some((l2, d2))
    ensures Rectangle(a, b) == Ids(Grid(PlainBase26(l1), PlainBase26(l2), DigitsValue(d1), DigitsValue(d2) + 1))
  {
  }

  lemma RangeNotRef(l1: string, d1: string, b: string)
    requires |l1| > 0 && AllUpper(l1) && |d1| > 0 && AllDigits(d1)
    ensures !IsCellRef(l1 + d1 + ":" + b)
  {
    var a := l1 + d1;
    var s := a + ":" + b;
    assert forall k :: 0 <= k < |l1| ==> s[k] == l1[k];
    assert forall k :: |l1| <= k < |a| ==> s[k] == d1[k - |l1|];
    assert s[|l1|] == d1[0];
    UpperEndAt(s, 0, |l1|);
    assert s[|l1|..][|d1|] == ':';
  }

  /** Splitting `a:b` at the colon gives the two ends back. */
  lemma SplitRange(a: string, b: string)
    requires forall k :: 0 <= k < |a| ==> a[k] != ':'
    requires forall k :: 0 <= k < |b| ==> b[k] != ':'
    ensures Split(a + ":" + b, ':') == [a, b]
  {
    assert Join([a, b], ':') == a + ":" + b;
    SplitJoin([a, b], ':');
  }

  /** A cell id has no white space to trim and no colon. */
  lemma NoSpaceTrim(a: string, letters: string, digits: string)
    requires a == letters + digits && AllUpper(letters) && AllDigits(digits)
    ensures Trim(a) == a
    ensures forall k :: 0 <= k < |a| ==> a[k] != ':'
  {
    assert forall k :: 0 <= k < |a| ==> (IsUpper(a[k]) || IsDigit(a[k])) by {
      assert forall k :: 0 <= k < |letters| ==> a[k] == letters[k];
      assert forall k :: |letters| <= k < |a| ==> a[k] == digits[k - |letters|];
    }
    TrimUnspaced(a);
  }

  lemma ResolvedAppend(ids: seq<string>, id: string, resolve: string -> Value)
    ensures Resolved(ids + [id], resolve) == Resolved(ids, resolve) + [resolve(id)]
  {
  }

  /** `getColumnIndex(cellRef)`: the first run of capitals read in plain
      base 26; None where `match(...)[0]` throws. */
  method GetColumnIndex(cellRef: string) returns (index: Option<int>)
    ensures index.None? <==> FirstUpperRun(cellRef).None?
    ensures index.Some? ==> index.value == PlainBase26(FirstUpperRun(cellRef).value)
  {
    var run := FirstUpperRun(cellRef);
    if run.None? {
      return None;
    }
    var i := ColumnToIndex(run.value);
    return Some(i);
  }

  /** `getRangeValues(range, getCellValue)`: one id per cell, rows outside,
      columns inside. */
  method GetRangeValues(range: string, resolve: string -> Value) returns (r: RangeResult)
    ensures r == RangeValues(range, resolve)
  {
    if IsCellRef(range) {
      RangeValuesOfRef(range, resolve);
      return Values([resolve(range)]);
    }
    var ends := RangeEnds(range);
    if ends.0 == "" || ends.1 == "" {
      RangeValuesLiteral(range, resolve);
      return Values([Str(range)]);
    }
    RangeValuesRectangle(range, resolve);
    r := ReadBetween(ends.0, ends.1, resolve);
  }

  lemma RangeValuesLiteral(range: string, resolve: string -> Value)
    requires !IsCellRef(range) && (RangeEnds(range).0 == "" || RangeEnds(range).1 == "")
    ensures RangeValues(range, resolve) == Values([Str(range)])
  {
  }

  lemma RangeValuesRectangle(range: string, resolve: string -> Value)
    requires !IsCellRef(range) && RangeEnds(range).0 != "" && RangeEnds(range).1 != ""
    ensures RangeValues(range, resolve) == match Rectangle(RangeEnds(range).0, RangeEnds(range).1)
      case Ids(ids) => Values(Resolved(ids, resolve))
      case _ => Throws
  {
  }

  lemma RangeValuesOfRef(range: string, resolve: string -> Value)
    requires IsCellRef(range)
    ensures RangeValues(range, resolve) == Values([resolve(range)])
  {
    assert Resolved([range], resolve) == [resolve(range)];
  }

  /** The rectangle branch of `getRangeValues`: both ends must carry a
      column and a row, or the lookups throw. */
  method ReadBetween(start: string, end: string, resolve: string -> Value) returns (r: RangeResult)
    ensures r == match Rectangle(start, end)
      case Ids(ids) => Values(Resolved(ids, resolve))
      case _ => Throws
  {
    var startCol := GetColumnIndex(start);
    var endCol := GetColumnIndex(end);
    var startRun := FirstDigitRun(start);
    var endRun := FirstDigitRun(end);
    if startCol.None? || endCol.None? || startRun.None? || endRun.None? {
      assert Rectangle(start, end) == Fails;
      return Throws;
    }
    var c1, c2 := startCol.value, endCol.value;
    var startRow, endRow := DigitsValue(startRun.value), DigitsValue(endRun.value);
    assert SplitCellId(start) == Some((FirstUpperRun(start).value, startRun.value));
    assert SplitCellId(end) == Some((FirstUpperRun(end).value, endRun.value));
    RectangleOfIds(start, end, FirstUpperRun(start).value, startRun.value, FirstUpperRun(end).value, endRun.value);
    var values := ReadRectangle(c1, c2, startRow, endRow, resolve);
    r := Values(values);
  }

  /** The two nested loops of `getRangeValues`: rows outside, columns
      inside, each id read through the resolver. */
  method ReadRectangle(c1: int, c2: int, startRow: nat, endRow: nat, resolve: string -> Value)
    returns (values: seq<Value>)
    ensures values == Resolved(Grid(c1, c2, startRow, endRow + 1), resolve)
  {
    values := [];
    var row := startRow;
    while row <= endRow
      invariant startRow <= row && (row <= endRow + 1 || row == startRow)
      invariant values == Resolved(Grid(c1, c2, startRow, row), resolve)
      decreases endRow + 1 - row
    {
      var line := ReadRow(c1, c2, row, resolve);
      ResolvedConcat(Grid(c1, c2, startRow, row), RowIds(c1, c2 + 1, row), resolve);
      assert Grid(c1, c2, startRow, row + 1) == Grid(c1, c2, startRow, row) + RowIds(c1, c2 + 1, row);
      values := values + line;
      row := row + 1;
    }
    if startRow <= endRow {
      assert row == endRow + 1;
    }
    assert Grid(c1, c2, startRow, row) == Grid(c1, c2, startRow, endRow + 1);
  }

  /** The inner loop of the rectangle read: columns `c1..c2` of one row. */
  method ReadRow(c1: int, c2: int, row: nat, resolve: string -> Value) returns (line: seq<Value>)
    ensures line == Resolved(RowIds(c1, c2 + 1, row), resolve)
  {
    line := [];
    var col := c1;
    while col <= c2
      invariant c1 <= col && (col <= c2 + 1 || col == c1)
      invariant line == Resolved(RowIds(c1, col, row), resolve)
      decreases c2 + 1 - col
    {
      ReadNext(c1, col, row, resolve);
      line := line + [resolve(CellAt(col, row))];
      col := col + 1;
    }
    if c1 <= c2 {
      assert col == c2 + 1;
    } else {
      assert RowIds(c1, col, row) == [] == RowIds(c1, c2 + 1, row);
    }
  }

  /** Reading the next cell of a row extends the values by its value. */
  lemma ReadNext(c1: int, col: int, row: nat, resolve: string -> Value)
    requires c1 <= col
    ensures Resolved(RowIds(c1, col, row), resolve) + [resolve(CellAt(col, row))]
         == Resolved(RowIds(c1, col + 1, row), resolve)
  {
    ResolvedAppend(RowIds(c1, col, row), CellAt(col, row), resolve);
  }

  lemma ResolvedConcat(a: seq<string>, b: seq<string>, resolve: string -> Value)
    ensures Resolved(a + b, resolve) == Resolved(a, resolve) + Resolved(b, resolve)
  {
  }

  /** The numbers among `parseFloat` of the values, NaN left out, in order. */
  function Numerics(vals: seq<Value>): (nums: seq<Number>)
    ensures |nums| <= |vals|
    ensures forall k :: 0 <= k < |nums| ==> !nums[k].NaN?
    ensures forall k :: 0 <= k < |vals| && !ParseValue(vals[k]).NaN? ==> ParseValue(vals[k]) in nums
    ensures forall x :: x in nums ==> exists k :: 0 <= k < |vals| && ParseValue(vals[k]) == x
    decreases |vals|
  {
    if vals == [] then []
    else
      var n := ParseValue(vals[|vals| - 1]);
      var prev := Numerics(vals[..|vals| - 1]);
      assert forall k :: 0 <= k < |vals| - 1 ==> vals[..|vals| - 1][k] == vals[k];
      if n.NaN? then prev else prev + [n]
  }

  /** `values.reduce((sum, val) => sum + (parseFloat(val) || 0), 0)`. */
  function Sum(vals: seq<Value>): Number
    decreases |vals|
  {
    if vals == [] then Finite(0.0) else Numbers.Add(Sum(vals[..|vals| - 1]), OrZero(ParseValue(vals[|vals| - 1])))
  }

  /** `Math.max(...nums)` of a non-empty list: one of its members, and no
      member is larger. */
  function MaxOf(nums: seq<Number>): (m: Number)
    requires |nums| > 0 && forall k :: 0 <= k < |nums| ==> !nums[k].NaN?
    ensures m in nums
    ensures forall k :: 0 <= k < |nums| ==> !Less(m, nums[k])
    decreases |nums|
  {
    var last := nums[|nums| - 1];
    if |nums| == 1 then last
    else
      var m := MaxOf(nums[..|nums| - 1]);
      assert forall k :: 0 <= k < |nums| - 1 ==> nums[..|nums| - 1][k] == nums[k];
      if Less(m, last) then
        LessTransitive(m, last, nums);
        last
      else
        LessTotal(m, last);
        m
  }

  /** `Math.min(...nums)` of a non-empty list: one of its members, and no
      member is smaller. */
  function MinOf(nums: seq<Number>): (m: Number)
    requires |nums| > 0 && forall k :: 0 <= k < |nums| ==> !nums[k].NaN?
    ensures m in nums
    ensures forall k :: 0 <= k < |nums| ==> !Less(nums[k], m)
    decreases |nums|
  {
    var last := nums[|nums| - 1];
    if |nums| == 1 then last
    else
      var m := MinOf(nums[..|nums| - 1]);
      assert forall k :: 0 <= k < |nums| - 1 ==> nums[..|nums| - 1][k] == nums[k];
      if Less(last, m) then
        LessTransitiveBelow(last, m, nums);
        last
      else
        LessTotal(last, m);
        m
  }

  lemma LessTransitive(m: Number, last: Number, nums: seq<Number>)
    requires |nums| > 0 && forall k :: 0 <= k < |nums| ==> !nums[k].NaN?
    requires !m.NaN? && !last.NaN? && Less(m, last)
    requires forall k :: 0 <= k < |nums| - 1 ==> !Less(m, nums[k])
    ensures forall k :: 0 <= k < |nums| - 1 ==> !Less(last, nums[k])
  {
  }

  lemma LessTransitiveBelow(last: Number, m: Number, nums: seq<Number>)
    requires |nums| > 0 && forall k :: 0 <= k < |nums| ==> !nums[k].NaN?
    requires !m.NaN? && !last.NaN? && Less(last, m)
    requires forall k :: 0 <= k < |nums| - 1 ==> !Less(nums[k], m)
    ensures forall k :: 0 <= k < |nums| - 1 ==> !Less(nums[k], last)
  {
  }

  lemma LessTotal(a: Number, b: Number)
    requires !a.NaN? && !b.NaN? && !Less(a, b)
    ensures !Less(b, a) || a != b
  {
  }

  /** Text of a value as `String(value)` writes it. */
  function ToText(v: Value, show: real -> string): string
  {
    match v
    case Str(s) => s
    case Num(Finite(x)) => show(x)
    case Num(PosInf) => "Infinity"
    case Num(NegInf) => "-Infinity"
    case Num(NaN) => "NaN"
  }

  /** `getSingleValue(text, getCellValue)`: the value of a cell id, or the
      trimmed text itself. */
  function SingleValue(text: string, resolve: string -> Value): Value
  {
    var t := Trim(text);
    if IsCellRef(t) then resolve(t) else Str(t)
  }

  /** The ids `getSingleValue` reads. */
  function SingleReads(text: string): seq<string>
  {
    var t := Trim(text);
    if IsCellRef(t) then [t] else []
  }

  const ErrorText: string := "#ERROR!"

  /** SUM, AVERAGE, MAX, MIN or COUNT of the values a range produced. */
  function Aggregate(name: string, vals: seq<Value>): (r: Number)
    requires name in RangeFunctions
    ensures name == "COUNT" ==> r == Finite(|Numerics(vals)| as real)
  {
    var nums := Numerics(vals);
    if name == "SUM" then Sum(vals)
    else if name == "AVERAGE" then
      if |nums| == 0 then Finite(0.0) else Div(Sum(vals), Finite(|nums| as real))
    else if name == "MAX" then (if |nums| == 0 then Finite(0.0) else MaxOf(nums))
    else if name == "MIN" then (if |nums| == 0 then Finite(0.0) else MinOf(nums))
    else Finite(|nums| as real)
  }

  /** TRIM, UPPER or LOWER of the text of a single value. */
  function TextFunction(name: string, text: string): (r: string)
    requires name in FunctionNames && name !in RangeFunctions
    ensures name == "TRIM" ==> Trim(r) == r
    ensures name == "UPPER" ==> forall k :: 0 <= k < |r| ==> !IsLower(r[k])
    ensures name == "LOWER" ==> forall k :: 0 <= k < |r| ==> !IsUpper(r[k])
    ensures name == "TRIM" ==> r == Trim(text)
    ensures name == "UPPER" ==> r == ToUpper(text)
    ensures name == "LOWER" ==> r == ToLower(text)
  {
    if name == "TRIM" then
      TrimIdempotent(text);
      Trim(text)
    else if name == "UPPER" then ToUpper(text)
    else ToLower(text)
  }

  /** One of the eight functions applied to its trimmed argument: a range
      function gives a number, or `#ERROR!` when the range throws; the text
      functions give text. */
  function ApplyFunction(name: string, arg: string, resolve: string -> Value, show: real -> string): (r: Value)
    requires name in FunctionNames
    ensures name in RangeFunctions ==> (r == Str(ErrorText) <==> RangeValues(arg, resolve).Throws?)
    ensures name in RangeFunctions ==> (r.Num? <==> RangeValues(arg, resolve).Values?)
    ensures name in RangeFunctions && RangeValues(arg, resolve).Values? ==>
      r == Num(Aggregate(name, RangeValues(arg, resolve).vals))
    ensures name !in RangeFunctions ==> r == Str(TextFunction(name, ToText(SingleValue(arg, resolve), show)))
  {
    if name in RangeFunctions then
      match RangeValues(arg, resolve)
      case Throws => Str(ErrorText)
      case Values(vals) => Num(Aggregate(name, vals))
    else Str(TextFunction(name, ToText(SingleValue(arg, resolve), show)))
  }

  /** The pieces of `s[i..]` for `evaluateExpression`: each match of
      `/[A-Z]+[0-9]+/g` gives way to `isNaN(value) ? 0 : parseFloat(value)`
      of the cell it names, other characters stay. */
  function SubstituteFrom(s: string, i: nat, resolve: string -> Value): seq<Calc.Piece>
    requires i <= |s| && ScanPoint(s, i)
    decreases |s| - i
  {
    if i == |s| then []
    else
      var j := UpperEnd(s, i);
      if j > i && j < |s| && IsDigit(s[j]) then
        var e := DigitEnd(s, j);
        assert s[i..e][..j - i] == s[i..j];
        assert s[i..e][j - i..] == s[j..e];
        UpperEndAt(s[i..e], 0, j - i);
        [Calc.Val(ReferenceNumber(resolve(s[i..e])))] + SubstituteFrom(s, e, resolve)
      else
        assert IsUpper(s[i]) ==> UpperEnd(s, i + 1) == j;
        [Calc.Ch(s[i])] + SubstituteFrom(s, i + 1, resolve)
  }

  /** `evaluateExpression(expression, getCellValue)`. */
  function EvaluateExpression(expr: string, resolve: string -> Value): Evaluation
  {
    match Calc.Calculate(SubstituteFrom(expr, 0, resolve))
    case Done(n) => Evaluated(Num(n))
    case Hangs => Loops
  }

  /** `evaluate(formula, getCellValue)`: text that does not start with `=`
      is its own value; otherwise one of the eight functions when the rest
      is a call of one, else arithmetic. An exception becomes `#ERROR!`. */
  function Evaluate(formula: string, resolve: string -> Value, show: real -> string): (r: Evaluation)
    ensures !StartsWith(formula, "=") ==> r == Evaluated(Str(formula))
    ensures StartsWith(formula, "=") && KnownCall(Trim(formula[1..])).Some? ==>
      var (name, arg) := KnownCall(Trim(formula[1..])).value;
      r == Evaluated(ApplyFunction(name, arg, resolve, show))
    ensures StartsWith(formula, "=") && KnownCall(Trim(formula[1..])).None? ==>
      r == EvaluateExpression(Trim(formula[1..]), resolve)
    ensures r.Loops? ==> '(' in formula
  {
    if !StartsWith(formula, "=") then Evaluated(Str(formula))
    else
      var f := Trim(formula[1..]);
      match KnownCall(f)
      case Some((name, arg)) => Evaluated(ApplyFunction(name, arg, resolve, show))
      case None =>
        var r := EvaluateExpression(f, resolve);
        assert r.Loops? ==> '(' in formula by {
          if r.Loops? {
            LoopsNeedParen(f, resolve);
            TrimIsSlice(formula[1..]);
            assert forall c :: c in formula[1..] ==> c in formula;
          }
        }
        r
  }

  /** `=NAME(args)`, with one of the eight names and arguments on one line,
      is that function applied to the trimmed arguments. */
  lemma EvaluateCall(name: string, args: string, resolve: string -> Value, show: real -> string)
    requires name in FunctionNames
    requires forall k :: 0 <= k < |args| ==> !IsLineTerminator(args[k])
    ensures Evaluate("=" + name + "(" + args + ")", resolve, show)
         == Evaluated(ApplyFunction(name, Trim(args), resolve, show))
  {
    var formula := "=" + name + "(" + args + ")";
    var f := name + "(" + args + ")";
    assert formula[..1] == "=";
    assert formula[1..] == f;
    NamesUpper(name);
    assert !IsSpace(f[0]) by { assert f[0] == name[0]; }
    TrimUnspaced(f);
    CallRecognised(name, args);
  }

  lemma TrimIsSlice(s: string)
    ensures forall c :: c in Trim(s) ==> c in s
  {
    var r := Trim(s);
    var a :| 0 <= a && a + |r| <= |s| && AllSpace(s[..a]) && s[a..a + |r|] == r && AllSpace(s[a + |r|..]);
    assert forall k :: 0 <= k < |r| ==> r[k] == s[a + k];
  }

  /** Only a `(` in the expression can keep the parenthesis loop going. */
  lemma LoopsNeedParen(f: string, resolve: string -> Value)
    requires EvaluateExpression(f, resolve).Loops?
    ensures '(' in f
  {
    var p := SubstituteFrom(f, 0, resolve);
    var t := Calc.Lex(Calc.Strip(p));
    assert Calc.Open in t;
    LexOpen(Calc.Strip(p));
    StripKeeps(p);
    SubstituteKeeps(f, 0, resolve);
  }

  lemma {:induction false} LexOpen(p: seq<Calc.Piece>)
    requires Calc.Open in Calc.Lex(p)
    ensures Calc.Ch('(') in p
    decreases |p|
  {
    var l := Calc.Lex(p);
    match p[0]
    case Val(n) =>
      var v := Calc.Render(n);
      assert Calc.Open !in v;
      assert l == v + Calc.Lex(p[1..]);
      LexOpen(p[1..]);
    case Ch(c) =>
      if Calc.NumeralChar(c) {
        var k := Calc.RunLength(p);
        assert l[1..] == Calc.Lex(p[k..]);
        LexOpen(p[k..]);
      } else if c != '(' {
        assert l[1..] == Calc.Lex(p[1..]);
        LexOpen(p[1..]);
      }
  }

  lemma {:induction false} StripKeeps(p: seq<Calc.Piece>)
    ensures forall x :: x in Calc.Strip(p) ==> x in p
    decreases |p|
  {
    if p != [] {
      StripKeeps(p[1..]);
    }
  }

  lemma {:induction false} SubstituteKeeps(s: string, i: nat, resolve: string -> Value)
    requires i <= |s| && ScanPoint(s, i)
    ensures forall c :: Calc.Ch(c) in SubstituteFrom(s, i, resolve) ==> c in s
    decreases |s| - i
  {
    if i < |s| {
      var j := UpperEnd(s, i);
      if j > i && j < |s| && IsDigit(s[j]) {
        ScanRef(s, i);
        SubstituteKeeps(s, DigitEnd(s, j), resolve);
        KeepsRef(s, i, resolve);
      } else {
        ScanPast(s, i);
        SubstituteKeeps(s, i + 1, resolve);
        KeepsPast(s, i, resolve);
      }
    }
  }

  /** A match at `i` adds a number and no character. */
  lemma KeepsRef(s: string, i: nat, resolve: string -> Value)
    requires i < |s| && ScanPoint(s, i)
    requires UpperEnd(s, i) > i && UpperEnd(s, i) < |s| && IsDigit(s[UpperEnd(s, i)])
    requires var e := DigitEnd(s, UpperEnd(s, i));
      e <= |s| && ScanPoint(s, e) && forall c :: Calc.Ch(c) in SubstituteFrom(s, e, resolve) ==> c in s
    ensures forall c :: Calc.Ch(c) in SubstituteFrom(s, i, resolve) ==> c in s
  {
  }

  /** A character where no match starts is kept as it is. */
  lemma KeepsPast(s: string, i: nat, resolve: string -> Value)
    requires i < |s| && ScanPoint(s, i)
    requires !(UpperEnd(s, i) > i && UpperEnd(s, i) < |s| && IsDigit(s[UpperEnd(s, i)]))
    requires ScanPoint(s, i + 1) && forall c :: Calc.Ch(c) in SubstituteFrom(s, i + 1, resolve) ==> c in s
    ensures forall c :: Calc.Ch(c) in SubstituteFrom(s, i, resolve) ==> c in s
  {
  }

  /** Every id `evaluate` passes to `getCellValue`, in order (AVERAGE reads
      its range a second time, which repeats these ids). */
  function Reads(formula: string): seq<string>
  {
    if !StartsWith(formula, "=") then []
    else
      var f := Trim(formula[1..]);
      match KnownCall(f)
      case Some((name, arg)) => if name in RangeFunctions then RangeReads(arg) else SingleReads(arg)
      case None => CellRefs(f)
  }

  /** The result of `evaluate` depends on the cells it reads and on nothing
      else the resolver knows. */
  lemma EvaluateReadsOnly(formula: string, r1: string -> Value, r2: string -> Value, show: real -> string)
    requires forall id :: id in Reads(formula) ==> r1(id) == r2(id)
    ensures Evaluate(formula, r1, show) == Evaluate(formula, r2, show)
  {
    if StartsWith(formula, "=") {
      var f := Trim(formula[1..]);
      match KnownCall(f)
      case Some((name, arg)) =>
        if name in RangeFunctions {
          assert Reads(formula) == RangeReads(arg);
          RangeFrame(arg, r1, r2);
        } else {
          assert Reads(formula) == SingleReads(arg);
        }
        ApplyFrame(name, arg, r1, r2, show);
      case None =>
        ExpressionFrame(f, r1, r2);
    }
  }

  lemma ApplyFrame(name: string, arg: string, r1: string -> Value, r2: string -> Value, show: real -> string)
    requires name in FunctionNames
    requires name in RangeFunctions ==> RangeValues(arg, r1) == RangeValues(arg, r2)
    requires name !in RangeFunctions ==> forall id :: id in SingleReads(arg) ==> r1(id) == r2(id)
    ensures ApplyFunction(name, arg, r1, show) == ApplyFunction(name, arg, r2, show)
  {
    if name !in RangeFunctions {
      assert SingleValue(arg, r1) == SingleValue(arg, r2);
    }
  }

  lemma RangeFrame(arg: string, r1: string -> Value, r2: string -> Value)
    requires forall id :: id in RangeReads(arg) ==> r1(id) == r2(id)
    ensures RangeValues(arg, r1) == RangeValues(arg, r2)
  {
    match RangeOf(arg)
    case Ids(ids) =>
      assert forall k :: 0 <= k < |ids| ==> ids[k] in RangeReads(arg);
      assert Resolved(ids, r1) == Resolved(ids, r2);
    case _ =>
  }

  /** The two resolvers agree on every span of `s` in `spans`. */
  predicate AgreeOn(s: string, spans: seq<(nat, nat)>, r1: string -> Value, r2: string -> Value)
  {
    forall p :: p in spans && p.0 <= p.1 <= |s| ==> r1(s[p.0..p.1]) == r2(s[p.0..p.1])
  }

  lemma ExpressionFrame(f: string, r1: string -> Value, r2: string -> Value)
    requires forall id :: id in CellRefs(f) ==> r1(id) == r2(id)
    ensures EvaluateExpression(f, r1) == EvaluateExpression(f, r2)
  {
    RefsAgree(f, r1, r2);
    SubstituteFrame(f, 0, r1, r2);
  }

  /** Resolvers that agree on the references agree on every span. */
  lemma RefsAgree(f: string, r1: string -> Value, r2: string -> Value)
    requires forall id :: id in CellRefs(f) ==> r1(id) == r2(id)
    ensures AgreeOn(f, SpansFrom(f, 0), r1, r2)
  {
    var spans := SpansFrom(f, 0);
    forall p | p in spans && p.0 <= p.1 <= |f|
      ensures r1(f[p.0..p.1]) == r2(f[p.0..p.1])
    {
      var k :| 0 <= k < |spans| && spans[k] == p;
      assert CellRefs(f)[k] == f[p.0..p.1];
    }
  }

  lemma {:induction false} SubstituteFrame(s: string, i: nat, r1: string -> Value, r2: string -> Value)
    requires i <= |s| && ScanPoint(s, i)
    requires AgreeOn(s, SpansFrom(s, i), r1, r2)
    ensures SubstituteFrom(s, i, r1) == SubstituteFrom(s, i, r2)
    decreases |s| - i
  {
    if i < |s| {
      var j := UpperEnd(s, i);
      if j > i && j < |s| && IsDigit(s[j]) {
        var e := DigitEnd(s, j);
        ScanRef(s, i);
        AgreeOnParts(s, [(i, e)], SpansFrom(s, e), r1, r2);
        SubstituteFrame(s, e, r1, r2);
        SubstituteRef(s, i, r1, r2);
      } else {
        ScanPast(s, i);
        SubstituteFrame(s, i + 1, r1, r2);
        SubstitutePast(s, i, r1, r2);
      }
    }
  }

  /** A match at `i` becomes the same number under both resolvers when they
      agree on it and on what follows. */
  lemma SubstituteRef(s: string, i: nat, r1: string -> Value, r2: string -> Value)
    requires i < |s| && ScanPoint(s, i)
    requires UpperEnd(s, i) > i && UpperEnd(s, i) < |s| && IsDigit(s[UpperEnd(s, i)])
    requires var e := DigitEnd(s, UpperEnd(s, i));
      e <= |s| && ScanPoint(s, e) && r1(s[i..e]) == r2(s[i..e]) && SubstituteFrom(s, e, r1) == SubstituteFrom(s, e, r2)
    ensures SubstituteFrom(s, i, r1) == SubstituteFrom(s, i, r2)
  {
  }

  /** A character where no match starts is kept under both resolvers. */
  lemma SubstitutePast(s: string, i: nat, r1: string -> Value, r2: string -> Value)
    requires i < |s| && ScanPoint(s, i)
    requires !(UpperEnd(s, i) > i && UpperEnd(s, i) < |s| && IsDigit(s[UpperEnd(s, i)]))
    requires ScanPoint(s, i + 1) && SubstituteFrom(s, i + 1, r1) == SubstituteFrom(s, i + 1, r2)
    ensures SubstituteFrom(s, i, r1) == SubstituteFrom(s, i, r2)
  {
  }

  lemma AgreeOnParts(s: string, a: seq<(nat, nat)>, b: seq<(nat, nat)>, r1: string -> Value, r2: string -> Value)
    requires AgreeOn(s, a + b, r1, r2)
    ensures AgreeOn(s, a, r1, r2) && AgreeOn(s, b, r1, r2)
  {
    assert forall p :: p in a ==> p in a + b;
    assert forall p :: p in b ==> p in a + b;
  }
}
