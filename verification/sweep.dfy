/** What `findAndReplace` does to the cells it visits: each visited cell is
    fetched with `getCell`, and a truthy content has every occurrence of
    the search text replaced. A cell holding a number (a formula result)
    has no `replaceAll`, so reaching one throws a TypeError and the cells
    already rewritten stay rewritten. */
module Replacing {
  import opened Wrappers
  import opened Text
  import opened Numbers
  import opened CellIds
  import opened Records
  import Formula

  /** The record a visit of `id` finds: the stored one, or the blank record
      `getCell` creates. */
  function Before(s: Sheet, id: string): Cell
  {
    if id in s.cells then s.cells[id] else BlankCell
  }

  /** `cell.content.replaceAll` would be called on a number. */
  predicate Throws(c: Cell)
  {
    Truthy(c.content) && c.content.Num?
  }

  /** A text content with every occurrence of `find` replaced. */
  function Replaced(c: Cell, find: string, rep: string): Cell
    requires |find| > 0
  {
    if c.content.Str? then c.(content := Str(ReplaceAll(c.content.s, find, rep))) else c
  }

  /** The visit rewrites (and counts) this cell. */
  predicate Changes(c: Cell, find: string, rep: string)
    requires |find| > 0
  {
    c.content.Str? && ReplaceAll(c.content.s, find, rep) != c.content.s
  }

  lemma ReplaceAllEmpty(find: string, rep: string)
    requires |find| > 0
    ensures ReplaceAll("", find, rep) == ""
  {
    assert !OccursAt("", find, 0);
  }

  /** One visited cell: the sheet after it and whether the cell was counted,
      or None when the visit throws. Skipping an empty content is the same
      as replacing in it, so the cell ends up `Replaced` either way. */
  function Step(s: Sheet, id: string, find: string, rep: string): (r: Option<(Sheet, bool)>)
    requires |find| > 0
    ensures r.None? <==> Throws(Before(s, id))
    ensures r.Some? ==> r.value.1 == Changes(Before(s, id), find, rep)
    ensures r.Some? ==> r.value.0.cells == WithCell(s, id).cells[id := Replaced(Before(s, id), find, rep)]
    ensures r.Some? ==> r.value.0.ids == WithCell(s, id).ids
    ensures r.Some? ==> r.value.0.columnCount == s.columnCount && r.value.0.rowCount == s.rowCount
  {
    var w := WithCell(s, id);
    var c := w.cells[id];
    ReplaceAllEmpty(find, rep);
    if !Truthy(c.content) then
      assert w.cells[id := Replaced(c, find, rep)] == w.cells;
      Some((w, false))
    else if c.content.Num? then None
    else
      var n := ReplaceAll(c.content.s, find, rep);
      if n != c.content.s then Some((w.(cells := w.cells[id := c.(content := Str(n))]), true))
      else
        assert w.cells[id := Replaced(c, find, rep)] == w.cells;
        Some((w, false))
  }

  /** The state of a pass: the sheet so far, the count so far, and whether
      a visit has thrown (after which nothing more is visited). */
  datatype Tally = Tally(sheet: Sheet, count: nat, threw: bool)

  /** One more visit in a pass; nothing happens once a visit has thrown. */
  function Advance(t: Tally, id: string, find: string, rep: string): (r: Tally)
    requires |find| > 0
    ensures r.count <= t.count + 1
  {
    if t.threw then t
    else match Step(t.sheet, id, find, rep)
      case None => t.(threw := true)
      case Some((u, changed)) => Tally(u, t.count + if changed then 1 else 0, false)
  }

  /** A pass continued over `visit`, in order. */
  function Resume(t: Tally, visit: seq<string>, find: string, rep: string): (r: Tally)
    requires |find| > 0
    ensures r.count <= t.count + |visit|
    decreases |visit|
  {
    if visit == [] then t
    else Advance(Resume(t, visit[..|visit| - 1], find, rep), visit[|visit| - 1], find, rep)
  }

  /** A pass keeps a sheet's id list in step with its cells, and its size. */
  lemma {:induction false} ResumeKeepsSheet(t: Tally, visit: seq<string>, find: string, rep: string)
    requires |find| > 0
    ensures var r := Resume(t, visit, find, rep);
      && r.sheet.columnCount == t.sheet.columnCount && r.sheet.rowCount == t.sheet.rowCount
      && (SheetOk(t.sheet) ==> SheetOk(r.sheet))
    decreases |visit|
  {
    if visit != [] {
      ResumeKeepsSheet(t, visit[..|visit| - 1], find, rep);
      var r := Resume(t, visit[..|visit| - 1], find, rep);
      var id := visit[|visit| - 1];
      if !r.threw && Step(r.sheet, id, find, rep).Some? {
        var w := WithCell(r.sheet, id);
        assert SheetOk(r.sheet) ==> SheetOk(w);
        assert id in w.cells;
      }
    }
  }

  /** The pass `findAndReplace` makes over `visit`, starting at count 0. */
  function Sweep(s: Sheet, visit: seq<string>, find: string, rep: string): Tally
    requires |find| > 0
  {
    Resume(Tally(s, 0, false), visit, find, rep)
  }

  /** Once a visit has thrown, nothing more happens. */
  lemma {:induction false} ResumeThrew(t: Tally, visit: seq<string>, find: string, rep: string)
    requires |find| > 0 && t.threw
    ensures Resume(t, visit, find, rep) == t
    decreases |visit|
  {
    if visit != [] {
      ResumeThrew(t, visit[..|visit| - 1], find, rep);
    }
  }

  /** A pass over `a + b` is a pass over `a` continued over `b`. */
  lemma {:induction false} ResumeConcat(t: Tally, a: seq<string>, b: seq<string>, find: string, rep: string)
    requires |find| > 0
    ensures Resume(t, a + b, find, rep) == Resume(Resume(t, a, find, rep), b, find, rep)
    decreases |b|
  {
    if b == [] {
      assert a + b == a;
    } else {
      var init := b[..|b| - 1];
      assert (a + b)[..|a + b| - 1] == a + init;
      assert (a + b)[|a + b| - 1] == b[|b| - 1];
      ResumeConcat(t, a, init, find, rep);
    }
  }

  /** The number of visited cells whose content the pass rewrites. */
  function ChangedIn(s: Sheet, visit: seq<string>, find: string, rep: string): (n: nat)
    requires |find| > 0
    ensures n <= |visit|
    decreases |visit|
  {
    if visit == [] then 0
    else ChangedIn(s, visit[..|visit| - 1], find, rep) + if Changes(Before(s, visit[|visit| - 1]), find, rep) then 1 else 0
  }

  /** Over distinct ids: the pass throws exactly when it meets a number
      content; otherwise it counts exactly the cells it rewrites, every
      visited cell ends up `Replaced`, every cell not visited is untouched,
      and the only new cells are the visited ones `getCell` created. */
  lemma SweepEffect(s: Sheet, visit: seq<string>, find: string, rep: string)
    requires |find| > 0 && Distinct(visit)
    ensures var r := Sweep(s, visit, find, rep);
      && (r.threw <==> exists j :: 0 <= j < |visit| && Throws(Before(s, visit[j])))
      && (!r.threw ==> r.count == ChangedIn(s, visit, find, rep))
      && (!r.threw ==> forall id :: id in r.sheet.cells <==> id in s.cells || id in visit)
      && (!r.threw ==> forall id :: id in visit ==> r.sheet.cells[id] == Replaced(Before(s, id), find, rep))
      && (!r.threw ==> forall id :: id in s.cells && id !in visit ==> r.sheet.cells[id] == s.cells[id])
  {
    SweptAsSweep(s, visit, find, rep);
  }

  /** The effect `SweepEffect` states, of a pass `r` over `visit`. */
  ghost predicate SweptAs(s: Sheet, visit: seq<string>, find: string, rep: string, r: Tally)
    requires |find| > 0
  {
    && (r.threw <==> exists j :: 0 <= j < |visit| && Throws(Before(s, visit[j])))
    && (!r.threw ==> r.count == ChangedIn(s, visit, find, rep))
    && (!r.threw ==> forall id :: id in r.sheet.cells <==> id in s.cells || id in visit)
    && (!r.threw ==> forall id :: id in visit ==> r.sheet.cells[id] == Replaced(Before(s, id), find, rep))
    && (!r.threw ==> forall id :: id in s.cells && id !in visit ==> r.sheet.cells[id] == s.cells[id])
  }

  lemma {:induction false} SweptAsSweep(s: Sheet, visit: seq<string>, find: string, rep: string)
    requires |find| > 0 && Distinct(visit)
    ensures SweptAs(s, visit, find, rep, Sweep(s, visit, find, rep))
    decreases |visit|
  {
    if visit != [] {
      var init := visit[..|visit| - 1];
      var id := visit[|visit| - 1];
      assert visit == init + [id];
      assert Distinct(init) && id !in init by {
        assert forall i :: 0 <= i < |init| ==> init[i] == visit[i];
      }
      SweptAsSweep(s, init, find, rep);
      SweptAsStep(s, init, id, find, rep);
    }
  }

  /** One more visit, of an id not visited before, keeps the effect. */
  lemma SweptAsStep(s: Sheet, init: seq<string>, id: string, find: string, rep: string)
    requires |find| > 0 && id !in init
    requires SweptAs(s, init, find, rep, Sweep(s, init, find, rep))
    ensures SweptAs(s, init + [id], find, rep, Sweep(s, init + [id], find, rep))
  {
    var r := Sweep(s, init, find, rep);
    var v := init + [id];
    ResumeStep(Tally(s, 0, false), init, id, find, rep);
    assert v[..|v| - 1] == init && v[|v| - 1] == id;
    if !r.threw {
      assert Before(r.sheet, id) == Before(s, id);
      if Step(r.sheet, id, find, rep).None? {
        assert Throws(Before(s, v[|v| - 1]));
      } else {
        StepEffect(s, init, r, id, find, rep);
      }
    } else {
      var j :| 0 <= j < |init| && Throws(Before(s, init[j]));
      assert init[j] == v[j];
    }
  }

  /** The inductive step of `SweepEffect` when the last visit does not
      throw. */
  lemma StepEffect(s: Sheet, init: seq<string>, r: Tally, id: string, find: string, rep: string)
    requires |find| > 0 && !r.threw && id !in init
    requires forall id :: id in r.sheet.cells <==> id in s.cells || id in init
    requires forall id :: id in init ==> r.sheet.cells[id] == Replaced(Before(s, id), find, rep)
    requires forall id :: id in s.cells && id !in init ==> r.sheet.cells[id] == s.cells[id]
    requires !(exists j :: 0 <= j < |init| && Throws(Before(s, init[j])))
    requires Step(r.sheet, id, find, rep).Some? && Before(r.sheet, id) == Before(s, id)
    ensures var u := Step(r.sheet, id, find, rep).value.0;
      && !(exists j :: 0 <= j < |init + [id]| && Throws(Before(s, (init + [id])[j])))
      && (forall x :: x in u.cells <==> x in s.cells || x in init + [id])
      && (forall x :: x in init + [id] ==> u.cells[x] == Replaced(Before(s, x), find, rep))
      && (forall x :: x in s.cells && x !in init + [id] ==> u.cells[x] == s.cells[x])
  {
    var v := init + [id];
    forall j | 0 <= j < |v|
      ensures !Throws(Before(s, v[j]))
    {
      if j < |init| {
        assert v[j] == init[j];
      }
    }
  }

  /** Replacing a text by itself rewrites and counts nothing. */
  lemma ReplaceWithItself(s: Sheet, visit: seq<string>, find: string)
    requires |find| > 0 && '$' !in find && Distinct(visit)
    ensures var r := Sweep(s, visit, find, find);
      !r.threw ==> r.count == 0 && forall id :: id in visit ==> id in r.sheet.cells && r.sheet.cells[id] == Before(s, id)
  {
    SweepEffect(s, visit, find, find);
    NoneChanged(s, visit, find);
  }

  lemma {:induction false} NoneChanged(s: Sheet, visit: seq<string>, find: string)
    requires |find| > 0 && '$' !in find
    ensures ChangedIn(s, visit, find, find) == 0
    ensures forall id :: Replaced(Before(s, id), find, find) == Before(s, id)
    decreases |visit|
  {
    forall id
      ensures Replaced(Before(s, id), find, find) == Before(s, id)
    {
      var c := Before(s, id);
      if c.content.Str? {
        ReplaceAllSelf(c.content.s, find);
      }
    }
    if visit != [] {
      NoneChanged(s, visit[..|visit| - 1], find);
      var c := Before(s, visit[|visit| - 1]);
      if c.content.Str? {
        ReplaceAllSelf(c.content.s, find);
      }
    }
  }

  /** `range.split(':')`: the first two parts, None when there is no `:`. */
  function RangeEnds(range: string): (r: Option<(string, string)>)
    ensures r.Some? ==> ':' !in r.value.0 && ':' !in r.value.1
  {
    var parts := Split(range, ':');
    if |parts| < 2 then None else Some((parts[0], parts[1]))
  }

  /** The cells a `START:END` argument makes `findAndReplace` visit: each
      end, untrimmed, read by `parseCellId`, the columns taken from the
      first letter of each end. None when an end is missing or does not
      parse (a TypeError). */
  function RangeVisit(range: string): (r: Option<seq<string>>)
    ensures r.Some? ==> Distinct(r.value)
  {
    match RangeEnds(range)
    case None => None
    case Some((a, b)) => GridBetween(ParseCellId(a), ParseCellId(b))
  }

  /** The rows from the first end's to the second's, each from the first
      end's column letter to the second's. */
  function GridBetween(start: Option<(string, nat)>, end: Option<(string, nat)>): (r: Option<seq<string>>)
    requires start.Some? ==> |start.value.0| > 0 && AllUpper(start.value.0)
    requires end.Some? ==> |end.value.0| > 0 && AllUpper(end.value.0)
    ensures r.Some? ==> Distinct(r.value)
  {
    if start.None? || end.None? then None
    else
      var c1 := start.value.0[0] as int - 65;
      var c2 := end.value.0[0] as int - 65;
      GridDistinct(c1, c2, start.value.1, end.value.1 + 1);
      Some(Formula.Grid(c1, c2, start.value.1, end.value.1 + 1))
  }

  /** `A1:C2`-style ranges visit the rows from the first to the last, each
      from the first column to the last. */
  lemma RangeVisitOfRefs(i1: int, row1: nat, i2: int, row2: nat)
    requires 0 <= i1 < 26 && 0 <= i2 < 26
    ensures RangeVisit(CellId([Letter(i1)], row1) + ":" + CellId([Letter(i2)], row2))
         == Some(Formula.Grid(i1, i2, row1, row2 + 1))
  {
    var a := CellId([Letter(i1)], row1);
    var b := CellId([Letter(i2)], row2);
    RangeEndsOfIds([Letter(i1)], row1, [Letter(i2)], row2);
    GridBetweenOfIds(i1, row1, i2, row2);
  }

  lemma RangeEndsOfIds(col1: string, row1: nat, col2: string, row2: nat)
    requires AllUpper(col1) && AllUpper(col2)
    ensures RangeEnds(CellId(col1, row1) + ":" + CellId(col2, row2)) == Some((CellId(col1, row1), CellId(col2, row2)))
  {
    NoColon(col1, row1);
    NoColon(col2, row2);
    Formula.SplitRange(CellId(col1, row1), CellId(col2, row2));
  }

  lemma GridBetweenOfIds(i1: int, row1: nat, i2: int, row2: nat)
    requires 0 <= i1 < 26 && 0 <= i2 < 26
    ensures GridBetween(ParseCellId(CellId([Letter(i1)], row1)), ParseCellId(CellId([Letter(i2)], row2)))
         == Some(Formula.Grid(i1, i2, row1, row2 + 1))
  {
    ParseCellIdOfCellId([Letter(i1)], row1);
    ParseCellIdOfCellId([Letter(i2)], row2);
    GridBetweenOfParts(ParseCellId(CellId([Letter(i1)], row1)), ParseCellId(CellId([Letter(i2)], row2)), i1, row1, i2, row2);
  }

  lemma GridBetweenOfParts(start: Option<(string, nat)>, end: Option<(string, nat)>, i1: int, row1: nat, i2: int, row2: nat)
    requires 0 <= i1 < 26 && 0 <= i2 < 26
    requires start == Some(([Letter(i1)], row1)) && end == Some(([Letter(i2)], row2))
    ensures GridBetween(start, end) == Some(Formula.Grid(i1, i2, row1, row2 + 1))
  {
    assert [Letter(i1)][0] as int - 65 == i1;
    assert [Letter(i2)][0] as int - 65 == i2;
  }

  lemma NoColon(col: string, row: nat)
    requires AllUpper(col)
    ensures forall k :: 0 <= k < |CellId(col, row)| ==> CellId(col, row)[k] != ':'
  {
    var d := NatToString(row);
    forall k | 0 <= k < |CellId(col, row)|
      ensures CellId(col, row)[k] != ':'
    {
      if k < |col| {
        assert CellId(col, row)[k] == col[k];
      } else {
        assert CellId(col, row)[k] == d[k - |col|];
      }
    }
  }

  /** The id of column `a` (0 for A) and row `x` as the range loop builds
      it. */
  lemma CellAtLetter(a: int, x: nat)
    requires 0 <= a < 26
    ensures Formula.CellAt(a, x) == CellId([Letter(a)], x)
  {
    assert Formula.CodeUnit(65 + a) == Letter(a);
  }

  lemma CellAtInjective(a: int, x: nat, b: int, y: nat)
    requires 0 <= a < 26 && 0 <= b < 26
    requires Formula.CellAt(a, x) == Formula.CellAt(b, y)
    ensures a == b && x == y
  {
    CellAtLetter(a, x);
    CellAtLetter(b, y);
    CellIdInjective([Letter(a)], x, [Letter(b)], y);
    assert [Letter(a)][0] == [Letter(b)][0];
  }

  /** Every id of a grid lies in its rows and columns. */
  lemma {:induction false} GridMember(c1: int, c2: int, r1: nat, r: nat, x: string)
    requires x in Formula.Grid(c1, c2, r1, r)
    ensures exists col: int, row: nat :: c1 <= col <= c2 && r1 <= row < r && x == Formula.CellAt(col, row)
    decreases r - r1
  {
    if r > r1 {
      var ids := Formula.RowIds(c1, c2 + 1, r - 1);
      if x in Formula.Grid(c1, c2, r1, r - 1) {
        GridMember(c1, c2, r1, r - 1, x);
      } else {
        assert x in ids;
        var j :| 0 <= j < |ids| && ids[j] == x;
        Formula.RowIdAt(c1, c2 + 1, r - 1, j);
        assert c1 <= c1 + j <= c2 && r1 <= r - 1 < r && x == Formula.CellAt(c1 + j, r - 1);
      }
    }
  }

  lemma DistinctConcat(a: seq<string>, b: seq<string>)
    requires Distinct(a) && Distinct(b)
    requires forall x :: x in a ==> x !in b
    ensures Distinct(a + b)
  {
    var s := a + b;
    forall i, j | 0 <= i < j < |s|
      ensures s[i] != s[j]
    {
      if j < |a| {
        assert s[i] == a[i] && s[j] == a[j];
      } else if i >= |a| {
        assert s[i] == b[i - |a|] && s[j] == b[j - |a|];
      } else {
        assert s[i] == a[i] && s[j] == b[j - |a|];
        assert a[i] in a && b[j - |a|] in b;
      }
    }
  }

  /** Within the columns A to Z no id repeats in a grid. */
  lemma {:induction false} GridDistinct(c1: int, c2: int, r1: nat, r: nat)
    requires 0 <= c1 < 26 && 0 <= c2 < 26
    ensures Distinct(Formula.Grid(c1, c2, r1, r))
    decreases r - r1
  {
    if r > r1 {
      var g := Formula.Grid(c1, c2, r1, r - 1);
      var ids := Formula.RowIds(c1, c2 + 1, r - 1);
      GridDistinct(c1, c2, r1, r - 1);
      RowIdsDistinct(c1, c2, r - 1);
      forall x | x in g
        ensures x !in ids
      {
        GridBeforeRow(c1, c2, r1, r - 1, x);
      }
      DistinctConcat(g, ids);
    }
  }

  lemma RowIdsDistinct(c1: int, c2: int, row: nat)
    requires 0 <= c1 < 26 && 0 <= c2 < 26
    ensures Distinct(Formula.RowIds(c1, c2 + 1, row))
  {
    var ids := Formula.RowIds(c1, c2 + 1, row);
    forall i, j | 0 <= i < j < |ids|
      ensures ids[i] != ids[j]
    {
      if ids[i] == ids[j] {
        Formula.RowIdAt(c1, c2 + 1, row, i);
        Formula.RowIdAt(c1, c2 + 1, row, j);
        CellAtInjective(c1 + i, row, c1 + j, row);
      }
    }
  }

  /** An id of the rows before `row` is not an id of row `row`. */
  lemma GridBeforeRow(c1: int, c2: int, r1: nat, row: nat, x: string)
    requires 0 <= c1 < 26 && 0 <= c2 < 26
    requires x in Formula.Grid(c1, c2, r1, row)
    ensures x !in Formula.RowIds(c1, c2 + 1, row)
  {
    GridMember(c1, c2, r1, row, x);
    var col: int, r: nat :| c1 <= col <= c2 && r1 <= r < row && x == Formula.CellAt(col, r);
    NotInLaterRow(c1, c2, row, col, r);
  }

  /** The id of a cell in an earlier row is not an id of row `row`. */
  lemma NotInLaterRow(c1: int, c2: int, row: nat, col: int, r: nat)
    requires 0 <= c1 < 26 && 0 <= c2 < 26 && 0 <= col < 26 && r < row
    ensures Formula.CellAt(col, r) !in Formula.RowIds(c1, c2 + 1, row)
  {
    var ids := Formula.RowIds(c1, c2 + 1, row);
    forall j | 0 <= j < |ids|
      ensures ids[j] != Formula.CellAt(col, r)
    {
      Formula.RowIdAt(c1, c2 + 1, row, j);
      CellAtRowsDiffer(col, r, c1 + j, row);
    }
  }

  lemma CellAtRowsDiffer(a: int, x: nat, b: int, y: nat)
    requires 0 <= a < 26 && 0 <= b < 26 && x != y
    ensures Formula.CellAt(a, x) != Formula.CellAt(b, y)
  {
    if Formula.CellAt(a, x) == Formula.CellAt(b, y) {
      CellAtInjective(a, x, b, y);
    }
  }


  /** The cells `findAndReplace(range, ...)` visits: with an empty range
      every cell of the sheet in order, otherwise the rectangle of the
      range; None when the range throws before any cell is visited. */
  function Visit(range: string, s: Sheet): (r: Option<seq<string>>)
    ensures r.Some? && SheetOk(s) ==> Distinct(r.value)
  {
    if range == "" then Some(s.ids) else RangeVisit(range)
  }

  /** A non-empty range is split at `:` and both ends parsed. */
  lemma VisitOfRange(range: string, s: Sheet)
    requires range != ""
    ensures var parts := Split(range, ':');
      Visit(range, s) == if |parts| < 2 then None else GridBetween(ParseCellId(parts[0]), ParseCellId(parts[1]))
  {
  }

  /** With both ends parsed, the visit is the grid between them. */
  lemma GridBetweenSome(start: Option<(string, nat)>, end: Option<(string, nat)>)
    requires start.Some? && |start.value.0| > 0 && AllUpper(start.value.0)
    requires end.Some? && |end.value.0| > 0 && AllUpper(end.value.0)
    ensures GridBetween(start, end)
         == Some(Formula.Grid(start.value.0[0] as int - 65, end.value.0[0] as int - 65, start.value.1, end.value.1 + 1))
  {
  }

  lemma {:induction false} GridSplit(c1: int, c2: int, r1: nat, m: nat, r: nat)
    requires r1 <= m <= r
    ensures Formula.Grid(c1, c2, r1, r) == Formula.Grid(c1, c2, r1, m) + Formula.Grid(c1, c2, m, r)
    decreases r - m
  {
    if r > m {
      var p: nat := r - 1;
      GridSplit(c1, c2, r1, m, p);
      GridAppend(Formula.Grid(c1, c2, r1, m), Formula.Grid(c1, c2, m, p), Formula.RowIds(c1, c2 + 1, p),
                 Formula.Grid(c1, c2, r1, r), Formula.Grid(c1, c2, m, r));
    }
  }

  lemma GridAppend(a: seq<string>, b: seq<string>, row: seq<string>, whole: seq<string>, tail: seq<string>)
    requires whole == (a + b) + row && tail == b + row
    ensures whole == a + tail
  {
  }

  lemma {:induction false} RowSplit(c1: int, col: int, c: int, row: nat)
    requires c1 <= col <= c
    ensures Formula.RowIds(c1, c, row) == Formula.RowIds(c1, col, row) + Formula.RowIds(col, c, row)
    decreases c - col
  {
    if c > col {
      RowSplit(c1, col, c - 1, row);
      var x := Formula.CellAt(c - 1, row);
      assert Formula.RowIds(c1, c, row) == Formula.RowIds(c1, c - 1, row) + [x];
      assert Formula.RowIds(col, c, row) == Formula.RowIds(col, c - 1, row) + [x];
      assert Formula.RowIds(c1, col, row) + Formula.RowIds(col, c - 1, row) + [x]
          == Formula.RowIds(c1, col, row) + (Formula.RowIds(col, c - 1, row) + [x]);
    }
  }

  /** The cells the nested loops have visited when they stand at row `row`
      and column `col` are the first cells of the whole rectangle. */
  lemma GridAt(c1: int, c2: int, r1: nat, row: nat, col: int, r: nat) returns (rest: seq<string>)
    requires r1 <= row < r && (col == c1 || c1 <= col <= c2 + 1)
    ensures Formula.Grid(c1, c2, r1, r) == Formula.Grid(c1, c2, r1, row) + Formula.RowIds(c1, col, row) + rest
  {
    GridRowsAt(c1, c2, r1, row, r);
    var before := Formula.Grid(c1, c2, r1, row);
    var later := Formula.Grid(c1, c2, row + 1, r);
    var done := Formula.RowIds(c1, col, row);
    var tail := RowPrefix(c1, c2, col, row);
    rest := tail + later;
    RegroupThree(before, Formula.RowIds(c1, c2 + 1, row), later, done, tail);
  }

  lemma RegroupThree(a: seq<string>, b: seq<string>, c: seq<string>, b1: seq<string>, b2: seq<string>)
    requires b == b1 + b2
    ensures a + b + c == a + b1 + (b2 + c)
  {
  }

  /** A rectangle is its rows before `row`, row `row`, and the rows after. */
  lemma GridRowsAt(c1: int, c2: int, r1: nat, row: nat, r: nat)
    requires r1 <= row < r
    ensures Formula.Grid(c1, c2, r1, r)
         == Formula.Grid(c1, c2, r1, row) + Formula.RowIds(c1, c2 + 1, row) + Formula.Grid(c1, c2, row + 1, r)
  {
    var before := Formula.Grid(c1, c2, r1, row);
    var from := Formula.Grid(c1, c2, row, r);
    var later := Formula.Grid(c1, c2, row + 1, r);
    var line := Formula.RowIds(c1, c2 + 1, row);
    GridSplit(c1, c2, r1, row, r);
    GridSplit(c1, c2, row, row + 1, r);
    GridOneRow(c1, c2, row);
    assert before + (line + later) == before + line + later;
  }

  lemma RowPrefix(c1: int, c2: int, col: int, row: nat) returns (tail: seq<string>)
    requires col == c1 || c1 <= col <= c2 + 1
    ensures Formula.RowIds(c1, c2 + 1, row) == Formula.RowIds(c1, col, row) + tail
  {
    if c1 <= col <= c2 + 1 {
      RowSplit(c1, col, c2 + 1, row);
      tail := Formula.RowIds(col, c2 + 1, row);
    } else {
      tail := Formula.RowIds(c1, c2 + 1, row);
      assert Formula.RowIds(c1, col, row) == [];
    }
  }

  lemma GridOneRow(c1: int, c2: int, row: nat)
    ensures Formula.Grid(c1, c2, row, row + 1) == Formula.RowIds(c1, c2 + 1, row)
  {
    assert Formula.Grid(c1, c2, row, row) == [];
  }

  /** A throw during a pass ends the whole pass over a longer visit. */
  lemma ThrewEnds(t: Tally, done: seq<string>, rest: seq<string>, find: string, rep: string)
    requires |find| > 0 && Resume(t, done, find, rep).threw
    ensures Resume(t, done + rest, find, rep) == Resume(t, done, find, rep)
  {
    ResumeConcat(t, done, rest, find, rep);
    ResumeThrew(Resume(t, done, find, rep), rest, find, rep);
  }

  /** One more visit extends a pass. */
  lemma ResumeStep(t: Tally, done: seq<string>, id: string, find: string, rep: string)
    requires |find| > 0
    ensures Resume(t, done + [id], find, rep) == Advance(Resume(t, done, find, rep), id, find, rep)
  {
    assert (done + [id])[..|done|] == done;
  }

  /** The visit of `ids[i]` extends the pass over the first `i` ids; a
      throw there ends the pass over all of them. */
  lemma PrefixStep(t: Tally, ids: seq<string>, i: nat, find: string, rep: string)
    requires |find| > 0 && i < |ids|
    ensures Resume(t, ids[..i + 1], find, rep) == Advance(Resume(t, ids[..i], find, rep), ids[i], find, rep)
    ensures Resume(t, ids[..i + 1], find, rep).threw ==> Resume(t, ids, find, rep) == Resume(t, ids[..i + 1], find, rep)
  {
    ResumeStep(t, ids[..i], ids[i], find, rep);
    assert ids[..i] + [ids[i]] == ids[..i + 1];
    if Resume(t, ids[..i + 1], find, rep).threw {
      assert ids[..i + 1] + ids[i + 1..] == ids;
      ThrewEnds(t, ids[..i + 1], ids[i + 1..], find, rep);
    }
  }

  /** A visit one column further along row `row`. */
  lemma NextInRow(c1: int, c2: int, r1: nat, row: nat, col: int)
    requires c1 <= col
    ensures Formula.Grid(c1, c2, r1, row) + Formula.RowIds(c1, col, row) + [Formula.CellAt(col, row)]
         == Formula.Grid(c1, c2, r1, row) + Formula.RowIds(c1, col + 1, row)
  {
    var line := Formula.RowIds(c1, col, row);
    assert Formula.RowIds(c1, col + 1, row) == line + [Formula.CellAt(col, row)];
    RegroupThree(Formula.Grid(c1, c2, r1, row), line + [Formula.CellAt(col, row)], [], line, [Formula.CellAt(col, row)]);
  }

  /** The next row begins once a row is done. */
  lemma NextRow(c1: int, c2: int, r1: nat, row: nat, col: int)
    requires r1 <= row && (col == c1 || col == c2 + 1) && c2 + 1 <= col
    ensures Formula.Grid(c1, c2, r1, row) + Formula.RowIds(c1, col, row) == Formula.Grid(c1, c2, r1, row + 1)
  {
    assert Formula.RowIds(c1, col, row) == Formula.RowIds(c1, c2 + 1, row);
  }

  /** The id the range loops build from a character code. */
  lemma CellAtCode(code: int, row: nat)
    requires 65 <= code <= 90
    ensures Formula.CellAt(code - 65, row) == [code as char] + NatToString(row)
  {
  }

  /** The ids the range loops have visited by the time they reach column
      `col` of row `row`: the rows before, then row `row` up to `col`. */
  function RangePrefix(c1: int, c2: int, r1: nat, row: nat, col: int): seq<string>
    decreases col - c1
  {
    if col <= c1 then Formula.Grid(c1, c2, r1, row)
    else RangePrefix(c1, c2, r1, row, col - 1) + [Formula.CellAt(col - 1, row)]
  }

  lemma {:induction false} RangePrefixIs(c1: int, c2: int, r1: nat, row: nat, col: int)
    ensures RangePrefix(c1, c2, r1, row, col) == Formula.Grid(c1, c2, r1, row) + Formula.RowIds(c1, col, row)
    decreases col - c1
  {
    if col > c1 {
      RangePrefixIs(c1, c2, r1, row, col - 1);
      NextInRow(c1, c2, r1, row, col - 1);
    }
  }

  /** Once a row is done the next one begins. */
  lemma RangePrefixRowEnd(c1: int, c2: int, r1: nat, row: nat, col: int)
    requires r1 <= row && (col == c1 || col == c2 + 1) && c2 + 1 <= col
    ensures RangePrefix(c1, c2, r1, row, col) == Formula.Grid(c1, c2, r1, row + 1)
  {
    RangePrefixIs(c1, c2, r1, row, col);
    NextRow(c1, c2, r1, row, col);
  }

  /** A throw in the middle of the range loops ends the pass over the
      whole rectangle. */
  lemma ThrowInRange(t: Tally, c1: int, c2: int, r1: nat, row: nat, col: int, r: nat, find: string, rep: string)
    requires |find| > 0 && r1 <= row < r && c1 <= col <= c2 + 1
    requires Resume(t, RangePrefix(c1, c2, r1, row, col), find, rep).threw
    ensures Resume(t, Formula.Grid(c1, c2, r1, r), find, rep) == Resume(t, RangePrefix(c1, c2, r1, row, col), find, rep)
  {
    RangePrefixIs(c1, c2, r1, row, col);
    var rest := GridAt(c1, c2, r1, row, col, r);
    ThrewEnds(t, RangePrefix(c1, c2, r1, row, col), rest, find, rep);
  }

  /** One visit of the range loops: the pass so far grows by the visited
      cell, the next one in its row. */
  lemma RowStep(t: Tally, c1: int, c2: int, r1: nat, row: nat, col: int, id: string, find: string, rep: string)
    requires |find| > 0 && c1 <= col && id == Formula.CellAt(col, row)
    ensures Resume(t, RangePrefix(c1, c2, r1, row, col + 1), find, rep)
         == Advance(Resume(t, RangePrefix(c1, c2, r1, row, col), find, rep), id, find, rep)
  {
    ResumeStep(t, RangePrefix(c1, c2, r1, row, col), id, find, rep);
  }
}
