/** `SpreadsheetDB`: the workbook the grid reads and writes. It keeps the
    sheets by name, the order their names were added in, and the name of
    the active sheet. Saving to local storage after a change is not part
    of this model. */
module Workbook {
  import opened Wrappers
  import opened Text
  import opened Numbers
  import opened CellIds
  import opened Records
  import opened Rekeying
  import opened Replacing
  import Formula

  /** The first name other than `name`, in the order the names were added:
      the sheet `deleteSheet` makes active when the active one goes. Every
      name before it is `name` itself. */
  function FirstOther(names: seq<string>, name: string): (r: string)
    requires exists n :: n in names && n != name
    ensures r in names && r != name
    ensures forall i :: 0 <= i < FirstIndex(names, r) ==> names[i] == name
  {
    if names[0] != name then names[0]
    else
      assert exists n :: n in names[1..] && n != name by {
        var n :| n in names && n != name;
        var j :| 0 <= j < |names| && names[j] == n;
        assert j != 0;
        assert names[1..][j - 1] == n;
        assert n in names[1..];
      }
      var r := FirstOther(names[1..], name);
      assert FirstIndex(names, r) == 1 + FirstIndex(names[1..], r);
      assert forall i :: 1 <= i < |names| ==> names[i] == names[1..][i - 1];
      r
  }

  /** `switchSheet(name)` as written: the lookup `this.data.sheets[name]` is
      truthy for a name every object inherits, such as `toString`, so the
      active sheet can become a name with no sheet behind it. Returns the
      new active name and the result. */
  function SwitchSheetAsWritten(sheets: map<string, Sheet>, active: string, name: string): (r: (string, bool))
    ensures r.1 <==> name in sheets || Inherited(name)
    ensures r.0 == if r.1 then name else active
  {
    if name in sheets || Inherited(name) then (name, true) else (active, false)
  }

  /** Switching a one-sheet workbook to `toString` leaves no sheet active. */
  lemma SwitchSheetAsWrittenLosesActive()
    ensures var sheets := map["Sheet1" := NewSheet];
      var r := SwitchSheetAsWritten(sheets, "Sheet1", "toString");
      r.1 && r.0 !in sheets
  {
    assert Inherited("toString");
  }

  /** `switchSheet(name)` with an own-property test: the active sheet is
      always one of the sheets, and it changes exactly to a name that has
      a sheet. */
  function SwitchedTo(sheets: map<string, Sheet>, active: string, name: string): (r: (string, bool))
    ensures active in sheets ==> r.0 in sheets
    ensures r.1 <==> name in sheets
    ensures r.1 ==> r.0 == name
    ensures !r.1 ==> r.0 == active
  {
    if name in sheets then (name, true) else (active, false)
  }

  /** The workbook invariant on the values of `sheets`, `names` and
      `activeSheet`. */
  ghost predicate WorkbookOk(sheets: map<string, Sheet>, names: seq<string>, active: string)
  {
    && Distinct(names)
    && (forall n :: n in names <==> n in sheets)
    && |names| >= 1
    && active in sheets
    && (forall n :: n in sheets ==> !Inherited(n))
    && (forall n :: n in sheets ==> SheetOk(sheets[n]))
  }

  /** Writing a key twice leaves the second value. */
  lemma Overwritten<K, V>(m: map<K, V>, k: K, first: V, second: V)
    ensures m[k := first][k := second] == m[k := second]
  {
  }

  /** Replacing one sheet by a well-formed one keeps the invariant. */
  lemma ReplaceSheetOk(sheets: map<string, Sheet>, names: seq<string>, active: string, name: string, s: Sheet)
    requires WorkbookOk(sheets, names, active) && name in sheets && SheetOk(s)
    ensures WorkbookOk(sheets[name := s], names, active)
  {
  }

  /** Adding a fresh, own name with an empty sheet and making it active
      keeps the invariant. */
  lemma AddSheetOk(sheets: map<string, Sheet>, names: seq<string>, active: string, name: string)
    requires WorkbookOk(sheets, names, active) && name !in sheets && !Inherited(name)
    ensures WorkbookOk(sheets[name := NewSheet], names + [name], name)
  {
    assert forall i :: 0 <= i < |names| ==> (names + [name])[i] == names[i];
  }

  /** Deleting one of at least two sheets, with the active one moved off
      it, keeps the invariant. */
  lemma DeleteSheetOk(sheets: map<string, Sheet>, names: seq<string>, active: string, name: string, next: string)
    requires WorkbookOk(sheets, names, active) && |names| > 1 && name in sheets
    requires next in sheets && next != name
    ensures WorkbookOk(sheets - {name}, Remove(names, name), next)
  {
    assert next in Remove(names, name);
  }

  /** The loop of `deleteRow` over the sheet's ids: the cells
      rebuilt as `RowFate` says, in order, or None when an id does
      not parse. */
  method RebuildRows(sheet: Sheet, rowIndex: int) returns (rebuilt: Option<(map<string, Cell>, seq<string>)>)
    requires SheetOk(sheet)
    ensures rebuilt == Rekey(sheet.cells, sheet.ids, RowFates(rowIndex))
  {
    var fate := RowFates(rowIndex);
    var newCells: map<string, Cell> := map[];
    var order: seq<string> := [];
    var i := 0;
    while i < |sheet.ids|
      invariant 0 <= i <= |sheet.ids|
      invariant Rekey(sheet.cells, sheet.ids[..i], fate) == Some((newCells, order))
    {
      var cellId := sheet.ids[i];
      assert sheet.ids[..i + 1] == sheet.ids[..i] + [cellId];
      var parsed := ParseCellId(cellId);
      if parsed.None? {
        assert fate(sheet.ids[i]).Fail?;
        RekeyFails(sheet.cells, sheet.ids, fate);
        return None;
      }
      var col, row := parsed.value.0, parsed.value.1;
      if row > rowIndex {
        var newCellId := col + IntText(row - 1);
        newCells := newCells[newCellId := sheet.cells[cellId]];
        order := Text.Add(order, newCellId);
      } else if row < rowIndex {
        newCells := newCells[cellId := sheet.cells[cellId]];
        order := Text.Add(order, cellId);
      }
      i := i + 1;
    }
    assert sheet.ids[..i] == sheet.ids;
    return Some((newCells, order));
  }

  /** The loop of `deleteColumn` over the sheet's ids: the cells
      rebuilt as `ColumnFate` says, in order, or None when an id does
      not parse. */
  method RebuildColumns(sheet: Sheet, colIndex: int) returns (rebuilt: Option<(map<string, Cell>, seq<string>)>)
    requires SheetOk(sheet)
    ensures rebuilt == Rekey(sheet.cells, sheet.ids, ColumnFates(colIndex))
  {
    var fate := ColumnFates(colIndex);
    var newCells: map<string, Cell> := map[];
    var order: seq<string> := [];
    var i := 0;
    while i < |sheet.ids|
      invariant 0 <= i <= |sheet.ids|
      invariant Rekey(sheet.cells, sheet.ids[..i], fate) == Some((newCells, order))
    {
      var cellId := sheet.ids[i];
      assert sheet.ids[..i + 1] == sheet.ids[..i] + [cellId];
      var parsed := ParseCellId(cellId);
      if parsed.None? {
        assert fate(sheet.ids[i]).Fail?;
        RekeyFails(sheet.cells, sheet.ids, fate);
        return None;
      }
      var col, row := parsed.value.0, parsed.value.1;
      var currentColIndex := col[0] as int - 65;
      if currentColIndex > colIndex {
        var newCol := (64 + currentColIndex) as char;
        var newCellId := [newCol] + NatToString(row);
        newCells := newCells[newCellId := sheet.cells[cellId]];
        order := Text.Add(order, newCellId);
      } else if currentColIndex < colIndex {
        newCells := newCells[cellId := sheet.cells[cellId]];
        order := Text.Add(order, cellId);
      }
      i := i + 1;
    }
    assert sheet.ids[..i] == sheet.ids;
    return Some((newCells, order));
  }

  /** When the active sheet goes there is another one to switch to. */
  lemma OtherSheet(names: seq<string>, name: string)
    requires Distinct(names) && |names| > 1
    ensures exists n :: n in names && n != name
  {
    assert names[0] != names[1];
    assert names[0] in names && names[1] in names;
  }

  class SpreadsheetDB {
    /** `this.data.sheets`. */
    var sheets: map<string, Sheet>
    /** `Object.keys(this.data.sheets)`: the names in the order they were
        added. */
    var names: seq<string>
    /** `this.data.activeSheet`. */
    var activeSheet: string

    /** There is always a sheet, the active sheet is one of them, no sheet
        has a name objects inherit, and every sheet lists its cells once. */
    ghost predicate Valid()
      reads this
    {
      WorkbookOk(sheets, names, activeSheet)
    }

    /** A workbook with one empty sheet, `Sheet1`, active. */
    constructor ()
      ensures Valid()
      ensures sheets == map["Sheet1" := NewSheet] && names == ["Sheet1"] && activeSheet == "Sheet1"
    {
      sheets := map["Sheet1" := NewSheet];
      names := ["Sheet1"];
      activeSheet := "Sheet1";
    }

    /** `addSheet(sheetName)`; an empty name stands for a missing one, for
        which the first free `Sheet${n}` from `n = sheets + 1` up is used.
        A name already taken (or inherited) is refused with no change;
        otherwise an empty 26 by 50 sheet is added and made active. A
        generated name is never refused. */
    method AddSheet(sheetName: string) returns (ok: bool)
      requires Valid()
      modifies this
      ensures Valid()
      ensures var name := if sheetName == "" then FreshName(old(names), |old(names)| + 1) else sheetName;
        && (ok <==> name !in old(sheets) && !Inherited(name))
        && (ok ==> sheets == old(sheets)[name := NewSheet] && names == old(names) + [name] && activeSheet == name)
        && (!ok ==> sheets == old(sheets) && names == old(names) && activeSheet == old(activeSheet))
      ensures sheetName == "" ==> ok
    {
      var name := sheetName;
      if name == "" {
        name := GenerateName(names);
        FreshNameOwn(names, |names| + 1);
      }
      if name in sheets || Inherited(name) {
        return false;
      }
      AddSheetOk(sheets, names, activeSheet, name);
      sheets := sheets[name := NewSheet];
      names := names + [name];
      activeSheet := name;
      ok := true;
    }

    /** `deleteSheet(sheetName)`: refused with no change while only one
        sheet is left or when there is no such sheet, except that a name
        objects inherit is reported deleted though nothing changes. When
        the active sheet goes, the first other sheet becomes active. */
    method DeleteSheet(sheetName: string) returns (ok: bool)
      requires Valid()
      modifies this
      ensures Valid()
      ensures |old(names)| <= 1 ==> !ok
      ensures |old(names)| > 1 && sheetName !in old(sheets) ==> ok == Inherited(sheetName)
      ensures !ok || sheetName !in old(sheets) ==>
        sheets == old(sheets) && names == old(names) && activeSheet == old(activeSheet)
      ensures ok && sheetName in old(sheets) ==>
        && sheets == old(sheets) - {sheetName}
        && names == Remove(old(names), sheetName)
        && activeSheet == if old(activeSheet) == sheetName then FirstOther(old(names), sheetName) else old(activeSheet)
    {
      if |names| <= 1 {
        return false;
      }
      if sheetName !in sheets && !Inherited(sheetName) {
        return false;
      }
      if sheetName !in sheets {
        return true;
      }
      var next := activeSheet;
      if activeSheet == sheetName {
        OtherSheet(names, sheetName);
        next := FirstOther(names, sheetName);
      }
      DeleteSheetOk(sheets, names, activeSheet, sheetName, next);
      activeSheet := next;
      sheets := sheets - {sheetName};
      names := Remove(names, sheetName);
      ok := true;
    }

    /** `switchSheet(sheetName)`, with the lookup restricted to the
        workbook's own sheets. */
    method SwitchSheet(sheetName: string) returns (ok: bool)
      requires Valid()
      modifies this
      ensures Valid()
      ensures (activeSheet, ok) == SwitchedTo(old(sheets), old(activeSheet), sheetName)
      ensures sheets == old(sheets) && names == old(names)
    {
      if sheetName in sheets {
        activeSheet := sheetName;
        return true;
      }
      return false;
    }

    /** `getCell(sheetName, cellId)`: None for an unknown sheet; otherwise
        the cell's record, created blank if the cell had none. */
    method GetCell(sheetName: string, cellId: string) returns (cell: Option<Cell>)
      requires Valid()
      modifies this
      ensures Valid()
      ensures names == old(names) && activeSheet == old(activeSheet)
      ensures sheetName !in old(sheets) ==> cell.None? && sheets == old(sheets)
      ensures sheetName in old(sheets) ==>
        && sheets == old(sheets)[sheetName := WithCell(old(sheets)[sheetName], cellId)]
        && cell == Some(Before(old(sheets)[sheetName], cellId))
    {
      if sheetName !in sheets {
        return None;
      }
      var sheet := sheets[sheetName];
      if cellId !in sheet.cells {
        sheet := sheet.(cells := sheet.cells[cellId := BlankCell], ids := sheet.ids + [cellId]);
        ReplaceSheetOk(sheets, names, activeSheet, sheetName, sheet);
        sheets := sheets[sheetName := sheet];
      }
      cell := Some(sheet.cells[cellId]);
    }

    /** `updateCell(sheetName, cellId, updates)`: the fields the update
        carries are written into the cell's record; nothing happens for an
        unknown sheet. */
    method UpdateCell(sheetName: string, cellId: string, updates: CellPatch)
      requires Valid()
      modifies this
      ensures Valid()
      ensures names == old(names) && activeSheet == old(activeSheet)
      ensures sheetName !in old(sheets) ==> sheets == old(sheets)
      ensures sheetName in old(sheets) ==> sheets == old(sheets)[sheetName := Patched(old(sheets)[sheetName], cellId, updates)]
    {
      var cell := GetCell(sheetName, cellId);
      if cell.Some? {
        var sheet := sheets[sheetName];
        ghost var patched := Patched(old(sheets)[sheetName], cellId, updates);
        var updated := sheet.(cells := sheet.cells[cellId := Assign(cell.value, updates)]);
        assert updated == patched;
        ReplaceSheetOk(sheets, names, activeSheet, sheetName, updated);
        Overwritten(old(sheets), sheetName, sheet, updated);
        sheets := sheets[sheetName := updated];
      }
    }

    /** `updateCellStyle(sheetName, cellId, style)`: the style fields given
        are written into the cell's style. */
    method UpdateCellStyle(sheetName: string, cellId: string, style: StylePatch)
      requires Valid()
      modifies this
      ensures Valid()
      ensures names == old(names) && activeSheet == old(activeSheet)
      ensures sheetName !in old(sheets) ==> sheets == old(sheets)
      ensures sheetName in old(sheets) ==> sheets == old(sheets)[sheetName := Styled(old(sheets)[sheetName], cellId, style)]
    {
      var cell := GetCell(sheetName, cellId);
      if cell.Some? {
        var c := cell.value;
        var sheet := sheets[sheetName];
        ghost var styled := Styled(old(sheets)[sheetName], cellId, style);
        var updated := sheet.(cells := sheet.cells[cellId := c.(style := MergeStyle(c.style, style))]);
        assert updated == styled;
        ReplaceSheetOk(sheets, names, activeSheet, sheetName, updated);
        Overwritten(old(sheets), sheetName, sheet, updated);
        sheets := sheets[sheetName := updated];
      }
    }

    /** `deleteRow(rowIndex)` on the active sheet: the cells are rebuilt as
        `RowFate` says and the row count drops by one. When an id does not
        parse the call throws before anything is replaced. */
    method DeleteRow(rowIndex: int) returns (ok: bool)
      requires Valid()
      modifies this
      ensures Valid()
      ensures names == old(names) && activeSheet == old(activeSheet)
      ensures var s := old(sheets)[activeSheet];
        var r := Rekey(s.cells, s.ids, RowFates(rowIndex));
        && (ok <==> r.Some?)
        && (!ok ==> sheets == old(sheets))
        && (ok ==> sheets == old(sheets)[activeSheet := Sheet(r.value.0, r.value.1, s.columnCount, s.rowCount - 1)])
    {
      var sheet := sheets[activeSheet];
      var rebuilt := RebuildRows(sheet, rowIndex);
      ok := rebuilt.Some?;
      if ok {
        var t := Sheet(rebuilt.value.0, rebuilt.value.1, sheet.columnCount, sheet.rowCount - 1);
        ReplaceSheetOk(sheets, names, activeSheet, activeSheet, t);
        sheets := sheets[activeSheet := t];
      }
    }

    /** `deleteColumn(colIndex)` on the active sheet: the cells are rebuilt
        as `ColumnFate` says and the column count drops by one. */
    method DeleteColumn(colIndex: int) returns (ok: bool)
      requires Valid()
      modifies this
      ensures Valid()
      ensures names == old(names) && activeSheet == old(activeSheet)
      ensures var s := old(sheets)[activeSheet];
        var r := Rekey(s.cells, s.ids, ColumnFates(colIndex));
        && (ok <==> r.Some?)
        && (!ok ==> sheets == old(sheets))
        && (ok ==> sheets == old(sheets)[activeSheet := Sheet(r.value.0, r.value.1, s.columnCount - 1, s.rowCount)])
    {
      var sheet := sheets[activeSheet];
      var rebuilt := RebuildColumns(sheet, colIndex);
      ok := rebuilt.Some?;
      if ok {
        var t := Sheet(rebuilt.value.0, rebuilt.value.1, sheet.columnCount - 1, sheet.rowCount);
        ReplaceSheetOk(sheets, names, activeSheet, activeSheet, t);
        sheets := sheets[activeSheet := t];
      }
    }

    /** `findAndReplace(range, find, replace)`; an empty `replace` stands
        for a missing one. An empty `find` returns 0 at once. Otherwise the
        cells `Visit` names are visited in order and the result is the
        number of cells rewritten, or None when the call throws (a range
        that does not parse, before any change; or a number content, after
        the cells before it were rewritten). */
    method FindAndReplace(range: string, find: string, replace: string) returns (count: Option<nat>)
      requires Valid()
      modifies this
      ensures Valid()
      ensures names == old(names) && activeSheet == old(activeSheet)
      ensures find == "" ==> count == Some(0) && sheets == old(sheets)
      ensures find != "" ==>
        var s := old(sheets)[activeSheet];
        match Visit(range, s)
        case None => count.None? && sheets == old(sheets)
        case Some(visit) =>
          var t := Sweep(s, visit, find, replace);
          && sheets == old(sheets)[activeSheet := t.sheet]
          && count == if t.threw then None else Some(t.count)
    {
      if find == "" {
        return Some(0);
      }
      var sheet := sheets[activeSheet];
      var cur;
      cur, count := ReplaceIn(sheet, range, find, replace);
      ghost var visit := Visit(range, sheet);
      if visit.Some? {
        ResumeKeepsSheet(Tally(sheet, 0, false), visit.value, find, replace);
        ReplaceSheetOk(sheets, names, activeSheet, activeSheet, cur);
      }
      sheets := sheets[activeSheet := cur];
    }
  }

  /** The body of `findAndReplace` once `find` is known to be non-empty:
      the cells to visit, then the pass over them. */
  method ReplaceIn(sheet: Sheet, range: string, find: string, replace: string) returns (cur: Sheet, count: Option<nat>)
    requires |find| > 0
    ensures match Visit(range, sheet)
      case None => count.None? && cur == sheet
      case Some(visit) =>
        var t := Sweep(sheet, visit, find, replace);
        cur == t.sheet && count == if t.threw then None else Some(t.count)
  {
    if range != "" {
      VisitOfRange(range, sheet);
      var parts := Split(range, ':');
      if |parts| < 2 {
        return sheet, None;
      }
      cur, count := ReplaceBetween(sheet, ParseCellId(parts[0]), ParseCellId(parts[1]), find, replace);
    } else {
      var n, threw;
      cur, n, threw := ReplaceInSheet(sheet, find, replace);
      count := if threw then None else Some(n);
    }
  }

  /** `findAndReplace` once both ends of the range are parsed: a TypeError
      when either end is missing, otherwise the pass over the rectangle. */
  method ReplaceBetween(sheet: Sheet, startCell: Option<(string, nat)>, endCell: Option<(string, nat)>, find: string, replace: string)
    returns (cur: Sheet, count: Option<nat>)
    requires |find| > 0
    requires startCell.Some? ==> |startCell.value.0| > 0 && AllUpper(startCell.value.0)
    requires endCell.Some? ==> |endCell.value.0| > 0 && AllUpper(endCell.value.0)
    ensures match GridBetween(startCell, endCell)
      case None => count.None? && cur == sheet
      case Some(visit) =>
        var t := Sweep(sheet, visit, find, replace);
        cur == t.sheet && count == if t.threw then None else Some(t.count)
  {
    if startCell.None? || endCell.None? {
      return sheet, None;
    }
    var startCol, startRow := startCell.value.0, startCell.value.1;
    var endCol, endRow := endCell.value.0, endCell.value.1;
    GridBetweenSome(startCell, endCell);
    var n, threw;
    cur, n, threw := ReplaceInRange(sheet, startCol[0] as int, endCol[0] as int, startRow, endRow, find, replace);
    count := if threw then None else Some(n);
  }

  /** The search for a free name in `addSheet`: `Sheet${n}` from `n` one
      more than the number of sheets, counting up while the name is taken. */
  method GenerateName(names: seq<string>) returns (name: string)
    ensures name == FreshName(names, |names| + 1)
    ensures name !in names
  {
    var n: nat := |names| + 1;
    while SheetName(n) in names
      invariant |names| + 1 <= n
      invariant forall m :: |names| + 1 <= m < n ==> SheetName(m) in names
      decreases Pending(names, n)
    {
      PendingShrinks(names, n);
      n := n + 1;
    }
    name := SheetName(n);
    FreshNameAfter(names, |names| + 1, n);
  }

  /** The nested loops of `findAndReplace` over a range: rows `startRow` to
      `endRow`, in each the character codes `c1` to `c2`; they stop at the
      first visit that throws. */
  method ReplaceInRange(sheet: Sheet, c1: int, c2: int, startRow: nat, endRow: nat, find: string, replace: string)
    returns (cur: Sheet, n: nat, threw: bool)
    requires |find| > 0 && 65 <= c1 <= 90 && 65 <= c2 <= 90
    ensures Tally(cur, n, threw) == Sweep(sheet, Formula.Grid(c1 - 65, c2 - 65, startRow, endRow + 1), find, replace)
  {
    ghost var start := Tally(sheet, 0, false);
    ghost var all := Formula.Grid(c1 - 65, c2 - 65, startRow, endRow + 1);
    cur, n, threw := sheet, 0, false;
    var row := startRow;
    while row <= endRow && !threw
      invariant startRow <= row && (row <= endRow + 1 || row == startRow)
      invariant !threw ==> Resume(start, Formula.Grid(c1 - 65, c2 - 65, startRow, row), find, replace) == Tally(cur, n, false)
      invariant threw ==> Resume(start, all, find, replace) == Tally(cur, n, true)
      decreases endRow + 1 - row, if threw then 0 else 1
    {
      cur, n, threw := ReplaceInRow(start, cur, n, c1, c2, startRow, row, endRow, find, replace);
      row := row + 1;
    }
    if !threw {
      assert Formula.Grid(c1 - 65, c2 - 65, startRow, row) == all;
    }
  }

  /** The inner loop of `findAndReplace` over a range: the cells of one row,
      from column code `c1` to `c2`, continuing the pass `start` began. */
  method ReplaceInRow(ghost start: Tally, sheet: Sheet, count: nat, c1: int, c2: int, ghost startRow: nat, row: nat, ghost endRow: nat,
                      find: string, replace: string)
    returns (cur: Sheet, n: nat, threw: bool)
    requires |find| > 0 && 65 <= c1 <= 90 && 65 <= c2 <= 90 && startRow <= row <= endRow
    requires Resume(start, Formula.Grid(c1 - 65, c2 - 65, startRow, row), find, replace) == Tally(sheet, count, false)
    ensures !threw ==> Resume(start, Formula.Grid(c1 - 65, c2 - 65, startRow, row + 1), find, replace) == Tally(cur, n, false)
    ensures threw ==> Resume(start, Formula.Grid(c1 - 65, c2 - 65, startRow, endRow + 1), find, replace) == Tally(cur, n, true)
  {
    ghost var first, last := c1 - 65, c2 - 65;
    cur, n, threw := sheet, count, false;
    var col := c1;
    while col <= c2 && !threw
      invariant col == c1 || c1 <= col <= c2 + 1
      invariant !threw ==> Resume(start, RangePrefix(first, last, startRow, row, col - 65), find, replace) == Tally(cur, n, false)
      invariant threw ==> Resume(start, Formula.Grid(first, last, startRow, endRow + 1), find, replace) == Tally(cur, n, true)
      decreases c2 + 1 - col, if threw then 0 else 1
    {
      var cellId := [col as char] + NatToString(row);
      CellAtCode(col, row);
      RowStep(start, first, last, startRow, row, col - 65, cellId, find, replace);
      cur, n, threw := VisitCell(cur, n, cellId, find, replace);
      if threw {
        ThrowInRange(start, first, last, startRow, row, col - 65 + 1, endRow + 1, find, replace);
      }
      col := col + 1;
    }
    if !threw {
      RangePrefixRowEnd(first, last, startRow, row, col - 65);
    }
  }

  /** The loop of `findAndReplace` over every cell of the sheet, in order;
      it stops at the first visit that throws. */
  method ReplaceInSheet(sheet: Sheet, find: string, replace: string) returns (cur: Sheet, n: nat, threw: bool)
    requires |find| > 0
    ensures Tally(cur, n, threw) == Sweep(sheet, sheet.ids, find, replace)
  {
    var start := Tally(sheet, 0, false);
    var ids := sheet.ids;
    cur, n, threw := sheet, 0, false;
    var i := 0;
    while i < |ids| && !threw
      invariant 0 <= i <= |ids|
      invariant Resume(start, ids[..i], find, replace) == Tally(cur, n, threw)
      invariant threw ==> Resume(start, ids, find, replace) == Tally(cur, n, true)
    {
      var cellId := ids[i];
      PrefixStep(start, ids, i, find, replace);
      cur, n, threw := VisitCell(cur, n, cellId, find, replace);
      i := i + 1;
    }
    if !threw {
      assert ids[..i] == ids;
    }
  }

  /** One visit of `findAndReplace`: `getCell`, then a truthy text content
      has `find` replaced throughout and the cell is counted if that changed
      it; a truthy number content throws. */
  method VisitCell(sheet: Sheet, count: nat, cellId: string, find: string, replace: string)
    returns (sheet': Sheet, count': nat, threw: bool)
    requires |find| > 0
    ensures Tally(sheet', count', threw) == Advance(Tally(sheet, count, false), cellId, find, replace)
  {
    sheet' := WithCell(sheet, cellId);
    count', threw := count, false;
    var cell := sheet'.cells[cellId];
    if Truthy(cell.content) {
      if cell.content.Num? {
        return sheet, count, true;
      }
      var newContent := ReplaceAll(cell.content.s, find, replace);
      if newContent != cell.content.s {
        sheet' := sheet'.(cells := sheet'.cells[cellId := cell.(content := Str(newContent))]);
        count' := count' + 1;
      }
    }
  }
}
