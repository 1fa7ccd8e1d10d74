/** How `deleteRow` and `deleteColumn` rebuild a sheet's cell map: every
    id is parsed, then kept, dropped or moved to a new id; the first id
    that does not parse makes the whole call throw. */
module Rekeying {
  import opened Wrappers
  import opened Text
  import opened CellIds
  import opened Records

  /** What becomes of one cell: stored under `to`, left out, or an id that
      `parseCellId` cannot read (`match(...)[0]` of null throws). */
  datatype Fate = Keep(to: string) | Drop | Fail

  /** `String(i)` for an integer. */
  function IntText(i: int): string
  {
    if i < 0 then "-" + NatToString(-i) else NatToString(i)
  }

  /** One cell in `deleteRow(k)`: rows below `k` keep their id, row `k` is
      dropped, rows above move to `col + (row - 1)`. */
  function RowFate(id: string, k: int): Fate
  {
    match ParseCellId(id)
    case None => Fail
    case Some((col, row)) =>
      if row > k then Keep(col + IntText(row - 1))
      else if row < k then Keep(id)
      else Drop
  }

  function RowFates(k: int): string -> Fate
  {
    id => RowFate(id, k)
  }

  /** One cell in `deleteColumn(c)`: only the first letter of the column
      counts; columns left of `c` keep their id, column `c` is dropped,
      columns right of it move one letter left, keeping the row number. */
  function ColumnFate(id: string, c: int): Fate
  {
    match ParseCellId(id)
    case None => Fail
    case Some((col, row)) =>
      var at := col[0] as int - 65;
      if at > c then Keep([(64 + at) as char] + NatToString(row))
      else if at < c then Keep(id)
      else Drop
  }

  function ColumnFates(c: int): string -> Fate
  {
    id => ColumnFate(id, c)
  }

  /** The `newCells` object the `forEach` over `Object.entries(sheet.cells)`
      builds, with its keys in insertion order; None when a call of
      `parseCellId` throws. A later cell moved onto an id already written
      overwrites it. */
  function Rekey(cells: map<string, Cell>, ids: seq<string>, fate: string -> Fate)
    : (r: Option<(map<string, Cell>, seq<string>)>)
    requires forall j :: 0 <= j < |ids| ==> ids[j] in cells
    ensures r.Some? ==> Distinct(r.value.1) && forall key :: key in r.value.1 <==> key in r.value.0
    decreases |ids|
  {
    if ids == [] then Some((map[], []))
    else
      var id := ids[|ids| - 1];
      match Rekey(cells, ids[..|ids| - 1], fate)
      case None => None
      case Some((m, order)) =>
        match fate(id)
        case Fail => None
        case Drop => Some((m, order))
        case Keep(to) => Some((m[to := cells[id]], Add(order, to)))
  }

  /** The rebuild throws exactly when some id does not parse. */
  lemma {:induction false} RekeyFails(cells: map<string, Cell>, ids: seq<string>, fate: string -> Fate)
    requires forall j :: 0 <= j < |ids| ==> ids[j] in cells
    ensures Rekey(cells, ids, fate).None? <==> exists j :: 0 <= j < |ids| && fate(ids[j]).Fail?
    decreases |ids|
  {
    if ids != [] {
      var init := ids[..|ids| - 1];
      RekeyFails(cells, init, fate);
      assert forall j :: 0 <= j < |init| ==> init[j] == ids[j];
      if exists j :: 0 <= j < |ids| && fate(ids[j]).Fail? {
        var j :| 0 <= j < |ids| && fate(ids[j]).Fail?;
        if j < |init| {
          assert fate(init[j]).Fail?;
        }
      }
    }
  }

  /** The new ids are exactly the targets of the kept cells. */
  lemma {:induction false} RekeyKeys(cells: map<string, Cell>, ids: seq<string>, fate: string -> Fate, key: string)
    requires forall j :: 0 <= j < |ids| ==> ids[j] in cells
    requires Rekey(cells, ids, fate).Some?
    ensures key in Rekey(cells, ids, fate).value.0 <==> exists j :: 0 <= j < |ids| && fate(ids[j]) == Keep(key)
    decreases |ids|
  {
    if ids != [] {
      var init := ids[..|ids| - 1];
      assert forall j :: 0 <= j < |init| ==> init[j] == ids[j];
      RekeyKeys(cells, init, fate, key);
      if exists j :: 0 <= j < |ids| && fate(ids[j]) == Keep(key) {
        var j :| 0 <= j < |ids| && fate(ids[j]) == Keep(key);
        if j < |init| {
          assert fate(init[j]) == Keep(key);
        }
      }
    }
  }

  /** No two cells are sent to the same id. */
  ghost predicate Injective(ids: seq<string>, fate: string -> Fate)
  {
    forall i, j :: 0 <= i < |ids| && 0 <= j < |ids| && fate(ids[i]).Keep? && fate(ids[i]) == fate(ids[j]) ==> i == j
  }

  /** When no two cells collide, each kept cell is found, unchanged, under
      its new id. */
  lemma {:induction false} RekeyValues(cells: map<string, Cell>, ids: seq<string>, fate: string -> Fate, j: nat)
    requires forall i :: 0 <= i < |ids| ==> ids[i] in cells
    requires Rekey(cells, ids, fate).Some? && Injective(ids, fate)
    requires j < |ids| && fate(ids[j]).Keep?
    ensures fate(ids[j]).to in Rekey(cells, ids, fate).value.0
    ensures Rekey(cells, ids, fate).value.0[fate(ids[j]).to] == cells[ids[j]]
    decreases |ids|
  {
    var init := ids[..|ids| - 1];
    assert forall i :: 0 <= i < |init| ==> init[i] == ids[i];
    if j < |init| {
      assert Injective(init, fate) by {
        forall a, b | 0 <= a < |init| && 0 <= b < |init| && fate(init[a]).Keep? && fate(init[a]) == fate(init[b])
          ensures a == b
        {
          assert fate(ids[a]) == fate(ids[b]);
        }
      }
      RekeyValues(cells, init, fate, j);
      assert fate(ids[|ids| - 1]) != fate(ids[j]);
    }
  }

  /** Every id of the sheet is written as its own column letters followed
      by its row number, as the grid writes them. */
  ghost predicate Canonical(s: Sheet)
  {
    forall id :: id in s.cells ==>
      ParseCellId(id).Some? && id == CellId(ParseCellId(id).value.0, ParseCellId(id).value.1)
  }

  /** The parts `parseCellId` reads from a canonical id. */
  lemma CanonicalParts(s: Sheet, id: string) returns (col: string, row: nat)
    requires Canonical(s) && id in s.cells
    ensures |col| > 0 && AllUpper(col) && id == CellId(col, row)
    ensures ParseCellId(id) == Some((col, row))
  {
    col, row := ParseCellId(id).value.0, ParseCellId(id).value.1;
  }

  lemma RowFateOf(col: string, row: nat, k: nat)
    requires |col| > 0 && AllUpper(col)
    ensures row > k ==> RowFate(CellId(col, row), k) == Keep(CellId(col, row - 1))
    ensures row < k ==> RowFate(CellId(col, row), k) == Keep(CellId(col, row))
    ensures row == k ==> RowFate(CellId(col, row), k) == Drop
  {
    ParseCellIdOfCellId(col, row);
  }

  /** Where a kept cell of `deleteRow(k)` came from: the same id below row
      `k`, the next row down otherwise. */
  lemma RowOrigin(s: Sheet, k: nat, id: string, col: string, row: nat)
    requires Canonical(s) && id in s.cells && |col| > 0 && AllUpper(col)
    requires RowFate(id, k) == Keep(CellId(col, row))
    ensures id == if row < k then CellId(col, row) else CellId(col, row + 1)
  {
    var c, r := CanonicalParts(s, id);
    RowOriginOf(c, r, k, col, row);
  }

  lemma RowOriginOf(c: string, r: nat, k: nat, col: string, row: nat)
    requires |c| > 0 && AllUpper(c) && |col| > 0 && AllUpper(col)
    requires RowFate(CellId(c, r), k) == Keep(CellId(col, row))
    ensures c == col && r == if row < k then row else row + 1
  {
    RowFateOf(c, r, k);
    if r > k {
      CellIdInjective(c, r - 1, col, row);
    } else {
      CellIdInjective(c, r, col, row);
    }
  }

  /** Two cells `deleteRow(k)` sends to the same id are the same cell. */
  lemma RowPair(s: Sheet, k: nat, a: string, b: string)
    requires Canonical(s) && a in s.cells && b in s.cells
    requires RowFate(a, k).Keep? && RowFate(a, k) == RowFate(b, k)
    ensures a == b
  {
    var c, r := CanonicalParts(s, a);
    RowFateOf(c, r, k);
    var t := if r > k then r - 1 else r;
    RowOrigin(s, k, a, c, t);
    RowOrigin(s, k, b, c, t);
  }

  /** On a sheet of canonical ids, `deleteRow(k)` sends no two cells to the
      same id and never throws. */
  lemma DeleteRowInjective(s: Sheet, k: nat)
    requires SheetOk(s) && Canonical(s)
    ensures forall j :: 0 <= j < |s.ids| ==> s.ids[j] in s.cells
    ensures Injective(s.ids, RowFates(k))
    ensures Rekey(s.cells, s.ids, RowFates(k)).Some?
  {
    var ids := s.ids;
    var fate := RowFates(k);
    forall i, j | 0 <= i < |ids| && 0 <= j < |ids| && fate(ids[i]).Keep? && fate(ids[i]) == fate(ids[j])
      ensures i == j
    {
      RowPair(s, k, ids[i], ids[j]);
    }
    forall j | 0 <= j < |ids|
      ensures !fate(ids[j]).Fail?
    {
      var c, r := CanonicalParts(s, ids[j]);
      RowFateOf(c, r, k);
    }
    RekeyFails(s.cells, ids, fate);
  }

  /** `deleteRow(k)` on a sheet of canonical ids: cells above row `k` keep
      their place, row `k` is taken by the cell from row `k + 1`, and every
      later row by the one below it; the old row `k` is gone. */
  lemma DeleteRowShifts(s: Sheet, k: nat, col: string, row: nat)
    requires SheetOk(s) && Canonical(s) && |col| > 0 && AllUpper(col)
    ensures forall j :: 0 <= j < |s.ids| ==> s.ids[j] in s.cells
    ensures Rekey(s.cells, s.ids, RowFates(k)).Some?
    ensures var m := Rekey(s.cells, s.ids, RowFates(k)).value.0;
      var from := if row < k then CellId(col, row) else CellId(col, row + 1);
      && (CellId(col, row) in m <==> from in s.cells)
      && (from in s.cells ==> m[CellId(col, row)] == s.cells[from])
  {
    DeleteRowInjective(s, k);
    var ids := s.ids;
    var fate := RowFates(k);
    var key := CellId(col, row);
    var from := if row < k then CellId(col, row) else CellId(col, row + 1);
    RekeyKeys(s.cells, ids, fate, key);
    if key in Rekey(s.cells, ids, fate).value.0 {
      var j :| 0 <= j < |ids| && fate(ids[j]) == Keep(key);
      RowOrigin(s, k, ids[j], col, row);
    }
    if from in s.cells {
      RowFateOf(col, if row < k then row else row + 1, k);
      var j := FirstIndex(ids, from);
      assert fate(ids[j]) == Keep(key);
      RekeyValues(s.cells, ids, fate, j);
    }
  }

  /** Every id of the sheet has a one-letter column. */
  ghost predicate OneLetter(s: Sheet)
  {
    Canonical(s) && forall id :: id in s.cells ==> |ParseCellId(id).value.0| == 1
  }

  lemma ColumnFateOf(i: int, row: nat, c: nat)
    requires 0 <= i < 26
    ensures i > c ==> ColumnFate(CellId([Letter(i)], row), c) == Keep(CellId([Letter(i - 1)], row))
    ensures i < c ==> ColumnFate(CellId([Letter(i)], row), c) == Keep(CellId([Letter(i)], row))
    ensures i == c ==> ColumnFate(CellId([Letter(i)], row), c) == Drop
  {
    ParseCellIdOfCellId([Letter(i)], row);
  }

  /** The column letter of a one-letter id. */
  lemma OneLetterParts(s: Sheet, id: string) returns (i: int, row: nat)
    requires OneLetter(s) && id in s.cells
    ensures 0 <= i < 26 && id == CellId([Letter(i)], row)
  {
    var col: string;
    col, row := CanonicalParts(s, id);
    i := col[0] as int - 65;
    assert col == [Letter(i)];
  }

  lemma LetterIdInjective(i: int, r: nat, j: int, q: nat)
    requires 0 <= i < 26 && 0 <= j < 26
    requires CellId([Letter(i)], r) == CellId([Letter(j)], q)
    ensures i == j && r == q
  {
    CellIdInjective([Letter(i)], r, [Letter(j)], q);
    assert [Letter(i)][0] == [Letter(j)][0];
  }

  /** Where a kept cell of `deleteColumn(c)` came from: the same id left of
      column `c`, the next column right otherwise. */
  lemma ColumnOrigin(s: Sheet, c: nat, id: string, i: int, row: nat)
    requires OneLetter(s) && id in s.cells && 0 <= i < 26
    requires ColumnFate(id, c) == Keep(CellId([Letter(i)], row))
    ensures i >= c ==> i + 1 < 26
    ensures id == if i < c then CellId([Letter(i)], row) else CellId([Letter(i + 1)], row)
  {
    var ij, rj := OneLetterParts(s, id);
    ColumnFateOf(ij, rj, c);
    var t := if ij > c then ij - 1 else ij;
    LetterIdInjective(t, rj, i, row);
  }

  /** Two cells `deleteColumn(c)` sends to the same id are the same cell. */
  lemma ColumnPair(s: Sheet, c: nat, a: string, b: string)
    requires OneLetter(s) && a in s.cells && b in s.cells
    requires ColumnFate(a, c).Keep? && ColumnFate(a, c) == ColumnFate(b, c)
    ensures a == b
  {
    var i, r := OneLetterParts(s, a);
    ColumnFateOf(i, r, c);
    var t := if i > c then i - 1 else i;
    ColumnOrigin(s, c, a, t, r);
    ColumnOrigin(s, c, b, t, r);
  }

  /** On a sheet whose ids all have one-letter columns, `deleteColumn(c)`
      sends no two cells to the same id and never throws. */
  lemma DeleteColumnInjective(s: Sheet, c: nat)
    requires SheetOk(s) && OneLetter(s)
    ensures forall j :: 0 <= j < |s.ids| ==> s.ids[j] in s.cells
    ensures Injective(s.ids, ColumnFates(c))
    ensures Rekey(s.cells, s.ids, ColumnFates(c)).Some?
  {
    var ids := s.ids;
    var fate := ColumnFates(c);
    forall a, b | 0 <= a < |ids| && 0 <= b < |ids| && fate(ids[a]).Keep? && fate(ids[a]) == fate(ids[b])
      ensures a == b
    {
      ColumnPair(s, c, ids[a], ids[b]);
    }
    forall j | 0 <= j < |ids|
      ensures !fate(ids[j]).Fail?
    {
      var i, r := OneLetterParts(s, ids[j]);
      ColumnFateOf(i, r, c);
    }
    RekeyFails(s.cells, ids, fate);
  }

  /** `deleteColumn(c)` on a sheet of one-letter ids: columns left of `c`
      keep their place, and column `i >= c` is taken by the cells of column
      `i + 1` (none for Z); the old column `c` is gone. */
  lemma DeleteColumnShifts(s: Sheet, c: nat, i: int, row: nat)
    requires SheetOk(s) && OneLetter(s) && 0 <= i < 26
    ensures forall j :: 0 <= j < |s.ids| ==> s.ids[j] in s.cells
    ensures Rekey(s.cells, s.ids, ColumnFates(c)).Some?
    ensures var m := Rekey(s.cells, s.ids, ColumnFates(c)).value.0;
      var key := CellId([Letter(i)], row);
      && (i < c ==> (key in m <==> key in s.cells) && (key in s.cells ==> m[key] == s.cells[key]))
      && (c <= i < 25 ==> (key in m <==> CellId([Letter(i + 1)], row) in s.cells)
                          && (CellId([Letter(i + 1)], row) in s.cells ==> m[key] == s.cells[CellId([Letter(i + 1)], row)]))
      && (c <= i == 25 ==> key !in m)
  {
    DeleteColumnInjective(s, c);
    if i < c {
      ColumnMoves(s, c, i, i, row);
    } else if i < 25 {
      ColumnMoves(s, c, i, i + 1, row);
    } else {
      ColumnEmptied(s, c, row);
    }
  }

  /** The cell `deleteColumn(c)` writes under column `i` is the old cell of
      column `src`, the same or the next column. */
  lemma ColumnMoves(s: Sheet, c: nat, i: int, src: int, row: nat)
    requires SheetOk(s) && OneLetter(s) && 0 <= i < 26 && 0 <= src < 26
    requires src == if i < c then i else i + 1
    requires Rekey(s.cells, s.ids, ColumnFates(c)).Some?
    requires Injective(s.ids, ColumnFates(c))
    ensures var m := Rekey(s.cells, s.ids, ColumnFates(c)).value.0;
      var key := CellId([Letter(i)], row);
      var from := CellId([Letter(src)], row);
      (key in m <==> from in s.cells) && (from in s.cells ==> m[key] == s.cells[from])
  {
    var ids := s.ids;
    var fate := ColumnFates(c);
    var key := CellId([Letter(i)], row);
    var from := CellId([Letter(src)], row);
    RekeyKeys(s.cells, ids, fate, key);
    if key in Rekey(s.cells, ids, fate).value.0 {
      var j :| 0 <= j < |ids| && fate(ids[j]) == Keep(key);
      ColumnOrigin(s, c, ids[j], i, row);
    }
    ColumnFateOf(src, row, c);
    if from in s.cells {
      var j := FirstIndex(ids, from);
      assert fate(ids[j]) == Keep(key);
      RekeyValues(s.cells, ids, fate, j);
    }
  }

  /** No cell is moved into column Z when a column is deleted. */
  lemma ColumnEmptied(s: Sheet, c: nat, row: nat)
    requires SheetOk(s) && OneLetter(s) && c <= 25
    requires Rekey(s.cells, s.ids, ColumnFates(c)).Some?
    ensures CellId([Letter(25)], row) !in Rekey(s.cells, s.ids, ColumnFates(c)).value.0
  {
    var ids := s.ids;
    var fate := ColumnFates(c);
    var key := CellId([Letter(25)], row);
    RekeyKeys(s.cells, ids, fate, key);
    if key in Rekey(s.cells, ids, fate).value.0 {
      var j :| 0 <= j < |ids| && fate(ids[j]) == Keep(key);
      ColumnOrigin(s, c, ids[j], 25, row);
    }
  }
}
