/** The records `SpreadsheetDB` keeps: cell styles, cells and sheets, the
    way `getCell`, `updateCell` and `updateCellStyle` touch one cell, and
    the names `addSheet` makes up. */
module Records {
  import opened Wrappers
  import opened Text
  import opened Numbers

  datatype Style = Style(bold: bool, italic: bool, underline: bool, alignment: string,
                         fontFamily: string, fontSize: int, color: string, backgroundColor: string)

  /** The style of a cell record `getCell` creates. */
  const DefaultStyle: Style := Style(false, false, false, "left", "arial", 14, "#000000", "#ffffff")

  /** The fields an `Object.assign(cell.style, style)` call carries; absent
      fields are left alone. */
  datatype StylePatch = StylePatch(bold: Option<bool>, italic: Option<bool>, underline: Option<bool>,
                                   alignment: Option<string>, fontFamily: Option<string>, fontSize: Option<int>,
                                   color: Option<string>, backgroundColor: Option<string>)

  function Pick<T>(o: Option<T>, current: T): T
  {
    if o.Some? then o.value else current
  }

  /** `Object.assign(style, patch)`. */
  function MergeStyle(s: Style, p: StylePatch): Style
  {
    Style(Pick(p.bold, s.bold), Pick(p.italic, s.italic), Pick(p.underline, s.underline),
          Pick(p.alignment, s.alignment), Pick(p.fontFamily, s.fontFamily), Pick(p.fontSize, s.fontSize),
          Pick(p.color, s.color), Pick(p.backgroundColor, s.backgroundColor))
  }

  /** A style field takes the patch's value when the patch carries it and
      keeps its own otherwise; merging the same patch twice is merging it
      once. */
  lemma MergeStyleFields(s: Style, p: StylePatch)
    ensures var r := MergeStyle(s, p);
      && (p.bold.Some? ==> r.bold == p.bold.value) && (p.bold.None? ==> r.bold == s.bold)
      && (p.italic.Some? ==> r.italic == p.italic.value) && (p.italic.None? ==> r.italic == s.italic)
      && (p.underline.Some? ==> r.underline == p.underline.value) && (p.underline.None? ==> r.underline == s.underline)
      && (p.alignment.Some? ==> r.alignment == p.alignment.value) && (p.alignment.None? ==> r.alignment == s.alignment)
      && (p.fontFamily.Some? ==> r.fontFamily == p.fontFamily.value) && (p.fontFamily.None? ==> r.fontFamily == s.fontFamily)
      && (p.fontSize.Some? ==> r.fontSize == p.fontSize.value) && (p.fontSize.None? ==> r.fontSize == s.fontSize)
      && (p.color.Some? ==> r.color == p.color.value) && (p.color.None? ==> r.color == s.color)
      && (p.backgroundColor.Some? ==> r.backgroundColor == p.backgroundColor.value)
      && (p.backgroundColor.None? ==> r.backgroundColor == s.backgroundColor)
    ensures MergeStyle(MergeStyle(s, p), p) == MergeStyle(s, p)
  {
  }

  /** What a cell's `content` holds: the text typed in, or the value a
      formula produced. `formula` is the text starting with `=`, or empty. */
  datatype Cell = Cell(content: Value, formula: string, style: Style)

  /** The record `getCell` creates for a cell it has not seen. */
  const BlankCell: Cell := Cell(Str(""), "", DefaultStyle)

  /** The fields an `updateCell` call carries. */
  datatype CellPatch = CellPatch(content: Option<Value>, formula: Option<string>)

  /** `Object.assign(cell, updates)`. */
  function Assign(c: Cell, p: CellPatch): Cell
  {
    Cell(Pick(p.content, c.content), Pick(p.formula, c.formula), c.style)
  }

  /** An update sets exactly the fields it carries; applying it twice is
      applying it once. */
  lemma AssignFields(c: Cell, p: CellPatch)
    ensures Assign(c, p).content == (if p.content.Some? then p.content.value else c.content)
    ensures Assign(c, p).formula == (if p.formula.Some? then p.formula.value else c.formula)
    ensures Assign(c, p).style == c.style
    ensures Assign(Assign(c, p), p) == Assign(c, p)
  {
  }

  /** JavaScript truthiness of a cell's content: a non-empty text, or a
      number other than 0 and NaN. */
  predicate Truthy(v: Value)
  {
    match v
    case Str(s) => s != ""
    case Num(Finite(x)) => x != 0.0
    case Num(NaN) => false
    case Num(_) => true
  }

  /** A sheet: its cells keyed by id, the ids in the order they were
      created, and its size. */
  datatype Sheet = Sheet(cells: map<string, Cell>, ids: seq<string>, columnCount: int, rowCount: int)

  /** The sheet `addSheet` creates: no cells, columns A to Z, 50 rows. */
  const NewSheet: Sheet := Sheet(map[], [], 26, 50)

  /** The id list names each cell exactly once. */
  ghost predicate SheetOk(s: Sheet)
  {
    Distinct(s.ids) && forall id :: id in s.ids <==> id in s.cells
  }

  /** The sheet after `getCell(sheet, id)`: a blank record is created for an
      id it has not seen; every other cell stays as it was. */
  function WithCell(s: Sheet, id: string): (r: Sheet)
    ensures id in r.cells
    ensures id in s.cells ==> r == s
    ensures id !in s.cells ==> r.cells[id] == BlankCell && r.ids == s.ids + [id]
    ensures forall other :: other != id ==> (other in r.cells <==> other in s.cells)
    ensures forall other :: other != id && other in s.cells ==> r.cells[other] == s.cells[other]
    ensures r.columnCount == s.columnCount && r.rowCount == s.rowCount
    ensures SheetOk(s) ==> SheetOk(r)
  {
    if id in s.cells then s else s.(cells := s.cells[id := BlankCell], ids := s.ids + [id])
  }

  /** The sheet after `updateCell(sheet, id, updates)`. */
  function Patched(s: Sheet, id: string, p: CellPatch): (r: Sheet)
    ensures id in r.cells && r.cells[id] == Assign(WithCell(s, id).cells[id], p)
    ensures forall other :: other != id ==> (other in r.cells <==> other in s.cells)
    ensures forall other :: other != id && other in s.cells ==> r.cells[other] == s.cells[other]
    ensures SheetOk(s) ==> SheetOk(r)
  {
    var w := WithCell(s, id);
    w.(cells := w.cells[id := Assign(w.cells[id], p)])
  }

  /** The sheet after `updateCellStyle(sheet, id, style)`. */
  function Styled(s: Sheet, id: string, p: StylePatch): (r: Sheet)
    ensures id in r.cells
    ensures r.cells[id].style == MergeStyle(WithCell(s, id).cells[id].style, p)
    ensures r.cells[id].content == WithCell(s, id).cells[id].content
    ensures r.cells[id].formula == WithCell(s, id).cells[id].formula
    ensures forall other :: other != id ==> (other in r.cells <==> other in s.cells)
    ensures forall other :: other != id && other in s.cells ==> r.cells[other] == s.cells[other]
    ensures SheetOk(s) ==> SheetOk(r)
  {
    var w := WithCell(s, id);
    var c := w.cells[id];
    w.(cells := w.cells[id := c.(style := MergeStyle(c.style, p))])
  }

  /** Names every object has through `Object.prototype`. */
  const Builtins: seq<string> :=
    ["constructor", "hasOwnProperty", "isPrototypeOf", "propertyIsEnumerable",
     "toLocaleString", "toString", "valueOf", "__proto__",
     "__defineGetter__", "__defineSetter__", "__lookupGetter__", "__lookupSetter__"]

  /** Looking one of the built-in names up in `this.data.sheets` finds an
      inherited member, which is truthy. */
  predicate Inherited(name: string)
  {
    name in Builtins
  }

  /** `Sheet${n}`. */
  function SheetName(n: nat): string
  {
    "Sheet" + NatToString(n)
  }

  /** `x` is `Sheet` followed by digits worth at least `n`. */
  predicate NumberedFrom(x: string, n: nat)
  {
    |x| > 5 && x[..5] == "Sheet" && AllDigits(x[5..]) && DigitsValue(x[5..]) >= n
  }

  /** The names the search for a free `Sheet${n}` may still run into. */
  function Pending(names: seq<string>, n: nat): set<string>
  {
    set x | x in names && NumberedFrom(x, n)
  }

  lemma SheetNameNumbered(n: nat)
    ensures NumberedFrom(SheetName(n), n) && !NumberedFrom(SheetName(n), n + 1)
  {
    var x := SheetName(n);
    assert x[..5] == "Sheet" && x[5..] == NatToString(n);
    NatToStringValue(n);
  }

  /** The first of `Sheet${n}`, `Sheet${n + 1}`, ... not among `names`. */
  function FreshName(names: seq<string>, n: nat): (r: string)
    ensures r !in names
    ensures |r| > 5 && r[..5] == "Sheet"
    decreases Pending(names, n)
  {
    var x := SheetName(n);
    if x in names then
      SheetNameNumbered(n);
      assert Pending(names, n + 1) < Pending(names, n) by {
        assert x in Pending(names, n) && x !in Pending(names, n + 1);
        assert forall y :: y in Pending(names, n + 1) ==> y in Pending(names, n);
      }
      FreshName(names, n + 1)
    else x
  }

  /** The name found is `Sheet` followed by a number at least `n`. */
  lemma {:induction false} FreshNameNumbered(names: seq<string>, n: nat)
    ensures NumberedFrom(FreshName(names, n), n)
    decreases Pending(names, n)
  {
    SheetNameNumbered(n);
    if SheetName(n) in names {
      PendingShrinks(names, n);
      FreshNameNumbered(names, n + 1);
    }
  }

  /** A taken `Sheet${n}` leaves fewer names for the search from `n + 1`
      to run into. */
  lemma PendingShrinks(names: seq<string>, n: nat)
    requires SheetName(n) in names
    ensures Pending(names, n + 1) < Pending(names, n)
  {
    var x := SheetName(n);
    SheetNameNumbered(n);
    assert x in Pending(names, n) && x !in Pending(names, n + 1);
    assert forall y :: y in Pending(names, n + 1) ==> y in Pending(names, n);
  }

  /** When `Sheet${start}` up to `Sheet${n - 1}` are all taken, the search
      from `start` ends where the search from `n` ends. */
  lemma {:induction false} FreshNameAfter(names: seq<string>, start: nat, n: nat)
    requires start <= n
    requires forall m :: start <= m < n ==> SheetName(m) in names
    ensures FreshName(names, start) == FreshName(names, n)
    decreases n - start
  {
    if start < n {
      assert SheetName(start) in names;
      FreshNameAfter(names, start + 1, n);
    }
  }

  /** A generated name is never one the prototype supplies. */
  lemma FreshNameOwn(names: seq<string>, n: nat)
    ensures !Inherited(FreshName(names, n)) && FreshName(names, n) != ""
  {
    var x := FreshName(names, n);
    assert x[0] == x[..5][0] == 'S';
    assert forall k :: 0 <= k < |Builtins| ==> Builtins[k][0] != 'S';
  }
}
