/** `Spreadsheet` (app.js): the page object. Of its state this models the
    workbook it owns, the two dependency maps and the undo/redo stacks;
    of its methods, the edit of one cell with everything it sets off, the
    upkeep of the dependency maps, the walk that recalculates dependents,
    and the bounded undo history. Whether a cell is on the grid (a
    `document.querySelector` hit) is the parameter `rendered`; the
    formula handler is the evaluator the page object holds. */
module App {
  import opened Wrappers
  import opened Text
  import opened Numbers
  import opened Records
  import opened Dependencies
  import opened Propagation
  import opened Workbook
  import Replacing
  import Formula

  /** An entry of the undo history: the content edit the grid records. */
  datatype Command = Command(cellId: string, oldValue: Value, newValue: Value)

  /** `undoStack` after `addToHistory(command)`: pushed, then the oldest
      entry dropped when the stack is over `max`. */
  function Pushed<T>(stack: seq<T>, command: T, max: nat): seq<T>
  {
    var pushed := stack + [command];
    if |pushed| > max then pushed[1..] else pushed
  }

  /** The history keeps at most `max` entries, the new command last, and
      the most recent entries before it in order: the stack after is a
      suffix of the stack before with the command appended. */
  lemma PushedBounded<T>(stack: seq<T>, command: T, max: nat)
    requires |stack| <= max && max >= 1
    ensures var r := Pushed(stack, command, max);
      && |r| == (if |stack| < max then |stack| + 1 else max)
      && r[|r| - 1] == command
      && r[..|r| - 1] == stack[|stack| + 1 - |r|..]
  {
    var r := Pushed(stack, command, max);
    if |stack| < max {
      assert r == stack + [command];
      assert r[..|r| - 1] == stack;
    } else {
      assert r == (stack + [command])[1..];
      assert r[..|r| - 1] == stack[1..];
    }
  }

  /** The `getCell(activeSheet, id)` calls the resolver makes, one per id
      `evaluate` reads. */
  method TouchAll(db: SpreadsheetDB, ids: seq<string>)
    requires db.Valid()
    modifies db
    ensures db.Valid() && db.names == old(db.names) && db.activeSheet == old(db.activeSheet)
    ensures db.sheets == old(db.sheets)[db.activeSheet := Touch(old(db.sheets)[db.activeSheet], ids)]
  {
    var i := 0;
    while i < |ids|
      invariant 0 <= i <= |ids|
      invariant db.Valid() && db.names == old(db.names) && db.activeSheet == old(db.activeSheet)
      invariant db.sheets == old(db.sheets)[db.activeSheet := Touch(old(db.sheets)[db.activeSheet], ids[..i])]
    {
      TouchNext(old(db.sheets)[db.activeSheet], ids, i);
      ghost var before := Touch(old(db.sheets)[db.activeSheet], ids[..i]);
      var cell := db.GetCell(db.activeSheet, ids[i]);
      Overwritten(old(db.sheets), db.activeSheet, before, WithCell(before, ids[i]));
      i := i + 1;
    }
    assert ids[..|ids|] == ids;
  }

  lemma TouchNext(s: Sheet, ids: seq<string>, i: nat)
    requires i < |ids|
    ensures Touch(s, ids[..i + 1]) == WithCell(Touch(s, ids[..i]), ids[i])
  {
    assert ids[..i + 1][..i] == ids[..i];
  }

  /** `evaluate(formula, resolver)` for `cellId` on the active sheet and the
      `updateCell(activeSheet, cellId, {content: result, formula})` after it:
      the result, or None when evaluation never ends. */
  method Recompute(db: SpreadsheetDB, cellId: string, formula: string, evaluate: Evaluator) returns (result: Option<Value>)
    requires db.Valid()
    modifies db
    ensures db.Valid() && db.names == old(db.names) && db.activeSheet == old(db.activeSheet)
    ensures db.sheets == old(db.sheets)[db.activeSheet := db.sheets[db.activeSheet]]
    ensures match Recalculate(old(db.sheets)[db.activeSheet], cellId, formula, evaluate)
      case None => result.None? && db.sheets == old(db.sheets)
      case Some((v, s)) => result == Some(v) && db.sheets == old(db.sheets)[db.activeSheet := s]
  {
    var before := db.sheets[db.activeSheet];
    match evaluate(formula, Resolver(before))
    case Loops =>
      return None;
    case Evaluated(v) =>
      Store(db, cellId, formula, v);
      return Some(v);
  }

  /** The reads `evaluate` made through the resolver, then
      `updateCell(activeSheet, cellId, {content: v, formula})`. */
  method Store(db: SpreadsheetDB, cellId: string, formula: string, v: Value)
    requires db.Valid()
    modifies db
    ensures db.Valid() && db.names == old(db.names) && db.activeSheet == old(db.activeSheet)
    ensures db.sheets == old(db.sheets)[db.activeSheet :=
      Patched(Touch(old(db.sheets)[db.activeSheet], Formula.Reads(formula)), cellId, CellPatch(Some(v), Some(formula)))]
  {
    TouchAll(db, Formula.Reads(formula));
    ghost var touched := Touch(old(db.sheets)[db.activeSheet], Formula.Reads(formula));
    db.UpdateCell(db.activeSheet, cellId, CellPatch(Some(v), Some(formula)));
    Overwritten(old(db.sheets), db.activeSheet, touched, Patched(touched, cellId, CellPatch(Some(v), Some(formula))));
  }

  /** The `while (toUpdate.length > 0)` loop of `updateDependentCells` over
      the graph `g`, starting from the queue `start`. */
  method WalkDependents(db: SpreadsheetDB, g: Graph, rendered: string -> bool, evaluate: Evaluator, start: seq<string>)
    returns (frozen: bool)
    requires db.Valid()
    modifies db
    ensures db.Valid() && db.names == old(db.names) && db.activeSheet == old(db.activeSheet)
    ensures var w := Walk(g, rendered, evaluate, old(db.sheets)[db.activeSheet], {}, start, []);
      && (frozen <==> w.Frozen?)
      && (!frozen ==> db.sheets == old(db.sheets)[db.activeSheet := w.sheet])
  {
    ghost var s0 := db.sheets[db.activeSheet];
    var visited: set<string> := {};
    var toUpdate := start;
    ghost var evaluated: seq<string> := [];
    while toUpdate != []
      invariant db.Valid() && db.names == old(db.names) && db.activeSheet == old(db.activeSheet)
      invariant db.sheets == old(db.sheets)[db.activeSheet := db.sheets[db.activeSheet]]
      invariant Walk(g, rendered, evaluate, db.sheets[db.activeSheet], visited, toUpdate, evaluated)
                == Walk(g, rendered, evaluate, s0, {}, start, [])
      decreases Unvisited(g, visited, toUpdate), |toUpdate|
    {
      var stuck;
      ghost var mid := db.sheets;
      stuck, visited, toUpdate, evaluated := WalkStep(db, g, rendered, evaluate, visited, toUpdate, evaluated);
      assert db.sheets == old(db.sheets)[db.activeSheet := db.sheets[db.activeSheet]] by {
        assert db.sheets == mid[db.activeSheet := db.sheets[db.activeSheet]];
      }
      if stuck {
        return true;
      }
    }
    return false;
  }

  /** One turn of the loop: take the head of the queue and, unless it was
      visited, visit it and queue its dependents when it was recalculated.
      The rest of the walk is unchanged by the turn, and the turn brings
      the walk closer to its end. */
  method WalkStep(db: SpreadsheetDB, g: Graph, rendered: string -> bool, evaluate: Evaluator,
                  visited: set<string>, toUpdate: seq<string>, ghost evaluated: seq<string>)
    returns (frozen: bool, visitedNext: set<string>, toUpdateNext: seq<string>, ghost evaluatedNext: seq<string>)
    requires db.Valid() && toUpdate != []
    modifies db
    ensures db.Valid() && db.names == old(db.names) && db.activeSheet == old(db.activeSheet)
    ensures db.sheets == old(db.sheets)[db.activeSheet := db.sheets[db.activeSheet]]
    ensures frozen ==> Walk(g, rendered, evaluate, old(db.sheets)[db.activeSheet], visited, toUpdate, evaluated).Frozen?
    ensures !frozen ==>
      Walk(g, rendered, evaluate, db.sheets[db.activeSheet], visitedNext, toUpdateNext, evaluatedNext)
      == Walk(g, rendered, evaluate, old(db.sheets)[db.activeSheet], visited, toUpdate, evaluated)
    ensures !frozen ==>
      || Unvisited(g, visitedNext, toUpdateNext) < Unvisited(g, visited, toUpdate)
      || (Unvisited(g, visitedNext, toUpdateNext) == Unvisited(g, visited, toUpdate) && |toUpdateNext| < |toUpdate|)
  {
    ghost var s := db.sheets[db.activeSheet];
    var cur := toUpdate[0];
    toUpdateNext := toUpdate[1..];
    if cur in visited {
      UnvisitedSame(g, visited, toUpdate);
      return false, visited, toUpdateNext, evaluated;
    }
    visitedNext := visited + {cur};
    evaluatedNext := evaluated;
    var recalculated;
    frozen, recalculated := VisitDependent(db, rendered, evaluate, cur);
    RefreshOutcome(rendered, evaluate, s, cur);
    if frozen {
      return;
    }
    if recalculated {
      evaluatedNext := evaluated + [cur];
      if cur in g {
        toUpdateNext := toUpdateNext + g[cur];
      }
    }
    assert Refresh(rendered, evaluate, s, cur) == Some((db.sheets[db.activeSheet], recalculated));
    assert toUpdateNext == toUpdate[1..] + (if recalculated then Members(g, cur) else []);
    assert evaluatedNext == evaluated + (if recalculated then [cur] else []);
    WalkUnfold(g, rendered, evaluate, s, visited, toUpdate, evaluated);
  }

  /** One cell off the queue, not visited before: when it is on the grid,
      `getCell` for its formula and, when it has one, its recalculation. */
  method VisitDependent(db: SpreadsheetDB, rendered: string -> bool, evaluate: Evaluator, cur: string)
    returns (frozen: bool, recalculated: bool)
    requires db.Valid()
    modifies db
    ensures db.Valid() && db.names == old(db.names) && db.activeSheet == old(db.activeSheet)
    ensures db.sheets == old(db.sheets)[db.activeSheet := db.sheets[db.activeSheet]]
    ensures var s := old(db.sheets)[db.activeSheet];
      && (!rendered(cur) ==> !frozen && !recalculated && db.sheets == old(db.sheets))
      && (rendered(cur) && Replacing.Before(s, cur).formula == "" ==>
            !frozen && !recalculated && db.sheets == old(db.sheets)[db.activeSheet := WithCell(s, cur)])
      && (rendered(cur) && Replacing.Before(s, cur).formula != "" ==>
            match Recalculate(WithCell(s, cur), cur, Replacing.Before(s, cur).formula, evaluate)
            case None => frozen
            case Some((_, next)) => !frozen && recalculated && db.sheets == old(db.sheets)[db.activeSheet := next])
  {
    if !rendered(cur) {
      return false, false;
    }
    frozen, recalculated := RefreshRendered(db, evaluate, cur);
  }

  /** The part of a visit for a cell on the grid. */
  method RefreshRendered(db: SpreadsheetDB, evaluate: Evaluator, cur: string)
    returns (frozen: bool, recalculated: bool)
    requires db.Valid()
    modifies db
    ensures db.Valid() && db.names == old(db.names) && db.activeSheet == old(db.activeSheet)
    ensures db.sheets == old(db.sheets)[db.activeSheet := db.sheets[db.activeSheet]]
    ensures var s := old(db.sheets)[db.activeSheet];
      Replacing.Before(s, cur).formula == "" ==>
        !frozen && !recalculated && db.sheets == old(db.sheets)[db.activeSheet := WithCell(s, cur)]
    ensures var s := old(db.sheets)[db.activeSheet];
      Replacing.Before(s, cur).formula != "" ==>
        match Recalculate(WithCell(s, cur), cur, Replacing.Before(s, cur).formula, evaluate)
        case None => frozen
        case Some((_, next)) => !frozen && recalculated && db.sheets == old(db.sheets)[db.activeSheet := next]
  {
    ghost var s := db.sheets[db.activeSheet];
    var cell := db.GetCell(db.activeSheet, cur);
    var formula := cell.value.formula;
    if formula == "" {
      return false, false;
    }
    ghost var mid := db.sheets;
    var result := Recompute(db, cur, formula, evaluate);
    frozen, recalculated := result.None?, result.Some?;
    Overwritten(old(db.sheets), db.activeSheet, mid[db.activeSheet], db.sheets[db.activeSheet]);
  }

  /** `VisitDependent`'s outcome is one step of `Refresh`. */
  lemma RefreshOutcome(rendered: string -> bool, evaluate: Evaluator, s: Sheet, cur: string)
    ensures !rendered(cur) ==> Refresh(rendered, evaluate, s, cur) == Some((s, false))
    ensures rendered(cur) && Replacing.Before(s, cur).formula == "" ==>
      Refresh(rendered, evaluate, s, cur) == Some((WithCell(s, cur), false))
    ensures rendered(cur) && Replacing.Before(s, cur).formula != "" ==>
      Refresh(rendered, evaluate, s, cur) ==
        match Recalculate(WithCell(s, cur), cur, Replacing.Before(s, cur).formula, evaluate)
        case None => None
        case Some((_, next)) => Some((next, true))
  {
  }

  /** `handleCellChange` on the values: the typed text stored with its
      formula (the text itself when it starts with `=`, else none), the
      dependency maps relinked, a formula evaluated into the cell, then the
      walk over the cell's dependents. Frozen when an evaluation never
      ends. */
  function CellChange(deps: Graph, dependents: Graph, s: Sheet, cellId: string, content: string,
                      rendered: string -> bool, evaluate: Evaluator): Walked
  {
    var formula := if StartsWith(content, "=") then content else "";
    var typed := Patched(s, cellId, CellPatch(Some(Str(content)), Some(formula)));
    Settle(Relink(deps, dependents, cellId, formula).1, typed, cellId, content, rendered, evaluate)
  }

  /** The second half of `handleCellChange`, once the text is stored and
      the maps relinked: a formula is evaluated into the cell, then the
      walk runs over the cell's dependents in `g`. */
  function Settle(g: Graph, typed: Sheet, cellId: string, content: string,
                  rendered: string -> bool, evaluate: Evaluator): Walked
  {
    if !StartsWith(content, "=") then Propagate(g, rendered, evaluate, typed, cellId)
    else match Recalculate(typed, cellId, content, evaluate)
      case None => Frozen
      case Some((_, written)) => Propagate(g, rendered, evaluate, written, cellId)
  }

  /** `CellChange` taken apart: the walk runs from the typed sheet, or
      from the sheet after the formula's recalculation. */
  lemma CellChangeWalk(deps: Graph, dependents: Graph, s: Sheet, cellId: string, content: string,
                       rendered: string -> bool, evaluate: Evaluator, g: Graph, typed: Sheet)
    requires g == Relink(deps, dependents, cellId, if StartsWith(content, "=") then content else "").1
    requires typed == Patched(s, cellId, CellPatch(Some(Str(content)), Some(if StartsWith(content, "=") then content else "")))
    requires CellChange(deps, dependents, s, cellId, content, rendered, evaluate).Walked?
    ensures !StartsWith(content, "=") ==>
      CellChange(deps, dependents, s, cellId, content, rendered, evaluate) == Propagate(g, rendered, evaluate, typed, cellId)
    ensures StartsWith(content, "=") ==>
      && Recalculate(typed, cellId, content, evaluate).Some?
      && CellChange(deps, dependents, s, cellId, content, rendered, evaluate)
         == Propagate(g, rendered, evaluate, Recalculate(typed, cellId, content, evaluate).value.1, cellId)
  {
  }

  /** Plain text typed into a cell stays there as typed, with no formula
      and the cell's style, whatever the walk does. */
  lemma TextEditStays(deps: Graph, dependents: Graph, s: Sheet, cellId: string, content: string,
                      rendered: string -> bool, evaluate: Evaluator)
    requires !StartsWith(content, "=")
    requires CellChange(deps, dependents, s, cellId, content, rendered, evaluate).Walked?
    ensures var r := CellChange(deps, dependents, s, cellId, content, rendered, evaluate);
      Replacing.Before(r.sheet, cellId) == Cell(Str(content), "", Replacing.Before(s, cellId).style)
  {
    var typed := Patched(s, cellId, CellPatch(Some(Str(content)), Some("")));
    var g := Relink(deps, dependents, cellId, "").1;
    PropagateFacts(g, rendered, evaluate, typed, cellId, cellId);
    AssignFields(WithCell(s, cellId).cells[cellId], CellPatch(Some(Str(content)), Some("")));
  }

  /** A formula typed into a cell stays its formula. The cell ends up
      holding what the formula evaluates to against the sheet with the
      typed text in the cell, unless the walk reaches the cell again, in
      which case it holds what the formula evaluates to against the sheet
      as it stood at that visit. */
  lemma FormulaEditValue(deps: Graph, dependents: Graph, s: Sheet, cellId: string, content: string,
                         rendered: string -> bool, evaluate: Evaluator)
    requires StartsWith(content, "=")
    requires CellChange(deps, dependents, s, cellId, content, rendered, evaluate).Walked?
    ensures var r := CellChange(deps, dependents, s, cellId, content, rendered, evaluate);
      && Replacing.Before(r.sheet, cellId).formula == content
      && Replacing.Before(r.sheet, cellId).style == Replacing.Before(s, cellId).style
      && var typed := Patched(s, cellId, CellPatch(Some(Str(content)), Some(content)));
         var w := Recalculate(typed, cellId, content, evaluate);
         && w.Some?
         && (cellId !in r.evaluated ==>
               evaluate(content, Resolver(typed)) == Formula.Evaluated(Replacing.Before(r.sheet, cellId).content))
         && (cellId in r.evaluated ==>
               var tr := PropagateTrace(Relink(deps, dependents, cellId, content).1, rendered, evaluate, w.value.1, cellId);
               exists k :: 0 <= k < |r.evaluated| && k < |tr| && r.evaluated[k] == cellId
                 && Gives(evaluate, content, tr[k], Replacing.Before(r.sheet, cellId).content)
                 && SheetDuring(tr[k], w.value.1, r.sheet, r.evaluated[..k]))
  {
    var typed := Patched(s, cellId, CellPatch(Some(Str(content)), Some(content)));
    var g := Relink(deps, dependents, cellId, content).1;
    CellChangeWalk(deps, dependents, s, cellId, content, rendered, evaluate, g, typed);
    AssignFields(WithCell(s, cellId).cells[cellId], CellPatch(Some(Str(content)), Some(content)));
    assert Replacing.Before(typed, cellId).style == Replacing.Before(s, cellId).style;
    RecalculateAt(typed, cellId, content, evaluate, cellId);
    var (v, written) := Recalculate(typed, cellId, content, evaluate).value;
    assert Replacing.Before(written, cellId) == Cell(v, content, Replacing.Before(s, cellId).style);
    var r := Propagate(g, rendered, evaluate, written, cellId);
    PropagateFacts(g, rendered, evaluate, written, cellId, cellId);
    if cellId !in r.evaluated {
      assert Replacing.Before(r.sheet, cellId).content == v;
      assert evaluate(content, Resolver(typed)) == Formula.Evaluated(v);
    } else {
      var k :| 0 <= k < |r.evaluated| && r.evaluated[k] == cellId;
      PropagateValues(g, rendered, evaluate, written, cellId, k);
      assert Replacing.Before(written, cellId).formula == content;
    }
  }

  /** After an edit, every cell that reads the edited cell, or reads a cell
      that was recalculated, is itself recalculated when it is on the grid
      and holds a formula; the edited cell is recalculated again only when
      it reads itself through such a chain. */
  lemma EditRecalculates(deps: Graph, dependents: Graph, s: Sheet, cellId: string, content: string,
                         rendered: string -> bool, evaluate: Evaluator, y: string)
    requires CellChange(deps, dependents, s, cellId, content, rendered, evaluate).Walked?
    ensures var r := CellChange(deps, dependents, s, cellId, content, rendered, evaluate);
      var g := Relink(deps, dependents, cellId, if StartsWith(content, "=") then content else "").1;
      y != cellId && rendered(y) && Replacing.Before(s, y).formula != ""
      && (y in Members(g, cellId) || exists e :: e in r.evaluated && y in Members(g, e))
      ==> y in r.evaluated
    ensures var r := CellChange(deps, dependents, s, cellId, content, rendered, evaluate);
      var g := Relink(deps, dependents, cellId, if StartsWith(content, "=") then content else "").1;
      y in r.evaluated ==> rendered(y) && (y in Members(g, cellId) || exists e :: e in r.evaluated && y in Members(g, e))
  {
    var formula := if StartsWith(content, "=") then content else "";
    var typed := Patched(s, cellId, CellPatch(Some(Str(content)), Some(formula)));
    var g := Relink(deps, dependents, cellId, formula).1;
    CellChangeWalk(deps, dependents, s, cellId, content, rendered, evaluate, g, typed);
    if StartsWith(content, "=") {
      RecalculateAt(typed, cellId, content, evaluate, y);
      var written := Recalculate(typed, cellId, content, evaluate).value.1;
      assert y != cellId ==> Replacing.Before(written, y) == Replacing.Before(s, y);
      PropagateReaches(g, rendered, evaluate, written, cellId, y);
    } else {
      assert y != cellId ==> Replacing.Before(typed, y) == Replacing.Before(s, y);
      PropagateReaches(g, rendered, evaluate, typed, cellId, y);
    }
  }

  /** The page object, with the state the modelled methods use. */
  class Spreadsheet {
    /** `this.db`, created by the constructor and never replaced. */
    const db: SpreadsheetDB
    /** `this.cellDependencies`: cell → the ids its formula reads. */
    var cellDependencies: Graph
    /** `this.dependentCells`: id → the cells whose formulas read it. */
    var dependentCells: Graph
    /** `this.formula`, the `FormulaHandler`; only its `evaluate` is used. */
    const formula: Evaluator
    var undoStack: seq<Command>
    var redoStack: seq<Command>
    const maxStackSize: nat

    /** The workbook keeps its invariant, the two maps their shape, and the
        undo history its bound. */
    ghost predicate Valid()
      reads this, db
    {
      && db.Valid()
      && GraphOk(cellDependencies, dependentCells)
      && |undoStack| <= maxStackSize
    }

    /** A fresh workbook, no dependencies, empty history of at most 100
        entries; `show` is how the handler turns numbers into text. */
    constructor (show: real -> string)
      ensures Valid() && fresh(db) && formula == Handler(show)
      ensures db.sheets == map["Sheet1" := NewSheet] && db.names == ["Sheet1"] && db.activeSheet == "Sheet1"
      ensures cellDependencies == map[] && dependentCells == map[]
      ensures undoStack == [] && redoStack == [] && maxStackSize == 100
    {
      db := new SpreadsheetDB();
      formula := Handler(show);
      cellDependencies := map[];
      dependentCells := map[];
      undoStack := [];
      redoStack := [];
      maxStackSize := 100;
    }

    /** `updateCellDependencies(cellId, formula)`, rewriting both maps in
        place; the maps keep their shape. */
    method UpdateCellDependencies(cellId: string, formula: string)
      requires Valid()
      modifies this
      ensures Valid()
      ensures (cellDependencies, dependentCells) == Relink(old(cellDependencies), old(dependentCells), cellId, formula)
      ensures undoStack == old(undoStack) && redoStack == old(redoStack)
    {
      RelinkKeepsGraph(cellDependencies, dependentCells, cellId, formula);
      ClearDependents(cellId);
      if !StartsWith(formula, "=") {
        cellDependencies := cellDependencies - {cellId};
        return;
      }
      var refs := ExtractCellReferences(formula);
      if |refs| > 0 {
        cellDependencies := cellDependencies[cellId := refs];
        LinkDependents(cellId, refs);
      }
    }

    /** The clearing half of `updateCellDependencies`: `cellId` leaves the
        set of each reference it had, and emptied sets go. */
    method ClearDependents(cellId: string)
      modifies this
      ensures dependentCells == Cleared(old(cellDependencies), old(dependentCells), cellId)
      ensures cellDependencies == old(cellDependencies)
      ensures undoStack == old(undoStack) && redoStack == old(redoStack)
    {
      if cellId in cellDependencies {
        var olds := cellDependencies[cellId];
        var i := 0;
        while i < |olds|
          invariant 0 <= i <= |olds|
          invariant dependentCells == Unlinked(old(dependentCells), cellId, olds[..i])
          invariant cellDependencies == old(cellDependencies)
          invariant undoStack == old(undoStack) && redoStack == old(redoStack)
        {
          assert olds[..i + 1][..i] == olds[..i];
          var dep := olds[i];
          if dep in dependentCells {
            var rest := Remove(dependentCells[dep], cellId);
            if rest == [] {
              dependentCells := dependentCells - {dep};
            } else {
              dependentCells := dependentCells[dep := rest];
            }
          }
          i := i + 1;
        }
        assert olds[..|olds|] == olds;
      }
    }

    /** The linking half of `updateCellDependencies`: `cellId` joins the
        set of each reference, created when missing. */
    method LinkDependents(cellId: string, refs: seq<string>)
      modifies this
      ensures dependentCells == Linked(old(dependentCells), cellId, refs)
      ensures cellDependencies == old(cellDependencies)
      ensures undoStack == old(undoStack) && redoStack == old(redoStack)
    {
      var i := 0;
      while i < |refs|
        invariant 0 <= i <= |refs|
        invariant dependentCells == Linked(old(dependentCells), cellId, refs[..i])
        invariant cellDependencies == old(cellDependencies)
        invariant undoStack == old(undoStack) && redoStack == old(redoStack)
      {
        LinkedStep(old(dependentCells), cellId, refs, i);
        var ref := refs[i];
        LinkOneInTwo(dependentCells, cellId, ref);
        if ref !in dependentCells {
          dependentCells := dependentCells[ref := []];
        }
        dependentCells := dependentCells[ref := Text.Add(dependentCells[ref], cellId)];
        i := i + 1;
      }
      assert refs[..|refs|] == refs;
    }

    /** `updateDependentCells(cellId)` on the active sheet: the walk over
        `dependentCells` from the cell's dependents. */
    method UpdateDependentCells(cellId: string, rendered: string -> bool) returns (frozen: bool)
      requires Valid()
      modifies db
      ensures Valid()
      ensures db.names == old(db.names) && db.activeSheet == old(db.activeSheet)
      ensures var p := Propagate(dependentCells, rendered, formula, old(db.sheets)[db.activeSheet], cellId);
        && (frozen <==> p.Frozen?)
        && (!frozen ==> db.sheets == old(db.sheets)[db.activeSheet := p.sheet])
    {
      if cellId !in dependentCells {
        return false;
      }
      frozen := WalkDependents(db, dependentCells, rendered, formula, dependentCells[cellId]);
    }

    /** `handleCellChange` for the text `content` typed into `cellId`: store
        it, relink the maps, evaluate a formula into the cell, and walk its
        dependents. Frozen when an evaluation never ends. */
    method HandleCellChange(cellId: string, content: string, rendered: string -> bool)
      returns (frozen: bool)
      requires Valid()
      modifies this, db
      ensures Valid()
      ensures db.names == old(db.names) && db.activeSheet == old(db.activeSheet)
      ensures undoStack == old(undoStack) && redoStack == old(redoStack)
      ensures (cellDependencies, dependentCells)
              == Relink(old(cellDependencies), old(dependentCells), cellId, if StartsWith(content, "=") then content else "")
      ensures var r := CellChange(old(cellDependencies), old(dependentCells), old(db.sheets)[db.activeSheet],
                                  cellId, content, rendered, formula);
        && (frozen <==> r.Frozen?)
        && (!frozen ==> db.sheets == old(db.sheets)[db.activeSheet := r.sheet])
    {
      var stored := if StartsWith(content, "=") then content else "";
      db.UpdateCell(db.activeSheet, cellId, CellPatch(Some(Str(content)), Some(stored)));
      ghost var typed := db.sheets;
      UpdateCellDependencies(cellId, stored);
      assert CellChange(old(cellDependencies), old(dependentCells), old(db.sheets)[db.activeSheet],
                        cellId, content, rendered, formula)
             == Settle(dependentCells, typed[db.activeSheet], cellId, content, rendered, formula);
      frozen := SettleEdit(cellId, content, rendered);
      Overwritten(old(db.sheets), db.activeSheet, typed[db.activeSheet], db.sheets[db.activeSheet]);
    }

    /** The part of `handleCellChange` after the dependencies are updated:
        evaluate a formula into the cell, then update its dependents. */
    method SettleEdit(cellId: string, content: string, rendered: string -> bool) returns (frozen: bool)
      requires Valid()
      modifies db
      ensures Valid()
      ensures db.names == old(db.names) && db.activeSheet == old(db.activeSheet)
      ensures var r := Settle(dependentCells, old(db.sheets)[db.activeSheet], cellId, content, rendered, formula);
        && (frozen <==> r.Frozen?)
        && (!frozen ==> db.sheets == old(db.sheets)[db.activeSheet := r.sheet])
    {
      if StartsWith(content, "=") {
        var result := Recompute(db, cellId, content, formula);
        if result.None? {
          return true;
        }
      }
      ghost var mid := db.sheets;
      assert Settle(dependentCells, old(db.sheets)[db.activeSheet], cellId, content, rendered, formula)
             == Propagate(dependentCells, rendered, formula, mid[db.activeSheet], cellId);
      frozen := UpdateDependentCells(cellId, rendered);
      Overwritten(old(db.sheets), db.activeSheet, mid[db.activeSheet], db.sheets[db.activeSheet]);
    }

    /** `addToHistory(command)`: push, keep the stack within
        `maxStackSize`, and clear the redo stack. */
    method AddToHistory(command: Command)
      requires Valid()
      modifies this
      ensures Valid()
      ensures undoStack == Pushed(old(undoStack), command, maxStackSize) && redoStack == []
      ensures cellDependencies == old(cellDependencies) && dependentCells == old(dependentCells)
    {
      undoStack := undoStack + [command];
      if |undoStack| > maxStackSize {
        undoStack := undoStack[1..];
      }
      redoStack := [];
    }
  }
}
