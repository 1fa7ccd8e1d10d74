/** What re-evaluating formulas does to the active sheet: one evaluation
    with the reads it makes and the write after it, and the walk
    `updateDependentCells` makes over `dependentCells` after an edit. */
module Propagation {
  import opened Wrappers
  import opened Text
  import opened Numbers
  import opened Records
  import opened Dependencies
  import Replacing
  import Formula

  /** `this.formula.evaluate`: from a formula and the resolver it reads
      cells through to what it evaluates to. */
  type Evaluator = (string, string -> Value) -> Formula.Evaluation

  /** The page's `FormulaHandler`, given `String(x)` for numbers. */
  function Handler(show: real -> string): Evaluator
  {
    (formula: string, resolve: string -> Value) => Formula.Evaluate(formula, resolve, show)
  }

  /** The resolver handed to `evaluate`: `getCell(activeSheet, ref)`,
      which never returns null for the active sheet, then its content. */
  function Resolver(s: Sheet): string -> Value
  {
    id => Replacing.Before(s, id).content
  }

  /** The records the resolver's `getCell` calls leave behind: a blank one
      for each id read that had none, in the order read. */
  function Touch(s: Sheet, ids: seq<string>): Sheet
    decreases |ids|
  {
    if ids == [] then s else WithCell(Touch(s, ids[..|ids| - 1]), ids[|ids| - 1])
  }

  /** Reading cells changes nothing a later read or write can see: every
      cell looks as before, and the ids read now have records. */
  lemma {:induction false} TouchAt(s: Sheet, ids: seq<string>, x: string)
    ensures var r := Touch(s, ids);
      && Replacing.Before(r, x) == Replacing.Before(s, x)
      && (x in r.cells <==> x in s.cells || x in ids)
      && r.columnCount == s.columnCount && r.rowCount == s.rowCount
      && (SheetOk(s) ==> SheetOk(r))
    decreases |ids|
  {
    if ids != [] {
      var init := ids[..|ids| - 1];
      assert ids == init + [ids[|ids| - 1]];
      TouchAt(s, init, x);
    }
  }

  /** `evaluate(formula, resolver)` for cell `id`, the reads it makes, and
      `updateCell(activeSheet, id, {content: result, formula})` after it:
      the result and the sheet after, or None when evaluation never ends. */
  function Recalculate(s: Sheet, id: string, formula: string, evaluate: Evaluator): Option<(Value, Sheet)>
  {
    match evaluate(formula, Resolver(s))
    case Loops => None
    case Evaluated(v) => Some((v, Patched(Touch(s, Formula.Reads(formula)), id, CellPatch(Some(v), Some(formula)))))
  }

  /** A recalculation stores the value `evaluate` produced and the formula
      in the cell, keeps its style, and leaves every other cell looking as
      it did. */
  lemma RecalculateAt(s: Sheet, id: string, formula: string, evaluate: Evaluator, x: string)
    requires Recalculate(s, id, formula, evaluate).Some?
    ensures var (v, r) := Recalculate(s, id, formula, evaluate).value;
      && evaluate(formula, Resolver(s)) == Formula.Evaluated(v)
      && Replacing.Before(r, id) == Cell(v, formula, Replacing.Before(s, id).style)
      && (x != id ==> Replacing.Before(r, x) == Replacing.Before(s, x))
      && (x in r.cells <==> x in s.cells || x == id || x in Formula.Reads(formula))
      && r.columnCount == s.columnCount && r.rowCount == s.rowCount
      && (SheetOk(s) ==> SheetOk(r))
  {
    var t := Touch(s, Formula.Reads(formula));
    TouchAt(s, Formula.Reads(formula), x);
    TouchAt(s, Formula.Reads(formula), id);
  }

  /** One cell taken off the queue and not visited before: skipped when it
      is not on the grid, fetched with `getCell` otherwise, and
      recalculated when it holds a formula. The sheet after and whether it
      was recalculated; None when evaluation never ends. */
  function Refresh(rendered: string -> bool, evaluate: Evaluator, s: Sheet, cur: string): Option<(Sheet, bool)>
  {
    if !rendered(cur) then Some((s, false))
    else
      var formula := Replacing.Before(s, cur).formula;
      if formula == "" then Some((WithCell(s, cur), false))
      else match Recalculate(WithCell(s, cur), cur, formula, evaluate)
        case None => None
        case Some((_, next)) => Some((next, true))
  }

  /** A visit recalculates exactly a rendered cell with a formula; formulas
      and styles stay, and only the recalculated cell changes what it holds. */
  lemma RefreshAt(rendered: string -> bool, evaluate: Evaluator, s: Sheet, cur: string, x: string)
    requires Refresh(rendered, evaluate, s, cur).Some?
    ensures var (n, ev) := Refresh(rendered, evaluate, s, cur).value;
      && (ev <==> rendered(cur) && Replacing.Before(s, cur).formula != "")
      && Replacing.Before(n, x).formula == Replacing.Before(s, x).formula
      && Replacing.Before(n, x).style == Replacing.Before(s, x).style
      && (x != cur || !ev ==> Replacing.Before(n, x) == Replacing.Before(s, x))
      && (ev ==> evaluate(Replacing.Before(s, cur).formula, Resolver(WithCell(s, cur)))
                 == Formula.Evaluated(Replacing.Before(n, cur).content))
      && n.columnCount == s.columnCount && n.rowCount == s.rowCount
      && (SheetOk(s) ==> SheetOk(n))
  {
    if rendered(cur) && Replacing.Before(s, cur).formula != "" {
      var w := WithCell(s, cur);
      RecalculateAt(w, cur, Replacing.Before(s, cur).formula, evaluate, x);
      RecalculateAt(w, cur, Replacing.Before(s, cur).formula, evaluate, cur);
    }
  }

  /** The outcome of `updateDependentCells`: the active sheet after it, the
      cells marked visited, and the cells recalculated in order; or the
      page stuck in an evaluation that never ends. */
  datatype Walked = Walked(sheet: Sheet, visited: set<string>, evaluated: seq<string>) | Frozen

  /** Every cell some set in `dependentCells` names. */
  function Mentioned(g: Graph): set<string>
  {
    set b, x | b in g && x in g[b] :: x
  }

  /** The cells the walk may still visit. */
  function Unvisited(g: Graph, visited: set<string>, queue: seq<string>): set<string>
  {
    (Mentioned(g) + set x | x in queue) - visited
  }

  lemma MembersMentioned(g: Graph, k: string)
    ensures forall x :: x in Members(g, k) ==> x in Mentioned(g)
  {
  }

  /** Taking an already visited cell off the queue leaves as much to do. */
  lemma UnvisitedSame(g: Graph, visited: set<string>, queue: seq<string>)
    requires queue != [] && queue[0] in visited
    ensures Unvisited(g, visited, queue[1..]) == Unvisited(g, visited, queue)
  {
    assert forall x :: x in queue <==> x == queue[0] || x in queue[1..] by {
      assert queue == [queue[0]] + queue[1..];
    }
  }

  /** Visiting a new cell leaves less to do, whatever it enqueues from
      `dependentCells`. */
  lemma UnvisitedShrinks(g: Graph, visited: set<string>, queue: seq<string>, extra: seq<string>)
    requires queue != [] && queue[0] !in visited
    requires forall x :: x in extra ==> x in Mentioned(g)
    ensures Unvisited(g, visited + {queue[0]}, queue[1..] + extra) < Unvisited(g, visited, queue)
  {
    assert forall x :: x in queue <==> x == queue[0] || x in queue[1..] by {
      assert queue == [queue[0]] + queue[1..];
    }
    assert queue[0] in Unvisited(g, visited, queue);
  }

  /** Recording a newly visited cell as recalculated keeps the record
      free of repeats and within the visited cells. */
  lemma Recorded(visited: set<string>, evaluated: seq<string>, cur: string, ev: bool)
    requires Distinct(evaluated) && forall e :: e in evaluated ==> e in visited
    requires cur !in visited
    ensures var evaluated' := evaluated + if ev then [cur] else [];
      && Distinct(evaluated')
      && forall e :: e in evaluated' ==> e in visited + {cur}
  {
  }

  /** The `while (toUpdate.length > 0)` loop of `updateDependentCells`
      from the given state: take the first cell off the queue, skip it if
      visited, otherwise mark it, refresh it, and when it was recalculated
      queue its own dependents. */
  function Walk(g: Graph, rendered: string -> bool, evaluate: Evaluator,
                s: Sheet, visited: set<string>, queue: seq<string>, evaluated: seq<string>): Walked
    decreases Unvisited(g, visited, queue), |queue|
  {
    if queue == [] then Walked(s, visited, evaluated)
    else
      var cur := queue[0];
      if cur in visited then
        UnvisitedSame(g, visited, queue);
        Walk(g, rendered, evaluate, s, visited, queue[1..], evaluated)
      else match Refresh(rendered, evaluate, s, cur)
        case None => Frozen
        case Some((next, ev)) =>
          var extra := if ev then Members(g, cur) else [];
          MembersMentioned(g, cur);
          UnvisitedShrinks(g, visited, queue, extra);
          Walk(g, rendered, evaluate, next, visited + {cur}, queue[1..] + extra, evaluated + if ev then [cur] else [])
  }

  /** `updateDependentCells(cellId)` on the active sheet: nothing when no
      cell depends on `cellId`, else the walk from its dependents. */
  function Propagate(g: Graph, rendered: string -> bool, evaluate: Evaluator, s: Sheet, cellId: string): Walked
  {
    if cellId !in g then Walked(s, {}, []) else Walk(g, rendered, evaluate, s, {}, g[cellId], [])
  }

  /** The walk marks every cell it takes off the queue, recalculates each
      at most once, and only cells it newly marked. */
  lemma WalkOnce(g: Graph, rendered: string -> bool, evaluate: Evaluator,
                 s: Sheet, visited: set<string>, queue: seq<string>, evaluated: seq<string>)
    requires Walk(g, rendered, evaluate, s, visited, queue, evaluated).Walked?
    requires Distinct(evaluated) && forall e :: e in evaluated ==> e in visited
    ensures var r := Walk(g, rendered, evaluate, s, visited, queue, evaluated);
      && visited <= r.visited
      && (forall x :: x in queue ==> x in r.visited)
      && |evaluated| <= |r.evaluated| && r.evaluated[..|evaluated|] == evaluated
      && Distinct(r.evaluated)
      && (forall e :: e in r.evaluated ==> e in r.visited)
      && (forall e :: e in r.evaluated && e !in evaluated ==> e !in visited)
  {
    WalkExtends(g, rendered, evaluate, s, visited, queue, evaluated);
  }

  lemma {:induction false} WalkExtends(g: Graph, rendered: string -> bool, evaluate: Evaluator,
                                       s: Sheet, visited: set<string>, queue: seq<string>, evaluated: seq<string>)
    requires Walk(g, rendered, evaluate, s, visited, queue, evaluated).Walked?
    requires Distinct(evaluated) && forall e :: e in evaluated ==> e in visited
    ensures var r := Walk(g, rendered, evaluate, s, visited, queue, evaluated);
      Extends(visited, queue, evaluated, r.visited, r.evaluated)
    decreases Unvisited(g, visited, queue), |queue|
  {
    var r := Walk(g, rendered, evaluate, s, visited, queue, evaluated);
    if queue != [] {
      var cur := queue[0];
      if cur in visited {
        UnvisitedSame(g, visited, queue);
        WalkExtends(g, rendered, evaluate, s, visited, queue[1..], evaluated);
        ExtendsSkip(visited, queue, evaluated, r.visited, r.evaluated);
      } else {
        var (next, ev) := Refresh(rendered, evaluate, s, cur).value;
        var extra := if ev then Members(g, cur) else [];
        var evaluated' := evaluated + if ev then [cur] else [];
        WalkUnfold(g, rendered, evaluate, s, visited, queue, evaluated);
        Recorded(visited, evaluated, cur, ev);
        WalkExtends(g, rendered, evaluate, next, visited + {cur}, queue[1..] + extra, evaluated');
        ExtendsVisit(visited, queue, evaluated, ev, extra, r.visited, r.evaluated);
      }
    } else {
      assert evaluated[..|evaluated|] == evaluated;
    }
  }

  /** What a walk from `visited`, `queue` and `evaluated` ends with, in
      `rv` and `re`, as `WalkOnce` states it. */
  ghost predicate Extends(visited: set<string>, queue: seq<string>, evaluated: seq<string>,
                          rv: set<string>, re: seq<string>)
  {
    && visited <= rv
    && (forall x :: x in queue ==> x in rv)
    && |evaluated| <= |re| && re[..|evaluated|] == evaluated
    && Distinct(re)
    && (forall e :: e in re ==> e in rv)
    && (forall e :: e in re && e !in evaluated ==> e !in visited)
  }

  /** Skipping a visited cell keeps what the rest of the walk ends with. */
  lemma ExtendsSkip(visited: set<string>, queue: seq<string>, evaluated: seq<string>,
                    rv: set<string>, re: seq<string>)
    requires queue != [] && queue[0] in visited
    requires Extends(visited, queue[1..], evaluated, rv, re)
    ensures Extends(visited, queue, evaluated, rv, re)
  {
    assert forall x :: x in queue ==> x == queue[0] || x in queue[1..] by {
      assert queue == [queue[0]] + queue[1..];
    }
  }

  /** Visiting a new cell, recalculated or not, keeps what the rest of the
      walk ends with. */
  lemma ExtendsVisit(visited: set<string>, queue: seq<string>, evaluated: seq<string>, ev: bool,
                     extra: seq<string>, rv: set<string>, re: seq<string>)
    requires queue != [] && queue[0] !in visited
    requires Extends(visited + {queue[0]}, queue[1..] + extra, evaluated + (if ev then [queue[0]] else []), rv, re)
    ensures Extends(visited, queue, evaluated, rv, re)
  {
    var cur := queue[0];
    var evaluated' := evaluated + if ev then [cur] else [];
    assert forall x :: x in queue ==> x == cur || x in queue[1..] by {
      assert queue == [cur] + queue[1..];
    }
    assert re[..|evaluated|] == re[..|evaluated'|][..|evaluated|];
    assert evaluated'[..|evaluated|] == evaluated;
  }

  /** Every dependent of a recalculated cell gets visited: the visited set
      is closed under the edges out of recalculated cells. */
  lemma {:induction false} WalkCloses(g: Graph, rendered: string -> bool, evaluate: Evaluator,
                                      s: Sheet, visited: set<string>, queue: seq<string>, evaluated: seq<string>)
    requires Walk(g, rendered, evaluate, s, visited, queue, evaluated).Walked?
    requires Distinct(evaluated) && forall e :: e in evaluated ==> e in visited
    requires forall e, y :: e in evaluated && y in Members(g, e) ==> y in visited || y in queue
    ensures var r := Walk(g, rendered, evaluate, s, visited, queue, evaluated);
      forall e, y :: e in r.evaluated && y in Members(g, e) ==> y in r.visited
    decreases Unvisited(g, visited, queue), |queue|
  {
    var r := Walk(g, rendered, evaluate, s, visited, queue, evaluated);
    if queue != [] {
      var cur := queue[0];
      assert forall x :: x in queue ==> x == cur || x in queue[1..] by {
        assert queue == [cur] + queue[1..];
      }
      if cur in visited {
        UnvisitedSame(g, visited, queue);
        WalkCloses(g, rendered, evaluate, s, visited, queue[1..], evaluated);
      } else {
        var (next, ev) := Refresh(rendered, evaluate, s, cur).value;
        var extra := if ev then Members(g, cur) else [];
        var evaluated' := evaluated + if ev then [cur] else [];
        MembersMentioned(g, cur);
        UnvisitedShrinks(g, visited, queue, extra);
        WalkCloses(g, rendered, evaluate, next, visited + {cur}, queue[1..] + extra, evaluated');
      }
    }
  }

  /** Every cell the walk marks was queued at the start or is a dependent
      of a cell it recalculated: nothing outside the closure is visited. */
  lemma {:induction false} WalkReaches(g: Graph, rendered: string -> bool, evaluate: Evaluator,
                                       s: Sheet, visited: set<string>, queue: seq<string>, evaluated: seq<string>,
                                       origin: seq<string>)
    requires Walk(g, rendered, evaluate, s, visited, queue, evaluated).Walked?
    requires Distinct(evaluated) && forall e :: e in evaluated ==> e in visited
    requires forall x :: x in visited || x in queue ==> x in origin || exists e :: e in evaluated && x in Members(g, e)
    ensures var r := Walk(g, rendered, evaluate, s, visited, queue, evaluated);
      forall x :: x in r.visited ==> x in origin || exists e :: e in r.evaluated && x in Members(g, e)
    decreases Unvisited(g, visited, queue), |queue|
  {
    if queue != [] {
      var cur := queue[0];
      assert forall x :: x in queue[1..] ==> x in queue by {
        assert queue == [cur] + queue[1..];
      }
      if cur in visited {
        UnvisitedSame(g, visited, queue);
        WalkReaches(g, rendered, evaluate, s, visited, queue[1..], evaluated, origin);
      } else {
        var (next, ev) := Refresh(rendered, evaluate, s, cur).value;
        var extra := if ev then Members(g, cur) else [];
        var evaluated' := evaluated + if ev then [cur] else [];
        MembersMentioned(g, cur);
        UnvisitedShrinks(g, visited, queue, extra);
        forall x | x in visited + {cur} || x in queue[1..] + extra
          ensures x in origin || exists e :: e in evaluated' && x in Members(g, e)
        {
          if x in extra {
            assert cur in evaluated' && x in Members(g, cur);
          } else if x !in origin {
            var e :| e in evaluated && x in Members(g, e);
            assert e in evaluated';
          }
        }
        WalkReaches(g, rendered, evaluate, next, visited + {cur}, queue[1..] + extra, evaluated', origin);
      }
    }
  }

  /** What the walk leaves alone: formulas and styles stay, a cell it did not newly
      recalculate looks as before, and the grid keeps its size. */
  lemma {:induction false} WalkKeeps(g: Graph, rendered: string -> bool, evaluate: Evaluator,
                                     s: Sheet, visited: set<string>, queue: seq<string>, evaluated: seq<string>, x: string)
    requires Walk(g, rendered, evaluate, s, visited, queue, evaluated).Walked?
    requires Distinct(evaluated) && forall e :: e in evaluated ==> e in visited
    ensures var r := Walk(g, rendered, evaluate, s, visited, queue, evaluated);
      && Replacing.Before(r.sheet, x).formula == Replacing.Before(s, x).formula
      && Replacing.Before(r.sheet, x).style == Replacing.Before(s, x).style
      && (x !in r.evaluated || x in evaluated ==> Replacing.Before(r.sheet, x) == Replacing.Before(s, x))
      && r.sheet.columnCount == s.columnCount && r.sheet.rowCount == s.rowCount
      && (SheetOk(s) ==> SheetOk(r.sheet))
    decreases Unvisited(g, visited, queue), |queue|
  {
    if queue != [] {
      var cur := queue[0];
      if cur in visited {
        UnvisitedSame(g, visited, queue);
        WalkKeeps(g, rendered, evaluate, s, visited, queue[1..], evaluated, x);
      } else {
        var (next, ev) := Refresh(rendered, evaluate, s, cur).value;
        var extra := if ev then Members(g, cur) else [];
        var evaluated' := evaluated + if ev then [cur] else [];
        WalkUnfold(g, rendered, evaluate, s, visited, queue, evaluated);
        RefreshAt(rendered, evaluate, s, cur, x);
        Recorded(visited, evaluated, cur, ev);
        WalkKeeps(g, rendered, evaluate, next, visited + {cur}, queue[1..] + extra, evaluated', x);
        if x == cur && ev {
          var r := Walk(g, rendered, evaluate, next, visited + {cur}, queue[1..] + extra, evaluated');
          WalkOnce(g, rendered, evaluate, next, visited + {cur}, queue[1..] + extra, evaluated');
          assert x in r.evaluated by {
            assert r.evaluated[|evaluated|] == evaluated'[|evaluated|] == cur;
          }
          assert x !in evaluated;
        }
      }
    }
  }

  /** The sheets the walk's evaluations read, aligned with `evaluated`:
      `seen` for the cells already recalculated, then for each cell the
      walk recalculates the sheet as it stood when that cell was fetched
      for its recalculation. */
  ghost function Trace(g: Graph, rendered: string -> bool, evaluate: Evaluator,
                       s: Sheet, visited: set<string>, queue: seq<string>, evaluated: seq<string>, seen: seq<Sheet>): seq<Sheet>
    decreases Unvisited(g, visited, queue), |queue|
  {
    if queue == [] then seen
    else
      var cur := queue[0];
      if cur in visited then
        UnvisitedSame(g, visited, queue);
        Trace(g, rendered, evaluate, s, visited, queue[1..], evaluated, seen)
      else match Refresh(rendered, evaluate, s, cur)
        case None => seen
        case Some((next, ev)) =>
          var extra := if ev then Members(g, cur) else [];
          MembersMentioned(g, cur);
          UnvisitedShrinks(g, visited, queue, extra);
          Trace(g, rendered, evaluate, next, visited + {cur}, queue[1..] + extra,
                evaluated + (if ev then [cur] else []), seen + if ev then [WithCell(s, cur)] else [])
  }

  /** `Trace` for `updateDependentCells(cellId)`. */
  ghost function PropagateTrace(g: Graph, rendered: string -> bool, evaluate: Evaluator, s: Sheet, cellId: string): seq<Sheet>
  {
    if cellId !in g then [] else Trace(g, rendered, evaluate, s, {}, g[cellId], [], [])
  }

  /** The sheet an evaluation sees during the walk: the cells in `done`,
      recalculated earlier, look as they do at the end in `r`; every other
      cell looks as it did at the start in `s`. */
  ghost predicate SheetDuring(t: Sheet, s: Sheet, r: Sheet, done: seq<string>)
  {
    forall y {:trigger Replacing.Before(t, y)} ::
      Replacing.Before(t, y) == if y in done then Replacing.Before(r, y) else Replacing.Before(s, y)
  }

  /** `formula` evaluates to `v` against sheet `t`. */
  ghost predicate Gives(evaluate: Evaluator, formula: string, t: Sheet, v: Value)
  {
    evaluate(formula, Resolver(t)) == Formula.Evaluated(v)
  }

  /** What the walk writes: the cell recalculated at position `i` holds
      the value its formula evaluates to against the sheet the trace
      records for it, and that sheet shows the cells recalculated before
      it as they end up and every other cell as the walk found it. */
  lemma {:induction false} WalkValues(g: Graph, rendered: string -> bool, evaluate: Evaluator,
                       s: Sheet, visited: set<string>, queue: seq<string>, evaluated: seq<string>, seen: seq<Sheet>, i: nat)
    requires Walk(g, rendered, evaluate, s, visited, queue, evaluated).Walked?
    requires Distinct(evaluated) && (forall e :: e in evaluated ==> e in visited) && |seen| == |evaluated|
    ensures var r := Walk(g, rendered, evaluate, s, visited, queue, evaluated);
      var tr := Trace(g, rendered, evaluate, s, visited, queue, evaluated, seen);
      && |tr| == |r.evaluated|
      && (|evaluated| <= i < |r.evaluated| ==>
            var x := r.evaluated[i];
            && Gives(evaluate, Replacing.Before(s, x).formula, tr[i], Replacing.Before(r.sheet, x).content)
            && SheetDuring(tr[i], s, r.sheet, r.evaluated[|evaluated|..i]))
    decreases Unvisited(g, visited, queue), |queue|, 1
  {
    TraceLength(g, rendered, evaluate, s, visited, queue, evaluated, seen);
    var r := Walk(g, rendered, evaluate, s, visited, queue, evaluated);
    if queue != [] && |evaluated| <= i < |r.evaluated| {
      var cur := queue[0];
      if cur in visited {
        UnvisitedSame(g, visited, queue);
        WalkValues(g, rendered, evaluate, s, visited, queue[1..], evaluated, seen, i);
      } else {
        var (next, ev) := Refresh(rendered, evaluate, s, cur).value;
        var queue' := queue[1..] + if ev then Members(g, cur) else [];
        var evaluated' := evaluated + if ev then [cur] else [];
        var seen' := seen + if ev then [WithCell(s, cur)] else [];
        VisitUnfold(g, rendered, evaluate, s, visited, queue, evaluated, seen, next, ev);
        Recorded(visited, evaluated, cur, ev);
        if !ev {
          WalkValuesSkip(g, rendered, evaluate, s, cur, next, visited + {cur}, queue', evaluated', seen', i);
        } else if i == |evaluated| {
          WalkValuesFirst(g, rendered, evaluate, s, cur, next, visited + {cur}, queue', evaluated', seen', i);
        } else {
          WalkValuesLater(g, rendered, evaluate, s, cur, next, visited + {cur}, queue', evaluated', seen', |evaluated|, i);
        }
      }
    }
  }

  /** The cell a visit recalculates saw the sheet as the walk found it,
      with its own record fetched; stated from the rest of the walk. */
  lemma WalkValuesFirst(g: Graph, rendered: string -> bool, evaluate: Evaluator, s: Sheet, cur: string,
                        next: Sheet, visited: set<string>, queue: seq<string>, evaluated: seq<string>, seen: seq<Sheet>, i: nat)
    requires Refresh(rendered, evaluate, s, cur) == Some((next, true))
    requires Walk(g, rendered, evaluate, next, visited, queue, evaluated).Walked?
    requires Distinct(evaluated) && (forall e :: e in evaluated ==> e in visited) && |seen| == |evaluated|
    requires i + 1 == |evaluated| && evaluated[i] == cur && seen[i] == WithCell(s, cur)
    ensures var r := Walk(g, rendered, evaluate, next, visited, queue, evaluated);
      var tr := Trace(g, rendered, evaluate, next, visited, queue, evaluated, seen);
      && i < |r.evaluated| && i < |tr| && r.evaluated[i] == cur
      && Gives(evaluate, Replacing.Before(s, cur).formula, tr[i], Replacing.Before(r.sheet, cur).content)
      && SheetDuring(tr[i], s, r.sheet, r.evaluated[i..i])
  {
    var r := Walk(g, rendered, evaluate, next, visited, queue, evaluated);
    TraceKeepsAt(g, rendered, evaluate, next, visited, queue, evaluated, seen, i);
    WalkKeepsAt(g, rendered, evaluate, next, visited, queue, evaluated, i);
    RefreshValue(rendered, evaluate, s, cur);
    WalkKeepsCell(g, rendered, evaluate, next, visited, queue, evaluated, cur);
    DuringFirst(s, cur, r.sheet, r.evaluated[i..i]);
  }

  /** A cell recalculated after the one a visit recalculated, stated from
      the rest of the walk and the sheet before that visit. */
  lemma {:induction false} WalkValuesLater(g: Graph, rendered: string -> bool, evaluate: Evaluator, s: Sheet, cur: string,
                        next: Sheet, visited: set<string>, queue: seq<string>, evaluated: seq<string>, seen: seq<Sheet>, from: nat, i: nat)
    requires Refresh(rendered, evaluate, s, cur) == Some((next, true))
    requires Walk(g, rendered, evaluate, next, visited, queue, evaluated).Walked?
    requires Distinct(evaluated) && (forall e :: e in evaluated ==> e in visited) && |seen| == |evaluated|
    requires from + 1 == |evaluated| && evaluated[from] == cur
    requires from < i < |Walk(g, rendered, evaluate, next, visited, queue, evaluated).evaluated|
    ensures var r := Walk(g, rendered, evaluate, next, visited, queue, evaluated);
      var tr := Trace(g, rendered, evaluate, next, visited, queue, evaluated, seen);
      var x := r.evaluated[i];
      && i < |tr|
      && Gives(evaluate, Replacing.Before(s, x).formula, tr[i], Replacing.Before(r.sheet, x).content)
      && SheetDuring(tr[i], s, r.sheet, r.evaluated[from..i])
    decreases Unvisited(g, visited, queue), |queue|, 2
  {
    var r := Walk(g, rendered, evaluate, next, visited, queue, evaluated);
    var tr := Trace(g, rendered, evaluate, next, visited, queue, evaluated, seen);
    WalkValues(g, rendered, evaluate, next, visited, queue, evaluated, seen, i);
    WalkKeepsAt(g, rendered, evaluate, next, visited, queue, evaluated, from);
    WalkKeepsCell(g, rendered, evaluate, next, visited, queue, evaluated, cur);
    RefreshFormula(rendered, evaluate, s, cur, r.evaluated[i]);
    RefreshFrame(rendered, evaluate, s, cur);
    ValueShift(evaluate, s, next, r.sheet, r.evaluated, from, |evaluated|, i, cur, true, tr[i]);
  }

  /** A cell recalculated after a visit that recalculated nothing: the
      sheet the rest of the walk starts from looks the same. */
  lemma {:induction false} WalkValuesSkip(g: Graph, rendered: string -> bool, evaluate: Evaluator, s: Sheet, cur: string,
                        next: Sheet, visited: set<string>, queue: seq<string>, evaluated: seq<string>, seen: seq<Sheet>, i: nat)
    requires Refresh(rendered, evaluate, s, cur) == Some((next, false))
    requires Walk(g, rendered, evaluate, next, visited, queue, evaluated).Walked?
    requires Distinct(evaluated) && (forall e :: e in evaluated ==> e in visited) && |seen| == |evaluated|
    requires |evaluated| <= i < |Walk(g, rendered, evaluate, next, visited, queue, evaluated).evaluated|
    ensures var r := Walk(g, rendered, evaluate, next, visited, queue, evaluated);
      var tr := Trace(g, rendered, evaluate, next, visited, queue, evaluated, seen);
      var x := r.evaluated[i];
      && i < |tr|
      && Gives(evaluate, Replacing.Before(s, x).formula, tr[i], Replacing.Before(r.sheet, x).content)
      && SheetDuring(tr[i], s, r.sheet, r.evaluated[|evaluated|..i])
    decreases Unvisited(g, visited, queue), |queue|, 2
  {
    var r := Walk(g, rendered, evaluate, next, visited, queue, evaluated);
    var tr := Trace(g, rendered, evaluate, next, visited, queue, evaluated, seen);
    WalkValues(g, rendered, evaluate, next, visited, queue, evaluated, seen, i);
    RefreshFormula(rendered, evaluate, s, cur, r.evaluated[i]);
    RefreshFrame(rendered, evaluate, s, cur);
    ValueShift(evaluate, s, next, r.sheet, r.evaluated, |evaluated|, |evaluated|, i, cur, false, tr[i]);
  }

  /** One step of the walk and of its trace on a cell not yet visited. */
  lemma VisitUnfold(g: Graph, rendered: string -> bool, evaluate: Evaluator,
                    s: Sheet, visited: set<string>, queue: seq<string>, evaluated: seq<string>, seen: seq<Sheet>,
                    next: Sheet, ev: bool)
    requires queue != [] && queue[0] !in visited
    requires Refresh(rendered, evaluate, s, queue[0]) == Some((next, ev))
    ensures var cur := queue[0];
      var queue' := queue[1..] + if ev then Members(g, cur) else [];
      var evaluated' := evaluated + if ev then [cur] else [];
      && Unvisited(g, visited + {cur}, queue') < Unvisited(g, visited, queue)
      && Walk(g, rendered, evaluate, s, visited, queue, evaluated)
         == Walk(g, rendered, evaluate, next, visited + {cur}, queue', evaluated')
      && Trace(g, rendered, evaluate, s, visited, queue, evaluated, seen)
         == Trace(g, rendered, evaluate, next, visited + {cur}, queue', evaluated', seen + if ev then [WithCell(s, cur)] else [])
  {
    WalkUnfold(g, rendered, evaluate, s, visited, queue, evaluated);
  }

  /** A visit keeps every cell's formula. */
  lemma RefreshFormula(rendered: string -> bool, evaluate: Evaluator, s: Sheet, cur: string, x: string)
    requires Refresh(rendered, evaluate, s, cur).Some?
    ensures Replacing.Before(Refresh(rendered, evaluate, s, cur).value.0, x).formula == Replacing.Before(s, x).formula
  {
    RefreshAt(rendered, evaluate, s, cur, x);
  }

  /** A recalculating visit stores what the formula evaluates to against
      the sheet with the visited cell's record fetched. */
  lemma RefreshValue(rendered: string -> bool, evaluate: Evaluator, s: Sheet, cur: string)
    requires Refresh(rendered, evaluate, s, cur).Some? && Refresh(rendered, evaluate, s, cur).value.1
    ensures Gives(evaluate, Replacing.Before(s, cur).formula, WithCell(s, cur),
                  Replacing.Before(Refresh(rendered, evaluate, s, cur).value.0, cur).content)
  {
    RefreshAt(rendered, evaluate, s, cur, cur);
  }

  /** A cell recalculated before the walk resumes keeps what it holds. */
  lemma WalkKeepsCell(g: Graph, rendered: string -> bool, evaluate: Evaluator,
                      s: Sheet, visited: set<string>, queue: seq<string>, evaluated: seq<string>, x: string)
    requires Walk(g, rendered, evaluate, s, visited, queue, evaluated).Walked?
    requires Distinct(evaluated) && (forall e :: e in evaluated ==> e in visited) && x in evaluated
    ensures Replacing.Before(Walk(g, rendered, evaluate, s, visited, queue, evaluated).sheet, x) == Replacing.Before(s, x)
  {
    WalkKeeps(g, rendered, evaluate, s, visited, queue, evaluated, x);
  }

  /** The step of `WalkValues` past the visited cell: what a later
      evaluation saw, described from the sheet before the visit. */
  lemma ValueShift(evaluate: Evaluator, s: Sheet, next: Sheet, rs: Sheet, re: seq<string>,
                   from: nat, m: nat, i: nat, cur: string, ev: bool, t: Sheet)
    requires m == from + (if ev then 1 else 0) && m <= i < |re|
    requires ev ==> re[from] == cur && Replacing.Before(rs, cur) == Replacing.Before(next, cur)
    requires forall y :: y != cur || !ev ==> Replacing.Before(next, y) == Replacing.Before(s, y)
    requires Replacing.Before(next, re[i]).formula == Replacing.Before(s, re[i]).formula
    requires Gives(evaluate, Replacing.Before(next, re[i]).formula, t, Replacing.Before(rs, re[i]).content)
    requires SheetDuring(t, next, rs, re[m..i])
    ensures Gives(evaluate, Replacing.Before(s, re[i]).formula, t, Replacing.Before(rs, re[i]).content)
    ensures SheetDuring(t, s, rs, re[from..i])
  {
    if ev {
      SliceFront(re, from, i, cur);
    }
    DuringShift(t, s, next, rs, re[m..i], cur, ev);
  }

  /** The walk only appends to `evaluated`: position `i` keeps its cell. */
  lemma WalkKeepsAt(g: Graph, rendered: string -> bool, evaluate: Evaluator,
                    s: Sheet, visited: set<string>, queue: seq<string>, evaluated: seq<string>, i: nat)
    requires Walk(g, rendered, evaluate, s, visited, queue, evaluated).Walked?
    requires Distinct(evaluated) && forall e :: e in evaluated ==> e in visited
    requires i < |evaluated|
    ensures var r := Walk(g, rendered, evaluate, s, visited, queue, evaluated);
      i < |r.evaluated| && r.evaluated[i] == evaluated[i]
  {
    var r := Walk(g, rendered, evaluate, s, visited, queue, evaluated);
    WalkOnce(g, rendered, evaluate, s, visited, queue, evaluated);
    assert r.evaluated[i] == r.evaluated[..|evaluated|][i];
  }

  /** The trace records one sheet for each cell the walk recalculates. */
  lemma {:induction false} TraceLength(g: Graph, rendered: string -> bool, evaluate: Evaluator,
                       s: Sheet, visited: set<string>, queue: seq<string>, evaluated: seq<string>, seen: seq<Sheet>)
    requires Walk(g, rendered, evaluate, s, visited, queue, evaluated).Walked?
    requires |seen| == |evaluated|
    ensures |Trace(g, rendered, evaluate, s, visited, queue, evaluated, seen)|
            == |Walk(g, rendered, evaluate, s, visited, queue, evaluated).evaluated|
    decreases Unvisited(g, visited, queue), |queue|
  {
    if queue != [] {
      var cur := queue[0];
      if cur in visited {
        UnvisitedSame(g, visited, queue);
        TraceLength(g, rendered, evaluate, s, visited, queue[1..], evaluated, seen);
      } else {
        var (next, ev) := Refresh(rendered, evaluate, s, cur).value;
        var extra := if ev then Members(g, cur) else [];
        WalkUnfold(g, rendered, evaluate, s, visited, queue, evaluated);
        TraceLength(g, rendered, evaluate, next, visited + {cur}, queue[1..] + extra,
                    evaluated + (if ev then [cur] else []), seen + if ev then [WithCell(s, cur)] else []);
      }
    }
  }

  /** The trace only appends to `seen`: position `i` keeps its sheet. */
  lemma {:induction false} TraceKeepsAt(g: Graph, rendered: string -> bool, evaluate: Evaluator,
                       s: Sheet, visited: set<string>, queue: seq<string>, evaluated: seq<string>, seen: seq<Sheet>, i: nat)
    requires i < |seen|
    ensures var tr := Trace(g, rendered, evaluate, s, visited, queue, evaluated, seen);
      i < |tr| && tr[i] == seen[i]
    decreases Unvisited(g, visited, queue), |queue|
  {
    if queue != [] {
      var cur := queue[0];
      if cur in visited {
        UnvisitedSame(g, visited, queue);
        TraceKeepsAt(g, rendered, evaluate, s, visited, queue[1..], evaluated, seen, i);
      } else if Refresh(rendered, evaluate, s, cur).Some? {
        var (next, ev) := Refresh(rendered, evaluate, s, cur).value;
        var extra := if ev then Members(g, cur) else [];
        var seen' := seen + if ev then [WithCell(s, cur)] else [];
        MembersMentioned(g, cur);
        UnvisitedShrinks(g, visited, queue, extra);
        TraceKeepsAt(g, rendered, evaluate, next, visited + {cur}, queue[1..] + extra,
                     evaluated + (if ev then [cur] else []), seen', i);
        assert seen'[i] == seen[i];
      }
    }
  }

  /** A slice starting at `cur`'s position is `cur` then the rest. */
  lemma SliceFront(re: seq<string>, from: nat, i: nat, cur: string)
    requires from < i <= |re| && re[from] == cur
    ensures re[from..i] == [cur] + re[from + 1..i]
  {
  }

  /** Fetching a cell with `getCell` changes no cell's look. */
  lemma DuringFirst(s: Sheet, cur: string, r: Sheet, done: seq<string>)
    requires |done| == 0
    ensures SheetDuring(WithCell(s, cur), s, r, done)
  {
    forall y ensures Replacing.Before(WithCell(s, cur), y) == Replacing.Before(s, y) {
      if y == cur && cur !in s.cells {
        assert WithCell(s, cur).cells[cur] == BlankCell;
      }
    }
  }

  /** A visit changes no cell but the one it recalculates. */
  lemma RefreshFrame(rendered: string -> bool, evaluate: Evaluator, s: Sheet, cur: string)
    requires Refresh(rendered, evaluate, s, cur).Some?
    ensures var (n, ev) := Refresh(rendered, evaluate, s, cur).value;
      forall y :: y != cur || !ev ==> Replacing.Before(n, y) == Replacing.Before(s, y)
  {
    forall y {
      RefreshAt(rendered, evaluate, s, cur, y);
    }
  }

  /** The sheet seen after a visit, described from the sheet before it:
      the visited cell, when recalculated, joins the cells already updated. */
  lemma DuringShift(t: Sheet, s: Sheet, next: Sheet, r: Sheet, done: seq<string>, cur: string, ev: bool)
    requires SheetDuring(t, next, r, done)
    requires forall y :: y != cur || !ev ==> Replacing.Before(next, y) == Replacing.Before(s, y)
    requires ev ==> Replacing.Before(r, cur) == Replacing.Before(next, cur)
    ensures SheetDuring(t, s, r, if ev then [cur] + done else done)
  {
    var done' := if ev then [cur] + done else done;
    forall y ensures Replacing.Before(t, y) == if y in done' then Replacing.Before(r, y) else Replacing.Before(s, y) {
      assert y in done' <==> (ev && y == cur) || y in done;
    }
  }

  /** A newly marked cell is recalculated exactly when it is on the grid
      and holds a formula. */
  lemma {:induction false} WalkChooses(g: Graph, rendered: string -> bool, evaluate: Evaluator,
                                       s: Sheet, visited: set<string>, queue: seq<string>, evaluated: seq<string>, x: string)
    requires Walk(g, rendered, evaluate, s, visited, queue, evaluated).Walked?
    requires Distinct(evaluated) && forall e :: e in evaluated ==> e in visited
    ensures var r := Walk(g, rendered, evaluate, s, visited, queue, evaluated);
      x in r.visited && x !in visited ==> (x in r.evaluated <==> rendered(x) && Replacing.Before(s, x).formula != "")
    decreases Unvisited(g, visited, queue), |queue|
  {
    if queue != [] {
      var cur := queue[0];
      if cur in visited {
        UnvisitedSame(g, visited, queue);
        WalkChooses(g, rendered, evaluate, s, visited, queue[1..], evaluated, x);
      } else {
        var (next, ev) := Refresh(rendered, evaluate, s, cur).value;
        var extra := if ev then Members(g, cur) else [];
        var evaluated' := evaluated + if ev then [cur] else [];
        WalkUnfold(g, rendered, evaluate, s, visited, queue, evaluated);
        var r := Walk(g, rendered, evaluate, next, visited + {cur}, queue[1..] + extra, evaluated');
        RefreshAt(rendered, evaluate, s, cur, x);
        Recorded(visited, evaluated, cur, ev);
        WalkOnce(g, rendered, evaluate, next, visited + {cur}, queue[1..] + extra, evaluated');
        if x == cur {
          assert x in r.evaluated <==> x in evaluated';
        } else {
          WalkChooses(g, rendered, evaluate, next, visited + {cur}, queue[1..] + extra, evaluated', x);
        }
      }
    }
  }

  /** One step of the walk on a cell not yet visited. */
  lemma WalkUnfold(g: Graph, rendered: string -> bool, evaluate: Evaluator,
                   s: Sheet, visited: set<string>, queue: seq<string>, evaluated: seq<string>)
    requires queue != [] && queue[0] !in visited
    requires Refresh(rendered, evaluate, s, queue[0]).Some?
    ensures var (next, ev) := Refresh(rendered, evaluate, s, queue[0]).value;
      && Unvisited(g, visited + {queue[0]}, queue[1..] + if ev then Members(g, queue[0]) else []) < Unvisited(g, visited, queue)
      && Walk(g, rendered, evaluate, s, visited, queue, evaluated)
         == Walk(g, rendered, evaluate, next, visited + {queue[0]}, queue[1..] + (if ev then Members(g, queue[0]) else []),
                 evaluated + if ev then [queue[0]] else [])
  {
    var (next, ev) := Refresh(rendered, evaluate, s, queue[0]).value;
    MembersMentioned(g, queue[0]);
    UnvisitedShrinks(g, visited, queue, if ev then Members(g, queue[0]) else []);
  }

  /** What `updateDependentCells(cellId)` does, when no evaluation hangs:
      it recalculates each cell at most once, only cells on the grid with
      a formula among the dependents it reaches, and reaches every
      dependent of what it recalculated — so it ends even on a cyclic
      graph; formulas and styles stay, and untouched cells look as before.
      What the recalculated cells hold is `PropagateValues`. */
  lemma PropagateFacts(g: Graph, rendered: string -> bool, evaluate: Evaluator, s: Sheet, cellId: string, x: string)
    requires Propagate(g, rendered, evaluate, s, cellId).Walked?
    ensures var r := Propagate(g, rendered, evaluate, s, cellId);
      var start := Members(g, cellId);
      && Distinct(r.evaluated)
      && (forall y :: y in start ==> y in r.visited)
      && (forall e, y :: e in r.evaluated && y in Members(g, e) ==> y in r.visited)
      && (x in r.visited ==> x in start || exists e :: e in r.evaluated && x in Members(g, e))
      && (x in r.visited ==> (x in r.evaluated <==> rendered(x) && Replacing.Before(s, x).formula != ""))
      && (x in r.evaluated ==> x in r.visited)
      && Replacing.Before(r.sheet, x).formula == Replacing.Before(s, x).formula
      && Replacing.Before(r.sheet, x).style == Replacing.Before(s, x).style
      && (x !in r.evaluated ==> Replacing.Before(r.sheet, x) == Replacing.Before(s, x))
      && r.sheet.columnCount == s.columnCount && r.sheet.rowCount == s.rowCount
      && (SheetOk(s) ==> SheetOk(r.sheet))
  {
    if cellId in g {
      var q := g[cellId];
      WalkOnce(g, rendered, evaluate, s, {}, q, []);
      WalkCloses(g, rendered, evaluate, s, {}, q, []);
      WalkReaches(g, rendered, evaluate, s, {}, q, [], q);
      WalkChooses(g, rendered, evaluate, s, {}, q, [], x);
      WalkKeeps(g, rendered, evaluate, s, {}, q, [], x);
    }
  }

  /** `WalkValues` for `updateDependentCells(cellId)`: the cell recalculated
      `k`-th holds what its formula evaluates to against the `k`-th sheet of
      the trace, which shows the `k` cells recalculated before it as they
      end up and every other cell as it was before the walk. */
  lemma PropagateValues(g: Graph, rendered: string -> bool, evaluate: Evaluator, s: Sheet, cellId: string, k: nat)
    requires Propagate(g, rendered, evaluate, s, cellId).Walked?
    ensures var r := Propagate(g, rendered, evaluate, s, cellId);
      var tr := PropagateTrace(g, rendered, evaluate, s, cellId);
      && |tr| == |r.evaluated|
      && (k < |r.evaluated| ==>
            && Gives(evaluate, Replacing.Before(s, r.evaluated[k]).formula, tr[k], Replacing.Before(r.sheet, r.evaluated[k]).content)
            && SheetDuring(tr[k], s, r.sheet, r.evaluated[..k]))
  {
    if cellId in g {
      var r := Propagate(g, rendered, evaluate, s, cellId);
      var none: seq<string> := [];
      WalkValues(g, rendered, evaluate, s, {}, g[cellId], none, [], k);
      if k < |r.evaluated| {
        assert r.evaluated[|none|..k] == r.evaluated[..k];
      }
    }
  }

  /** The reach facts of `PropagateFacts` for one cell `y`: it is visited
      when it depends on the changed cell or on a recalculated one, it is
      recalculated then exactly when it is on the grid with a formula, and
      a recalculated cell is on the grid and was reached that way. */
  lemma PropagateReaches(g: Graph, rendered: string -> bool, evaluate: Evaluator, s: Sheet, cellId: string, y: string)
    requires Propagate(g, rendered, evaluate, s, cellId).Walked?
    ensures var r := Propagate(g, rendered, evaluate, s, cellId);
      (y in Members(g, cellId) || exists e :: e in r.evaluated && y in Members(g, e)) ==>
        (y in r.evaluated <==> rendered(y) && Replacing.Before(s, y).formula != "")
    ensures var r := Propagate(g, rendered, evaluate, s, cellId);
      y in r.evaluated ==> rendered(y) && (y in Members(g, cellId) || exists e :: e in r.evaluated && y in Members(g, e))
  {
    var r := Propagate(g, rendered, evaluate, s, cellId);
    if cellId in g {
      var q := g[cellId];
      assert r == Walk(g, rendered, evaluate, s, {}, q, []);
      WalkOnce(g, rendered, evaluate, s, {}, q, []);
      WalkChooses(g, rendered, evaluate, s, {}, q, [], y);
      if y in Members(g, cellId) || exists e :: e in r.evaluated && y in Members(g, e) {
        assert y in r.visited by {
          WalkCloses(g, rendered, evaluate, s, {}, q, []);
          if y !in q {
            var e :| e in r.evaluated && y in Members(g, e);
          }
        }
      }
      if y in r.evaluated {
        assert y in r.visited;
        WalkReaches(g, rendered, evaluate, s, {}, q, [], q);
      }
    }
  }
}
