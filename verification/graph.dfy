/** The two maps the grid keeps about formulas: `cellDependencies`, from a
    cell to the ids its formula mentions, and `dependentCells`, from an id
    to the cells whose formulas mention it. Each JavaScript `Set` in them is
    an insertion-ordered sequence without repetition. */
module Dependencies {
  import opened Text
  import opened CellIds

  /** A `Map` from cell id to a `Set` of cell ids. */
  type Graph = map<string, seq<string>>

  /** The set stored under `k`, or none. */
  function Members(g: Graph, k: string): seq<string>
  {
    if k in g then g[k] else []
  }

  /** `extractCellReferences(formula)`: the matches of `/[A-Z]+[0-9]+/g`,
      each once. */
  function ExtractCellReferences(formula: string): (refs: seq<string>)
    ensures Distinct(refs)
    ensures forall x :: x in refs <==> x in CellRefs(formula)
  {
    Dedup(CellRefs(formula))
  }

  /** A text is extracted exactly when it occurs in the formula as a cell
      reference with no capital letter before it and no digit after it. */
  lemma ExtractExactly(formula: string, x: string)
    ensures x in ExtractCellReferences(formula) <==> exists p: nat, q: nat :: MaximalRef(formula, p, q) && formula[p..q] == x
  {
    CellRefsExactly(formula, x);
  }

  /** The references come in the order of their first occurrence. */
  lemma ExtractOrder(formula: string, i: int, j: int)
    requires 0 <= i < j < |ExtractCellReferences(formula)|
    ensures var refs := ExtractCellReferences(formula);
      FirstIndex(CellRefs(formula), refs[i]) < FirstIndex(CellRefs(formula), refs[j])
  {
    DedupOrder(CellRefs(formula), i, j);
  }

  lemma {:induction false} RemoveAbsent(s: seq<string>, x: string)
    requires x !in s
    ensures Remove(s, x) == s
  {
    if s != [] {
      RemoveAbsent(s[..|s| - 1], x);
      assert s == s[..|s| - 1] + [s[|s| - 1]];
    }
  }

  /** One round of the clearing `forEach`: `dependentCells.get(dep)` loses
      `cell`, and the entry goes once it is empty. */
  function UnlinkOne(dependents: Graph, cell: string, dep: string): Graph
  {
    if dep !in dependents then dependents
    else
      var rest := Remove(dependents[dep], cell);
      if rest == [] then dependents - {dep} else dependents[dep := rest]
  }

  /** The clearing `forEach` over `olds`, the cell's recorded references. */
  function Unlinked(dependents: Graph, cell: string, olds: seq<string>): Graph
    decreases |olds|
  {
    if olds == [] then dependents
    else UnlinkOne(Unlinked(dependents, cell, olds[..|olds| - 1]), cell, olds[|olds| - 1])
  }

  /** Clearing takes `cell` out of the set of every reference in `olds`,
      drops the sets that become empty, and touches nothing else. */
  lemma {:induction false} UnlinkedAt(dependents: Graph, cell: string, olds: seq<string>, b: string)
    ensures var r := Unlinked(dependents, cell, olds);
      && (b in r ==> b in dependents)
      && (b !in olds ==> (b in r <==> b in dependents) && (b in r ==> r[b] == dependents[b]))
      && (b in olds && b in dependents ==>
            (b in r <==> Remove(dependents[b], cell) != []) && (b in r ==> r[b] == Remove(dependents[b], cell)))
    decreases |olds|
  {
    if olds != [] {
      var init := olds[..|olds| - 1];
      var dep := olds[|olds| - 1];
      assert olds == init + [dep];
      UnlinkedAt(dependents, cell, init, b);
      var m := Unlinked(dependents, cell, init);
      if b == dep && dep in m && b in init {
        RemoveAbsent(Remove(dependents[b], cell), cell);
      }
    }
  }

  /** One round of the linking `forEach`: `cell` joins the set of `ref`,
      created when missing. */
  function LinkOne(dependents: Graph, cell: string, ref: string): Graph
  {
    dependents[ref := Add(Members(dependents, ref), cell)]
  }

  /** The linking `forEach` over the formula's references. */
  function Linked(dependents: Graph, cell: string, refs: seq<string>): Graph
    decreases |refs|
  {
    if refs == [] then dependents
    else LinkOne(Linked(dependents, cell, refs[..|refs| - 1]), cell, refs[|refs| - 1])
  }

  /** `LinkOne` as the source writes it: an empty set is put under `ref`
      when it has none, then `cell` is added to the set under `ref`. */
  lemma LinkOneInTwo(dependents: Graph, cell: string, ref: string)
    ensures var m := if ref in dependents then dependents else dependents[ref := []];
      m[ref := Add(m[ref], cell)] == LinkOne(dependents, cell, ref)
  {
  }

  /** The linking `forEach` one reference further. */
  lemma LinkedStep(dependents: Graph, cell: string, refs: seq<string>, i: nat)
    requires i < |refs|
    ensures Linked(dependents, cell, refs[..i + 1]) == LinkOne(Linked(dependents, cell, refs[..i]), cell, refs[i])
  {
    assert refs[..i + 1][..i] == refs[..i];
  }

  /** Linking puts `cell` in the set of every reference, creating the sets
      that are missing, and touches nothing else. */
  lemma {:induction false} LinkedAt(dependents: Graph, cell: string, refs: seq<string>, b: string)
    ensures var r := Linked(dependents, cell, refs);
      && (b in r <==> b in dependents || b in refs)
      && (b in refs ==> r[b] == Add(Members(dependents, b), cell))
      && (b !in refs && b in dependents ==> r[b] == dependents[b])
    decreases |refs|
  {
    if refs != [] {
      var init := refs[..|refs| - 1];
      assert refs == init + [refs[|refs| - 1]];
      LinkedAt(dependents, cell, init, b);
    }
  }

  /** `dependentCells` after the clearing `forEach` over the cell's
      recorded references, if it has any. */
  function Cleared(deps: Graph, dependents: Graph, cell: string): Graph
  {
    if cell in deps then Unlinked(dependents, cell, deps[cell]) else dependents
  }

  /** `updateCellDependencies(cell, formula)`: the new `cellDependencies`
      and `dependentCells`. The old references lose `cell`; then a text that
      is not a formula removes the cell's entry, a formula with references
      records them both ways, and a formula without references leaves the
      old entry in place. */
  function Relink(deps: Graph, dependents: Graph, cell: string, formula: string): (Graph, Graph)
  {
    var cleared := Cleared(deps, dependents, cell);
    if !StartsWith(formula, "=") then (deps - {cell}, cleared)
    else
      var refs := ExtractCellReferences(formula);
      if |refs| > 0 then (deps[cell := refs], Linked(cleared, cell, refs))
      else (deps, cleared)
  }

  /** The shape both maps keep: sets without repetition, no empty set in
      `dependentCells`, and every edge in `dependentCells` recorded the
      other way in `cellDependencies`. */
  ghost predicate GraphOk(deps: Graph, dependents: Graph)
  {
    && (forall a :: a in deps ==> Distinct(deps[a]))
    && (forall b :: b in dependents ==> dependents[b] != [] && Distinct(dependents[b]))
    && (forall b, a :: b in dependents && a in dependents[b] ==> a in deps && b in deps[a])
  }

  /** The map after clearing names `cell` in no set when the graph had its
      shape, and keeps the shape of what is left. */
  lemma ClearedNone(deps: Graph, dependents: Graph, cell: string)
    requires GraphOk(deps, dependents)
    ensures var cleared := Cleared(deps, dependents, cell);
      forall b :: b in cleared ==>
        && b in dependents && cleared[b] != [] && Distinct(cleared[b]) && cell !in cleared[b]
        && (forall a :: a in cleared[b] ==> a in dependents[b])
  {
    var cleared := Cleared(deps, dependents, cell);
    forall b | b in cleared
      ensures && b in dependents && cleared[b] != [] && Distinct(cleared[b]) && cell !in cleared[b]
              && (forall a :: a in cleared[b] ==> a in dependents[b])
    {
      if cell in deps {
        UnlinkedAt(dependents, cell, deps[cell], b);
      }
    }
  }

  /** Linking a cell to its references after clearing keeps the shape. */
  lemma LinkKeepsGraph(deps: Graph, dependents: Graph, cell: string, refs: seq<string>)
    requires GraphOk(deps, dependents) && Distinct(refs)
    ensures GraphOk(deps[cell := refs], Linked(Cleared(deps, dependents, cell), cell, refs))
  {
    LinkShape(deps, dependents, cell, refs, Linked(Cleared(deps, dependents, cell), cell, refs), deps[cell := refs]);
  }

  lemma LinkShape(deps: Graph, dependents: Graph, cell: string, refs: seq<string>, r: Graph, links: Graph)
    requires GraphOk(deps, dependents) && Distinct(refs)
    requires r == Linked(Cleared(deps, dependents, cell), cell, refs) && links == deps[cell := refs]
    ensures GraphOk(links, r)
  {
    ClearedNone(deps, dependents, cell);
    forall b | b in r
      ensures r[b] != [] && Distinct(r[b]) && forall a :: a in r[b] ==> a in links && b in links[a]
    {
      LinkKeepsAt(deps, dependents, cell, refs, b);
    }
    RecordDistinct(deps, cell, refs, links);
  }

  lemma RecordDistinct(deps: Graph, cell: string, refs: seq<string>, links: Graph)
    requires (forall a :: a in deps ==> Distinct(deps[a])) && Distinct(refs)
    requires links == deps[cell := refs]
    ensures forall a :: a in links ==> Distinct(links[a])
  {
  }

  lemma LinkKeepsAt(deps: Graph, dependents: Graph, cell: string, refs: seq<string>, b: string)
    requires GraphOk(deps, dependents)
    requires var cleared := Cleared(deps, dependents, cell);
      forall b :: b in cleared ==>
        && b in dependents && cleared[b] != [] && Distinct(cleared[b]) && cell !in cleared[b]
        && (forall a :: a in cleared[b] ==> a in dependents[b])
    requires b in Linked(Cleared(deps, dependents, cell), cell, refs)
    ensures var r := Linked(Cleared(deps, dependents, cell), cell, refs);
      && r[b] != [] && Distinct(r[b])
      && forall a :: a in r[b] ==> a in deps[cell := refs] && b in deps[cell := refs][a]
  {
    var cleared := Cleared(deps, dependents, cell);
    var r := Linked(cleared, cell, refs);
    LinkedAt(cleared, cell, refs, b);
    forall a | a in r[b]
      ensures a in deps[cell := refs] && b in deps[cell := refs][a]
    {
      if a != cell {
        assert b in cleared && a in cleared[b];
        assert a in dependents[b];
      }
    }
  }

  /** Clearing alone keeps the shape, with or without the cell's entry. */
  lemma ClearKeepsGraph(deps: Graph, dependents: Graph, cell: string)
    requires GraphOk(deps, dependents)
    ensures GraphOk(deps, Cleared(deps, dependents, cell))
    ensures GraphOk(deps - {cell}, Cleared(deps, dependents, cell))
  {
    ClearedNone(deps, dependents, cell);
  }

  /** Every call keeps the shape. */
  lemma RelinkKeepsGraph(deps: Graph, dependents: Graph, cell: string, formula: string)
    requires GraphOk(deps, dependents)
    ensures var r := Relink(deps, dependents, cell, formula); GraphOk(r.0, r.1)
  {
    if StartsWith(formula, "=") && |ExtractCellReferences(formula)| > 0 {
      LinkKeepsGraph(deps, dependents, cell, ExtractCellReferences(formula));
    } else {
      ClearKeepsGraph(deps, dependents, cell);
    }
  }

  /** A text that is not a formula: every old reference loses the cell, the
      cell keeps no entry, and with the graph in shape no set names it. */
  lemma RelinkNoFormula(deps: Graph, dependents: Graph, cell: string, formula: string)
    requires !StartsWith(formula, "=")
    ensures var r := Relink(deps, dependents, cell, formula);
      && cell !in r.0
      && (forall a :: a != cell ==> (a in r.0 <==> a in deps))
      && (cell in deps ==> forall b :: b in deps[cell] && b in r.1 ==> cell !in r.1[b])
      && (GraphOk(deps, dependents) ==> forall b :: b in r.1 ==> cell !in r.1[b])
  {
    var r := Relink(deps, dependents, cell, formula);
    if cell in deps {
      forall b | b in deps[cell] && b in r.1
        ensures cell !in r.1[b]
      {
        UnlinkedAt(dependents, cell, deps[cell], b);
      }
    }
    assert r.1 == Cleared(deps, dependents, cell);
    if GraphOk(deps, dependents) {
      ClearedNone(deps, dependents, cell);
    }
  }

  /** A formula with references records them for the cell and puts the
      cell in the set of each; with the graph in shape, exactly those sets
      name the cell. */
  lemma RelinkFormula(deps: Graph, dependents: Graph, cell: string, formula: string)
    requires StartsWith(formula, "=") && |ExtractCellReferences(formula)| > 0
    ensures var r := Relink(deps, dependents, cell, formula);
      var refs := ExtractCellReferences(formula);
      && cell in r.0 && r.0[cell] == refs
      && (forall x :: x in refs ==> x in r.1 && cell in r.1[x])
      && (GraphOk(deps, dependents) ==> forall b :: b in r.1 ==> (cell in r.1[b] <==> b in refs))
  {
    var refs := ExtractCellReferences(formula);
    var cleared := Cleared(deps, dependents, cell);
    var r := Linked(cleared, cell, refs);
    forall x | x in refs
      ensures x in r && cell in r[x]
    {
      LinkedAt(cleared, cell, refs, x);
    }
    if GraphOk(deps, dependents) {
      ClearedNone(deps, dependents, cell);
      forall b | b in r
        ensures cell in r[b] <==> b in refs
      {
        LinkedAt(cleared, cell, refs, b);
      }
    }
  }

  /** A formula without references, such as `=5`, takes the cell out of
      every set but keeps its old entry, so `cellDependencies` can name
      edges that `dependentCells` no longer has. */
  lemma RelinkStale(deps: Graph, dependents: Graph, cell: string, formula: string)
    requires StartsWith(formula, "=") && ExtractCellReferences(formula) == []
    requires GraphOk(deps, dependents)
    ensures var r := Relink(deps, dependents, cell, formula);
      && r.0 == deps
      && (forall b :: b in r.1 ==> cell !in r.1[b])
  {
    assert Relink(deps, dependents, cell, formula).1 == Cleared(deps, dependents, cell);
    ClearedNone(deps, dependents, cell);
  }

  /** Two graphs with the same keys and the same members under each key,
      in whatever order. */
  ghost predicate SameSets(g: Graph, h: Graph)
  {
    g.Keys == h.Keys && forall k, x :: k in g ==> (x in g[k] <==> x in h[k])
  }

  /** Calling `updateCellDependencies(cell, formula)` twice leaves the same
      references as calling it once, and the same dependents up to order. */
  lemma RelinkIdempotent(deps: Graph, dependents: Graph, cell: string, formula: string)
    ensures var once := Relink(deps, dependents, cell, formula);
      var twice := Relink(once.0, once.1, cell, formula);
      twice.0 == once.0 && SameSets(twice.1, once.1)
  {
    var once := Relink(deps, dependents, cell, formula);
    var twice := Relink(once.0, once.1, cell, formula);
    var cleared := Cleared(deps, dependents, cell);
    if !StartsWith(formula, "=") {
      assert once == (deps - {cell}, cleared);
      assert twice == (once.0 - {cell}, once.1);
      assert once.0 - {cell} == once.0;
    } else {
      var refs := ExtractCellReferences(formula);
      if |refs| > 0 {
        assert once == (deps[cell := refs], Linked(cleared, cell, refs));
        assert twice == (once.0[cell := refs], Linked(Unlinked(once.1, cell, refs), cell, refs));
        assert once.0[cell := refs] == once.0;
        RelinkAgain(cleared, cell, refs);
      } else if cell in deps {
        assert once == (deps, cleared);
        assert twice == (deps, Unlinked(cleared, cell, deps[cell]));
        ClearAgain(dependents, cell, deps[cell]);
      } else {
        assert twice == once;
      }
    }
  }

  /** Clearing and linking again over the same references brings back the
      same sets. */
  lemma RelinkAgain(cleared: Graph, cell: string, refs: seq<string>)
    ensures var once := Linked(cleared, cell, refs);
      SameSets(Linked(Unlinked(once, cell, refs), cell, refs), once)
  {
    var once := Linked(cleared, cell, refs);
    var again := Unlinked(once, cell, refs);
    var twice := Linked(again, cell, refs);
    forall k | k in once || k in twice
      ensures k in once && k in twice
      ensures forall x :: x in twice[k] <==> x in once[k]
    {
      LinkedAt(cleared, cell, refs, k);
      UnlinkedAt(once, cell, refs, k);
      LinkedAt(again, cell, refs, k);
    }
  }

  /** Clearing a second time over the same references changes nothing. */
  lemma ClearAgain(dependents: Graph, cell: string, olds: seq<string>)
    ensures var cleared := Unlinked(dependents, cell, olds);
      Unlinked(cleared, cell, olds) == cleared
  {
    var cleared := Unlinked(dependents, cell, olds);
    var twice := Unlinked(cleared, cell, olds);
    forall b
      ensures b in twice <==> b in cleared
      ensures b in cleared ==> twice[b] == cleared[b]
    {
      UnlinkedAt(dependents, cell, olds, b);
      UnlinkedAt(cleared, cell, olds, b);
      if b in cleared && b in olds {
        RemoveAbsent(cleared[b], cell);
      }
    }
    assert twice == cleared;
  }
}
