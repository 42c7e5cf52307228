/**
 * UpdateCell of PS4/Spreadsheet/Spreadsheet.cs as written, next to the
 * behaviour its tests assert (Spreadsheet.UpdateCell).  As written, a
 * formula's variables are only ever added as dependees of the cell, the
 * circular-dependency check throws after the graph has changed, and the
 * changed cell itself is removed from the returned set.
 */
module SpreadsheetAsWritten {
  import opened Wrappers
  import DependencyGraph
  import opened Recalculation
  import opened Spreadsheet

  function UpdateCellAsWritten(s: Sheet, name: string, contents: Content): (c: Change)
    requires DependencyGraph.Valid(s.graph)
    ensures DependencyGraph.Valid(c.sheet.graph)
    ensures DependencyGraph.Pairs(c.sheet.graph) == DependencyGraph.Pairs(s.graph) + DependencyGraph.To(name, DependeesOf(contents))
    ensures c.result.Failure? <==> OnCycle(DependencyGraph.Pairs(c.sheet.graph), name)
    ensures c.result.Failure? ==> c.result.error == Circular && c.sheet.cells == s.cells
    ensures c.result.Success? ==> c.sheet.cells == Store(s.cells, name, contents)
    ensures c.result.Success? ==>
      forall d :: d in c.result.value <==> d != name && Reaches(DependencyGraph.Pairs(c.sheet.graph), name, d)
  {
    var g := DependencyGraph.Graph(DependencyGraph.AddDependees(s.graph.dependencies, name, DependeesOf(contents)));
    if IsCircular(g, name) then Change(Sheet(s.cells, g), Failure(Circular))
    else Change(Sheet(Store(s.cells, name, contents), g), Success(CellsToRecalculate(g, name) - {name}))
  }

  /** A sheet with no cells and no dependencies, such as `New()`. */
  ghost predicate EmptySheet(s: Sheet) {
    Valid(s) && s.cells == map[] && DependencyGraph.Pairs(s.graph) == {}
  }

  lemma NewIsEmpty()
    ensures EmptySheet(New())
  {
  }

  /**
   * Setting a cell of a new sheet: as written the result leaves out the
   * cell itself, where the tests expect exactly that cell.
   */
  lemma OriginDropped(s0: Sheet, a1: string)
    requires EmptySheet(s0) && IsCellNameValid(a1)
    ensures UpdateCellAsWritten(s0, a1, Number(10.0)).result == Success({})
    ensures SetCellNumber(s0, Some(a1), 10.0).result == Success({a1})
  {
    var w := UpdateCellAsWritten(s0, a1, Number(10.0));
    assert DependencyGraph.To(a1, []) == {};
    assert DependencyGraph.Pairs(w.sheet.graph) == {};
    CycleHasEdges({}, a1);
    ReachesInEmpty(a1);
    assert w.result.value == {};
    NumberWithoutFormulas(s0, a1, 10.0);
  }

  /** A cell that refers to itself is on a cycle. */
  lemma SelfLoop(a1: string)
    ensures OnCycle({(a1, a1)}, a1)
  {
    var loop := [a1, a1];
    assert EdgeAt({(a1, a1)}, loop, 0);
    assert PathFrom({(a1, a1)}, {a1}, loop, a1);
  }

  /** The pairs a formula mentioning only `v` adds into `name`. */
  lemma OnlyVariable(name: string, v: string, f: Content)
    requires f.FormulaContent? && f.formula.variables == [v]
    ensures DependencyGraph.To(name, DependeesOf(f)) == {(v, name)}
  {
  }

  /** As written, storing a number leaves the graph as it was. */
  lemma NumberKeepsPairsAsWritten(s: Sheet, a1: string, x: real)
    requires DependencyGraph.Valid(s.graph)
    ensures DependencyGraph.Pairs(UpdateCellAsWritten(s, a1, Number(x)).sheet.graph) == DependencyGraph.Pairs(s.graph)
  {
    assert DependencyGraph.To(a1, []) == {};
  }

  /**
   * As written, once a change to a cell has failed, storing a number in the
   * cell fails too: the failed change's pairs stay in the graph.
   */
  lemma FailureSticks(s: Sheet, a1: string, f: Content, x: real)
    requires DependencyGraph.Valid(s.graph) && UpdateCellAsWritten(s, a1, f).result.Failure?
    ensures UpdateCellAsWritten(UpdateCellAsWritten(s, a1, f).sheet, a1, Number(x)).result == Failure(Circular)
  {
    NumberKeepsPairsAsWritten(UpdateCellAsWritten(s, a1, f).sheet, a1, x);
  }

  /** As written, a change adds its pairs to the graph. */
  lemma PairsAddedAsWritten(s0: Sheet, a1: string, f: Content, pairs: set<DependencyGraph.Pair>)
    requires DependencyGraph.Valid(s0.graph) && DependencyGraph.Pairs(s0.graph) == {}
    requires DependencyGraph.To(a1, DependeesOf(f)) == pairs
    ensures DependencyGraph.Pairs(UpdateCellAsWritten(s0, a1, f).sheet.graph) == pairs
  {
  }

  /** As written, a self-reference in a new sheet fails. */
  lemma SelfReferenceAsWritten(s0: Sheet, a1: string, f: Content)
    requires DependencyGraph.Valid(s0.graph) && DependencyGraph.Pairs(s0.graph) == {}
    requires DependencyGraph.To(a1, DependeesOf(f)) == {(a1, a1)}
    ensures UpdateCellAsWritten(s0, a1, f).result == Failure(Circular)
  {
    SelfLoop(a1);
    PairsAddedAsWritten(s0, a1, f, {(a1, a1)});
  }

  /**
   * A cell that refers to itself: as written the pair stays in the graph
   * after the CircularException, so even storing a number in the cell
   * fails from then on.
   */
  lemma NoRollback(s0: Sheet, a1: string)
    requires EmptySheet(s0) && IsCellNameValid(a1)
    ensures
      var w := UpdateCellAsWritten(s0, a1, FormulaContent(Formula([a1], [a1])));
      w.result == Failure(Circular) && UpdateCellAsWritten(w.sheet, a1, Number(5.0)).result == Failure(Circular)
  {
    var f := FormulaContent(Formula([a1], [a1]));
    OnlyVariable(a1, a1, f);
    SelfReferenceAsWritten(s0, a1, f);
    FailureSticks(s0, a1, f, 5.0);
  }

  /** With the rollback a failed change leaves the sheet as it was. */
  lemma SelfReferenceRolledBack(s0: Sheet, a1: string, f: Content)
    requires EmptySheet(s0) && IsCellNameValid(a1) && f != Empty
    requires DependencyGraph.To(a1, DependeesOf(f)) == {(a1, a1)}
    ensures UpdateCell(s0, a1, f) == Change(s0, Failure(Circular))
  {
    SelfLoop(a1);
    FormulaPairsOnEmpty(s0, a1, f, {(a1, a1)});
  }

  /** With the rollback the self-reference is rejected and the number is then stored. */
  lemma RolledBack(s0: Sheet, a1: string)
    requires EmptySheet(s0) && IsCellNameValid(a1)
    ensures
      var c := UpdateCell(s0, a1, FormulaContent(Formula([a1], [a1])));
      c.result == Failure(Circular) && SetCellNumber(c.sheet, Some(a1), 5.0).result.Success?
  {
    var f := FormulaContent(Formula([a1], [a1]));
    OnlyVariable(a1, a1, f);
    SelfReferenceRolledBack(s0, a1, f);
  }

  /** A formula in a new sheet, as written: the sheet gets the formula's pair. */
  lemma FormulaOnEmptyAsWritten(s0: Sheet, a1: string, a2: string, f: Content)
    requires DependencyGraph.Valid(s0.graph) && DependencyGraph.Pairs(s0.graph) == {} && a1 != a2
    requires DependencyGraph.To(a1, DependeesOf(f)) == {(a2, a1)}
    ensures UpdateCellAsWritten(s0, a1, f).result.Success?
  {
    NoEdgeNoCycle({(a2, a1)}, a1);
  }

  /** From a2, the single pair (a2, a1) reaches a1 and nothing but a2 and a1. */
  lemma ReachFromDependee(a1: string, a2: string)
    requires a1 != a2
    ensures forall d :: d != a2 && Reaches({(a2, a1)}, a2, d) <==> d == a1
  {
    var edge := {(a2, a1)};
    assert Closed(edge, {a1, a2});
    ReachesWithin(edge, a2, {a1, a2});
    assert EdgeAt(edge, [a2, a1], 0);
    assert PathFrom(edge, {a2}, [a2, a1], a1);
  }

  /** As written, with the pair (a2, a1) in the graph, storing a number in a1 succeeds. */
  lemma NumberInDependentAsWritten(s: Sheet, a1: string, a2: string, x: real)
    requires DependencyGraph.Valid(s.graph) && DependencyGraph.Pairs(s.graph) == {(a2, a1)} && a1 != a2
    ensures UpdateCellAsWritten(s, a1, Number(x)).result.Success?
  {
    NumberKeepsPairsAsWritten(s, a1, x);
    NoEdgeNoCycle({(a2, a1)}, a1);
  }

  /** As written, with the stale pair (a2, a1) left behind, changing a2 reports a1. */
  lemma StalePairReported(s: Sheet, a1: string, a2: string, x: real)
    requires DependencyGraph.Valid(s.graph) && DependencyGraph.Pairs(s.graph) == {(a2, a1)} && a1 != a2
    ensures UpdateCellAsWritten(s, a2, Number(x)).result == Success({a1})
  {
    var w := UpdateCellAsWritten(s, a2, Number(x));
    NumberKeepsPairsAsWritten(s, a2, x);
    NoEdgeNoCycle({(a2, a1)}, a2);
    ReachFromDependee(a1, a2);
    assert w.result.value == {a1};
  }

  /**
   * A formula replaced by a number: as written its old dependee keeps the
   * cell as a dependent, so changing the dependee still reports the cell.
   */
  lemma StaleDependency(s0: Sheet, a1: string, a2: string, f: Content)
    requires EmptySheet(s0) && IsCellNameValid(a1) && IsCellNameValid(a2) && a1 != a2
    requires f.FormulaContent? && f.formula.variables == [a2]
    ensures
      var w1 := UpdateCellAsWritten(s0, a1, f);
      var w2 := UpdateCellAsWritten(w1.sheet, a1, Number(5.0));
      w1.result.Success? && w2.result.Success? &&
      UpdateCellAsWritten(w2.sheet, a2, Number(5.0)).result == Success({a1})
  {
    OnlyVariable(a1, a2, f);
    FormulaOnEmptyAsWritten(s0, a1, a2, f);
    PairsAddedAsWritten(s0, a1, f, {(a2, a1)});
    var w1 := UpdateCellAsWritten(s0, a1, f);
    NumberInDependentAsWritten(w1.sheet, a1, a2, 5.0);
    NumberKeepsPairsAsWritten(w1.sheet, a1, 5.0);
    StalePairReported(UpdateCellAsWritten(w1.sheet, a1, Number(5.0)).sheet, a1, a2, 5.0);
  }

  /** Storing a formula in an empty table gives exactly the formula's pairs. */
  lemma FormulaPairsOnEmpty(s0: Sheet, a1: string, f: Content, pairs: set<DependencyGraph.Pair>)
    requires EmptySheet(s0) && DependencyGraph.To(a1, DependeesOf(f)) == pairs
    ensures FormulaPairs(Store(s0.cells, a1, f)) == pairs
  {
    StorePairs(s0.cells, a1, f);
  }

  /** A formula in a new sheet whose variable is another cell is stored. */
  lemma FormulaOnEmpty(s0: Sheet, a1: string, a2: string, f: Content)
    requires EmptySheet(s0) && IsCellNameValid(a1) && a1 != a2 && f != Empty
    requires DependencyGraph.To(a1, DependeesOf(f)) == {(a2, a1)}
    ensures UpdateCell(s0, a1, f).result.Success?
  {
    NoEdgeNoCycle({(a2, a1)}, a1);
    FormulaPairsOnEmpty(s0, a1, f, {(a2, a1)});
  }

  /** A formula stored in a new sheet is its only cell. */
  lemma FormulaAloneOnEmpty(s0: Sheet, a1: string, f: Content)
    requires EmptySheet(s0) && IsCellNameValid(a1) && f != Empty
    requires UpdateCell(s0, a1, f).result.Success?
    ensures UpdateCell(s0, a1, f).sheet.cells.Keys == {a1}
  {
  }

  /**
   * With the dependees replaced, a formula over a2 stored in a1 and then
   * overwritten by a number leaves no pair: setting a2 reports only a2.
   */
  lemma DependencyReplaced(s0: Sheet, a1: string, a2: string, f: Content)
    requires EmptySheet(s0) && IsCellNameValid(a1) && IsCellNameValid(a2) && a1 != a2
    requires f.FormulaContent? && f.formula.variables == [a2]
    ensures
      var c1 := UpdateCell(s0, a1, f);
      c1.result.Success? &&
      SetCellNumber(SetCellNumber(c1.sheet, Some(a1), 5.0).sheet, Some(a2), 5.0).result == Success({a2})
  {
    OnlyVariable(a1, a2, f);
    FormulaOnEmpty(s0, a1, a2, f);
    FormulaAloneOnEmpty(s0, a1, f);
    NumberOverFormula(UpdateCell(s0, a1, f).sheet, a1, a2);
  }

  /** A number over the only formula of a sheet leaves no formula behind. */
  lemma NumberOverFormula(s: Sheet, a1: string, a2: string)
    requires Valid(s) && IsCellNameValid(a1) && IsCellNameValid(a2) && s.cells.Keys == {a1}
    ensures SetCellNumber(SetCellNumber(s, Some(a1), 5.0).sheet, Some(a2), 5.0).result == Success({a2})
  {
    NumberWithoutFormulas(SetCellNumber(s, Some(a1), 5.0).sheet, a2, 5.0);
  }
}
