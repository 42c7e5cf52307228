/**
 * The spreadsheet (PS4/Spreadsheet/Spreadsheet.cs): a table from cell name
 * to contents, where a cell absent from the table is empty and reads as the
 * empty string, together with a dependency graph holding the pair (v, n)
 * whenever the formula in cell n mentions the variable v.
 *
 * A `null` argument is an absent `Option`; each exception the source throws
 * is a `SheetError`.  A setter returns the sheet after the call with either
 * the set of cells to recalculate or the error; on an error the returned
 * sheet is the one passed in.
 */
module Spreadsheet {
  import opened Wrappers
  import opened ExpressionUtils
  import opened DependencyGraph
  import opened Recalculation

  /**
   * A formula, as far as the spreadsheet uses it: its tokens and the
   * variables it mentions.  The formula class itself is not part of this
   * model.
   */
  datatype Formula = Formula(tokens: seq<string>, variables: seq<string>)

  /** The contents of a cell: a double, a string or a formula. */
  datatype Content =
    | Number(value: real)
    | Text(text: string)
    | FormulaContent(formula: Formula)

  /** What an empty cell holds. */
  const Empty := Text("")

  /** InvalidNameException, ArgumentNullException and CircularException. */
  datatype SheetError = InvalidName | ArgumentNull | Circular

  datatype Sheet = Sheet(cells: map<string, Content>, graph: Graph)

  /** The sheet after a setter, and the cells to recalculate or the error. */
  datatype Change = Change(sheet: Sheet, result: Result<set<string>, SheetError>)

  // ---------------------------------------------------------------------
  // Cell names

  /** The pattern `[a-zA-Z_](?:[a-zA-Z_]|\d)*` matches the whole of `s`. */
  predicate PatternMatches(s: string)
    decreases |s|
  {
    if |s| == 0 then false
    else if |s| == 1 then IsWordStart(s[0])
    else PatternMatches(s[..|s| - 1]) && IsWordChar(s[|s| - 1])
  }

  lemma {:induction false} PatternMatchesVariable(s: string)
    ensures PatternMatches(s) <==> IsVariableName(s)
    decreases |s|
  {
    if |s| > 1 {
      var t := s[..|s| - 1];
      PatternMatchesVariable(t);
      assert forall k :: 1 <= k < |t| ==> t[k] == s[k];
      if IsVariableName(s) {
        assert IsWordChar(s[|s| - 1]);
      }
    }
  }

  /**
   * IsCellNameValid, with the pattern anchored at both ends of the name: a
   * valid cell name is exactly a variable name of the formula lexer.
   */
  function IsCellNameValid(name: string): (b: bool)
    ensures b <==> IsVariableName(name)
  {
    PatternMatchesVariable(name);
    PatternMatches(name)
  }

  /**
   * IsCellNameValid as written: the regular-expression anchor `$` also
   * matches just before a final line feed, so one trailing "\n" is
   * accepted after a valid name.
   */
  function IsCellNameValidAsWritten(name: string): (b: bool)
    ensures b <==> (IsVariableName(name) ||
      (|name| > 1 && name[|name| - 1] == '\n' && IsVariableName(name[..|name| - 1])))
  {
    if |name| == 0 then false
    else
      PatternMatchesVariable(name);
      PatternMatchesVariable(name[..|name| - 1]);
      PatternMatches(name) || (name[|name| - 1] == '\n' && PatternMatches(name[..|name| - 1]))
  }

  /** Every valid name followed by a line feed passes the check as written. */
  lemma TrailingLineFeedAccepted(name: string)
    requires IsCellNameValid(name)
    ensures IsCellNameValidAsWritten(name + "\n")
    ensures !IsCellNameValid(name + "\n")
  {
    var t := name + "\n";
    assert t[..|t| - 1] == name;
    assert !IsWordChar(t[|t| - 1]);
  }

  /** The names the tests reject. */
  lemma RejectedNames()
    ensures !IsCellNameValid("") && !IsCellNameValid("5A") && !IsCellNameValid("a!1")
    ensures !IsCellNameValid("_a1-2") && !IsCellNameValid("()") && !IsCellNameValid(" a1 ")
  {
    assert !IsWordChar("a!1"[1]);
    assert !IsWordChar("_a1-2"[3]);
  }

  // ---------------------------------------------------------------------
  // The cell table and the graph it induces

  /** The cells a content refers to: a formula's variables, none otherwise. */
  function DependeesOf(content: Content): seq<string> {
    if content.FormulaContent? then content.formula.variables else []
  }

  /** The formula in cell `n` mentions `v`. */
  ghost predicate Refers(cells: map<string, Content>, v: string, n: string) {
    n in cells && v in DependeesOf(cells[n])
  }

  /** The pairs (v, n) for every cell n whose formula mentions v. */
  ghost function FormulaPairs(cells: map<string, Content>): (pairs: set<Pair>)
    ensures forall v, n :: (v, n) in pairs <==> Refers(cells, v, n)
  {
    set n, v | n in cells && v in DependeesOf(cells[n]) :: (v, n)
  }

  /**
   * The table after storing `contents` in `name`: setting "" removes the
   * cell, anything else replaces it, and no other cell changes.
   */
  function Store(cells: map<string, Content>, name: string, contents: Content): (r: map<string, Content>)
    ensures name in r <==> contents != Empty
    ensures name in r ==> r[name] == contents
    ensures forall n :: n != name ==> (n in r <==> n in cells) && (n in r ==> r[n] == cells[n])
  {
    if contents == Empty then cells - {name} else cells[name := contents]
  }

  /**
   * Storing contents changes exactly the pairs into `name`: those become
   * the new contents' variables.
   */
  lemma StorePairs(cells: map<string, Content>, name: string, contents: Content)
    ensures FormulaPairs(Store(cells, name, contents)) ==
      (set p | p in FormulaPairs(cells) && p.1 != name) + To(name, DependeesOf(contents))
  {
    var after := Store(cells, name, contents);
    var rhs := (set p | p in FormulaPairs(cells) && p.1 != name) + To(name, DependeesOf(contents));
    forall p: Pair ensures p in FormulaPairs(after) <==> p in rhs {
      if p.1 == name {
        assert p in To(name, DependeesOf(contents)) <==> p.0 in DependeesOf(contents);
        assert Refers(after, p.0, p.1) <==> p.0 in DependeesOf(contents);
      } else {
        assert Refers(after, p.0, p.1) <==> Refers(cells, p.0, p.1);
      }
    }
  }

  /**
   * The sheet's invariant: the graph is well formed, every stored name is
   * valid, no stored cell is empty, and the graph holds exactly the pairs
   * the formulas induce.
   */
  ghost predicate Valid(s: Sheet) {
    DependencyGraph.Valid(s.graph) &&
    (forall n :: n in s.cells ==> IsCellNameValid(n) && s.cells[n] != Empty) &&
    Pairs(s.graph) == FormulaPairs(s.cells)
  }

  /** No cell depends on itself, directly or indirectly. */
  ghost predicate Acyclic(s: Sheet) {
    forall a :: !OnCycle(Pairs(s.graph), a)
  }

  lemma EmptyAcyclic()
    ensures forall a :: !OnCycle({}, a)
  {
    forall a ensures !OnCycle({}, a) {
      CycleHasEdges({}, a);
    }
  }

  /** A new spreadsheet: no cells and no dependencies. */
  function New(): (s: Sheet)
    ensures Valid(s) && Acyclic(s) && Pairs(s.graph) == {}
    ensures forall n :: IsCellNameValid(n) ==> GetCellContents(s, Some(n)) == Success(Empty)
  {
    EmptyAcyclic();
    Sheet(map[], DependencyGraph.New())
  }

  // ---------------------------------------------------------------------
  // Reading

  /**
   * GetCellContents: a null or invalid name is an InvalidNameException; an
   * absent cell reads as the empty string.
   */
  function GetCellContents(s: Sheet, name: Option<string>): (r: Result<Content, SheetError>)
    requires Valid(s)
    ensures r.Failure? <==> name.None? || !IsCellNameValid(name.value)
    ensures r.Failure? ==> r.error == InvalidName
    ensures r.Success? ==> (r.value == Empty <==> name.value !in s.cells)
    ensures r.Success? && name.value in s.cells ==> r.value == s.cells[name.value]
  {
    if name.None? || !IsCellNameValid(name.value) then Failure(InvalidName)
    else if name.value in s.cells then Success(s.cells[name.value])
    else Success(Empty)
  }

  /** GetNamesOfAllNonemptyCells: the names whose contents are not "". */
  function GetNamesOfAllNonemptyCells(s: Sheet): (r: set<string>)
    requires Valid(s)
    ensures forall n :: n in r ==> IsCellNameValid(n)
    ensures forall n :: IsCellNameValid(n) ==> (n in r <==> GetCellContents(s, Some(n)) != Success(Empty))
  {
    s.cells.Keys
  }

  /**
   * GetDirectDependents: a null name is an ArgumentNullException, checked
   * before the name's validity; otherwise the cells whose formulas mention
   * the name.
   */
  function GetDirectDependents(s: Sheet, name: Option<string>): (r: Result<set<string>, SheetError>)
    requires Valid(s)
    ensures name.None? ==> r == Failure(ArgumentNull)
    ensures name.Some? && !IsCellNameValid(name.value) ==> r == Failure(InvalidName)
    ensures name.Some? && IsCellNameValid(name.value) ==> (r.Success? &&
      forall d :: d in r.value <==> d in s.cells && name.value in DependeesOf(s.cells[d]))
  {
    if name.None? then Failure(ArgumentNull)
    else if !IsCellNameValid(name.value) then Failure(InvalidName)
    else
      assert forall d :: d in GetDependents(s.graph, name.value) <==> Refers(s.cells, name.value, d);
      Success(GetDependents(s.graph, name.value))
  }

  // ---------------------------------------------------------------------
  // Writing

  /**
   * If the only pairs that changed are pairs into `name` and `name` is on
   * no cycle, an acyclic graph stays acyclic.
   */
  lemma AcyclicPreserved(before: set<Pair>, after: set<Pair>, name: string)
    requires forall pr :: pr in after ==> pr in before || pr.1 == name
    requires !OnCycle(after, name)
    ensures (forall a :: !OnCycle(before, a)) ==> forall a :: !OnCycle(after, a)
  {
    if forall a :: !OnCycle(before, a) {
      forall a ensures !OnCycle(after, a) {
        NewCycleThrough(before, after, name, a);
      }
    }
  }

  /**
   * UpdateCell, with the behaviour the tests assert: the cell's dependees
   * are replaced by the new contents' variables; if that puts the cell on
   * a cycle, the sheet is left exactly as it was and the change fails with
   * a CircularException; otherwise the contents are stored and the result
   * is the cell itself and every cell depending on it, directly or
   * indirectly.
   */
  function UpdateCell(s: Sheet, name: string, contents: Content): (c: Change)
    requires Valid(s) && IsCellNameValid(name)
    ensures c.result.Failure? <==> OnCycle(FormulaPairs(Store(s.cells, name, contents)), name)
    ensures c.result.Failure? ==> c.result.error == Circular && c.sheet == s
    ensures c.result.Success? ==> Valid(c.sheet) && c.sheet.cells == Store(s.cells, name, contents)
    ensures c.result.Success? ==> name in c.result.value
    ensures c.result.Success? ==>
      forall d :: d in c.result.value <==> Reaches(FormulaPairs(c.sheet.cells), name, d)
    ensures c.result.Success? && Acyclic(s) ==> Acyclic(c.sheet)
  {
    var g := ReplaceDependees(s.graph, name, DependeesOf(contents));
    StorePairs(s.cells, name, contents);
    if IsCircular(g, name) then Change(s, Failure(Circular))
    else
      AcyclicPreserved(Pairs(s.graph), Pairs(g), name);
      Change(Sheet(Store(s.cells, name, contents), g), Success(CellsToRecalculate(g, name)))
  }

  /** Contents other than a formula have no dependees, so never close a cycle. */
  lemma NonFormulaNotCircular(cells: map<string, Content>, name: string, contents: Content)
    requires !contents.FormulaContent?
    ensures !OnCycle(FormulaPairs(Store(cells, name, contents)), name)
  {
    var pairs := FormulaPairs(Store(cells, name, contents));
    CycleHasEdges(pairs, name);
    forall d ensures (d, name) !in pairs {
      assert !Refers(Store(cells, name, contents), d, name);
    }
  }

  /**
   * A cell on a cycle has a dependent, and returns to itself from there; so
   * a cell whose dependents lie in a closed set without it is on no cycle.
   */
  lemma CycleLeaves(pairs: set<Pair>, a: string, s: set<string>)
    requires Closed(pairs, s) && forall d :: (a, d) in pairs ==> d in s
    ensures OnCycle(pairs, a) ==> a in s
  {
    if OnCycle(pairs, a) {
      var p :| PathFrom(pairs, {a}, p, a) && |p| >= 2;
      assert EdgeAt(pairs, p, 0);
      PathSuffix(pairs, p, 1);
      PathStaysIn(pairs, s, p[1..]);
    }
  }

  /** Every dependent is a stored formula cell, so a cell reaches only itself and stored cells. */
  lemma ReachesStored(cells: map<string, Content>, a: string)
    ensures forall d :: Reaches(FormulaPairs(cells), a, d) ==> d == a || d in cells
  {
    ReachesWithin(FormulaPairs(cells), a, cells.Keys + {a});
  }

  /** SetCellContents(string, double). */
  function SetCellNumber(s: Sheet, name: Option<string>, number: real): (c: Change)
    requires Valid(s)
    ensures name.None? || !IsCellNameValid(name.value) ==> c == Change(s, Failure(InvalidName))
    ensures name.Some? && IsCellNameValid(name.value) ==>
      c.result.Success? && Valid(c.sheet) && GetCellContents(c.sheet, name) == Success(Number(number)) &&
      c.sheet.cells == Store(s.cells, name.value, Number(number)) &&
      name.value in c.result.value &&
      forall d :: d in c.result.value <==> Reaches(FormulaPairs(c.sheet.cells), name.value, d)
  {
    if name.None? || !IsCellNameValid(name.value) then Change(s, Failure(InvalidName))
    else
      NonFormulaNotCircular(s.cells, name.value, Number(number));
      UpdateCell(s, name.value, Number(number))
  }

  /**
   * SetCellContents(string, string): the name is checked before the text;
   * storing "" empties the cell.
   */
  function SetCellText(s: Sheet, name: Option<string>, text: Option<string>): (c: Change)
    requires Valid(s)
    ensures name.None? || !IsCellNameValid(name.value) ==> c == Change(s, Failure(InvalidName))
    ensures name.Some? && IsCellNameValid(name.value) && text.None? ==> c == Change(s, Failure(ArgumentNull))
    ensures name.Some? && IsCellNameValid(name.value) && text.Some? ==>
      c.result.Success? && Valid(c.sheet) && GetCellContents(c.sheet, name) == Success(Text(text.value)) &&
      c.sheet.cells == Store(s.cells, name.value, Text(text.value)) &&
      name.value in c.result.value &&
      forall d :: d in c.result.value <==> Reaches(FormulaPairs(c.sheet.cells), name.value, d)
  {
    if name.None? || !IsCellNameValid(name.value) then Change(s, Failure(InvalidName))
    else if text.None? then Change(s, Failure(ArgumentNull))
    else
      NonFormulaNotCircular(s.cells, name.value, Text(text.value));
      UpdateCell(s, name.value, Text(text.value))
  }

  /**
   * SetCellContents(string, Formula): the name is checked before the
   * formula; a formula that puts the cell on a cycle is rejected and the
   * sheet is unchanged.
   */
  function SetCellFormula(s: Sheet, name: Option<string>, formula: Option<Formula>): (c: Change)
    requires Valid(s)
    ensures name.None? || !IsCellNameValid(name.value) ==> c == Change(s, Failure(InvalidName))
    ensures name.Some? && IsCellNameValid(name.value) && formula.None? ==> c == Change(s, Failure(ArgumentNull))
    ensures name.Some? && IsCellNameValid(name.value) && formula.Some? ==>
      var after := s.cells[name.value := FormulaContent(formula.value)];
      (c.result.Failure? <==> OnCycle(FormulaPairs(after), name.value)) &&
      (c.result.Failure? ==> c == Change(s, Failure(Circular))) &&
      (c.result.Success? ==>
        Valid(c.sheet) && GetCellContents(c.sheet, name) == Success(FormulaContent(formula.value)) &&
        c.sheet.cells == after &&
        name.value in c.result.value &&
        forall d :: d in c.result.value <==> Reaches(FormulaPairs(c.sheet.cells), name.value, d))
  {
    if name.None? || !IsCellNameValid(name.value) then Change(s, Failure(InvalidName))
    else if formula.None? then Change(s, Failure(ArgumentNull))
    else UpdateCell(s, name.value, FormulaContent(formula.value))
  }

  /** A successful update leaves every other cell as it was. */
  lemma SetThenGet(s: Sheet, name: string, contents: Content, other: string)
    requires Valid(s) && IsCellNameValid(name) && UpdateCell(s, name, contents).result.Success?
    ensures GetCellContents(UpdateCell(s, name, contents).sheet, Some(name)) == Success(contents)
    ensures other != name ==>
      GetCellContents(UpdateCell(s, name, contents).sheet, Some(other)) == GetCellContents(s, Some(other))
  {
  }

  /** In a graph without pairs a cell reaches only itself. */
  lemma ReachesInEmpty(a: string)
    ensures forall d :: Reaches({}, a, d) <==> d == a
  {
    ReachesWithin({}, a, {a});
    assert PathFrom({}, {a}, [a], a);
  }

  /** With no formulas stored, storing a number reports exactly that cell. */
  lemma NumberWithoutFormulas(s: Sheet, a1: string, x: real)
    requires Valid(s) && IsCellNameValid(a1)
    requires forall n :: n in s.cells ==> !s.cells[n].FormulaContent?
    ensures SetCellNumber(s, Some(a1), x).result == Success({a1})
  {
    var c := SetCellNumber(s, Some(a1), x);
    assert FormulaPairs(c.sheet.cells) == {};
    ReachesInEmpty(a1);
    assert c.result.value == {a1};
  }
}
