# A verified model of the CS 3500 spreadsheet engine

This project models the core of a small C# spreadsheet engine in Dafny:

- the dependency graph of PS2;
- the formula machinery of PS3: tokenizer, operator table, syntax checker and two-stack evaluator;
- the spreadsheet of PS4, which stores cell contents and keeps the graph in step with the formulas.

Every operation is a pure function over immutable datatypes. A `null` argument is `None` of an `Option`. An exception the engine throws, or a `FormulaError` it returns, is the `Failure` of a `Result`. Doubles are modelled as `real`.

| file | module | models |
|---|---|---|
| `wrappers.dfy` | `Wrappers` | `Option` and `Result` |
| `operators.dfy` | `Operators` | the four arithmetic operators and the grouping operator |
| `operator_utils.dfy` | `OperatorUtils` | the operator table and its three classifiers |
| `dependency_container.dfy` | `DependencyContainer` | the pair of mirrored dictionaries and the pair count |
| `dependency_graph.dfy` | `DependencyGraph` | the public graph API over one container |
| `expression_utils.dfy` | `ExpressionUtils` | `GetTokens` as a hand-written lexer of the same patterns, `IsVariable`, `double.TryParse` on a token, `GetNormalizedVariables` |
| `syntax_checker.dfy` | `SyntaxChecker` | `CheckSyntax` and its four rules, plus a declarative `WellFormed` they agree with |
| `evaluator.dfy` | `Evaluator` | the two-stack machine, one token per `Step` |
| `expression_tree.dfy` | `ExpressionTree` | the sum/term/factor grammar, and a parser from checked tokens to trees |
| `evaluator_proofs.dfy` | `EvaluatorProofs` | the machine computes the tree's value on every checked formula |
| `evaluator_examples.dfy` | `EvaluatorExamples` | the expected values of the formula tests, on number literals |
| `recalculation.dfy` | `Recalculation` | the cells to recalculate, as reachability in the graph, and cycle detection |
| `spreadsheet.dfy` | `Spreadsheet` | the cell table and the setters, with the graph as exactly the formulas' pairs |
| `spreadsheet_as_written.dfy` | `SpreadsheetAsWritten` | `UpdateCell` as written, next to the behaviour its tests assert |

In the graph, a pair `(s, t)` means `t` depends on `s`: `s` is a dependee of `t`.

The evaluator is the source's loop over tokens, with two corrections:

- an unknown variable gives the undefined-variable `FormulaError`, where the source's lookup throws an exception that escapes `Evaluate`;
- a division by zero gives the divide-by-zero `FormulaError`, where the source's double division yields infinity.

The loop as written, with the escaping exception, is modelled too (`EvaluateAsWritten`), and `EvaluatorProofs.EvaluateAsWrittenAgrees` states exactly where the two differ. The source's test order is kept: a token is tried as an operator, then as a variable, then as a double. So `1e5`, which the lexer reads as one double literal, is handed to the lookup, because the unanchored variable pattern matches its `e` (`EvaluatorExamples.ExponentLiteralLookedUp`). The evaluator's correctness is proved against an independent reference: a grammar tree with a recursive valuation (`EvalSum`). Every formula that passes `CheckSyntax` parses to a tree whose tokens are exactly the formula's. Running the stacks over those tokens yields the tree's value, or the tree's error.

## Model

| member | source | states |
|---|---|---|
| Operators.Compute | PS3/Formula/Operators/Arithmetic/ArithmeticOperator.cs:35-42 | Each operator's result relates to its operands as its operation promises: the sum less the right operand is the left, the quotient times the divisor is the left. Only a division by zero has no real result. |
| Operators.ComputeIsOrderSensitive | PS3/Formula/Evaluator.cs:193-196 | The left operand is the one popped second: 5 - 2 is 3 and 2 - 5 is -3, 6 / 3 is 2 and 3 / 6 is 0.5. |
| Operators.GroupingOperator | PS3/Formula/Operators/GroupingOperator.cs:22-25 | A grouping operator opens a group exactly when it was not built as a closing one. |
| Operators.DefaultGroupingOperator | PS3/Formula/Operators/GroupingOperator.cs:22 | By default a grouping operator opens a group. |
| OperatorUtils.OperatorDictKeys | PS3/Formula/Utils/OperatorUtils.cs:17-25 | The operator table has exactly the six keys `( ) + - * /`. |
| OperatorUtils.IsOpeningGroupOperator | PS3/Formula/Utils/OperatorUtils.cs:32-38 | Holds exactly for `(`. |
| OperatorUtils.IsClosingGroupOperator | PS3/Formula/Utils/OperatorUtils.cs:45-51 | Holds exactly for `)`. |
| OperatorUtils.IsArithmeticOperator | PS3/Formula/Utils/OperatorUtils.cs:58-64 | Holds exactly for `+ - * /`. |
| OperatorUtils.Symbol | PS3/Formula/Utils/OperatorUtils.cs:17-25 | The table maps each operator's symbol back to that operator. |
| OperatorUtils.SymbolRoundTrip | PS3/Formula/Utils/OperatorUtils.cs:17-25 | Looking an operator's symbol up in the table gives the operator back. |
| OperatorUtils.ClassifiersExclusive | PS3/Formula/Utils/OperatorUtils.cs:32-64 | No token is in two operator classes, and a token outside the table is in none. |
| DependencyContainer.Empty | PS2/SpreadsheetUtilities/DependencyContainer.cs:19-32 | A new container is mirrored, holds no pair and counts 0. |
| DependencyContainer.InitializeKey | PS2/SpreadsheetUtilities/DependencyContainer.cs:158-166 | The key is present afterwards, no other entry changes, and a new key maps to the empty set. |
| DependencyContainer.AddPair | PS2/SpreadsheetUtilities/DependencyContainer.cs:39-52 | The pair is added to both mirrored dictionaries. The count grows by one exactly when the pair was new. |
| DependencyContainer.RemovePair | PS2/SpreadsheetUtilities/DependencyContainer.cs:59-71 | The pair is removed from both sides, and the count drops by one when it was present. Removing an absent pair changes nothing. |
| DependencyContainer.RemoveDependents | PS2/SpreadsheetUtilities/DependencyContainer.cs:77-90 | Exactly the pairs out of the node are removed, and the count drops by their number. |
| DependencyContainer.RemoveDependees | PS2/SpreadsheetUtilities/DependencyContainer.cs:96-109 | Exactly the pairs into the node are removed, and the count drops by their number. |
| DependencyContainer.GetDependents | PS2/SpreadsheetUtilities/DependencyContainer.cs:116-120 | The nodes that depend on the given one according to the pair set, empty for an unknown key. |
| DependencyContainer.GetDependentsCount | PS2/SpreadsheetUtilities/DependencyContainer.cs:127-130 | The size of `GetDependents`, so 0 for an unknown key. |
| DependencyContainer.GetDependees | PS2/SpreadsheetUtilities/DependencyContainer.cs:137-141 | The nodes the given one depends on according to the pair set, empty for an unknown key. |
| DependencyContainer.GetDependeesCount | PS2/SpreadsheetUtilities/DependencyContainer.cs:148-151 | The size of `GetDependees`, so 0 for an unknown key. |
| DependencyGraph.New | PS2/SpreadsheetUtilities/DependencyGraph.cs:51-53 | A new graph is well formed and has no pairs. |
| DependencyGraph.Size | PS2/SpreadsheetUtilities/DependencyGraph.cs:58 | The number of distinct pairs. |
| DependencyGraph.Indexer | PS2/SpreadsheetUtilities/DependencyGraph.cs:67 | `this[s]` is the number of dependees of `s`. |
| DependencyGraph.HasDependents | PS2/SpreadsheetUtilities/DependencyGraph.cs:75 | True exactly when some node depends on `s`. |
| DependencyGraph.HasDependees | PS2/SpreadsheetUtilities/DependencyGraph.cs:86 | True exactly when `s` depends on some node. |
| DependencyGraph.GetDependents | PS2/SpreadsheetUtilities/DependencyGraph.cs:97 | Exactly the dependents of `s` in the pair set. |
| DependencyGraph.GetDependees | PS2/SpreadsheetUtilities/DependencyGraph.cs:107 | Exactly the dependees of `s` in the pair set. |
| DependencyGraph.AddDependency | PS2/SpreadsheetUtilities/DependencyGraph.cs:117-120 | The pair set gains exactly the given pair, and the graph stays mirrored. |
| DependencyGraph.RemoveDependency | PS2/SpreadsheetUtilities/DependencyGraph.cs:128-131 | The pair set loses exactly the given pair, and removing an absent pair leaves the graph as it was. |
| DependencyGraph.AddDependents | PS2/SpreadsheetUtilities/DependencyGraph.cs:139-144 | Adding a list of dependents adds one pair out of the node per list element. |
| DependencyGraph.AddDependees | PS2/SpreadsheetUtilities/DependencyGraph.cs:152-157 | Adding a list of dependees adds one pair into the node per list element. |
| DependencyGraph.ReplaceDependents | PS2/SpreadsheetUtilities/DependencyGraph.cs:139-144 | The pairs out of the node become exactly those to the new dependents, and every other pair is kept. |
| DependencyGraph.ReplaceDependees | PS2/SpreadsheetUtilities/DependencyGraph.cs:152-157 | The pairs into the node become exactly those from the new dependees, and every other pair is kept. |
| DependencyGraph.ReplacedDependents | PS2/SpreadsheetUtilities/DependencyGraph.cs:139-144 | After the replacement, `GetDependents(s)` is the new list as a set, and every other node's dependents are unchanged. |
| DependencyGraph.ReplacedDependees | PS2/SpreadsheetUtilities/DependencyGraph.cs:152-157 | After the replacement, `GetDependees(s)` is the new list as a set, and every other node's dependees are unchanged. |
| DependencyGraph.NewGraphIsEmpty | PS2/DevelopmentTests/DevelopmentTests.cs:19-42 | A new graph has size 0 and `this[s]` is 0. |
| DependencyGraph.AddDuplicateDependency | PS2/DevelopmentTests/DevelopmentTests.cs:113-119 | Adding the same pair twice counts it once. |
| DependencyGraph.ReplaceDependeesOfUnseenNode | PS2/DevelopmentTests/DevelopmentTests.cs:250-258 | Replacing the dependees of a node the graph has never seen adds the pair. |
| DependencyGraph.ExampleGraph | PS2/SpreadsheetUtilities/DependencyGraph.cs:12-37 | Four additions build exactly the class comment's pair set. |
| DependencyGraph.ClassCommentDependents | PS2/SpreadsheetUtilities/DependencyGraph.cs:12-37 | In the class comment's graph, the dependents are a: {b, c}, b: {d}, c: {} and d: {d}. |
| DependencyGraph.ClassCommentDependees | PS2/SpreadsheetUtilities/DependencyGraph.cs:12-37 | In the class comment's graph, the dependees are a: {}, b: {a}, c: {a} and d: {b, d}. |
| DependencyGraph.ClassCommentExample | PS2/SpreadsheetUtilities/DependencyGraph.cs:12-37 | The example graph built by additions answers as the class comment says. |
| DependencyGraph.ApplyAll | PS2/DevelopmentTests/DevelopmentTests.cs:323-395 | Any sequence of additions, removals and replacements, starting from a new graph, keeps the two dictionaries mirrored and the count equal to the number of pairs. |
| ExpressionUtils.TokensAreClassified | PS3/Formula/Utils/ExpressionUtils.cs:15-44 | Every token is non-empty and holds no white space. Each is a parenthesis, an operator, a variable name, a double literal or a run of unmatched characters. |
| ExpressionUtils.TokenClassesDisjoint | PS3/Formula/Utils/ExpressionUtils.cs:24-33 | The token classes exclude each other. |
| ExpressionUtils.GetTokens | PS3/Formula/Utils/ExpressionUtils.cs:15-44 | There are no empty tokens. What the tokens are is stated by `TokensAreClassified` and `TokensCoverInput`. |
| ExpressionUtils.SingleCharacterTokensLex | PS3/Formula/Utils/ExpressionUtils.cs:21-44 | Take an expression in which every character is a parenthesis, an operator, or a digit followed by a parenthesis, an operator or the end. It splits into one token per character, in order. |
| ExpressionUtils.TokensCoverInput | PS3/Formula/Utils/ExpressionUtils.cs:21-44 | Concatenating the tokens gives back the input without its white space: nothing is lost, reordered or invented. |
| ExpressionUtils.IsVariable | PS3/Formula/Utils/ExpressionUtils.cs:85-89 | No `IgnorePatternWhitespace` is passed, so the space in the pattern is a character to match. `IsVariable` holds when some substring matches that pattern, because `Regex.IsMatch` is unanchored. This is exactly when some character is a letter or `_`. |
| ExpressionUtils.PatternMatchStart | PS3/Formula/Utils/ExpressionUtils.cs:87 | Every string the pattern matches starts with a letter or `_`. |
| ExpressionUtils.LiteralSpaceInPattern | PS3/Formula/Utils/ExpressionUtils.cs:87 | Read as written, the pattern matches `a b` and does not match `ab`. |
| ExpressionUtils.IsValidVariable | PS3/Formula/Utils/ExpressionUtils.cs:98-101 | A token is a valid variable exactly when the unanchored variable pattern finds a match in it, that is, when it has a letter or `_` somewhere, and the validator accepts its normalized form. |
| ExpressionUtils.VariableTokens | PS3/Formula/Utils/ExpressionUtils.cs:85-89 | Among lexed tokens, `IsVariable` holds for variable names and for double literals with an exponent. |
| ExpressionUtils.ExponentLiteralIsVariable | PS3/Formula/Utils/ExpressionUtils.cs:85-89 | `1e5` lexes as one token, parses as 100000, and is also taken for a variable. |
| ExpressionUtils.ParseDouble | PS3/Formula/Evaluator.cs:117-119 | A token parses exactly when it is one whole double literal of the lexer's pattern. |
| ExpressionUtils.IntegerLiteralValue | PS3/Formula/Evaluator.cs:117-119 | A run of digits parses to the number those digits write in base ten. |
| ExpressionUtils.IntegerExponentLiteralValue | PS3/Formula/Evaluator.cs:117-119 | Digits `w` followed by `e` or `E`, an optional sign and digits `x` parse to `w` times ten to the signed `x`. |
| ExpressionUtils.PointLiteralValue | PS3/Formula/Evaluator.cs:117-119 | `w.f`, with either side possibly empty but not both, parses to `w` plus `f` over ten to the length of `f`. |
| ExpressionUtils.PointExponentLiteralValue | PS3/Formula/Evaluator.cs:117-119 | `w.f` followed by an exponent parses to the value of `w.f` times ten to the signed exponent. |
| ExpressionUtils.NormalizedVariableTokens | PS3/Formula/Utils/ExpressionUtils.cs:59-66 | Exactly the normalized forms of the tokens that pass `IsVariable`. |
| ExpressionUtils.Dedup | PS3/Formula/Utils/ExpressionUtils.cs:55-77 | Has no duplicates, has the same elements as its input, and keeps the order of first occurrence. |
| ExpressionUtils.GetNormalizedVariables | PS3/Formula/Utils/ExpressionUtils.cs:53-78 | The loop with its seen-set returns each normalized variable once, in order of first occurrence. |
| SyntaxChecker.KindOf | PS3/Formula/ExpressionSyntaxChecker.cs:76-163 | Each token is exactly one of opening parenthesis, closing parenthesis, operator, operand (a number or a valid variable) or other. |
| SyntaxChecker.CheckFirstToken | PS3/Formula/ExpressionSyntaxChecker.cs:76-83 | No error exactly when the first token is `(`, a number or a valid variable. |
| SyntaxChecker.CheckFinalToken | PS3/Formula/ExpressionSyntaxChecker.cs:92-99 | No error exactly when the last token is `)`, a number or a valid variable. |
| SyntaxChecker.CheckFollowingOpeningParenthesesOperators | PS3/Formula/ExpressionSyntaxChecker.cs:109-131 | After `(` or an operator, only `(`, a number or a valid variable may follow. |
| SyntaxChecker.CheckFollowingClosingParenthesesNumbersVariables | PS3/Formula/ExpressionSyntaxChecker.cs:141-163 | After `)`, a number or a variable, only `)` or an operator may follow. |
| SyntaxChecker.CheckEachToken | PS3/Formula/ExpressionSyntaxChecker.cs:35-61 | The loop fails only with an adjacency error or with too many closing parentheses. |
| SyntaxChecker.CheckSyntax | PS3/Formula/ExpressionSyntaxChecker.cs:20-67 | The first-token error is reported exactly when the first token is bad. The final-token error is reported exactly when the first token is good and the last is bad. |
| SyntaxChecker.CheckSyntaxMeaning | PS3/Formula/ExpressionSyntaxChecker.cs:20-67 | `CheckSyntax` finds no error exactly when the formula is well formed. Well formed means: good first and last tokens, every adjacent pair allowed, no prefix closing more parentheses than it opens, and balanced parentheses overall. |
| Evaluator.OperandValue | PS3/Formula/Evaluator.cs:114-119 | A variable token is looked up and fails exactly when the lookup has no value. Any other token is its parsed double. |
| Evaluator.Apply | PS3/Formula/Evaluator.cs:188-202 | Applying an operator fails exactly on a division by zero, with the divide-by-zero error, and otherwise gives `Compute`'s value. |
| Evaluator.ComputeTopOperatorWithTopValues | PS3/Formula/Evaluator.cs:188-202 | Pops the top operator and the two top values, and pushes the result with the lower value on the left. On a division by zero it is the divide-by-zero error. |
| Evaluator.IsArithmeticAtTop | PS3/Formula/Evaluator.cs:214-233 | True only for an arithmetic operator on top. Asked for high level, it holds exactly for `*` and `/`; asked for low level alone, exactly for `+` and `-`. |
| Evaluator.AddValueToStack | PS3/Formula/Evaluator.cs:142-153 | Pushing a value fails exactly when it is a zero divisor of a pending `/` with a left operand, and then with the divide-by-zero error. It crashes exactly when a pending `*` or `/` has no left operand. With no `*` or `/` on top, the value is just pushed. |
| Evaluator.CloseGroup | PS3/Formula/Evaluator.cs:160-178 | Closing a group pops at least one operator, crashes on an empty operator stack, and can only fail with the divide-by-zero error. |
| Evaluator.Step | PS3/Formula/Evaluator.cs:68-121 | After an exception nothing more happens. A token that is no operator, variable or double is skipped. An unknown variable stops the loop with the undefined-variable error. The only other error is a division by zero. |
| Evaluator.Run | PS3/Formula/Evaluator.cs:68-121 | Over all the tokens, a stopped machine stays stopped, and a running one can only fail with the divide-by-zero error or with the undefined-variable error of one of the tokens. |
| Evaluator.Settle | PS3/Formula/Evaluator.cs:123-125 | The final reduction leaves a stopped machine alone and can only fail with the divide-by-zero error. |
| Evaluator.FinalOutcome | PS3/Formula/Evaluator.cs:127-133 | A caught FormulaError is returned as it is. Popping an empty value stack, or an earlier escaping exception, ends in a crash. |
| Evaluator.Evaluate | PS3/Formula/Evaluator.cs:44-134 | The only FormulaErrors are the two the doc comment names: division by zero, and an undefined variable that occurs in the formula. Its value on checked formulas is stated by `EvaluatorProofs.CheckedFormulasEvaluate`. |
| Evaluator.StepAsWritten | PS3/Formula/Evaluator.cs:111-120 | As written, apart from the division-by-zero correction under Left out: an unknown variable escapes, so one token can only fail with the divide-by-zero error. |
| Evaluator.RunAsWritten | PS3/Formula/Evaluator.cs:65-121 | As written, apart from the division-by-zero correction under Left out: the loop can only fail with the divide-by-zero error. |
| Evaluator.EvaluateAsWritten | PS3/Formula/Evaluator.cs:53-134 | As written, apart from the division-by-zero correction under Left out: the undefined-variable error the doc comment promises is never returned, and the only FormulaError is division by zero. |
| Evaluator.EvaluateExpression | PS3/Formula/Evaluator.cs:53-56 | No contract of its own: it is `Evaluate` on the tokens of the text, which `ExpressionUtils.TokensCoverInput` and `EvaluatorProofs.CheckedFormulasEvaluate` specify. |
| ExpressionTree.WellFormedHasKinds | PS3/Formula/ExpressionSyntaxChecker.cs:20-67 | The token kinds of a well-formed formula follow the grammar's alternation of operands and operators, with the parentheses nested. |
| ExpressionTree.Parse | PS3/Formula/ExpressionSyntaxChecker.cs:20-67 | A well-formed formula parses to a valid tree whose tokens are exactly the formula's. |
| EvaluatorProofs.TreeEvaluation | PS3/Formula/Evaluator.cs:53-134 | Running the stacks over a tree's tokens gives the tree's value or the tree's first error, and never an escaping exception. |
| EvaluatorProofs.CheckedFormulasEvaluate | PS3/Formula/Evaluator.cs:44-134 | Every formula that passes `CheckSyntax` evaluates to the value of its parse tree, or to that tree's error. It never crashes, and ends with exactly one value on the stack. |
| EvaluatorProofs.EvaluateTokens | PS3/Formula/Evaluator.cs:53-134 | The loop over the tokens computes `Evaluate`, and on a checked formula its outcome is never an escaping exception. |
| EvaluatorProofs.MultiplicationFirst | PS3/Formula/Evaluator.cs:71-109 | `x + y * z` is `x + (y * z)`. |
| EvaluatorProofs.GroupFirst | PS3/Formula/Evaluator.cs:160-178 | `(x + y) * z` multiplies the group's value. |
| EvaluatorProofs.SubtractionLeftToRight | PS3/Formula/Evaluator.cs:99-106 | `x - y - z` is `(x - y) - z`. |
| EvaluatorProofs.DivisionByZeroIsAnError | PS3/Formula/Evaluator.cs:188-202 | `x / y` with `y` equal to 0 gives the divide-by-zero error. |
| EvaluatorProofs.UnknownVariableIsAnError | PS3/Formula/Evaluator.cs:44-51 | An unknown variable gives the undefined-variable error, as the doc comment promises. |
| EvaluatorProofs.EvaluateAsWrittenAgrees | PS3/Formula/Evaluator.cs:114-133 | `Evaluate` as written ends in an escaping exception exactly when the corrected `Evaluate` returns an undefined-variable error, and returns the same outcome in every other case. |
| EvaluatorProofs.RunAsWrittenAgrees | PS3/Formula/Evaluator.cs:65-121 | The loop as written crashes exactly where the corrected loop stops with an undefined-variable error, and otherwise ends in the same state. |
| EvaluatorProofs.UnknownVariableEscapes | PS3/Formula/Evaluator.cs:114-133 | As written, evaluating `x` with no value for `x` ends in an escaping exception. |
| EvaluatorExamples.DigitLiteral | PS3/Formula/Evaluator.cs:117-119 | A one-digit token is a number, not a variable, and parses to its digit. |
| EvaluatorExamples.PrecedenceLex | PS3/Formula/Utils/ExpressionUtils.cs:21-44 | The text `2+6*3` splits into the tokens `2`, `+`, `6`, `*`, `3`. |
| EvaluatorExamples.PrecedenceExample | PS1/FormulaEvaluatorTests/PS1GradingTests.cs:78 | The token sequence of `2+6*3` evaluates to 20. |
| EvaluatorExamples.PrecedenceExpression | PS1/FormulaEvaluatorTests/PS1GradingTests.cs:78 | The text `2+6*3`, split into tokens and evaluated, gives 20. |
| EvaluatorExamples.GroupedExample | PS1/FormulaEvaluatorTests/EvaluatorTest.cs:51 | The token sequence of `(2 + 3) * 5 + 2` evaluates to 27. |
| EvaluatorExamples.NestedExample | PS1/FormulaEvaluatorTests/PS1GradingTests.cs:114 | The token sequence of `2+3*5+(3+4*8)*5+2` evaluates to 194. |
| EvaluatorExamples.ExponentLiteralLookedUp | PS3/Formula/Evaluator.cs:113-119 | `1e5` parses as 100000, yet the evaluator looks it up as a variable: with no value for it the result is the undefined-variable error, and as written an escaping exception. |
| Recalculation.Successors | PS4/Spreadsheet/Spreadsheet.cs:121-130 | Exactly the direct dependents of some node of the set. |
| Recalculation.Reach | PS4/Spreadsheet/Spreadsheet.cs:99 | Contains the start set and is closed under taking dependents. |
| Recalculation.ReachLeast | PS4/Spreadsheet/Spreadsheet.cs:99 | `Reach` is the least such set: it is inside every closed superset of the start. |
| Recalculation.ReachByPaths | PS4/Spreadsheet/Spreadsheet.cs:99 | A node is in `Reach` exactly when a dependency path leads to it from the start set. |
| Recalculation.CellsToRecalculate | PS4/Spreadsheet/Spreadsheet.cs:99 | The cell and exactly the cells that depend on it, directly or indirectly. |
| Recalculation.IsCircular | PS4/Spreadsheet/Spreadsheet.cs:99 | True exactly when the cell lies on a dependency cycle. |
| Recalculation.CircularByPaths | PS4/Spreadsheet/Spreadsheet.cs:99 | A cell reaches itself from its own dependents exactly when it lies on a cycle. |
| Recalculation.NewCycleThrough | PS4/Spreadsheet/Spreadsheet.cs:89-99 | If new pairs all end at one cell, any new cycle passes through that cell. |
| Spreadsheet.PatternMatchesVariable | PS4/Spreadsheet/Spreadsheet.cs:140 | The cell-name pattern matches exactly the formula lexer's variable names. |
| Spreadsheet.IsCellNameValid | PS4/Spreadsheet/Spreadsheet.cs:134-142 | A name is valid exactly when it is a letter or `_` followed by letters, digits or `_`. |
| Spreadsheet.IsCellNameValidAsWritten | PS4/Spreadsheet/Spreadsheet.cs:138-142 | As written, a name is accepted when it is a variable name, or a variable name followed by one line feed. |
| Spreadsheet.TrailingLineFeedAccepted | PS4/Spreadsheet/Spreadsheet.cs:140-141 | As written, any valid name followed by a line feed is accepted, though it is not a valid name. |
| Spreadsheet.RejectedNames | PS4/SpreadsheetTests/SpreadsheetTests.cs:246-265 | The empty name, `5A`, `a!1`, `_a1-2`, `()` and ` a1 ` are invalid. |
| Spreadsheet.Store | PS4/Spreadsheet/Spreadsheet.cs:104-111 | Storing `""` removes the cell, anything else replaces it, and no other cell changes. |
| Spreadsheet.StorePairs | PS4/Spreadsheet/Spreadsheet.cs:89-96 | Storing contents changes exactly the pairs into the cell: they become the new contents' variables. |
| Spreadsheet.New | PS4/Spreadsheet/Spreadsheet.cs:20-25 | A new sheet satisfies the invariant, has no cycle, and every valid name reads as empty. |
| Spreadsheet.GetCellContents | PS4/Spreadsheet/Spreadsheet.cs:37-45 | A null or invalid name is an invalid-name error. An absent cell reads as `""`, and a stored cell reads as its contents. |
| Spreadsheet.GetNamesOfAllNonemptyCells | PS4/Spreadsheet/Spreadsheet.cs:27-35 | Exactly the valid names whose contents are not `""`. |
| Spreadsheet.GetDirectDependents | PS4/Spreadsheet/Spreadsheet.cs:121-130 | A null name is an argument-null error and an invalid one an invalid-name error. Otherwise the result is exactly the cells whose formulas mention the name. |
| Spreadsheet.UpdateCell | PS4/Spreadsheet/Spreadsheet.cs:86-113 | Fails with the circular error exactly when the new contents put the cell on a cycle, and then leaves the sheet unchanged. Otherwise it stores the contents, keeps the graph equal to the formulas' pairs, keeps the sheet acyclic, and returns the cell with all its direct and indirect dependents. |
| Spreadsheet.NonFormulaNotCircular | PS4/Spreadsheet/Spreadsheet.cs:89-96 | A number or text never closes a cycle. |
| Spreadsheet.SetCellNumber | PS4/Spreadsheet/Spreadsheet.cs:47-53 | An invalid or null name is an invalid-name error and changes nothing. Otherwise the setter succeeds, the cell then holds the number, no other cell changes, and the result is the cell with every cell that depends on it, directly or indirectly. |
| Spreadsheet.SetCellText | PS4/Spreadsheet/Spreadsheet.cs:55-66 | The name is checked before the text, and null text is an argument-null error. Otherwise the setter succeeds, the cell then holds the text (`""` empties it), no other cell changes, and the result is the cell with every cell that depends on it, directly or indirectly. |
| Spreadsheet.SetCellFormula | PS4/Spreadsheet/Spreadsheet.cs:68-77 | The name is checked before the formula, and a null formula is an argument-null error. A formula that puts the cell on a cycle is rejected with the sheet unchanged. Otherwise the cell then holds the formula, no other cell changes, and the result is the cell with every cell that depends on it, directly or indirectly. |
| Spreadsheet.SetThenGet | PS4/SpreadsheetTests/SpreadsheetTests.cs:23-71 | After a successful set, the cell reads as what was set, and every other cell reads as before. |
| Spreadsheet.NumberWithoutFormulas | PS4/SpreadsheetTests/SpreadsheetTests.cs:294-300 | In a sheet without formulas, setting a number returns just that cell. |
| Spreadsheet.AcyclicPreserved | PS4/Spreadsheet/Spreadsheet.cs:89-99 | Replacing the pairs into one cell without putting it on a cycle keeps the graph acyclic. |
| SpreadsheetAsWritten.UpdateCellAsWritten | PS4/Spreadsheet/Spreadsheet.cs:86-113 | As written: the formula's pairs are only added, the cycle check fails after the graph has changed, and the cell itself is left out of the result. |
| SpreadsheetAsWritten.OriginDropped | PS4/SpreadsheetTests/SpreadsheetTests.cs:294-300 | As written, setting a number in a new sheet returns the empty set. The test expects `{a1}`, which the corrected setter returns. |
| SpreadsheetAsWritten.NoRollback | PS4/SpreadsheetTests/SpreadsheetTests.cs:336-348 | As written, after a rejected self-reference the cell cannot even be set to a number any more. |
| SpreadsheetAsWritten.FailureSticks | PS4/Spreadsheet/Spreadsheet.cs:89-99 | As written, once a formula is rejected, every later number in that cell is rejected too. |
| SpreadsheetAsWritten.SelfReferenceAsWritten | PS4/Spreadsheet/Spreadsheet.cs:89-99 | As written, a self-referencing formula is rejected. |
| SpreadsheetAsWritten.SelfReferenceRolledBack | PS4/SpreadsheetTests/SpreadsheetTests.cs:336-348 | The corrected setter rejects a self-referencing formula and leaves the sheet exactly as it was. |
| SpreadsheetAsWritten.RolledBack | PS4/SpreadsheetTests/SpreadsheetTests.cs:336-348 | With the corrected setter, the cell can be set to a number after a rejected self-reference. |
| SpreadsheetAsWritten.StalePairReported | PS4/Spreadsheet/Spreadsheet.cs:89-99 | A leftover pair makes the old dependent show up among the cells to recalculate. |
| SpreadsheetAsWritten.StaleDependency | PS4/SpreadsheetTests/SpreadsheetTests.cs:354-377 | As written, after `a1 = a2` is overwritten by a number, setting `a2` still reports `a1`. |
| SpreadsheetAsWritten.DependencyReplaced | PS4/SpreadsheetTests/SpreadsheetTests.cs:354-377 | With the corrected setter, after `a1 = a2` is overwritten by a number, setting `a2` reports only `a2`. |

## Left out

- Doubles are `real`. NaN, infinities, rounding and culture-dependent parsing are not modelled. A division by zero therefore has no value in `Compute`, and `Evaluator.Apply` turns it into the divide-by-zero error. The source's catch of `DivideByZeroException` never fires for doubles, so as written `1/0` yields infinity. Without infinity in `real`, the model follows the catch's evident intent.
- Evaluator.Step: the lookup returns an `Option` instead of throwing `ArgumentException`, so an unknown variable becomes the undefined-variable error. The source lets the exception escape; `EvaluateAsWritten` models that, and `EvaluatorProofs.EvaluateAsWrittenAgrees` relates the two.
- `Evaluate`'s first step, `GetTokens`, is modelled separately, and the machine takes the token sequence.
- The normalizer argument of `Evaluate` is omitted. The doc comment at PS3/Formula/Evaluator.cs:34-36 promises that a variable `v` is looked up as `lookup(normalize(v))`. The code calls `lookup(token)` at line 116 and never uses the normalizer. The model follows the code.
- EvaluatorExamples.GroupedExample: stated on the token sequence. `SingleCharacterTokensLex` covers how its text is split, but it is not instantiated on that nine-character literal, because the verifier's cost on such literals grows too fast.
- EvaluatorExamples.NestedExample: stated on the token sequence, for the same reason.
- `\d` and `\s` are read as ASCII digits and the usual ASCII white space. .NET also accepts other Unicode digits and spaces.
- ExpressionUtils.GetTokens: `Regex.Split` is replaced by a hand-written lexer that tries the same patterns in the same order at each position. Unmatched text between matches becomes one token, as `Split` returns it.
- SyntaxChecker.CheckSyntax: requires a non-empty token sequence, because the source reads `tokens[0]` unguarded (PS3/Formula/ExpressionSyntaxChecker.cs:23). Rejecting an empty formula is left to the formula constructor, which is not part of this model.
- The `Formula` class, `FormulaUtils`, `AbstractSpreadsheet` and its `GetCellsToRecalculate` are not part of this model. A formula in a cell is its tokens and variables. `GetCellsToRecalculate` is modelled as reachability with a cycle check, and the order of the returned cells is not modelled.
- Recalculation.CellsToRecalculate: returns a set, so the dependency order of the source's enumeration is not stated.
- Getters return copies in the source, so callers cannot mutate the graph through them. A pure model has no aliasing to state this about.
- Saving and loading XML, the GUI of Lab6, and the PS1 evaluator (a stub superseded by PS3) are left out. The PS1 tests appear only as expected values.
- DependencyContainer: the mirror invariant and the count are ghost predicates over the two dictionaries. The `HashSet` allocation in `InitializeKey` is a map update.

## Findings

| source | as written | input that shows it | evidently intended | confidence | as-written member | corrected member |
|---|---|---|---|---|---|---|
| PS3/Formula/Evaluator.cs:114-116,130-133 | `lookup` throws `ArgumentException` for an unknown variable, and only `EvaluationException` is caught, so the exception escapes `Evaluate`. | `x` with a lookup that has no value for `x` | The doc comment at lines 44-51 promises a `FormulaError` and no exception. | not executed | EvaluatorProofs.UnknownVariableEscapes | EvaluatorProofs.UnknownVariableIsAnError |
| PS4/Spreadsheet/Spreadsheet.cs:140-141 | The `$` anchor also matches before a final line feed. | `"a1\n"` is accepted as a cell name | Only letters, digits and `_` after a letter or `_`. | not executed | Spreadsheet.TrailingLineFeedAccepted | Spreadsheet.IsCellNameValid |
| PS4/Spreadsheet/Spreadsheet.cs:89-96 | The formula's variables are only ever added as dependees, and the old ones stay. | `a1 = a2`, then `a1 = 5`, then `a2 = 5` returns `{a1}` | The dependees of the cell are replaced, so `a2 = 5` returns `{a2}`. | not executed | SpreadsheetAsWritten.StaleDependency | SpreadsheetAsWritten.DependencyReplaced |
| PS4/Spreadsheet/Spreadsheet.cs:89-99 | The circularity check throws after the graph has changed, and nothing is undone. | `a1 = a1` is rejected, and afterwards `a1 = 5` is rejected too | A rejected formula leaves the sheet unchanged. | not executed | SpreadsheetAsWritten.NoRollback | SpreadsheetAsWritten.RolledBack |
| PS4/Spreadsheet/Spreadsheet.cs:102 | The changed cell is removed from the cells to recalculate. | `a1 = 10` in a new sheet returns the empty set, but the test at SpreadsheetTests.cs:299 expects `{a1}` | The returned set includes the cell itself. | not executed | SpreadsheetAsWritten.OriginDropped | Spreadsheet.UpdateCell |
