/**
 * The operator table and the token classifiers built on it
 * (PS3/Formula/Utils/OperatorUtils.cs).
 */
module OperatorUtils {
  import opened Operators

  /** The six-entry table from token to operator object. */
  const OperatorDict: map<string, Operator> := map[
    "(" := GroupingOperator(false),
    ")" := GroupingOperator(true),
    "+" := Arithmetic(Addition),
    "-" := Arithmetic(Subtraction),
    "*" := Arithmetic(Multiplication),
    "/" := Arithmetic(Division)
  ]

  /** The token under which an arithmetic operator is stored in the table. */
  function Symbol(op: ArithmeticOperator): (s: string)
    ensures s in OperatorDict && OperatorDict[s] == Arithmetic(op)
  {
    match op
    case Addition => "+"
    case Subtraction => "-"
    case Multiplication => "*"
    case Division => "/"
  }

  /** The table has exactly the six operator tokens as keys. */
  lemma OperatorDictKeys()
    ensures OperatorDict.Keys == {"(", ")", "+", "-", "*", "/"}
  {
  }

  /** Whether the token is found in the table as an opening grouping operator. */
  predicate IsOpeningGroupOperator(token: string)
    ensures IsOpeningGroupOperator(token) <==> token == "("
  {
    token in OperatorDict && OperatorDict[token].Grouping? && OperatorDict[token].opensGroup
  }

  /** Whether the token is found in the table as a closing grouping operator. */
  predicate IsClosingGroupOperator(token: string)
    ensures IsClosingGroupOperator(token) <==> token == ")"
  {
    token in OperatorDict && OperatorDict[token].Grouping? && !OperatorDict[token].opensGroup
  }

  /** Whether the token is found in the table as an arithmetic operator. */
  predicate IsArithmeticOperator(token: string)
    ensures IsArithmeticOperator(token) <==> token in {"+", "-", "*", "/"}
    ensures IsArithmeticOperator(token) <==> exists op :: token == Symbol(op)
  {
    var r := token in OperatorDict && OperatorDict[token].Arithmetic?;
    assert r ==> token == Symbol(OperatorDict[token].op);
    r
  }

  /** The arithmetic operator a table token stands for. */
  function ArithmeticOf(token: string): (op: ArithmeticOperator)
    requires IsArithmeticOperator(token)
    ensures Symbol(op) == token
  {
    OperatorDict[token].op
  }

  /** `Symbol` is one-to-one, so `ArithmeticOf` inverts it. */
  lemma SymbolRoundTrip(op: ArithmeticOperator)
    ensures IsArithmeticOperator(Symbol(op)) && ArithmeticOf(Symbol(op)) == op
  {
  }

  /**
   * The three classifiers are pairwise exclusive, and all are false for a
   * token outside the table.
   */
  lemma ClassifiersExclusive(token: string)
    ensures !(IsOpeningGroupOperator(token) && IsClosingGroupOperator(token))
    ensures !(IsOpeningGroupOperator(token) && IsArithmeticOperator(token))
    ensures !(IsClosingGroupOperator(token) && IsArithmeticOperator(token))
    ensures token !in OperatorDict ==>
      !IsOpeningGroupOperator(token) && !IsClosingGroupOperator(token) && !IsArithmeticOperator(token)
  {
  }
}
