/**
 * The expected values of the formula test suites, proved on number
 * literals: each expression is built as the tree the evaluator's two
 * stacks follow, valued, and handed to `TreeEvaluation`.
 */
module EvaluatorExamples {
  import opened Wrappers
  import opened Operators
  import opened OperatorUtils
  import opened ExpressionUtils
  import opened Evaluator
  import opened ExpressionTree
  import opened EvaluatorProofs

  /** A one-digit token is a number, not a variable, and parses to its digit. */
  lemma DigitLiteral(c: char)
    requires IsDigit(c)
    ensures IsNumber([c]) && !IsVariable([c])
    ensures ParseDouble([c]) == Some(DigitValue(c) as real)
  {
    var t := [c];
    assert t[1..] == [] && t[..1] == t && t[..0] == [];
    assert RunLength(t[1..], IsDigit) == 0;
    assert RunLength(t, IsDigit) == 1;
    assert MantissaLength(t) == 1;
    assert ExponentLength(t[1..]) == 0;
    assert DigitsValue(t) == DigitValue(c);
    assert ParseExponent(t[1..]) == Some(0);
    assert Scale(DigitValue(c) as real, 0) == DigitValue(c) as real;
  }

  /** The one-token term of a digit literal. */
  function DigitTerm(c: char): Term {
    Leading(Atom([c]))
  }

  /** A digit literal as a factor, a term and a sum: well formed, one token, its digit's value. */
  lemma DigitMeaning(c: char, lookup: Lookup)
    requires IsDigit(c)
    ensures ValidFactor(Atom([c])) && FactorTokens(Atom([c])) == [[c]]
    ensures ValidTerm(DigitTerm(c)) && TermTokens(DigitTerm(c)) == [[c]]
    ensures ValidSum(Single(DigitTerm(c))) && SumTokens(Single(DigitTerm(c))) == [[c]]
    ensures EvalFactor(Atom([c]), lookup) == Success(DigitValue(c) as real)
    ensures EvalTerm(DigitTerm(c), lookup) == Success(DigitValue(c) as real)
    ensures EvalSum(Single(DigitTerm(c)), lookup) == Success(DigitValue(c) as real)
  {
    DigitLiteral(c);
  }

  /** A sum of a term and a product, as tokens. */
  lemma FiveTokens(a: string, b: string, c: string, d: string, e: string)
    ensures [a] + [b] + ([c] + [d] + [e]) == [a, b, c, d, e]
  {
  }

  /** The tokens of 2+6*3. */
  lemma PrecedenceLex(s: string)
    requires s == "2+6*3"
    ensures GetTokens(s) == ["2", "+", "6", "*", "3"]
  {
    assert SingleCharacterTokens(s);
    assert GetTokens(s) == ["2", "+", "6", "*", "3"] by {
      SingleCharacterTokensLex(s);
    }
  }

  /** 2+6*3 gives 20: the product is taken first. */
  lemma PrecedenceExample(lookup: Lookup)
    ensures Evaluate(["2", "+", "6", "*", "3"], lookup) == Value(20.0)
  {
    DigitMeaning('2', lookup);
    DigitMeaning('6', lookup);
    DigitMeaning('3', lookup);
    var product := Product(DigitTerm('6'), Multiplication, Atom("3"));
    ProductMeaning(DigitTerm('6'), Multiplication, Atom("3"), lookup);
    ProductValue(6.0, 3.0);
    assert EvalTerm(product, lookup) == Success(18.0);
    var s := Combine(Single(DigitTerm('2')), Addition, product);
    CombineMeaning(Single(DigitTerm('2')), Addition, product, lookup);
    assert EvalSum(s, lookup) == Success(20.0);
    FiveTokens("2", "+", "6", "*", "3");
    TreeEvaluation(s, lookup);
  }

  /** The tokens of (2 + 3) * 5, from those of the parenthesised sum. */
  lemma GroupedTokens(inner: seq<string>)
    requires inner == ["2", "+", "3"]
    ensures ["("] + inner + [")"] + ["*"] + ["5"] == ["(", "2", "+", "3", ")", "*", "5"]
  {
  }

  /** The tokens of (3+4*8)*5, from those of the parenthesised sum. */
  lemma NestedTokensInside(inner: seq<string>)
    requires inner == ["3", "+", "4", "*", "8"]
    ensures ["("] + inner + [")"] + ["*"] + ["5"] == ["(", "3", "+", "4", "*", "8", ")", "*", "5"]
  {
  }

  /** The term (2 + 3) * 5, valued 25. */
  function GroupedTerm(): Term {
    Product(Leading(Group(Combine(Single(DigitTerm('2')), Addition, DigitTerm('3')))), Multiplication, Atom("5"))
  }

  lemma GroupedTermMeaning(lookup: Lookup)
    ensures ValidTerm(GroupedTerm())
    ensures TermTokens(GroupedTerm()) == ["(", "2", "+", "3", ")", "*", "5"]
    ensures EvalTerm(GroupedTerm(), lookup) == Success(25.0)
  {
    DigitMeaning('2', lookup);
    DigitMeaning('3', lookup);
    DigitMeaning('5', lookup);
    var inner := Combine(Single(DigitTerm('2')), Addition, DigitTerm('3'));
    CombineMeaning(Single(DigitTerm('2')), Addition, DigitTerm('3'), lookup);
    assert EvalSum(inner, lookup) == Success(5.0);
    GroupMeaning(inner, lookup);
    ProductMeaning(Leading(Group(inner)), Multiplication, Atom("5"), lookup);
    ProductValue(5.0, 5.0);
    assert EvalTerm(GroupedTerm(), lookup) == Success(25.0);
    assert SumTokens(inner) == ["2", "+", "3"];
    GroupedTokens(SumTokens(inner));
  }

  /** (2+3)*5+2 gives 27: the parentheses are evaluated first. */
  lemma GroupedExample(lookup: Lookup)
    ensures Evaluate(["(", "2", "+", "3", ")", "*", "5", "+", "2"], lookup) == Value(27.0)
  {
    GroupedTermMeaning(lookup);
    DigitMeaning('2', lookup);
    var s := Combine(Single(GroupedTerm()), Addition, DigitTerm('2'));
    CombineMeaning(Single(GroupedTerm()), Addition, DigitTerm('2'), lookup);
    assert EvalSum(s, lookup) == Success(27.0);
    assert SumTokens(s) == ["(", "2", "+", "3", ")", "*", "5"] + ["+"] + ["2"];
    assert SumTokens(s) == ["(", "2", "+", "3", ")", "*", "5", "+", "2"];
    TreeEvaluation(s, lookup);
  }

  /** The sum 2+3*5, valued 17. */
  function LeadingSum(): Sum {
    Combine(Single(DigitTerm('2')), Addition, Product(DigitTerm('3'), Multiplication, Atom("5")))
  }

  lemma LeadingSumMeaning(lookup: Lookup)
    ensures ValidSum(LeadingSum())
    ensures SumTokens(LeadingSum()) == ["2", "+", "3", "*", "5"]
    ensures EvalSum(LeadingSum(), lookup) == Success(17.0)
  {
    DigitMeaning('2', lookup);
    DigitMeaning('3', lookup);
    DigitMeaning('5', lookup);
    var product := Product(DigitTerm('3'), Multiplication, Atom("5"));
    ProductMeaning(DigitTerm('3'), Multiplication, Atom("5"), lookup);
    ProductValue(3.0, 5.0);
    assert EvalTerm(product, lookup) == Success(15.0);
    CombineMeaning(Single(DigitTerm('2')), Addition, product, lookup);
    FiveTokens("2", "+", "3", "*", "5");
  }

  /** The sum 3+4*8, valued 35. */
  function InnerSum(): Sum {
    Combine(Single(DigitTerm('3')), Addition, Product(DigitTerm('4'), Multiplication, Atom("8")))
  }

  lemma InnerSumMeaning(lookup: Lookup)
    ensures ValidSum(InnerSum())
    ensures SumTokens(InnerSum()) == ["3", "+", "4", "*", "8"]
    ensures EvalSum(InnerSum(), lookup) == Success(35.0)
  {
    DigitMeaning('3', lookup);
    DigitMeaning('4', lookup);
    DigitMeaning('8', lookup);
    var product := Product(DigitTerm('4'), Multiplication, Atom("8"));
    ProductMeaning(DigitTerm('4'), Multiplication, Atom("8"), lookup);
    ProductValue(4.0, 8.0);
    assert EvalTerm(product, lookup) == Success(32.0);
    CombineMeaning(Single(DigitTerm('3')), Addition, product, lookup);
    FiveTokens("3", "+", "4", "*", "8");
  }

  /** The term (3+4*8)*5, valued 175. */
  function NestedTerm(): Term {
    Product(Leading(Group(InnerSum())), Multiplication, Atom("5"))
  }

  lemma NestedTermMeaning(lookup: Lookup)
    ensures ValidTerm(NestedTerm())
    ensures TermTokens(NestedTerm()) == ["(", "3", "+", "4", "*", "8", ")", "*", "5"]
    ensures EvalTerm(NestedTerm(), lookup) == Success(175.0)
  {
    InnerSumMeaning(lookup);
    DigitMeaning('5', lookup);
    GroupMeaning(InnerSum(), lookup);
    ProductMeaning(Leading(Group(InnerSum())), Multiplication, Atom("5"), lookup);
    ProductValue(35.0, 5.0);
    assert EvalTerm(NestedTerm(), lookup) == Success(175.0);
    NestedTokensInside(SumTokens(InnerSum()));
  }

  /** 2+3*5+(3+4*8)*5+2 gives 194: precedence inside and outside the parentheses. */
  lemma NestedExample(lookup: Lookup)
    ensures Evaluate(["2", "+", "3", "*", "5", "+", "(", "3", "+", "4", "*", "8", ")", "*", "5", "+", "2"], lookup)
      == Value(194.0)
  {
    LeadingSumMeaning(lookup);
    NestedTermMeaning(lookup);
    DigitMeaning('2', lookup);
    var middle := Combine(LeadingSum(), Addition, NestedTerm());
    CombineMeaning(LeadingSum(), Addition, NestedTerm(), lookup);
    assert EvalSum(middle, lookup) == Success(192.0);
    var s := Combine(middle, Addition, DigitTerm('2'));
    CombineMeaning(middle, Addition, DigitTerm('2'), lookup);
    assert EvalSum(s, lookup) == Success(194.0);
    NestedTokens(SumTokens(LeadingSum()), TermTokens(NestedTerm()));
    TreeEvaluation(s, lookup);
  }

  /** The tokens of 2+3*5+(3+4*8)*5+2, from those of its two larger parts. */
  lemma NestedTokens(l: seq<string>, r: seq<string>)
    requires l == ["2", "+", "3", "*", "5"] && r == ["(", "3", "+", "4", "*", "8", ")", "*", "5"]
    ensures l + ["+"] + r + ["+"] + ["2"] ==
      ["2", "+", "3", "*", "5", "+", "(", "3", "+", "4", "*", "8", ")", "*", "5", "+", "2"]
  {
  }

  /** The expression 2+6*3, read from its text, gives 20. */
  lemma PrecedenceExpression(lookup: Lookup)
    ensures EvaluateExpression("2+6*3", lookup) == Value(20.0)
  {
    PrecedenceLex("2+6*3");
    PrecedenceExample(lookup);
  }

  /**
   * `1e5` is a double literal worth 100000, but the evaluator tests
   * `IsVariable` before `double.TryParse`, and the unanchored pattern
   * matches its `e`: the token is handed to the lookup.  A lookup without
   * a value for it gives the undefined-variable error, and as written an
   * escaping exception.
   */
  lemma ExponentLiteralLookedUp(lookup: Lookup)
    requires lookup("1e5").None?
    ensures ParseDouble("1e5") == Some(100000.0)
    ensures Evaluate(["1e5"], lookup) == Error(UndefinedVariable("1e5"))
    ensures EvaluateAsWritten(["1e5"], lookup) == Crash
  {
    ExponentLiteralIsVariable("1e5");
    OperatorDictKeys();
    assert "1e5" !in OperatorDict;
    RunOne("1e5", Start, lookup);
    EvaluateAsWrittenAgrees(["1e5"], lookup);
  }
}
