/**
 * The two-stack evaluator computes the reference semantics on every token
 * sequence the syntax checker accepts: it never pops an empty stack or
 * casts a parenthesis to an arithmetic operator, it ends with exactly one
 * value and no operator, and its result (a value or a FormulaError) is the
 * one the expression tree gives.
 *
 * The proof follows the grammar: reading the tokens of a factor adds its
 * value as `AddValueToStack` would; reading a term pushes its value; and
 * reading a sum pushes its value, or leaves its last low-level operator
 * with both operands on the stacks, to be reduced by the next low-level
 * operator, the closing parenthesis or the final clean-up.
 */
module EvaluatorProofs {
  import opened Wrappers
  import opened Operators
  import opened OperatorUtils
  import opened ExpressionUtils
  import opened SyntaxChecker
  import opened Evaluator
  import opened ExpressionTree

  function Push(st: Stacks, v: real): Stacks {
    Stacks(st.values + [v], st.operators)
  }

  /** The stacks with an opening parenthesis pushed. */
  function Opened(st: Stacks): Stacks {
    Stacks(st.values, st.operators + [Grouping(true)])
  }

  /** What the machine holds after a sum that did not fail. */
  function SumPending(s: Sum, st: Stacks, lookup: Lookup): Stacks
    requires ValidSum(s) && EvalSum(s, lookup).Success?
  {
    match s
    case Single(_) => Push(st, EvalSum(s, lookup).value)
    case Combine(l, op, r) =>
      Stacks(st.values + [EvalSum(l, lookup).value, EvalTerm(r, lookup).value], st.operators + [Arithmetic(op)])
  }

  /** The outcome `Evaluate` reports for a reference result. */
  function ToOutcome(r: Result<real, FormulaError>): (o: Outcome)
    ensures o != Crash
  {
    match r
    case Success(v) => Value(v)
    case Failure(e) => Error(e)
  }

  // ---------------------------------------------------------------------
  // Reading tokens in pieces

  lemma {:induction false} RunAppend(a: seq<string>, b: seq<string>, m: Machine, lookup: Lookup)
    ensures Run(a + b, m, lookup) == Run(b, Run(a, m, lookup), lookup)
    decreases |a|
  {
    if a != [] {
      assert (a + b)[0] == a[0];
      assert (a + b)[1..] == a[1..] + b;
      RunAppend(a[1..], b, Step(m, a[0], lookup), lookup);
    } else {
      assert a + b == b;
    }
  }

  /** A failure is final: later tokens do not change it. */
  lemma {:induction false} RunFailed(tokens: seq<string>, e: FormulaError, lookup: Lookup)
    ensures Run(tokens, Failed(e), lookup) == Failed(e)
    decreases |tokens|
  {
    if tokens != [] {
      RunFailed(tokens[1..], e, lookup);
    }
  }

  lemma RunThree(a: seq<string>, b: seq<string>, c: seq<string>, m: Machine, lookup: Lookup)
    ensures Run(a + b + c, m, lookup) == Run(c, Run(b, Run(a, m, lookup), lookup), lookup)
  {
    RunAppend(a + b, c, m, lookup);
    RunAppend(a, b, m, lookup);
  }

  lemma RunOne(token: string, m: Machine, lookup: Lookup)
    ensures Run([token], m, lookup) == Step(m, token, lookup)
  {
  }

  /** A one-character token that starts neither a number nor a word is no operand. */
  lemma OneCharNotEvaluable(token: string)
    requires |token| == 1 && !IsDigit(token[0]) && token[0] != '.' && !IsWordStart(token[0])
    ensures !Evaluable(token)
  {
  }

  /** No number or variable token is one of the operator table's keys. */
  lemma EvaluableIsNotOperator(token: string)
    requires Evaluable(token)
    ensures token !in OperatorDict
  {
    OperatorDictKeys();
  }

  // ---------------------------------------------------------------------
  // One token at a time

  /** An operand token adds its value to the stacks, or fails as `OperandValue` does. */
  lemma OperandStep(token: string, st: Stacks, lookup: Lookup)
    requires Evaluable(token)
    ensures Step(Running(st), token, lookup) ==
      match OperandValue(token, lookup)
      case Failure(e) => Failed(e)
      case Success(v) => AddValueToStack(v, st)
  {
    EvaluableIsNotOperator(token);
  }

  /** A high-level operator is pushed. */
  lemma HighOperatorStep(op: ArithmeticOperator, st: Stacks, lookup: Lookup)
    requires op.HighLevel()
    ensures Step(Running(st), Symbol(op), lookup) == Running(Stacks(st.values, st.operators + [Arithmetic(op)]))
  {
  }

  /** Before a low-level operator, a sum's pending operator is reduced to the sum's value. */
  lemma ReducePending(s: Sum, st: Stacks, lookup: Lookup)
    requires ValidSum(s) && EvalSum(s, lookup).Success?
    requires !IsArithmeticAtTop(st.operators, false, false)
    ensures var p := SumPending(s, st, lookup);
      (if IsArithmeticAtTop(p.operators, false, true) then ComputeTopOperatorWithTopValues(p) else Running(p)) ==
      Running(Push(st, EvalSum(s, lookup).value))
  {
    match s
    case Single(_) =>
    case Combine(l, lop, r) =>
      var p := SumPending(s, st, lookup);
      assert p.values[..|p.values| - 2] == st.values;
      assert p.operators[..|p.operators| - 1] == st.operators;
  }

  /** A low-level operator reduces a low-level operator on top, then is pushed. */
  lemma LowStep(op: ArithmeticOperator, st: Stacks, lookup: Lookup)
    requires op.LowLevel()
    ensures var reduced := if IsArithmeticAtTop(st.operators, false, true) then ComputeTopOperatorWithTopValues(st)
                           else Running(st);
      reduced.Running? ==>
      Step(Running(st), Symbol(op), lookup) ==
      Running(Stacks(reduced.stacks.values, reduced.stacks.operators + [Arithmetic(op)]))
  {
    assert OperatorDict[Symbol(op)] == Arithmetic(op);
  }

  /**
   * A low-level operator after a sum reduces the sum's pending operator,
   * if any, and is pushed above the sum's value.
   */
  lemma LowOperatorStep(s: Sum, op: ArithmeticOperator, st: Stacks, lookup: Lookup)
    requires ValidSum(s) && EvalSum(s, lookup).Success? && op.LowLevel()
    requires !IsArithmeticAtTop(st.operators, false, false)
    ensures Step(Running(SumPending(s, st, lookup)), Symbol(op), lookup) ==
      Running(Stacks(st.values + [EvalSum(s, lookup).value], st.operators + [Arithmetic(op)]))
  {
    ReducePending(s, st, lookup);
    LowStep(op, SumPending(s, st, lookup), lookup);
  }

  /** Inside a group, a sum's pending operator is reduced to the sum's value. */
  lemma ReduceGroup(s: Sum, st: Stacks, lookup: Lookup)
    requires ValidSum(s) && EvalSum(s, lookup).Success?
    ensures var p := SumPending(s, Opened(st), lookup);
      (if IsArithmeticAtTop(p.operators, false, false) then ComputeTopOperatorWithTopValues(p) else Running(p)) ==
      Running(Push(Opened(st), EvalSum(s, lookup).value))
  {
    match s
    case Single(_) =>
    case Combine(l, op, r) =>
      var p := SumPending(s, Opened(st), lookup);
      assert p.values[..|p.values| - 2] == st.values;
      assert p.operators[..|p.operators| - 1] == Opened(st).operators;
  }

  /** A ")" after a sum that followed "(" leaves the sum's value as `AddValueToStack` would. */
  lemma CloseStep(s: Sum, st: Stacks, lookup: Lookup)
    requires ValidSum(s) && EvalSum(s, lookup).Success?
    ensures Step(Running(SumPending(s, Opened(st), lookup)), ")", lookup) ==
      AddValueToStack(EvalSum(s, lookup).value, st)
  {
    var reduced := Push(Opened(st), EvalSum(s, lookup).value);
    ReduceGroup(s, st, lookup);
    assert OperatorDict[")"] == Grouping(false);
    assert reduced.operators[..|reduced.operators| - 1] == st.operators;
  }

  // ---------------------------------------------------------------------
  // The machine follows the grammar

  /** Reading a factor adds its value as `AddValueToStack` would, or fails as the tree does. */
  lemma {:induction false} FactorRun(f: Factor, st: Stacks, lookup: Lookup)
    requires ValidFactor(f)
    ensures Run(FactorTokens(f), Running(st), lookup) ==
      match EvalFactor(f, lookup)
      case Failure(e) => Failed(e)
      case Success(v) => AddValueToStack(v, st)
    decreases f
  {
    match f
    case Atom(t) =>
      RunOne(t, Running(st), lookup);
      OperandStep(t, st, lookup);
    case Group(s) =>
      RunThree(["("], SumTokens(s), [")"], Running(st), lookup);
      RunOne("(", Running(st), lookup);
      SumRun(s, Opened(st), lookup);
      match EvalSum(s, lookup)
      case Failure(e) =>
        RunFailed([")"], e, lookup);
      case Success(v) =>
        RunOne(")", Running(SumPending(s, Opened(st), lookup)), lookup);
        CloseStep(s, st, lookup);
  }

  /** Reading a term pushes its value, or fails as the tree does. */
  lemma {:induction false} TermRun(t: Term, st: Stacks, lookup: Lookup)
    requires ValidTerm(t)
    requires !IsArithmeticAtTop(st.operators, true, false)
    ensures Run(TermTokens(t), Running(st), lookup) ==
      match EvalTerm(t, lookup)
      case Failure(e) => Failed(e)
      case Success(v) => Running(Push(st, v))
    decreases t
  {
    match t
    case Leading(f) =>
      FactorRun(f, st, lookup);
    case Product(l, op, r) =>
      RunThree(TermTokens(l), [Symbol(op)], FactorTokens(r), Running(st), lookup);
      TermRun(l, st, lookup);
      match EvalTerm(l, lookup)
      case Failure(e) =>
        RunFailed([Symbol(op)] + FactorTokens(r), e, lookup);
        RunAppend([Symbol(op)], FactorTokens(r), Failed(e), lookup);
      case Success(a) =>
        var q := Stacks(st.values + [a], st.operators + [Arithmetic(op)]);
        RunOne(Symbol(op), Running(Push(st, a)), lookup);
        HighOperatorStep(op, Push(st, a), lookup);
        FactorRun(r, q, lookup);
        match EvalFactor(r, lookup)
        case Failure(e) =>
        case Success(b) =>
          var pushed := Stacks(q.values + [b], q.operators);
          assert pushed.values[..|pushed.values| - 2] == st.values;
          assert pushed.operators[..|pushed.operators| - 1] == st.operators;
  }

  /** Reading a sum leaves it pending on the stacks, or fails as the tree does. */
  lemma {:induction false} SumRun(s: Sum, st: Stacks, lookup: Lookup)
    requires ValidSum(s)
    requires !IsArithmeticAtTop(st.operators, false, false)
    ensures Run(SumTokens(s), Running(st), lookup) ==
      match EvalSum(s, lookup)
      case Failure(e) => Failed(e)
      case Success(_) => Running(SumPending(s, st, lookup))
    decreases s
  {
    match s
    case Single(t) =>
      TermRun(t, st, lookup);
    case Combine(l, op, r) =>
      RunThree(SumTokens(l), [Symbol(op)], TermTokens(r), Running(st), lookup);
      SumRun(l, st, lookup);
      match EvalSum(l, lookup)
      case Failure(e) =>
        RunFailed([Symbol(op)] + TermTokens(r), e, lookup);
        RunAppend([Symbol(op)], TermTokens(r), Failed(e), lookup);
      case Success(a) =>
        var q := Stacks(st.values + [a], st.operators + [Arithmetic(op)]);
        RunOne(Symbol(op), Running(SumPending(l, st, lookup)), lookup);
        LowOperatorStep(l, op, st, lookup);
        TermRun(r, q, lookup);
  }

  // ---------------------------------------------------------------------
  // The whole evaluation

  /** The final clean-up reduces a pending operator, leaving exactly one value and no operator. */
  lemma SettleSum(s: Sum, lookup: Lookup)
    requires ValidSum(s) && EvalSum(s, lookup).Success?
    ensures Settle(Running(SumPending(s, Stacks([], []), lookup))) ==
      Running(Stacks([EvalSum(s, lookup).value], []))
  {
    match s
    case Single(_) =>
      SettleSingle(s, lookup);
    case Combine(l, op, r) =>
      SettleCombine(l, op, r, lookup);
  }

  /** A single term leaves its value alone on the stacks. */
  lemma SettleSingle(s: Sum, lookup: Lookup)
    requires ValidSum(s) && s.Single? && EvalSum(s, lookup).Success?
    ensures Settle(Running(SumPending(s, Stacks([], []), lookup))) ==
      Running(Stacks([EvalSum(s, lookup).value], []))
  {
    assert SumPending(s, Stacks([], []), lookup) == Stacks([EvalSum(s, lookup).value], []);
  }

  /** A combined sum leaves two values and its operator, which the clean-up applies. */
  lemma SettleCombine(l: Sum, op: ArithmeticOperator, r: Term, lookup: Lookup)
    requires ValidSum(Combine(l, op, r)) && EvalSum(Combine(l, op, r), lookup).Success?
    ensures Settle(Running(SumPending(Combine(l, op, r), Stacks([], []), lookup))) ==
      Running(Stacks([EvalSum(Combine(l, op, r), lookup).value], []))
  {
    var a, b := EvalSum(l, lookup).value, EvalTerm(r, lookup).value;
    assert SumPending(Combine(l, op, r), Stacks([], []), lookup) == Stacks([a, b], [Arithmetic(op)]);
    SettleOperator(op, a, b);
  }

  /** One low-level operator between two values is reduced by the clean-up. */
  lemma SettleOperator(op: ArithmeticOperator, a: real, b: real)
    requires op.LowLevel()
    ensures Settle(Running(Stacks([a, b], [Arithmetic(op)]))) == Running(Stacks([Compute(op, a, b).value], []))
  {
    var p := Stacks([a, b], [Arithmetic(op)]);
    assert p.values[..|p.values| - 2] == [];
    assert p.operators[..|p.operators| - 1] == [];
  }

  /** Evaluating the spelling of any tree gives the tree's value. */
  lemma TreeEvaluation(s: Sum, lookup: Lookup)
    requires ValidSum(s)
    ensures Evaluate(SumTokens(s), lookup) == ToOutcome(EvalSum(s, lookup))
    ensures Settle(Run(SumTokens(s), Start, lookup)).Failed? ||
            Settle(Run(SumTokens(s), Start, lookup)) == Running(Stacks([EvalSum(s, lookup).value], []))
  {
    SumRun(s, Stacks([], []), lookup);
    if EvalSum(s, lookup).Success? {
      SettleSum(s, lookup);
    }
  }

  /**
   * Every token sequence the checker accepts is evaluated without an
   * escaping exception, to exactly one final value and an empty operator
   * stack, or to a FormulaError; and the outcome is the reference value of
   * the expression tree the tokens spell, with the usual precedence and
   * left associativity.
   */
  lemma CheckedFormulasEvaluate(
    tokens: seq<string>, normalizer: string -> string, validator: string -> bool, lookup: Lookup)
    requires |tokens| > 0 && CheckSyntax(tokens, normalizer, validator).None?
    ensures WellFormed(tokens, normalizer, validator)
    ensures Evaluate(tokens, lookup) == ToOutcome(EvalSum(Parse(tokens, normalizer, validator), lookup))
    ensures Evaluate(tokens, lookup) != Crash
    ensures var final := Settle(Run(tokens, Start, lookup));
      final.Failed? || (final.Running? && |final.stacks.values| == 1 && final.stacks.operators == [])
  {
    CheckSyntaxMeaning(tokens, normalizer, validator);
    TreeEvaluation(Parse(tokens, normalizer, validator), lookup);
  }

  // ---------------------------------------------------------------------
  // Precedence and associativity, on variables with known values

  /** A variable on its own, as a factor. */
  lemma VariableMeaning(x: string, lookup: Lookup)
    requires IsVariable(x)
    ensures ValidFactor(Atom(x)) && FactorTokens(Atom(x)) == [x]
    ensures ValidTerm(Leading(Atom(x))) && TermTokens(Leading(Atom(x))) == [x]
    ensures ValidSum(Single(Leading(Atom(x)))) && SumTokens(Single(Leading(Atom(x)))) == [x]
    ensures lookup(x).Some? ==> EvalFactor(Atom(x), lookup) == Success(lookup(x).value)
    ensures lookup(x).None? ==> EvalFactor(Atom(x), lookup) == Failure(UndefinedVariable(x))
    ensures EvalSum(Single(Leading(Atom(x))), lookup) == EvalTerm(Leading(Atom(x)), lookup) == EvalFactor(Atom(x), lookup)
  {
  }

  /** A parenthesised sum, as a term. */
  lemma GroupMeaning(s: Sum, lookup: Lookup)
    requires ValidSum(s)
    ensures ValidTerm(Leading(Group(s)))
    ensures TermTokens(Leading(Group(s))) == ["("] + SumTokens(s) + [")"]
    ensures EvalTerm(Leading(Group(s)), lookup) == EvalSum(s, lookup)
  {
    assert ValidFactor(Group(s));
  }

  /** A high-level operator applied to a term and a factor that have values. */
  lemma ProductMeaning(l: Term, op: ArithmeticOperator, r: Factor, lookup: Lookup)
    requires op.HighLevel() && ValidTerm(l) && ValidFactor(r)
    requires EvalTerm(l, lookup).Success? && EvalFactor(r, lookup).Success?
    ensures ValidTerm(Product(l, op, r))
    ensures TermTokens(Product(l, op, r)) == TermTokens(l) + [Symbol(op)] + FactorTokens(r)
    ensures EvalTerm(Product(l, op, r), lookup) == Apply(op, EvalTerm(l, lookup).value, EvalFactor(r, lookup).value)
  {
  }

  /** A low-level operator applied to a sum and a term that have values. */
  lemma CombineMeaning(l: Sum, op: ArithmeticOperator, r: Term, lookup: Lookup)
    requires op.LowLevel() && ValidSum(l) && ValidTerm(r)
    requires EvalSum(l, lookup).Success? && EvalTerm(r, lookup).Success?
    ensures ValidSum(Combine(l, op, r))
    ensures SumTokens(Combine(l, op, r)) == SumTokens(l) + [Symbol(op)] + TermTokens(r)
    ensures EvalSum(Combine(l, op, r), lookup) == Apply(op, EvalSum(l, lookup).value, EvalTerm(r, lookup).value)
  {
  }

  lemma ProductValue(a: real, b: real)
    ensures Apply(Multiplication, a, b) == Success(a * b)
  {
  }

  /** Multiplication binds tighter than addition: x + y * z is x + (y * z). */
  lemma MultiplicationFirst(x: string, y: string, z: string, lookup: Lookup)
    requires IsVariable(x) && IsVariable(y) && IsVariable(z)
    requires lookup(x).Some? && lookup(y).Some? && lookup(z).Some?
    ensures Evaluate([x, "+", y, "*", z], lookup) ==
      Value(lookup(x).value + lookup(y).value * lookup(z).value)
  {
    var a, b, c := lookup(x).value, lookup(y).value, lookup(z).value;
    VariableMeaning(x, lookup);
    VariableMeaning(y, lookup);
    VariableMeaning(z, lookup);
    var product := Product(Leading(Atom(y)), Multiplication, Atom(z));
    ProductMeaning(Leading(Atom(y)), Multiplication, Atom(z), lookup);
    ProductValue(b, c);
    assert EvalTerm(product, lookup) == Success(b * c);
    var s := Combine(Single(Leading(Atom(x))), Addition, product);
    CombineMeaning(Single(Leading(Atom(x))), Addition, product, lookup);
    assert EvalSum(s, lookup) == Success(a + b * c);
    assert SumTokens(s) == [x] + ["+"] + ([y] + ["*"] + [z]) == [x, "+", y, "*", z];
    TreeEvaluation(s, lookup);
  }

  /** The tree of (x + y) * z: a group of a sum, multiplied by a factor. */
  function GroupedProduct(x: string, y: string, z: string): Sum {
    Single(Product(Leading(Group(Combine(Single(Leading(Atom(x))), Addition, Leading(Atom(y))))), Multiplication, Atom(z)))
  }

  /** The tree of (x + y) * z is well formed, reads as its tokens and has the grouped value. */
  lemma GroupedProductMeaning(x: string, y: string, z: string, lookup: Lookup)
    requires IsVariable(x) && IsVariable(y) && IsVariable(z)
    requires lookup(x).Some? && lookup(y).Some? && lookup(z).Some?
    ensures ValidSum(GroupedProduct(x, y, z))
    ensures SumTokens(GroupedProduct(x, y, z)) == ["(", x, "+", y, ")", "*", z]
    ensures EvalSum(GroupedProduct(x, y, z), lookup) == Success((lookup(x).value + lookup(y).value) * lookup(z).value)
  {
    var a, b, c := lookup(x).value, lookup(y).value, lookup(z).value;
    VariableMeaning(x, lookup);
    VariableMeaning(y, lookup);
    VariableMeaning(z, lookup);
    var inner := Combine(Single(Leading(Atom(x))), Addition, Leading(Atom(y)));
    CombineMeaning(Single(Leading(Atom(x))), Addition, Leading(Atom(y)), lookup);
    assert EvalSum(inner, lookup) == Success(a + b);
    GroupMeaning(inner, lookup);
    assert EvalTerm(Leading(Group(inner)), lookup) == Success(a + b);
    ProductMeaning(Leading(Group(inner)), Multiplication, Atom(z), lookup);
    var sum := a + b;
    ProductValue(sum, c);
    var product := Product(Leading(Group(inner)), Multiplication, Atom(z));
    assert EvalTerm(product, lookup) == Success(sum * c);
    assert GroupedProduct(x, y, z) == Single(product);
    assert EvalSum(Single(product), lookup) == Success(sum * c);
    assert sum * c == (lookup(x).value + lookup(y).value) * lookup(z).value;
    assert EvalSum(GroupedProduct(x, y, z), lookup) == Success(sum * c);
    assert ["("] + ([x] + ["+"] + [y]) + [")"] + ["*"] + [z] == ["(", x, "+", y, ")", "*", z];
  }

  /** Parentheses override precedence: (x + y) * z. */
  lemma GroupFirst(x: string, y: string, z: string, lookup: Lookup)
    requires IsVariable(x) && IsVariable(y) && IsVariable(z)
    requires lookup(x).Some? && lookup(y).Some? && lookup(z).Some?
    ensures Evaluate(["(", x, "+", y, ")", "*", z], lookup) ==
      Value((lookup(x).value + lookup(y).value) * lookup(z).value)
  {
    GroupedProductMeaning(x, y, z, lookup);
    TreeEvaluation(GroupedProduct(x, y, z), lookup);
  }

  /** Subtraction associates to the left: x - y - z is (x - y) - z. */
  lemma SubtractionLeftToRight(x: string, y: string, z: string, lookup: Lookup)
    requires IsVariable(x) && IsVariable(y) && IsVariable(z)
    requires lookup(x).Some? && lookup(y).Some? && lookup(z).Some?
    ensures Evaluate([x, "-", y, "-", z], lookup) ==
      Value(lookup(x).value - lookup(y).value - lookup(z).value)
  {
    var a, b, c := lookup(x).value, lookup(y).value, lookup(z).value;
    VariableMeaning(x, lookup);
    VariableMeaning(y, lookup);
    VariableMeaning(z, lookup);
    var first := Combine(Single(Leading(Atom(x))), Subtraction, Leading(Atom(y)));
    CombineMeaning(Single(Leading(Atom(x))), Subtraction, Leading(Atom(y)), lookup);
    assert EvalSum(first, lookup) == Success(a - b);
    var s := Combine(first, Subtraction, Leading(Atom(z)));
    CombineMeaning(first, Subtraction, Leading(Atom(z)), lookup);
    assert EvalSum(s, lookup) == Success(a - b - c);
    assert SumTokens(s) == [x] + ["-"] + [y] + ["-"] + [z] == [x, "-", y, "-", z];
    TreeEvaluation(s, lookup);
  }

  /** Dividing by a variable whose value is zero gives the division-by-zero error, not an exception. */
  lemma DivisionByZeroIsAnError(x: string, y: string, lookup: Lookup)
    requires IsVariable(x) && IsVariable(y)
    requires lookup(x).Some? && lookup(y) == Some(0.0)
    ensures Evaluate([x, "/", y], lookup) == Error(DivideByZero)
  {
    VariableMeaning(x, lookup);
    VariableMeaning(y, lookup);
    var quotient := Product(Leading(Atom(x)), Division, Atom(y));
    ProductMeaning(Leading(Atom(x)), Division, Atom(y), lookup);
    assert EvalTerm(quotient, lookup) == Failure(DivideByZero);
    var s := Single(quotient);
    assert SumTokens(s) == [x] + ["/"] + [y] == [x, "/", y];
    TreeEvaluation(s, lookup);
  }

  /** An unknown variable gives the undefined-variable error, not an exception. */
  lemma UnknownVariableIsAnError(x: string, y: string, lookup: Lookup)
    requires IsVariable(x) && IsVariable(y)
    requires lookup(x).Some? && lookup(y).None?
    ensures Evaluate([x, "+", y], lookup) == Error(UndefinedVariable(y))
  {
    VariableMeaning(x, lookup);
    VariableMeaning(y, lookup);
    var s := Combine(Single(Leading(Atom(x))), Addition, Leading(Atom(y)));
    assert ValidSum(s);
    assert SumTokens(s) == [x] + ["+"] + [y] == [x, "+", y];
    assert EvalSum(s, lookup) == Failure(UndefinedVariable(y));
    TreeEvaluation(s, lookup);
  }

  // ---------------------------------------------------------------------
  // The evaluator as written: an unknown variable escapes

  lemma {:induction false} RunAsWrittenCrashed(tokens: seq<string>, lookup: Lookup)
    ensures RunAsWritten(tokens, Crashed, lookup) == Crashed
    decreases |tokens|
  {
    if tokens != [] {
      RunAsWrittenCrashed(tokens[1..], lookup);
    }
  }

  /** A failure caused by a variable the lookup does not know. */
  ghost predicate UnknownVariableFailure(m: Machine) {
    m.Failed? && exists t :: m.error == UndefinedVariable(t)
  }

  /** The two errors differ already in their first character. */
  lemma DivideByZeroIsNotUndefined()
    ensures forall t :: DivideByZero != UndefinedVariable(t)
  {
    forall t ensures DivideByZero != UndefinedVariable(t) {
      assert DivideByZero.reason[0] == 'C';
      assert UndefinedVariable(t).reason[0] == 'U';
    }
  }

  /**
   * The loop as written crashes exactly where the corrected loop stops with
   * an undefined-variable error, and otherwise ends in the same state.
   */
  lemma {:induction false} RunAsWrittenAgrees(tokens: seq<string>, m: Machine, lookup: Lookup)
    requires !UnknownVariableFailure(m)
    ensures RunAsWritten(tokens, m, lookup) ==
      (if UnknownVariableFailure(Run(tokens, m, lookup)) then Crashed else Run(tokens, m, lookup))
    decreases |tokens|
  {
    if tokens != [] {
      var token := tokens[0];
      var next := Step(m, token, lookup);
      if m.Running? && token !in OperatorDict && IsVariable(token) && lookup(token).None? {
        assert next == Failed(UndefinedVariable(token));
        assert Run(tokens, m, lookup) == next;
        RunAsWrittenCrashed(tokens[1..], lookup);
      } else {
        assert StepAsWritten(m, token, lookup) == next;
        DivideByZeroIsNotUndefined();
        assert !UnknownVariableFailure(next);
        RunAsWrittenAgrees(tokens[1..], next, lookup);
      }
    }
  }

  /**
   * `Evaluate` as written ends in an escaping exception exactly when the
   * corrected `Evaluate` returns an undefined-variable error, and returns
   * the same outcome in every other case.
   */
  lemma EvaluateAsWrittenAgrees(tokens: seq<string>, lookup: Lookup)
    ensures EvaluateAsWritten(tokens, lookup) ==
      (if Evaluate(tokens, lookup).Error? && exists t :: Evaluate(tokens, lookup).error == UndefinedVariable(t)
       then Crash else Evaluate(tokens, lookup))
  {
    RunAsWrittenAgrees(tokens, Start, lookup);
    DivideByZeroIsNotUndefined();
  }

  /**
   * The formula "x" with a lookup that knows no variable: the code as
   * written lets the lookup's exception escape, although the documented
   * contract is to return a FormulaError, which the model does.
   */
  lemma UnknownVariableEscapes(lookup: Lookup)
    requires lookup("x").None?
    ensures EvaluateAsWritten(["x"], lookup) == Crash
    ensures Evaluate(["x"], lookup) == Error(UndefinedVariable("x"))
  {
    assert IsWordStart("x"[0]);
    assert IsVariable("x");
    OperatorDictKeys();
    assert "x" !in OperatorDict;
    VariableMeaning("x", lookup);
    TreeEvaluation(Single(Leading(Atom("x"))), lookup);
  }

  // ---------------------------------------------------------------------
  // The loop

  lemma RunSnoc(tokens: seq<string>, k: nat, lookup: Lookup)
    requires k < |tokens|
    ensures Run(tokens[..k + 1], Start, lookup) == Step(Run(tokens[..k], Start, lookup), tokens[k], lookup)
  {
    assert tokens[..k + 1] == tokens[..k] + [tokens[k]];
    RunAppend(tokens[..k], [tokens[k]], Start, lookup);
  }

  /**
   * The foreach loop of Evaluate, one token at a time.  On checked input
   * the outcome is the reference value of the parsed expression.
   */
  method EvaluateTokens(tokens: seq<string>, lookup: Lookup) returns (o: Outcome)
    ensures o == Evaluate(tokens, lookup)
    ensures forall normalizer: string -> string, validator: string -> bool ::
      |tokens| > 0 && CheckSyntax(tokens, normalizer, validator).None? ==>
      o != Crash
  {
    var m := Start;
    var k := 0;
    while k < |tokens|
      invariant 0 <= k <= |tokens|
      invariant m == Run(tokens[..k], Start, lookup)
    {
      RunSnoc(tokens, k, lookup);
      m := Step(m, tokens[k], lookup);
      k := k + 1;
    }
    assert tokens[..k] == tokens;
    o := FinalOutcome(Settle(m));
    forall normalizer: string -> string, validator: string -> bool |
      |tokens| > 0 && CheckSyntax(tokens, normalizer, validator).None?
      ensures o != Crash
    {
      CheckedFormulasEvaluate(tokens, normalizer, validator, lookup);
    }
  }
}
