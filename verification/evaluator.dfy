/**
 * The two-stack evaluator (PS3/Formula/Evaluator.cs), as a machine that
 * reads one token at a time.  Stacks are sequences whose last element is
 * the top.  The source's exceptions become machine states: an
 * EvaluationException carrying a FormulaError becomes `Failed`, and any
 * other exception (popping an empty stack, casting a grouping operator to
 * an arithmetic one) becomes `Crashed`, since it would escape `Evaluate`.
 */
module Evaluator {
  import opened Wrappers
  import opened Operators
  import opened OperatorUtils
  import opened ExpressionUtils

  /** The value of a failed evaluation, with a reason. */
  datatype FormulaError = FormulaError(reason: string)

  /**
   * The variable lookup delegate.  The source's delegate throws an
   * ArgumentException for a variable it does not know; here it returns
   * None instead.
   */
  type Lookup = string -> Option<real>

  /** The error the doc comment promises for a division by zero. */
  const DivideByZero := FormulaError("Cannot divide by zero!")

  /** The error for a variable the lookup does not know. */
  function UndefinedVariable(token: string): FormulaError {
    FormulaError("Undefined variable: " + token)
  }

  /** Whether the evaluator can produce a value for the token. */
  predicate Evaluable(token: string) {
    IsVariable(token) || IsNumber(token)
  }

  /**
   * The value of a number or variable token: a variable (by the unanchored
   * `IsVariable` test, checked first) is looked up by its raw token, and
   * anything else is parsed as a double.
   */
  function OperandValue(token: string, lookup: Lookup): (r: Result<real, FormulaError>)
    requires Evaluable(token)
    ensures IsVariable(token) ==>
      (r.Success? <==> lookup(token).Some?) && (r.Success? ==> r.value == lookup(token).value)
    ensures !IsVariable(token) ==> r == Success(ParseDouble(token).value)
  {
    if IsVariable(token) then
      match lookup(token)
      case None => Failure(UndefinedVariable(token))
      case Some(v) => Success(v)
    else Success(ParseDouble(token).value)
  }

  /**
   * `Compute` with the zero-divisor check made explicit: the source's
   * catch of DivideByZeroException never fires for doubles, so the
   * documented FormulaError is produced here instead.
   */
  function Apply(op: ArithmeticOperator, left: real, right: real): (r: Result<real, FormulaError>)
    ensures r.Failure? <==> op == Division && right == 0.0
    ensures r.Failure? ==> r.error == DivideByZero
    ensures r.Success? ==> Compute(op, left, right) == Some(r.value)
  {
    match Compute(op, left, right)
    case None => Failure(DivideByZero)
    case Some(v) => Success(v)
  }

  /** The value stack and the operator stack; the top is the last element. */
  datatype Stacks = Stacks(values: seq<real>, operators: seq<Operator>)

  /** The machine between tokens. */
  datatype Machine =
    | Running(stacks: Stacks)
    | Failed(error: FormulaError)
    | Crashed

  /** What `Evaluate` returns: a double, a FormulaError, or an escaping exception. */
  datatype Outcome =
    | Value(value: real)
    | Error(error: FormulaError)
    | Crash

  const Start := Running(Stacks([], []))

  /**
   * IsArithmeticAtTop: an arithmetic operator is on top and, when asked,
   * of the requested level (high level takes precedence when both flags
   * are set).
   */
  function IsArithmeticAtTop(operators: seq<Operator>, highLevel: bool, lowLevel: bool): (b: bool)
    ensures b ==> |operators| > 0 && operators[|operators| - 1].Arithmetic?
    ensures highLevel ==>
      (b <==> |operators| > 0 && operators[|operators| - 1] in {Arithmetic(Multiplication), Arithmetic(Division)})
    ensures !highLevel && lowLevel ==>
      (b <==> |operators| > 0 && operators[|operators| - 1] in {Arithmetic(Addition), Arithmetic(Subtraction)})
  {
    |operators| > 0 && operators[|operators| - 1].Arithmetic? &&
    (if !highLevel && !lowLevel then true
     else if highLevel then operators[|operators| - 1].op.HighLevel()
     else operators[|operators| - 1].op.LowLevel())
  }

  /**
   * ComputeTopOperatorWithTopValues: pops the operator and two values, the
   * first popped being the RIGHT operand, and pushes the result.
   */
  function ComputeTopOperatorWithTopValues(st: Stacks): (m: Machine)
    ensures |st.operators| > 0 && st.operators[|st.operators| - 1].Arithmetic? && |st.values| >= 2 ==>
      var op := st.operators[|st.operators| - 1].op;
      var left, right := st.values[|st.values| - 2], st.values[|st.values| - 1];
      match Apply(op, left, right)
      case Failure(e) => m == Failed(e)
      case Success(v) =>
        m == Running(Stacks(st.values[..|st.values| - 2] + [v], st.operators[..|st.operators| - 1]))
    ensures |st.operators| == 0 || !st.operators[|st.operators| - 1].Arithmetic? || |st.values| < 2 ==> m == Crashed
  {
    if |st.operators| == 0 || !st.operators[|st.operators| - 1].Arithmetic? then Crashed
    else
      var op := st.operators[|st.operators| - 1].op;
      var operators := st.operators[..|st.operators| - 1];
      if |st.values| < 2 then Crashed
      else
        var item1 := st.values[|st.values| - 1];
        var item2 := st.values[|st.values| - 2];
        var values := st.values[..|st.values| - 2];
        match Apply(op, item2, item1)
        case Failure(e) => Failed(e)
        case Success(v) => Running(Stacks(values + [v], operators))
  }

  /**
   * AddValueToStack: push, then reduce a high-level operator on top.  It
   * fails only when the pushed value is the zero divisor of a pending
   * division, and crashes only when a pending `*` or `/` has no left
   * operand.
   */
  function AddValueToStack(value: real, st: Stacks): (m: Machine)
    ensures m.Failed? <==>
      |st.values| > 0 && |st.operators| > 0 && st.operators[|st.operators| - 1] == Arithmetic(Division) && value == 0.0
    ensures m.Failed? ==> m.error == DivideByZero
    ensures m == Crashed <==> IsArithmeticAtTop(st.operators, true, false) && |st.values| == 0
    ensures !IsArithmeticAtTop(st.operators, true, false) ==> m == Running(Stacks(st.values + [value], st.operators))
  {
    var pushed := Stacks(st.values + [value], st.operators);
    if IsArithmeticAtTop(pushed.operators, true, false) then ComputeTopOperatorWithTopValues(pushed)
    else Running(pushed)
  }

  /**
   * CloseGroup: reduce an arithmetic operator on top, pop the operator
   * below it (the opening parenthesis, on checked input), then reduce a
   * high-level operator on top.  It pops at least one operator, crashes
   * on an empty operator stack, and fails only on a division by zero.
   */
  function CloseGroup(st: Stacks): (m: Machine)
    ensures |st.operators| == 0 ==> m == Crashed
    ensures m.Running? ==> |m.stacks.operators| < |st.operators|
    ensures m.Failed? ==> m.error == DivideByZero
  {
    var reduced := if IsArithmeticAtTop(st.operators, false, false) then ComputeTopOperatorWithTopValues(st)
                   else Running(st);
    match reduced
    case Running(s) =>
      if |s.operators| == 0 then Crashed
      else
        var popped := Stacks(s.values, s.operators[..|s.operators| - 1]);
        if IsArithmeticAtTop(popped.operators, true, false) then ComputeTopOperatorWithTopValues(popped)
        else Running(popped)
    case _ => reduced
  }

  /**
   * The body of the foreach loop of `Evaluate` for one token.  Once an
   * exception has been thrown the loop is over, so a stopped machine stays
   * as it is.  A token that is neither an operator, a variable nor a
   * double is skipped.  The only FormulaErrors a token can raise are a
   * division by zero and, for a variable token, an undefined variable.
   */
  function Step(m: Machine, token: string, lookup: Lookup): (r: Machine)
    ensures !m.Running? ==> r == m
    ensures m.Running? && token !in OperatorDict && !IsVariable(token) && ParseDouble(token).None? ==> r == m
    ensures m.Running? && token !in OperatorDict && IsVariable(token) && lookup(token).None? ==>
      r == Failed(UndefinedVariable(token))
    ensures m.Running? && r.Failed? ==>
      r.error == DivideByZero || (token !in OperatorDict && IsVariable(token) && lookup(token).None?)
  {
    match m
    case Running(st) =>
      if token in OperatorDict then
        (match OperatorDict[token]
        case Grouping(opensGroup) =>
          if opensGroup then Running(Stacks(st.values, st.operators + [OperatorDict[token]]))
          else CloseGroup(st)
        case Arithmetic(op) =>
          if op.HighLevel() then Running(Stacks(st.values, st.operators + [OperatorDict[token]]))
          else
            var reduced := if IsArithmeticAtTop(st.operators, false, true) then ComputeTopOperatorWithTopValues(st)
                           else Running(st);
            match reduced
            case Running(s) => Running(Stacks(s.values, s.operators + [OperatorDict[token]]))
            case _ => reduced)
      else if IsVariable(token) then
        (match lookup(token)
         case None => Failed(UndefinedVariable(token))
         case Some(v) => AddValueToStack(v, st))
      else
        (match ParseDouble(token)
         case Some(v) => AddValueToStack(v, st)
         case None => m)
    case _ => m
  }

  /**
   * The machine after reading `tokens` in order.  A stopped machine stays
   * stopped, and a running one can only fail with a division by zero or
   * with an undefined variable that is one of the tokens.
   */
  function Run(tokens: seq<string>, m: Machine, lookup: Lookup): (r: Machine)
    ensures !m.Running? ==> r == m
    ensures m.Running? && r.Failed? ==>
      r.error == DivideByZero ||
      exists t :: t in tokens && IsVariable(t) && lookup(t).None? && r.error == UndefinedVariable(t)
    decreases |tokens|
  {
    if tokens == [] then m else Run(tokens[1..], Step(m, tokens[0], lookup), lookup)
  }

  /**
   * After the loop: the last remaining low-level operator, if it is the
   * only operator left, is reduced; that can only fail by a division by
   * zero.
   */
  function Settle(m: Machine): (r: Machine)
    ensures !m.Running? ==> r == m
    ensures r.Failed? && m.Running? ==> r.error == DivideByZero
  {
    match m
    case Running(st) =>
      if |st.operators| == 1 && IsArithmeticAtTop(st.operators, false, true) then
        ComputeTopOperatorWithTopValues(st)
      else m
    case _ => m
  }

  /**
   * The last step of `Evaluate`: pop and return the top value.  A caught
   * EvaluationException is returned as its FormulaError, and popping an
   * empty value stack escapes.
   */
  function FinalOutcome(m: Machine): (o: Outcome)
    ensures o.Error? <==> m.Failed?
    ensures o.Error? ==> o.error == m.error
    ensures o == Crash <==> m == Crashed || (m.Running? && |m.stacks.values| == 0)
  {
    match m
    case Running(st) => if |st.values| == 0 then Crash else Value(st.values[|st.values| - 1])
    case Failed(e) => Error(e)
    case Crashed => Crash
  }

  /**
   * Evaluate, on the token sequence of the expression.  The only
   * FormulaErrors it returns are the two the doc comment names: a
   * division by zero, and an undefined variable of the formula.
   */
  function Evaluate(tokens: seq<string>, lookup: Lookup): (o: Outcome)
    ensures o.Error? ==>
      o.error == DivideByZero ||
      exists t :: t in tokens && IsVariable(t) && lookup(t).None? && o.error == UndefinedVariable(t)
  {
    FinalOutcome(Settle(Run(tokens, Start, lookup)))
  }

  /**
   * The loop body as written: `lookup` signals an unknown variable by
   * throwing an ArgumentException, which the catch of EvaluationException
   * does not handle, so the evaluation ends in an escaping exception.  The
   * only FormulaError left is the division by zero.
   */
  function StepAsWritten(m: Machine, token: string, lookup: Lookup): (r: Machine)
    ensures !m.Running? ==> r == m
    ensures m.Running? && r.Failed? ==> r.error == DivideByZero
  {
    if m.Running? && token !in OperatorDict && IsVariable(token) && lookup(token).None? then Crashed
    else Step(m, token, lookup)
  }

  function RunAsWritten(tokens: seq<string>, m: Machine, lookup: Lookup): (r: Machine)
    ensures !m.Running? ==> r == m
    ensures m.Running? && r.Failed? ==> r.error == DivideByZero
    decreases |tokens|
  {
    if tokens == [] then m else RunAsWritten(tokens[1..], StepAsWritten(m, tokens[0], lookup), lookup)
  }

  /**
   * Evaluate as written, where an unknown variable escapes as an
   * exception: the undefined-variable error the doc comment promises is
   * never returned.
   */
  function EvaluateAsWritten(tokens: seq<string>, lookup: Lookup): (o: Outcome)
    ensures o.Error? ==> o.error == DivideByZero
  {
    FinalOutcome(Settle(RunAsWritten(tokens, Start, lookup)))
  }

  /**
   * Evaluate on the expression text.  The normalizer parameter of the
   * source is never used, so it is not modelled.
   */
  function EvaluateExpression(expression: string, lookup: Lookup): Outcome {
    Evaluate(GetTokens(expression), lookup)
  }
}
