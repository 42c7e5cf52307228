/**
 * The operator hierarchy of the formula engine
 * (PS3/Formula/Operators): grouping operators (parentheses) and the four
 * arithmetic operators with their precedence level and `Compute`.
 */
module Operators {
  import opened Wrappers

  /** The four concrete arithmetic operator classes. */
  datatype ArithmeticOperator = Addition | Subtraction | Multiplication | Division
  {
    /**
     * An operator is high level only when its class passes `true` to the
     * base constructor: multiplication and division do, addition and
     * subtraction take the default `false`.
     */
    predicate HighLevel() {
      this == Multiplication || this == Division
    }

    /** `LowLevel` is defined as the negation of `HighLevel`. */
    predicate LowLevel() {
      !HighLevel()
    }
  }

  /**
   * `Compute(left, right)`: left op right.  Division by zero has no real
   * value; the model yields None there, where the source's double division
   * would give an infinity or NaN (see `Evaluator` for how None becomes the
   * documented FormulaError).
   */
  function Compute(op: ArithmeticOperator, left: real, right: real): (r: Option<real>)
    ensures r.None? <==> op == Division && right == 0.0
    ensures op == Addition && r.Some? ==> r.value - right == left
    ensures op == Subtraction && r.Some? ==> r.value + right == left
    ensures op == Multiplication && r.Some? && right != 0.0 ==> r.value / right == left
    ensures op == Multiplication && r.Some? && right == 0.0 ==> r.value == 0.0
    ensures op == Division && r.Some? ==> r.value * right == left
  {
    match op
    case Addition => Some(left + right)
    case Subtraction => Some(left - right)
    case Multiplication =>
      assert right != 0.0 ==> (left * right) / right == left by {
        if right != 0.0 {
          DivideProduct(left, right);
        }
      }
      Some(left * right)
    case Division =>
      if right == 0.0 then None
      else
        DivideProduct(left, right);
        Some(left / right)
  }

  /** Multiplying by a non-zero real and dividing by it cancel. */
  lemma DivideProduct(x: real, y: real)
    requires y != 0.0
    ensures (x * y) / y == x
    ensures (x / y) * y == x
  {
  }

  /** The argument order of `Compute` matters for the non-commutative operators. */
  lemma ComputeIsOrderSensitive()
    ensures Compute(Subtraction, 5.0, 2.0) == Some(3.0)
    ensures Compute(Subtraction, 2.0, 5.0) == Some(-3.0)
    ensures Compute(Division, 6.0, 3.0) == Some(2.0)
    ensures Compute(Division, 3.0, 6.0) == Some(0.5)
  {
  }

  /** An operator on the evaluator's operator stack. */
  datatype Operator =
    | Grouping(opensGroup: bool)
    | Arithmetic(op: ArithmeticOperator)

  /**
   * The GroupingOperator constructor: `closeGroup` defaults to false, so the
   * default object opens a group.
   */
  function GroupingOperator(closeGroup: bool): (o: Operator)
    ensures o.Grouping?
    ensures o.opensGroup <==> !closeGroup
  {
    Grouping(!closeGroup)
  }

  /** The default-constructed grouping operator opens a group. */
  function DefaultGroupingOperator(): (o: Operator)
    ensures o.Grouping? && o.opensGroup
  {
    GroupingOperator(false)
  }
}
