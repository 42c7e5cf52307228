/**
 * The syntax checker for token sequences
 * (PS3/Formula/ExpressionSyntaxChecker.cs).  Every rule violation is an
 * error value here where the source throws a FormulaFormatException; the
 * first violation found, in the source's order, is the one reported.
 */
module SyntaxChecker {
  import opened Wrappers
  import opened ExpressionUtils
  import opened OperatorUtils

  /** The reasons a FormulaFormatException is thrown. */
  datatype FormatError =
    | InvalidFirstToken
    | InvalidFinalToken
    | InvalidAfterOpeningOrOperator(previous: string, token: string)
    | InvalidAfterClosingOrOperand(previous: string, token: string)
    | TooManyClosingParentheses
    | UnbalancedParentheses

  /** The role a token plays in the syntax rules. */
  datatype Kind = Open | Close | Operator | Operand | Other

  /**
   * The checker's notion of a number or variable: `double.TryParse`
   * accepts it, or it is a variable whose normalized form is valid.
   */
  predicate IsOperand(token: string, normalizer: string -> string, validator: string -> bool) {
    IsNumber(token) || IsValidVariable(token, normalizer, validator)
  }

  function KindOf(token: string, normalizer: string -> string, validator: string -> bool): (k: Kind)
    ensures k == Open <==> IsOpeningGroupOperator(token)
    ensures k == Close <==> IsClosingGroupOperator(token)
    ensures k == Operator <==> IsArithmeticOperator(token)
    ensures k == Operand <==> IsOperand(token, normalizer, validator)
  {
    assert !IsNumber("(") && !IsNumber(")") && !IsNumber("+") && !IsNumber("-") && !IsNumber("*") && !IsNumber("/");
    assert !IsVariable("(") && !IsVariable(")") && !IsVariable("+") && !IsVariable("-") && !IsVariable("*") && !IsVariable("/");
    if IsOpeningGroupOperator(token) then Open
    else if IsClosingGroupOperator(token) then Close
    else if IsArithmeticOperator(token) then Operator
    else if IsOperand(token, normalizer, validator) then Operand
    else Other
  }

  /** What may start an expression, and may follow "(" or an operator. */
  predicate BeginsOperand(k: Kind) {
    k == Open || k == Operand
  }

  /** What may end an expression, and may precede ")" or an operator. */
  predicate EndsOperand(k: Kind) {
    k == Close || k == Operand
  }

  /** The two adjacency rules for a token of kind `k` right after one of kind `previous`. */
  predicate Follows(previous: Kind, k: Kind) {
    (previous == Open || previous == Operator ==> BeginsOperand(k)) &&
    (EndsOperand(previous) ==> k == Close || k == Operator)
  }

  /** The number of "(" tokens. */
  function Opening(tokens: seq<string>): nat {
    if tokens == [] then 0
    else Opening(tokens[..|tokens| - 1]) + if IsOpeningGroupOperator(tokens[|tokens| - 1]) then 1 else 0
  }

  /** The number of ")" tokens. */
  function Closing(tokens: seq<string>): nat {
    if tokens == [] then 0
    else Closing(tokens[..|tokens| - 1]) + if IsClosingGroupOperator(tokens[|tokens| - 1]) then 1 else 0
  }

  /** The nesting depth after the tokens: "(" counted up, ")" counted down. */
  function Depth(tokens: seq<string>): int {
    Opening(tokens) - Closing(tokens)
  }

  /** The token at `i` follows the one before it by the adjacency rules. */
  predicate AdjacentAt(tokens: seq<string>, normalizer: string -> string, validator: string -> bool, i: nat)
    requires 0 < i < |tokens|
  {
    Follows(KindOf(tokens[i - 1], normalizer, validator), KindOf(tokens[i], normalizer, validator))
  }

  /** The first `i` tokens close no more parentheses than they open. */
  predicate NotOverClosedAt(tokens: seq<string>, i: nat)
    requires i <= |tokens|
  {
    Depth(tokens[..i]) >= 0
  }

  /**
   * The rules of the checker, stated on the whole sequence: it is not
   * empty; it starts with "(" or an operand and ends with ")" or an
   * operand; every adjacent pair follows the two adjacency rules; no prefix
   * closes more parentheses than it opens; and all are closed at the end.
   */
  predicate WellFormed(tokens: seq<string>, normalizer: string -> string, validator: string -> bool) {
    |tokens| > 0 &&
    BeginsOperand(KindOf(tokens[0], normalizer, validator)) &&
    EndsOperand(KindOf(tokens[|tokens| - 1], normalizer, validator)) &&
    (forall i :: 0 < i < |tokens| ==> AdjacentAt(tokens, normalizer, validator, i)) &&
    (forall i :: 0 <= i <= |tokens| ==> NotOverClosedAt(tokens, i)) &&
    Depth(tokens) == 0
  }

  /** CheckFirstToken: "(", a number, or a valid variable. */
  function CheckFirstToken(token: string, normalizer: string -> string, validator: string -> bool)
    : (r: Option<FormatError>)
    ensures r.None? <==> BeginsOperand(KindOf(token, normalizer, validator))
    ensures r.Some? ==> r.value == InvalidFirstToken
  {
    if !IsOpeningGroupOperator(token) && !IsNumber(token) && !IsValidVariable(token, normalizer, validator) then
      Some(InvalidFirstToken)
    else None
  }

  /** CheckFinalToken: ")", a number, or a valid variable. */
  function CheckFinalToken(token: string, normalizer: string -> string, validator: string -> bool)
    : (r: Option<FormatError>)
    ensures r.None? <==> EndsOperand(KindOf(token, normalizer, validator))
    ensures r.Some? ==> r.value == InvalidFinalToken
  {
    if !IsClosingGroupOperator(token) && !IsNumber(token) && !IsValidVariable(token, normalizer, validator) then
      Some(InvalidFinalToken)
    else None
  }

  /** After "(" or an operator must come "(", a number, or a valid variable. */
  function CheckFollowingOpeningParenthesesOperators(
    previous: Option<string>, token: string, normalizer: string -> string, validator: string -> bool)
    : (r: Option<FormatError>)
    ensures r.None? <==> (previous.None? ||
      (var p := KindOf(previous.value, normalizer, validator);
       p == Open || p == Operator ==> BeginsOperand(KindOf(token, normalizer, validator))))
    ensures r.Some? ==> r.value == InvalidAfterOpeningOrOperator(previous.value, token)
  {
    if previous.None? then None
    else if !IsOpeningGroupOperator(previous.value) && !IsArithmeticOperator(previous.value) then None
    else if !IsOpeningGroupOperator(token) && !IsNumber(token) && !IsValidVariable(token, normalizer, validator) then
      Some(InvalidAfterOpeningOrOperator(previous.value, token))
    else None
  }

  /** After ")", a number or a valid variable must come ")" or an operator. */
  function CheckFollowingClosingParenthesesNumbersVariables(
    previous: Option<string>, token: string, normalizer: string -> string, validator: string -> bool)
    : (r: Option<FormatError>)
    ensures r.None? <==> (previous.None? ||
      (var k := KindOf(token, normalizer, validator);
       EndsOperand(KindOf(previous.value, normalizer, validator)) ==> k == Close || k == Operator))
    ensures r.Some? ==> r.value == InvalidAfterClosingOrOperand(previous.value, token)
  {
    if previous.None? then None
    else if !IsClosingGroupOperator(previous.value) && !IsNumber(previous.value)
            && !IsValidVariable(previous.value, normalizer, validator) then None
    else if !IsClosingGroupOperator(token) && !IsArithmeticOperator(token) then
      Some(InvalidAfterClosingOrOperand(previous.value, token))
    else None
  }

  /**
   * The foreach loop of CheckSyntax from position `k`, with the previous
   * token and the two parenthesis counters; it yields the final counters.
   */
  function CheckEachToken(
    tokens: seq<string>, normalizer: string -> string, validator: string -> bool,
    k: nat, previous: Option<string>, opening: nat, closing: nat)
    : (r: Result<(nat, nat), FormatError>)
    requires k <= |tokens|
    ensures r.Failure? ==>
      r.error.InvalidAfterOpeningOrOperator? || r.error.InvalidAfterClosingOrOperand? ||
      r.error == TooManyClosingParentheses
    decreases |tokens| - k
  {
    if k == |tokens| then Success((opening, closing))
    else
      var token := tokens[k];
      var afterOpening := CheckFollowingOpeningParenthesesOperators(previous, token, normalizer, validator);
      var afterClosing := CheckFollowingClosingParenthesesNumbersVariables(previous, token, normalizer, validator);
      if afterOpening.Some? then Failure(afterOpening.value)
      else if afterClosing.Some? then Failure(afterClosing.value)
      else if IsOpeningGroupOperator(token) then
        CheckEachToken(tokens, normalizer, validator, k + 1, Some(token), opening + 1, closing)
      else if IsClosingGroupOperator(token) then
        if closing + 1 > opening then Failure(TooManyClosingParentheses)
        else CheckEachToken(tokens, normalizer, validator, k + 1, Some(token), opening, closing + 1)
      else CheckEachToken(tokens, normalizer, validator, k + 1, Some(token), opening, closing)
  }

  /**
   * CheckSyntax: None when the tokens pass every rule, otherwise the first
   * violation.  The source reads the first and last tokens unguarded, so
   * the sequence must not be empty (an empty formula is refused before the
   * checker is reached).
   */
  function CheckSyntax(tokens: seq<string>, normalizer: string -> string, validator: string -> bool)
    : (r: Option<FormatError>)
    requires |tokens| > 0
    ensures r == Some(InvalidFirstToken) <==> !BeginsOperand(KindOf(tokens[0], normalizer, validator))
    ensures r == Some(InvalidFinalToken) <==>
      BeginsOperand(KindOf(tokens[0], normalizer, validator)) &&
      !EndsOperand(KindOf(tokens[|tokens| - 1], normalizer, validator))
  {
    if CheckFirstToken(tokens[0], normalizer, validator).Some? then
      CheckFirstToken(tokens[0], normalizer, validator)
    else if CheckFinalToken(tokens[|tokens| - 1], normalizer, validator).Some? then
      CheckFinalToken(tokens[|tokens| - 1], normalizer, validator)
    else
      match CheckEachToken(tokens, normalizer, validator, 0, None, 0, 0)
      case Failure(e) => Some(e)
      case Success((opening, closing)) =>
        if opening != closing then Some(UnbalancedParentheses) else None
  }

  /** The token before position `k`, or null at the start. */
  function PreviousAt(tokens: seq<string>, k: nat): Option<string>
    requires k <= |tokens|
  {
    if k == 0 then None else Some(tokens[k - 1])
  }

  /** The adjacency rules hold for every token from position `k` on. */
  predicate AdjacentFrom(tokens: seq<string>, normalizer: string -> string, validator: string -> bool, k: nat) {
    forall i :: k <= i < |tokens| && 0 < i ==> AdjacentAt(tokens, normalizer, validator, i)
  }

  /** No prefix ending after position `k` closes more than it opens. */
  predicate NeverOverClosedFrom(tokens: seq<string>, k: nat) {
    forall i :: k < i <= |tokens| ==> NotOverClosedAt(tokens, i)
  }

  lemma CountsOfLongerPrefix(tokens: seq<string>, k: nat)
    requires k < |tokens|
    ensures Opening(tokens[..k + 1]) == Opening(tokens[..k]) + if IsOpeningGroupOperator(tokens[k]) then 1 else 0
    ensures Closing(tokens[..k + 1]) == Closing(tokens[..k]) + if IsClosingGroupOperator(tokens[k]) then 1 else 0
  {
    assert tokens[..k + 1][..k] == tokens[..k];
  }

  /** The loop of CheckSyntax entered at position `k` with the state it has there. */
  function LoopFrom(tokens: seq<string>, normalizer: string -> string, validator: string -> bool, k: nat)
    : Result<(nat, nat), FormatError>
    requires k <= |tokens|
  {
    CheckEachToken(tokens, normalizer, validator, k, PreviousAt(tokens, k), Opening(tokens[..k]), Closing(tokens[..k]))
  }

  /**
   * The loop of CheckSyntax, run from position `k` with the counters of
   * the prefix before it, succeeds exactly when the adjacency rules hold
   * from `k` on and no longer prefix closes more than it opens; it then
   * yields the counts of the whole sequence.
   */
  lemma {:induction false} CheckEachTokenMeaning(
    tokens: seq<string>, normalizer: string -> string, validator: string -> bool, k: nat)
    requires k <= |tokens|
    requires Closing(tokens[..k]) <= Opening(tokens[..k])
    ensures LoopFrom(tokens, normalizer, validator, k).Success? <==>
      AdjacentFrom(tokens, normalizer, validator, k) && NeverOverClosedFrom(tokens, k)
    ensures LoopFrom(tokens, normalizer, validator, k).Success? ==>
      LoopFrom(tokens, normalizer, validator, k).value == (Opening(tokens), Closing(tokens))
    decreases |tokens| - k
  {
    if k == |tokens| {
      assert tokens[..k] == tokens;
    } else {
      LoopStep(tokens, normalizer, validator, k);
      AdjacentFromStep(tokens, normalizer, validator, k);
      NeverOverClosedFromStep(tokens, k);
      CountsOfLongerPrefix(tokens, k);
      if (0 < k ==> AdjacentAt(tokens, normalizer, validator, k)) &&
         !(IsClosingGroupOperator(tokens[k]) && Closing(tokens[..k]) + 1 > Opening(tokens[..k])) {
        CheckEachTokenMeaning(tokens, normalizer, validator, k + 1);
      }
    }
  }

  /** One turn of the loop: stop on a broken rule, or go on with updated counters. */
  lemma LoopStep(tokens: seq<string>, normalizer: string -> string, validator: string -> bool, k: nat)
    requires k < |tokens|
    ensures var follows := 0 < k ==> AdjacentAt(tokens, normalizer, validator, k);
      var overClosed := IsClosingGroupOperator(tokens[k]) && Closing(tokens[..k]) + 1 > Opening(tokens[..k]);
      (!follows || overClosed ==> LoopFrom(tokens, normalizer, validator, k).Failure?) &&
      (follows && !overClosed ==> LoopFrom(tokens, normalizer, validator, k) == LoopFrom(tokens, normalizer, validator, k + 1))
  {
    RulesAt(tokens, normalizer, validator, k);
    CountsOfLongerPrefix(tokens, k);
  }

  /** The two adjacency checks at position `k` pass exactly when the rules hold there. */
  lemma RulesAt(tokens: seq<string>, normalizer: string -> string, validator: string -> bool, k: nat)
    requires k < |tokens|
    ensures CheckFollowingOpeningParenthesesOperators(PreviousAt(tokens, k), tokens[k], normalizer, validator).None? &&
            CheckFollowingClosingParenthesesNumbersVariables(PreviousAt(tokens, k), tokens[k], normalizer, validator).None?
            <==> (0 < k ==> AdjacentAt(tokens, normalizer, validator, k))
  {
  }

  lemma AdjacentFromStep(tokens: seq<string>, normalizer: string -> string, validator: string -> bool, k: nat)
    requires k < |tokens|
    ensures AdjacentFrom(tokens, normalizer, validator, k) <==>
      (0 < k ==> AdjacentAt(tokens, normalizer, validator, k)) && AdjacentFrom(tokens, normalizer, validator, k + 1)
  {
  }

  lemma NeverOverClosedFromStep(tokens: seq<string>, k: nat)
    requires k < |tokens|
    ensures NeverOverClosedFrom(tokens, k) <==> NotOverClosedAt(tokens, k + 1) && NeverOverClosedFrom(tokens, k + 1)
  {
  }

  /** CheckSyntax accepts exactly the well-formed token sequences. */
  lemma CheckSyntaxMeaning(tokens: seq<string>, normalizer: string -> string, validator: string -> bool)
    requires |tokens| > 0
    ensures CheckSyntax(tokens, normalizer, validator).None? <==> WellFormed(tokens, normalizer, validator)
  {
    assert tokens[..0] == [];
    CheckEachTokenMeaning(tokens, normalizer, validator, 0);
    assert Depth(tokens[..0]) == 0;
  }
}
