/**
 * A reference semantics for the formulas the syntax checker accepts: the
 * usual grammar with two precedence levels and left associativity,
 *
 *   sum    ::= term    | sum ("+" | "-") term
 *   term   ::= factor  | term ("*" | "/") factor
 *   factor ::= operand | "(" sum ")"
 *
 * an evaluator that walks the tree, and a recursive-descent parser that
 * builds the tree of every token sequence the checker accepts.
 */
module ExpressionTree {
  import opened Wrappers
  import opened Operators
  import opened OperatorUtils
  import opened ExpressionUtils
  import opened SyntaxChecker
  import opened Evaluator

  datatype Factor = Atom(token: string) | Group(inner: Sum)
  datatype Term = Leading(factor: Factor) | Product(left: Term, op: ArithmeticOperator, right: Factor)
  datatype Sum = Single(term: Term) | Combine(left: Sum, op: ArithmeticOperator, right: Term)

  // ---------------------------------------------------------------------
  // Well-formed trees: operands the evaluator can value, and each operator
  // at the level of its production

  predicate ValidFactor(f: Factor) {
    match f
    case Atom(t) => Evaluable(t)
    case Group(s) => ValidSum(s)
  }

  predicate ValidTerm(t: Term) {
    match t
    case Leading(f) => ValidFactor(f)
    case Product(l, op, r) => op.HighLevel() && ValidTerm(l) && ValidFactor(r)
  }

  predicate ValidSum(s: Sum) {
    match s
    case Single(t) => ValidTerm(t)
    case Combine(l, op, r) => op.LowLevel() && ValidSum(l) && ValidTerm(r)
  }

  // ---------------------------------------------------------------------
  // The token sequence of a tree

  function FactorTokens(f: Factor): seq<string> {
    match f
    case Atom(t) => [t]
    case Group(s) => ["("] + SumTokens(s) + [")"]
  }

  function TermTokens(t: Term): seq<string> {
    match t
    case Leading(f) => FactorTokens(f)
    case Product(l, op, r) => TermTokens(l) + [Symbol(op)] + FactorTokens(r)
  }

  function SumTokens(s: Sum): seq<string> {
    match s
    case Single(t) => TermTokens(t)
    case Combine(l, op, r) => SumTokens(l) + [Symbol(op)] + TermTokens(r)
  }

  // ---------------------------------------------------------------------
  // The reference evaluator: operands valued as the evaluator values them,
  // the left operand before the right, the first failure wins

  function EvalFactor(f: Factor, lookup: Lookup): Result<real, FormulaError>
    requires ValidFactor(f)
  {
    match f
    case Atom(t) => OperandValue(t, lookup)
    case Group(s) => EvalSum(s, lookup)
  }

  function EvalTerm(t: Term, lookup: Lookup): Result<real, FormulaError>
    requires ValidTerm(t)
  {
    match t
    case Leading(f) => EvalFactor(f, lookup)
    case Product(l, op, r) =>
      var a :- EvalTerm(l, lookup);
      var b :- EvalFactor(r, lookup);
      Apply(op, a, b)
  }

  function EvalSum(s: Sum, lookup: Lookup): Result<real, FormulaError>
    requires ValidSum(s)
  {
    match s
    case Single(t) => EvalTerm(t, lookup)
    case Combine(l, op, r) =>
      var a :- EvalSum(l, lookup);
      var b :- EvalTerm(r, lookup);
      Apply(op, a, b)
  }

  // ---------------------------------------------------------------------
  // The checker's rules restated on the sequence of token kinds, so that
  // the parser reasons about kinds and not about the lexical classes

  /** What a token of kind `k` is known to be. */
  predicate OfKind(token: string, k: Kind) {
    match k
    case Open => token == "("
    case Close => token == ")"
    case Operator => IsArithmeticOperator(token)
    case Operand => Evaluable(token)
    case Other => true
  }

  predicate ClassifiedAt(tokens: seq<string>, kinds: seq<Kind>, i: nat)
    requires i < |tokens| == |kinds|
  {
    OfKind(tokens[i], kinds[i])
  }

  /** `kinds` gives the kind of each token. */
  predicate Classified(tokens: seq<string>, kinds: seq<Kind>) {
    |tokens| == |kinds| && forall i :: 0 <= i < |kinds| ==> ClassifiedAt(tokens, kinds, i)
  }

  /** The nesting depth after a sequence of kinds. */
  function KindDepth(kinds: seq<Kind>): int {
    if kinds == [] then 0
    else
      var last := kinds[|kinds| - 1];
      KindDepth(kinds[..|kinds| - 1]) + (if last == Open then 1 else if last == Close then -1 else 0)
  }

  predicate FollowsAt(kinds: seq<Kind>, i: nat)
    requires 0 < i < |kinds|
  {
    Follows(kinds[i - 1], kinds[i])
  }

  predicate BalancedAt(kinds: seq<Kind>, i: nat)
    requires i <= |kinds|
  {
    KindDepth(kinds[..i]) >= 0
  }

  /** `WellFormed`, on kinds. */
  predicate WellFormedKinds(kinds: seq<Kind>) {
    |kinds| > 0 && BeginsOperand(kinds[0]) && EndsOperand(kinds[|kinds| - 1]) &&
    (forall i :: 0 < i < |kinds| ==> FollowsAt(kinds, i)) &&
    (forall i :: 0 <= i <= |kinds| ==> BalancedAt(kinds, i)) &&
    KindDepth(kinds) == 0
  }

  /** The kinds the checker gives the tokens. */
  function KindsOf(tokens: seq<string>, normalizer: string -> string, validator: string -> bool): (kinds: seq<Kind>)
    ensures |kinds| == |tokens|
    ensures forall i :: 0 <= i < |tokens| ==> kinds[i] == KindOf(tokens[i], normalizer, validator)
  {
    seq(|tokens|, i requires 0 <= i < |tokens| => KindOf(tokens[i], normalizer, validator))
  }

  lemma KindOfIsClassified(token: string, normalizer: string -> string, validator: string -> bool)
    ensures OfKind(token, KindOf(token, normalizer, validator))
  {
  }

  lemma {:induction false} DepthOfKinds(tokens: seq<string>, normalizer: string -> string, validator: string -> bool, i: nat)
    requires i <= |tokens|
    ensures Depth(tokens[..i]) == KindDepth(KindsOf(tokens, normalizer, validator)[..i])
  {
    var kinds := KindsOf(tokens, normalizer, validator);
    if i == 0 {
      assert tokens[..0] == [] && kinds[..0] == [];
    } else {
      DepthOfKinds(tokens, normalizer, validator, i - 1);
      CountsOfLongerPrefix(tokens, i - 1);
      assert kinds[..i][..i - 1] == kinds[..i - 1];
    }
  }

  /** A sequence the checker accepts has well-formed, faithful kinds. */
  lemma WellFormedHasKinds(tokens: seq<string>, normalizer: string -> string, validator: string -> bool)
    requires WellFormed(tokens, normalizer, validator)
    ensures Classified(tokens, KindsOf(tokens, normalizer, validator))
    ensures WellFormedKinds(KindsOf(tokens, normalizer, validator))
  {
    var kinds := KindsOf(tokens, normalizer, validator);
    forall i | 0 <= i < |kinds|
      ensures ClassifiedAt(tokens, kinds, i)
    {
      KindOfIsClassified(tokens[i], normalizer, validator);
    }
    forall i | 0 < i < |kinds|
      ensures FollowsAt(kinds, i)
    {
      assert AdjacentAt(tokens, normalizer, validator, i);
    }
    forall i | 0 <= i <= |kinds|
      ensures BalancedAt(kinds, i)
    {
      assert NotOverClosedAt(tokens, i);
      DepthOfKinds(tokens, normalizer, validator, i);
    }
    DepthOfKinds(tokens, normalizer, validator, |tokens|);
    assert tokens[..|tokens|] == tokens && kinds[..|kinds|] == kinds;
  }

  // ---------------------------------------------------------------------
  // The parser, over token sequences the checker accepts

  /**
   * `tokens[i..j]` is a non-empty, parenthesis-balanced stretch spelled by
   * `spelled`, ending in an operand or ")", and followed (if anything
   * follows) by ")" or an operator.
   */
  predicate Parsed(tokens: seq<string>, kinds: seq<Kind>, i: nat, j: nat, spelled: seq<string>) {
    i < j <= |tokens| == |kinds| && spelled == tokens[i..j] &&
    KindDepth(kinds[..j]) == KindDepth(kinds[..i]) &&
    EndsOperand(kinds[j - 1]) &&
    (j < |kinds| ==> kinds[j] == Close || kinds[j] == Kind.Operator)
  }

  /** Facts about well-formed kinds the parser relies on, one position at a time. */
  lemma AfterOpenOrOperator(kinds: seq<Kind>, i: nat)
    requires WellFormedKinds(kinds)
    requires i < |kinds| && (kinds[i] == Open || kinds[i] == Kind.Operator)
    ensures i + 1 < |kinds| && BeginsOperand(kinds[i + 1])
  {
    assert i + 1 < |kinds|;
    assert FollowsAt(kinds, i + 1);
  }

  lemma AfterOperandOrClose(kinds: seq<Kind>, i: nat)
    requires WellFormedKinds(kinds)
    requires i < |kinds| && EndsOperand(kinds[i])
    ensures i + 1 < |kinds| ==> kinds[i + 1] == Close || kinds[i + 1] == Kind.Operator
  {
    if i + 1 < |kinds| {
      assert FollowsAt(kinds, i + 1);
    }
  }

  lemma DepthStep(kinds: seq<Kind>, i: nat)
    requires i < |kinds|
    ensures KindDepth(kinds[..i + 1]) ==
      KindDepth(kinds[..i]) + (if kinds[i] == Open then 1 else if kinds[i] == Close then -1 else 0)
  {
    assert kinds[..i + 1][..i] == kinds[..i];
  }

  lemma DepthBounds(kinds: seq<Kind>, i: nat)
    requires WellFormedKinds(kinds) && i <= |kinds|
    ensures KindDepth(kinds[..i]) >= 0
    ensures i == |kinds| ==> KindDepth(kinds[..i]) == 0
  {
    assert BalancedAt(kinds, i);
    assert kinds[..|kinds|] == kinds;
  }

  /** An operand on its own is a parsed factor. */
  lemma AtomStep(tokens: seq<string>, kinds: seq<Kind>, i: nat)
    requires Classified(tokens, kinds) && WellFormedKinds(kinds)
    requires i < |kinds| && kinds[i] == Operand
    ensures ValidFactor(Atom(tokens[i]))
    ensures Parsed(tokens, kinds, i, i + 1, FactorTokens(Atom(tokens[i])))
  {
    assert ClassifiedAt(tokens, kinds, i);
    DepthStep(kinds, i);
    AfterOperandOrClose(kinds, i);
  }

  /** An operator between two parsed stretches joins them. */
  lemma ParsedJoin(tokens: seq<string>, kinds: seq<Kind>, i: nat, j: nat, k: nat,
                   left: seq<string>, right: seq<string>)
    requires Parsed(tokens, kinds, i, j, left)
    requires j < |kinds| && kinds[j] == Kind.Operator
    requires Parsed(tokens, kinds, j + 1, k, right)
    ensures Parsed(tokens, kinds, i, k, left + [tokens[j]] + right)
  {
    DepthStep(kinds, j);
    assert tokens[i..k] == tokens[i..j] + [tokens[j]] + tokens[j + 1..k];
  }

  /** A sum parsed right after a "(" is followed by its ")", and the two enclose it. */
  lemma GroupStep(tokens: seq<string>, kinds: seq<Kind>, i: nat, inner: Sum, j: nat)
    requires Classified(tokens, kinds) && WellFormedKinds(kinds)
    requires i < |kinds| && kinds[i] == Open
    requires Parsed(tokens, kinds, i + 1, j, SumTokens(inner))
    requires j < |kinds| ==> kinds[j] == Close
    ensures j < |kinds| && Parsed(tokens, kinds, i, j + 1, FactorTokens(Group(inner)))
  {
    DepthStep(kinds, i);
    DepthBounds(kinds, i);
    DepthBounds(kinds, j);
    assert j < |kinds|;
    DepthStep(kinds, j);
    AfterOperandOrClose(kinds, j);
    assert ClassifiedAt(tokens, kinds, i) && ClassifiedAt(tokens, kinds, j);
    Bracketed(tokens, i, j);
  }

  /** A slice is its first element, its inside and its last element. */
  lemma Bracketed(tokens: seq<string>, i: nat, j: nat)
    requires i < j < |tokens|
    ensures tokens[i..j + 1] == [tokens[i]] + tokens[i + 1..j] + [tokens[j]]
  {
    assert tokens[i..j + 1] == [tokens[i]] + tokens[i + 1..j + 1];
    assert tokens[i + 1..j + 1] == tokens[i + 1..j] + [tokens[j]];
  }

  /** The operator at `j`, by its kind. */
  function OperatorAt(tokens: seq<string>, kinds: seq<Kind>, j: nat): (op: ArithmeticOperator)
    requires Classified(tokens, kinds)
    requires j < |kinds| && kinds[j] == Kind.Operator
    ensures Symbol(op) == tokens[j]
  {
    assert ClassifiedAt(tokens, kinds, j);
    ArithmeticOf(tokens[j])
  }

  function ParseFactor(tokens: seq<string>, kinds: seq<Kind>, i: nat): (r: (Factor, nat))
    requires Classified(tokens, kinds) && WellFormedKinds(kinds)
    requires i < |kinds| && BeginsOperand(kinds[i])
    ensures ValidFactor(r.0)
    ensures Parsed(tokens, kinds, i, r.1, FactorTokens(r.0))
    decreases |kinds| - i, 1
  {
    if kinds[i] == Operand then
      AtomStep(tokens, kinds, i);
      (Atom(tokens[i]), i + 1)
    else
      ParseGroup(tokens, kinds, i)
  }

  /** A parenthesised sum starting at the "(" at `i`. */
  function ParseGroup(tokens: seq<string>, kinds: seq<Kind>, i: nat): (r: (Factor, nat))
    requires Classified(tokens, kinds) && WellFormedKinds(kinds)
    requires i < |kinds| && kinds[i] == Open
    ensures ValidFactor(r.0)
    ensures Parsed(tokens, kinds, i, r.1, FactorTokens(r.0))
    decreases |kinds| - i, 0
  {
    AfterOpenOrOperator(kinds, i);
    var parsed := ParseSum(tokens, kinds, i + 1);
    var inner, j := parsed.0, parsed.1;
    GroupStep(tokens, kinds, i, inner, j);
    (Group(inner), j + 1)
  }

  function ParseTerm(tokens: seq<string>, kinds: seq<Kind>, i: nat): (r: (Term, nat))
    requires Classified(tokens, kinds) && WellFormedKinds(kinds)
    requires i < |kinds| && BeginsOperand(kinds[i])
    ensures ValidTerm(r.0)
    ensures Parsed(tokens, kinds, i, r.1, TermTokens(r.0))
    ensures r.1 < |kinds| && kinds[r.1] == Kind.Operator ==> OperatorAt(tokens, kinds, r.1).LowLevel()
    decreases |kinds| - i, 2
  {
    var parsed := ParseFactor(tokens, kinds, i);
    TermTail(tokens, kinds, i, Leading(parsed.0), parsed.1)
  }

  /** Extends the term `acc`, spelled by `tokens[i..j]`, by further factors. */
  function TermTail(tokens: seq<string>, kinds: seq<Kind>, i: nat, acc: Term, j: nat): (r: (Term, nat))
    requires Classified(tokens, kinds) && WellFormedKinds(kinds)
    requires ValidTerm(acc) && Parsed(tokens, kinds, i, j, TermTokens(acc))
    ensures ValidTerm(r.0)
    ensures Parsed(tokens, kinds, i, r.1, TermTokens(r.0))
    ensures r.1 < |kinds| && kinds[r.1] == Kind.Operator ==> OperatorAt(tokens, kinds, r.1).LowLevel()
    decreases |kinds| - j, 3
  {
    if j < |kinds| && kinds[j] == Kind.Operator && OperatorAt(tokens, kinds, j).HighLevel() then
      var op := OperatorAt(tokens, kinds, j);
      AfterOpenOrOperator(kinds, j);
      var parsed := ParseFactor(tokens, kinds, j + 1);
      var f, k := parsed.0, parsed.1;
      ParsedJoin(tokens, kinds, i, j, k, TermTokens(acc), FactorTokens(f));
      TermTail(tokens, kinds, i, Product(acc, op, f), k)
    else
      (acc, j)
  }

  function ParseSum(tokens: seq<string>, kinds: seq<Kind>, i: nat): (r: (Sum, nat))
    requires Classified(tokens, kinds) && WellFormedKinds(kinds)
    requires i < |kinds| && BeginsOperand(kinds[i])
    ensures ValidSum(r.0)
    ensures Parsed(tokens, kinds, i, r.1, SumTokens(r.0))
    ensures r.1 < |kinds| ==> kinds[r.1] == Close
    decreases |kinds| - i, 3
  {
    var parsed := ParseTerm(tokens, kinds, i);
    SumTail(tokens, kinds, i, Single(parsed.0), parsed.1)
  }

  /** Extends the sum `acc`, spelled by `tokens[i..j]`, by further terms. */
  function SumTail(tokens: seq<string>, kinds: seq<Kind>, i: nat, acc: Sum, j: nat): (r: (Sum, nat))
    requires Classified(tokens, kinds) && WellFormedKinds(kinds)
    requires ValidSum(acc) && Parsed(tokens, kinds, i, j, SumTokens(acc))
    requires j < |kinds| && kinds[j] == Kind.Operator ==> OperatorAt(tokens, kinds, j).LowLevel()
    ensures ValidSum(r.0)
    ensures Parsed(tokens, kinds, i, r.1, SumTokens(r.0))
    ensures r.1 < |kinds| ==> kinds[r.1] == Close
    decreases |kinds| - j, 4
  {
    if j < |kinds| && kinds[j] == Kind.Operator then
      var op := OperatorAt(tokens, kinds, j);
      AfterOpenOrOperator(kinds, j);
      var parsed := ParseTerm(tokens, kinds, j + 1);
      var t, k := parsed.0, parsed.1;
      ParsedJoin(tokens, kinds, i, j, k, SumTokens(acc), TermTokens(t));
      SumTail(tokens, kinds, i, Combine(acc, op, t), k)
    else
      (acc, j)
  }

  /** A sum parsed from the start runs to the end: a ")" after it would close too much. */
  lemma ParsedWhole(tokens: seq<string>, kinds: seq<Kind>, s: Sum, j: nat)
    requires WellFormedKinds(kinds)
    requires Parsed(tokens, kinds, 0, j, SumTokens(s))
    requires j < |kinds| ==> kinds[j] == Close
    ensures SumTokens(s) == tokens
  {
    assert kinds[..0] == [];
    if j < |kinds| {
      DepthStep(kinds, j);
      DepthBounds(kinds, j + 1);
      assert false;
    }
    assert tokens[0..j] == tokens;
  }

  /**
   * Every token sequence the checker accepts is the spelling of the tree
   * this returns.
   */
  function Parse(tokens: seq<string>, normalizer: string -> string, validator: string -> bool): (s: Sum)
    requires WellFormed(tokens, normalizer, validator)
    ensures ValidSum(s)
    ensures SumTokens(s) == tokens
  {
    var kinds := KindsOf(tokens, normalizer, validator);
    WellFormedHasKinds(tokens, normalizer, validator);
    var parsed := ParseSum(tokens, kinds, 0);
    ParsedWhole(tokens, kinds, parsed.0, parsed.1);
    parsed.0
  }
}
