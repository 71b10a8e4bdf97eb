/** AstBuilder: shapes a parse tree into an expression tree. Binary chains are
    folded to the left, prefix operator chains are nested with the first token
    outermost, parentheses vanish. Thrown exceptions become `Err`. */
module AstBuilder {
  import opened Results
  import opened Ast
  import opened ParseTree
  import TermCellPointer

  // ---------------------------------------------------------------------------
  // Binary chains (VisitBinaryExpression)
  // ---------------------------------------------------------------------------

  /** The meaning of VisitBinaryExpression: the chain of the first k operands is
      the chain of the first k-1 with one more BinaryOp on top. Errors come from
      the leftmost faulty position, as the left-to-right loop meets them. */
  function BinaryChain(expressions: seq<Option<Expr>>, operators: seq<string>): (r: Result<Expr>)
    ensures r.Ok? && |expressions| > 1 ==> r.value.BinaryOp? && r.value.right == expressions[|expressions| - 1]
    ensures r.Ok? && |expressions| == 1 ==> Some(r.value) == expressions[0]
    ensures r.Err? && |expressions| > 0 ==> r.error in {IndexOutOfRange, NullOperand(true), NullOperand(false)}
    ensures |expressions| == 0 ==> r == Err(IndexOutOfRange)
  {
    if |expressions| == 0 then Err(IndexOutOfRange)
    else if |expressions| == 1 then
      if expressions[0].None? then Err(NullOperand(true)) else Ok(expressions[0].value)
    else
      var n := |expressions|;
      match BinaryChain(expressions[..n - 1], operators)
      case Err(e) => Err(e)
      case Ok(left) =>
        if expressions[n - 1].None? then Err(NullOperand(false))
        else if n - 2 >= |operators| then Err(IndexOutOfRange)
        else Ok(BinaryOp(left, expressions[n - 1], operators[n - 2]))
  }

  /** The for-loop of VisitBinaryExpression, reassigning `leftOrPrimary`. */
  method FoldBinaryChain(expressions: seq<Option<Expr>>, operators: seq<string>) returns (r: Result<Expr>)
    ensures r == BinaryChain(expressions, operators)
  {
    if |expressions| == 0 {
      return Err(IndexOutOfRange);
    }
    if expressions[0].None? {
      ChainPrefixError(expressions, operators, 1);
      return Err(NullOperand(true));
    }
    var leftOrPrimary := expressions[0].value;
    if |expressions| == 1 {
      return Ok(leftOrPrimary);
    }
    for i := 1 to |expressions|
      invariant BinaryChain(expressions[..i], operators) == Ok(leftOrPrimary)
    {
      assert expressions[..i + 1][..i] == expressions[..i];
      if expressions[i].None? {
        ChainPrefixError(expressions, operators, i + 1);
        return Err(NullOperand(false));
      }
      if i - 1 >= |operators| {
        ChainPrefixError(expressions, operators, i + 1);
        return Err(IndexOutOfRange);
      }
      leftOrPrimary := BinaryOp(leftOrPrimary, expressions[i], operators[i - 1]);
    }
    assert expressions[..|expressions|] == expressions;
    return Ok(leftOrPrimary);
  }

  /** An error in a non-empty prefix of the chain is the error of the whole chain. */
  lemma {:induction false} ChainPrefixError(expressions: seq<Option<Expr>>, operators: seq<string>, k: nat)
    requires 1 <= k <= |expressions|
    requires BinaryChain(expressions[..k], operators).Err?
    ensures BinaryChain(expressions, operators) == BinaryChain(expressions[..k], operators)
  {
    if k < |expressions| {
      var n := |expressions|;
      assert expressions[..n - 1][..k] == expressions[..k];
      ChainPrefixError(expressions[..n - 1], operators, k);
    } else {
      assert expressions[..k] == expressions;
    }
  }

  /** The operand values of a chain without null entries. */
  function Values(expressions: seq<Option<Expr>>): (vs: seq<Expr>)
    requires forall j :: 0 <= j < |expressions| ==> expressions[j].Some?
    ensures |vs| == |expressions|
    ensures forall j :: 0 <= j < |vs| ==> Some(vs[j]) == expressions[j]
  {
    if expressions == [] then []
    else Values(expressions[..|expressions| - 1]) + [expressions[|expressions| - 1].value]
  }

  /** The inverse of the left fold: peels n binary nodes off the left spine,
      collecting the right operands and the operators back in token order. */
  function Spine(e: Expr, n: nat): (seq<Expr>, seq<string>)
  {
    if n == 0 then ([e], [])
    else match e
      case BinaryOp(left, Some(right), op) =>
        var (operands, operators) := Spine(left, n - 1);
        (operands + [right], operators + [op])
      case _ => ([e], [])
  }

  /** The chain succeeds exactly when there is an operand, no operand is null and
      there is an operator between every two operands. */
  lemma {:induction false} ChainSucceeds(expressions: seq<Option<Expr>>, operators: seq<string>)
    ensures BinaryChain(expressions, operators).Ok? <==>
      (|expressions| >= 1 && |operators| >= |expressions| - 1 &&
       forall j :: 0 <= j < |expressions| ==> expressions[j].Some?)
  {
    if |expressions| > 1 {
      var n := |expressions|;
      ChainSucceeds(expressions[..n - 1], operators);
      assert forall j :: 0 <= j < n - 1 ==> expressions[..n - 1][j] == expressions[j];
    }
  }

  /** A successful chain is a left fold: peeling its spine recovers every operand
      and the operators used, in token order, so the fold loses nothing. */
  lemma {:induction false} ChainSpine(expressions: seq<Option<Expr>>, operators: seq<string>)
    requires BinaryChain(expressions, operators).Ok?
    ensures forall j :: 0 <= j < |expressions| ==> expressions[j].Some?
    ensures Spine(BinaryChain(expressions, operators).value, |expressions| - 1)
      == (Values(expressions), operators[..|expressions| - 1])
  {
    ChainSucceeds(expressions, operators);
    var n := |expressions|;
    if n > 1 {
      var prefix := expressions[..n - 1];
      ChainSpine(prefix, operators);
      var left := BinaryChain(prefix, operators).value;
      assert BinaryChain(expressions, operators).value == BinaryOp(left, Some(expressions[n - 1].value), operators[n - 2]);
      assert Values(expressions) == Values(prefix) + [expressions[n - 1].value];
      assert operators[..n - 1] == operators[..n - 2] + [operators[n - 2]];
    } else {
      assert expressions[..0] == [];
      assert Values(expressions) == [expressions[0].value];
    }
  }

  /** e0 op0 e1 op1 e2 becomes BinaryOp(BinaryOp(e0, e1, op0), e2, op1). */
  lemma ChainOfThree(e0: Expr, e1: Expr, e2: Expr, op0: string, op1: string)
    ensures BinaryChain([Some(e0), Some(e1), Some(e2)], [op0, op1])
      == Ok(BinaryOp(BinaryOp(e0, Some(e1), op0), Some(e2), op1))
  {
    assert [Some(e0), Some(e1), Some(e2)][..2] == [Some(e0), Some(e1)];
    assert [Some(e0), Some(e1)][..1] == [Some(e0)];
    assert BinaryChain([Some(e0)], [op0, op1]) == Ok(e0);
    assert BinaryChain([Some(e0), Some(e1)], [op0, op1]) == Ok(BinaryOp(e0, Some(e1), op0));
  }

  /** Every binary node a chain creates has a right side, and none is lost below. */
  lemma {:induction false} ChainRightsPresent(expressions: seq<Option<Expr>>, operators: seq<string>)
    requires forall j :: 0 <= j < |expressions| ==> expressions[j].Some? && RightsPresent(expressions[j].value)
    ensures BinaryChain(expressions, operators).Ok? ==> RightsPresent(BinaryChain(expressions, operators).value)
  {
    if |expressions| > 1 {
      ChainRightsPresent(expressions[..|expressions| - 1], operators);
    }
  }

  // ---------------------------------------------------------------------------
  // Unary chains (VisitUnaryExpression)
  // ---------------------------------------------------------------------------

  /** The first operator token is the outermost node, the last the innermost. */
  function Nest(operations: seq<string>, term: Expr): Expr
  {
    if operations == [] then term
    else UnaryOp(Nest(operations[1..], term), operations[0])
  }

  /** The reversed foreach of VisitUnaryExpression, re-wrapping `term`. */
  method WrapUnaryOps(operations: seq<string>, term: Expr) returns (r: Expr)
    ensures r == Nest(operations, term)
  {
    r := term;
    var i := |operations|;
    while i > 0
      invariant 0 <= i <= |operations|
      invariant r == Nest(operations[i..], term)
    {
      i := i - 1;
      assert operations[i..][1..] == operations[i + 1..];
      r := UnaryOp(r, operations[i]);
    }
  }

  /** Peels n unary nodes, collecting their operators from the outside in. */
  function Peel(e: Expr, n: nat): (seq<string>, Expr)
  {
    if n == 0 then ([], e)
    else match e
      case UnaryOp(operand, op) =>
        var (operations, term) := Peel(operand, n - 1);
        ([op] + operations, term)
      case _ => ([], e)
  }

  /** k tokens give exactly k nested nodes, in token order from the outside in. */
  lemma {:induction false} PeelNest(operations: seq<string>, term: Expr)
    ensures Peel(Nest(operations, term), |operations|) == (operations, term)
  {
    if operations != [] {
      PeelNest(operations[1..], term);
      assert [operations[0]] + operations[1..] == operations;
    }
  }

  /** The last token is applied directly to the term. */
  lemma {:induction false} NestLastInnermost(operations: seq<string>, term: Expr)
    requires operations != []
    ensures Nest(operations, term)
      == Nest(operations[..|operations| - 1], UnaryOp(term, operations[|operations| - 1]))
  {
    if |operations| > 1 {
      NestLastInnermost(operations[1..], term);
      assert operations[1..][..|operations| - 2] == operations[..|operations| - 1][1..];
    }
  }

  lemma {:induction false} NestRightsPresent(operations: seq<string>, term: Expr)
    ensures RightsPresent(Nest(operations, term)) == RightsPresent(term)
  {
    if operations != [] {
      NestRightsPresent(operations[1..], term);
    }
  }

  // ---------------------------------------------------------------------------
  // The visitor
  // ---------------------------------------------------------------------------

  function VisitExpression(c: ExpressionCtx): (r: Result<Expr>)
    ensures r.Ok? ==> RightsPresent(r.value)
    ensures r.Err? ==> BuildFailure(r.error)
    decreases c, 1
  {
    VisitAdditionExpression(c.addition)
  }

  function VisitAdditionExpression(c: AdditionCtx): (r: Result<Expr>)
    ensures r.Ok? ==> RightsPresent(r.value)
    ensures r.Err? ==> BuildFailure(r.error)
    decreases c, 1
  {
    match VisitMultiplications(c, 0)
    case Err(e) => Err(e)
    case Ok(expressions) =>
      ChainRightsPresent(expressions, c.operators);
      BinaryChain(expressions, c.operators)
  }

  /** The operands of an addition level, visited left to right. */
  function VisitMultiplications(c: AdditionCtx, i: nat): (r: Result<seq<Option<Expr>>>)
    requires i <= |c.operands|
    ensures r.Ok? ==> |r.value| == |c.operands| - i
    ensures r.Err? ==> BuildFailure(r.error)
    ensures r.Ok? ==> forall j :: 0 <= j < |r.value| ==> r.value[j].Some? && RightsPresent(r.value[j].value)
    decreases c, 0, |c.operands| - i
  {
    if i == |c.operands| then Ok([])
    else
      match VisitMultiplicationExpression(c.operands[i])
      case Err(e) => Err(e)
      case Ok(x) =>
        match VisitMultiplications(c, i + 1)
        case Err(e) => Err(e)
        case Ok(xs) => Ok([Some(x)] + xs)
  }

  function VisitMultiplicationExpression(c: MultiplicationCtx): (r: Result<Expr>)
    ensures r.Ok? ==> RightsPresent(r.value)
    ensures r.Err? ==> BuildFailure(r.error)
    decreases c, 1
  {
    match VisitPowers(c, 0)
    case Err(e) => Err(e)
    case Ok(expressions) =>
      ChainRightsPresent(expressions, c.operators);
      BinaryChain(expressions, c.operators)
  }

  /** The operands of a multiplication level, visited left to right. */
  function VisitPowers(c: MultiplicationCtx, i: nat): (r: Result<seq<Option<Expr>>>)
    requires i <= |c.operands|
    ensures r.Ok? ==> |r.value| == |c.operands| - i
    ensures r.Err? ==> BuildFailure(r.error)
    ensures r.Ok? ==> forall j :: 0 <= j < |r.value| ==> r.value[j].Some? && RightsPresent(r.value[j].value)
    decreases c, 0, |c.operands| - i
  {
    if i == |c.operands| then Ok([])
    else
      match VisitPowerExpression(c.operands[i])
      case Err(e) => Err(e)
      case Ok(x) =>
        match VisitPowers(c, i + 1)
        case Err(e) => Err(e)
        case Ok(xs) => Ok([Some(x)] + xs)
  }

  function VisitPowerExpression(c: PowerCtx): (r: Result<Expr>)
    ensures r.Ok? ==> RightsPresent(r.value)
    ensures r.Err? ==> BuildFailure(r.error)
    decreases c, 1
  {
    match VisitUnaries(c, 0)
    case Err(e) => Err(e)
    case Ok(expressions) =>
      ChainRightsPresent(expressions, c.operators);
      BinaryChain(expressions, c.operators)
  }

  /** The operands of a power level, visited left to right. */
  function VisitUnaries(c: PowerCtx, i: nat): (r: Result<seq<Option<Expr>>>)
    requires i <= |c.operands|
    ensures r.Ok? ==> |r.value| == |c.operands| - i
    ensures r.Err? ==> BuildFailure(r.error)
    ensures r.Ok? ==> forall j :: 0 <= j < |r.value| ==> r.value[j].Some? && RightsPresent(r.value[j].value)
    decreases c, 0, |c.operands| - i
  {
    if i == |c.operands| then Ok([])
    else
      match VisitUnaryExpression(c.operands[i])
      case Err(e) => Err(e)
      case Ok(x) =>
        match VisitUnaries(c, i + 1)
        case Err(e) => Err(e)
        case Ok(xs) => Ok([Some(x)] + xs)
  }

  function VisitUnaryExpression(c: UnaryCtx): (r: Result<Expr>)
    ensures r.Ok? ==> RightsPresent(r.value)
    ensures r.Err? ==> BuildFailure(r.error)
    decreases c, 1
  {
    match VisitTerm(c.term)
    case Err(e) => Err(e)
    case Ok(term) =>
      NestRightsPresent(c.prefix, term);
      Ok(Nest(c.prefix, term))
  }

  function VisitTerm(c: TermCtx): (r: Result<Expr>)
    ensures r.Ok? ==> RightsPresent(r.value)
    ensures r.Err? ==> BuildFailure(r.error)
    ensures c.EmptyTerm? ==> r == Err(UnsupportedTerm)
    decreases c, 1
  {
    match c
    case ParenTerm(inner) => VisitExpression(inner)
    case NumberTerm(value) => Ok(Number(value))
    case CellTerm(text) =>
      (match TermCellPointer.Parse(text)
       case Err(e) => Err(e)
       case Ok(a) => Ok(CellRef(a)))
    case CallTerm(call) => VisitFunctionCall(call)
    case EmptyTerm => Err(UnsupportedTerm)
  }

  function VisitFunctionCall(c: FunctionCallCtx): (r: Result<Expr>)
    ensures r.Ok? ==> RightsPresent(r.value)
    ensures r.Err? ==> BuildFailure(r.error)
    decreases c, 1
  {
    match VisitExpression(c.argument)
    case Err(e) => Err(e)
    case Ok(argument) => Ok(FunctionCall(c.name, argument))
  }

  // ---------------------------------------------------------------------------
  // Shapes of whole trees
  // ---------------------------------------------------------------------------

  /** A level with a single operand returns that operand's own tree, with no
      BinaryOp around it, whatever operator tokens the level holds. */
  lemma SingleOperandUnwrapped(u: UnaryCtx, operators: seq<string>)
    ensures VisitPowerExpression(PowerCtx([u], operators)) == VisitUnaryExpression(u)
  {
    var c := PowerCtx([u], operators);
    assert VisitUnaries(c, 1) == Ok([]);
    if VisitUnaryExpression(u).Ok? {
      var one: seq<Option<Expr>> := [Some(VisitUnaryExpression(u).value)];
      assert one + [] == one;
      assert VisitUnaries(c, 0) == Ok(one);
    }
  }

  lemma SingleMultiplicationOperand(p: PowerCtx, operators: seq<string>)
    ensures VisitMultiplicationExpression(MultiplicationCtx([p], operators)) == VisitPowerExpression(p)
  {
    var c := MultiplicationCtx([p], operators);
    assert VisitPowers(c, 1) == Ok([]);
    if VisitPowerExpression(p).Ok? {
      var one: seq<Option<Expr>> := [Some(VisitPowerExpression(p).value)];
      assert one + [] == one;
      assert VisitPowers(c, 0) == Ok(one);
    }
  }

  lemma SingleAdditionOperand(m: MultiplicationCtx, operators: seq<string>)
    ensures VisitAdditionExpression(AdditionCtx([m], operators)) == VisitMultiplicationExpression(m)
  {
    var c := AdditionCtx([m], operators);
    assert VisitMultiplications(c, 1) == Ok([]);
    if VisitMultiplicationExpression(m).Ok? {
      var one: seq<Option<Expr>> := [Some(VisitMultiplicationExpression(m).value)];
      assert one + [] == one;
      assert VisitMultiplications(c, 0) == Ok(one);
    }
  }

  /** When every operand of a power level builds, the operand list holds their
      trees in order. */
  lemma {:induction false} UnariesAllBuilt(c: PowerCtx, i: nat)
    requires i <= |c.operands|
    requires forall j :: i <= j < |c.operands| ==> VisitUnaryExpression(c.operands[j]).Ok?
    ensures VisitUnaries(c, i).Ok?
    ensures forall j :: 0 <= j < |c.operands| - i ==>
      VisitUnaries(c, i).value[j] == Some(VisitUnaryExpression(c.operands[i + j]).value)
    decreases |c.operands| - i
  {
    if i < |c.operands| {
      UnariesAllBuilt(c, i + 1);
    }
  }

  /** `a ** b ** c` is folded to the left, as `(a ** b) ** c`. */
  lemma PowerFoldsLeft(c: PowerCtx, x: Expr, y: Expr, z: Expr)
    requires |c.operands| == 3 && c.operators == ["**", "**"]
    requires VisitUnaryExpression(c.operands[0]) == Ok(x)
    requires VisitUnaryExpression(c.operands[1]) == Ok(y)
    requires VisitUnaryExpression(c.operands[2]) == Ok(z)
    ensures VisitPowerExpression(c) == Ok(BinaryOp(BinaryOp(x, Some(y), "**"), Some(z), "**"))
  {
    UnariesAllBuilt(c, 0);
    var built := VisitUnaries(c, 0).value;
    assert built[0] == Some(x) && built[1] == Some(y) && built[2] == Some(z);
    assert built == [Some(x), Some(y), Some(z)];
    ChainOfThree(x, y, z, "**", "**");
  }

  /** A parenthesised expression builds to the inner expression's own tree. */
  lemma ParenthesesDropped(inner: ExpressionCtx)
    ensures VisitExpression(Parenthesised(inner)) == VisitExpression(inner)
  {
    var u := UnaryCtx([], ParenTerm(inner));
    var p := PowerCtx([u], []);
    var m := MultiplicationCtx([p], []);
    SingleOperandUnwrapped(u, []);
    SingleMultiplicationOperand(p, []);
    SingleAdditionOperand(m, []);
  }

  /** A call builds to FunctionCall(name token, built argument); an argument
      that fails to build fails the call with the same error. */
  lemma FunctionCallShape(name: string, argument: ExpressionCtx)
    ensures VisitTerm(CallTerm(FunctionCallCtx(name, argument))) ==
      match VisitExpression(argument)
      case Ok(e) => Ok(FunctionCall(name, e))
      case Err(err) => Err(err)
  {
  }

  /** A cell term holds the address its text denotes; text that is no address
      fails with the codec's error. */
  lemma CellTermShape(text: string)
    ensures VisitTerm(CellTerm(text)).Ok? <==> TermCellPointer.Parse(text).Ok?
    ensures VisitTerm(CellTerm(text)).Ok? ==> VisitTerm(CellTerm(text)).value == CellRef(TermCellPointer.Parse(text).value)
  {
  }
}
