/** The older evaluator (GridCalculator at the repository root). It walks the
    same expression tree as the current one, with fewer operators, no function
    calls, and a self-reference test on the raw text instead of on the
    extracted addresses. */
module LegacyGridCalculator {
  import opened Results
  import opened Ast
  import opened Formula
  import CP = CellPointer
  import GC = GridCalculator

  function Evaluate(env: Env, input: string, fuel: nat): (r: Result<real>)
    decreases fuel, 1
  {
    if input == "" then Ok(0.0)
    else
      match Build(env, input)
      case Err(e) => Err(e)
      case Ok(expr) => EvaluateExpression(env, expr, fuel)
  }

  /** `t` occurs in `s` as a contiguous piece (string.Contains). */
  predicate Contains(s: string, t: string)
    decreases |s|
  {
    t <= s || (s != [] && Contains(s[1..], t))
  }

  lemma {:induction false} ShorterNotContained(s: string, t: string)
    requires |s| < |t|
    ensures !Contains(s, t)
    decreases |s|
  {
    if s != [] {
      ShorterNotContained(s[1..], t);
    }
  }

  /** EvaluateForCell: refuse any formula whose text contains the cell's own
      text form, else evaluate it. */
  function EvaluateForCell(env: Env, input: string, self: CP.Addr, fuel: nat): (r: Result<real>)
  {
    if Contains(input, CP.ToString(self)) then Err(SelfReference)
    else Evaluate(env, input, fuel)
  }

  /** Empty text is 0, and so is a reference to an empty cell. */
  lemma EmptyCellIsZero(env: Env, a: CP.Addr, fuel: nat)
    ensures Evaluate(env, "", fuel) == Ok(0.0)
    ensures env.cellData(a) == "" && fuel >= 1 ==> EvaluateExpression(env, CellRef(a), fuel) == Ok(0.0)
  {
  }

  /** The value of each handled node once its operands have values: `-`
      negates, and the binary operators compute left op right. */
  lemma NodeValues(env: Env, x: Expr, y: Expr, a: real, b: real, fuel: nat)
    requires EvaluateExpression(env, x, fuel) == Ok(a) && EvaluateExpression(env, y, fuel) == Ok(b)
    ensures EvaluateExpression(env, UnaryOp(x, ""), fuel) == Ok(a)
    ensures EvaluateExpression(env, UnaryOp(x, "+"), fuel) == Ok(a)
    ensures EvaluateExpression(env, UnaryOp(x, "-"), fuel) == Ok(-a)
    ensures EvaluateExpression(env, BinaryOp(x, Some(y), "+"), fuel) == Ok(a + b)
    ensures EvaluateExpression(env, BinaryOp(x, Some(y), "-"), fuel) == Ok(a - b)
    ensures EvaluateExpression(env, BinaryOp(x, Some(y), "*"), fuel) == Ok(a * b)
    ensures b != 0.0 ==> EvaluateExpression(env, BinaryOp(x, Some(y), "/"), fuel) == Ok(a / b)
    ensures b != 0.0 ==> EvaluateExpression(env, BinaryOp(x, Some(y), "%"), fuel) == Ok(env.rem(a, b))
  {
    assert EvaluateBinaryOp(env, "*", a, b) == Ok(a * b);
  }

  /** A FunctionCall node is of no handled kind and fails before its argument
      is looked at. */
  function EvaluateExpression(env: Env, e: Expr, fuel: nat): (r: Result<real>)
    decreases fuel, 0, e
  {
    match e
    case Number(v) => Ok(v)
    case UnaryOp(x, op) =>
      (match EvaluateExpression(env, x, fuel)
       case Err(err) => Err(err)
       case Ok(v) => EvaluateUnaryOp(op, v))
    case CellRef(a) =>
      if fuel == 0 then Err(OutOfFuel)
      else Evaluate(env, env.cellData(a), fuel - 1)
    case BinaryOp(l, right, op) =>
      (match EvaluateExpression(env, l, fuel)
       case Err(err) => Err(err)
       case Ok(lv) =>
         if right.None? then Ok(lv)
         else
           match EvaluateExpression(env, right.value, fuel)
           case Err(err) => Err(err)
           case Ok(rv) => EvaluateBinaryOp(env, op, lv, rv))
    case FunctionCall(_, _) => Err(UnsupportedNode)
  }

  function EvaluateUnaryOp(op: string, v: real): Result<real>
  {
    if op == "" || op == "+" then Ok(v)
    else if op == "-" then Ok(-v)
    else Err(UnsupportedUnary(op))
  }

  function EvaluateBinaryOp(env: Env, op: string, l: real, r: real): Result<real>
  {
    if (op == "/" || op == "%") && r == 0.0 then Err(DivideByZero)
    else if op == "+" then Ok(l + r)
    else if op == "-" then Ok(l - r)
    else if op == "*" then Ok(l * r)
    else if op == "/" then Ok(l / r)
    else if op == "%" then Ok(env.rem(l, r))
    else Err(UnsupportedBinary(op))
  }

  // ---------------------------------------------------------------------------
  // Operators
  // ---------------------------------------------------------------------------

  /** Three prefix operators are understood; `++` and `--` are not. */
  lemma UnaryOperators(op: string, v: real)
    ensures EvaluateUnaryOp(op, v).Ok? <==> op in {"", "+", "-"}
    ensures EvaluateUnaryOp(op, v).Err? ==> EvaluateUnaryOp(op, v) == Err(UnsupportedUnary(op))
    ensures op in {"", "+", "-"} ==> EvaluateUnaryOp(op, v) == GC.EvaluateUnaryOp(op, v)
  {
  }

  /** Five binary operators are understood, applied as left op right; `**`
      is not, and `/` and `%` by zero fail first. */
  lemma BinaryOperators(env: Env, op: string, l: real, r: real)
    ensures EvaluateBinaryOp(env, op, l, r).Ok? <==>
      op in {"+", "-", "*"} || (op in {"/", "%"} && r != 0.0)
    ensures op in {"/", "%"} && r == 0.0 ==> EvaluateBinaryOp(env, op, l, r) == Err(DivideByZero)
    ensures op !in {"+", "-", "*", "/", "%"} ==> EvaluateBinaryOp(env, op, l, r) == Err(UnsupportedBinary(op))
    ensures op != "**" ==> EvaluateBinaryOp(env, op, l, r) == GC.EvaluateBinaryOp(env, op, l, r)
  {
    if op == "+" || op == "-" || op == "*" || op == "/" || op == "%" {
    } else if op != "**" {
      GC.BinaryOperators(env, op, l, r);
      assert EvaluateBinaryOp(env, op, l, r) == Err(UnsupportedBinary(op));
    }
  }

  /** Function calls always fail, and so do `++`, `--` and `**` once their
      operands have values, where the current evaluator computes. */
  lemma NewerNodesUnsupported(env: Env, x: Expr, y: Expr, name: string, fuel: nat)
    requires EvaluateExpression(env, x, fuel).Ok? && EvaluateExpression(env, y, fuel).Ok?
    ensures EvaluateExpression(env, FunctionCall(name, x), fuel) == Err(UnsupportedNode)
    ensures EvaluateExpression(env, UnaryOp(x, "++"), fuel) == Err(UnsupportedUnary("++"))
    ensures EvaluateExpression(env, UnaryOp(x, "--"), fuel) == Err(UnsupportedUnary("--"))
    ensures EvaluateExpression(env, BinaryOp(x, Some(y), "**"), fuel) == Err(UnsupportedBinary("**"))
  {
  }

  // ---------------------------------------------------------------------------
  // Agreement with the current evaluator
  // ---------------------------------------------------------------------------

  /** The expressions both evaluators understand in the same way. */
  predicate InFragment(e: Expr)
  {
    match e
    case Number(_) => true
    case CellRef(_) => true
    case UnaryOp(x, op) => op in {"", "+", "-"} && InFragment(x)
    case BinaryOp(l, r, op) =>
      op in {"+", "-", "*", "/", "%"} && InFragment(l) && (r.Some? ==> InFragment(r.value))
    case FunctionCall(_, _) => false
  }

  /** The formula, once built, lies in the common fragment. */
  predicate TextInFragment(env: Env, input: string)
  {
    Build(env, input).Ok? ==> InFragment(Build(env, input).value)
  }

  ghost predicate CellsInFragment(env: Env)
  {
    forall a :: TextInFragment(env, env.cellData(a))
  }

  /** On a grid whose formulas all lie in the common fragment, the older
      evaluator computes what the current one computes. */
  lemma {:induction false} EvaluateAgrees(env: Env, input: string, fuel: nat)
    requires CellsInFragment(env) && TextInFragment(env, input)
    ensures Evaluate(env, input, fuel) == GC.Evaluate(env, input, fuel)
    decreases fuel, 1
  {
    if input != "" && Build(env, input).Ok? {
      ExpressionAgrees(env, Build(env, input).value, fuel);
    }
  }

  lemma {:induction false} ExpressionAgrees(env: Env, e: Expr, fuel: nat)
    requires CellsInFragment(env) && InFragment(e)
    ensures EvaluateExpression(env, e, fuel) == GC.EvaluateExpression(env, e, fuel)
    decreases fuel, 0, e
  {
    match e
    case Number(_) =>
    case CellRef(a) =>
      if fuel > 0 {
        EvaluateAgrees(env, env.cellData(a), fuel - 1);
      }
    case UnaryOp(x, _) =>
      ExpressionAgrees(env, x, fuel);
    case BinaryOp(l, r, _) =>
      ExpressionAgrees(env, l, fuel);
      if r.Some? {
        ExpressionAgrees(env, r.value, fuel);
      }
    case FunctionCall(_, _) =>
  }

  // ---------------------------------------------------------------------------
  // Self-reference
  // ---------------------------------------------------------------------------

  lemma {:induction false} EvaluateNeverSelfReference(env: Env, input: string, fuel: nat)
    ensures Evaluate(env, input, fuel) != Err(SelfReference)
    decreases fuel, 1
  {
    if input != "" && Build(env, input).Ok? {
      ExpressionNeverSelfReference(env, Build(env, input).value, fuel);
    }
  }

  lemma {:induction false} ExpressionNeverSelfReference(env: Env, e: Expr, fuel: nat)
    ensures EvaluateExpression(env, e, fuel) != Err(SelfReference)
    decreases fuel, 0, e
  {
    match e
    case Number(_) =>
    case CellRef(a) =>
      if fuel > 0 {
        EvaluateNeverSelfReference(env, env.cellData(a), fuel - 1);
      }
    case UnaryOp(x, _) =>
      ExpressionNeverSelfReference(env, x, fuel);
    case BinaryOp(l, r, _) =>
      ExpressionNeverSelfReference(env, l, fuel);
      if r.Some? {
        ExpressionNeverSelfReference(env, r.value, fuel);
      }
    case FunctionCall(_, _) =>
  }

  /** EvaluateForCell fails with a self-reference exactly when the text
      contains the cell's own text form, and is Evaluate otherwise. */
  lemma SelfReferenceBySubstring(env: Env, input: string, self: CP.Addr, fuel: nat)
    ensures EvaluateForCell(env, input, self, fuel) == Err(SelfReference) <==> Contains(input, CP.ToString(self))
    ensures !Contains(input, CP.ToString(self)) ==> EvaluateForCell(env, input, self, fuel) == Evaluate(env, input, fuel)
  {
    EvaluateNeverSelfReference(env, input, fuel);
  }

  /** For cell $A$1 the formula "$A$10" names only $A$10: the older check
      refuses it, the current one evaluates it. */
  lemma LongerRowRefused(env: Env, input: string, fuel: nat)
    requires input == "$A$10"
    ensures EvaluateForCell(env, input, CP.Addr(1, 1), fuel) == Err(SelfReference)
    ensures CP.PointersIn(input) == [CP.Addr(1, 10)]
    ensures GC.EvaluateForCell(env, input, CP.Addr(1, 1), fuel) == GC.Evaluate(env, input, fuel)
  {
    var own := CP.ToString(CP.Addr(1, 1));
    assert own == "$A$1" by {
      assert CP.ColumnName(1) == "A";
      assert CP.IntToString(1) == "1";
    }
    assert own <= input;
    assert CP.PointersIn(input) == [CP.Addr(1, 10)] by {
      var col, row := input[1..2], input[3..];
      assert CP.TokenAt(input, 0, 2, |input|);
      CP.SingleToken(input, 2);
      assert CP.ColumnToNumber(col) == 1 by {
        assert col[..0] == [];
      }
      assert CP.DigitsValue(row) == 10 by {
        assert row[..1] == "1" && row[..1][..0] == [];
        assert CP.DigitsValue(row[..1]) == 1;
      }
    }
  }

  /** For cell $A$1 the formula "$A$01" names $A$1: the current check
      refuses it, the older one does not find "$A$1" in the text. */
  lemma LeadingZeroAccepted(env: Env, input: string, fuel: nat)
    requires input == "$A$01"
    ensures EvaluateForCell(env, input, CP.Addr(1, 1), fuel) == Evaluate(env, input, fuel)
    ensures GC.EvaluateForCell(env, input, CP.Addr(1, 1), fuel) == Err(SelfReference)
  {
    var own := CP.ToString(CP.Addr(1, 1));
    assert own == "$A$1" by {
      assert CP.ColumnName(1) == "A";
      assert CP.IntToString(1) == "1";
    }
    assert !Contains(input, own) by {
      ShorterNotContained(input[2..], own);
      assert input[1..][1..] == input[2..];
      assert input[1..][..4][0] == 'A' != own[0];
      assert input[..4][3] == '0' != own[3];
    }
    assert CP.PointersIn(input) == [CP.Addr(1, 1)] by {
      var col, row := input[1..2], input[3..];
      assert CP.TokenAt(input, 0, 2, |input|);
      CP.SingleToken(input, 2);
      assert CP.ColumnToNumber(col) == 1 by {
        assert col[..0] == [];
      }
      assert CP.DigitsValue(row) == 1 by {
        assert row[..1] == "0" && row[..1][..0] == [];
        assert CP.DigitsValue(row[..1]) == 0;
      }
    }
  }
}
