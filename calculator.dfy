/** The current evaluator (Lab1.Core GridCalculator): a recursive walk over the
    expression tree that reads referenced cells through the grid and evaluates
    their text in turn. Nothing detects an indirect cycle, so the walk carries
    fuel: each cell reference spends one unit, and `OutOfFuel` stands for an
    evaluation that never returns. */
module GridCalculator {
  import opened Results
  import opened Ast
  import opened Formula
  import CP = CellPointer

  const Inc := "inc"
  const Dec := "dec"

  /** Evaluate: empty text is 0; otherwise parse, build and evaluate. */
  function Evaluate(env: Env, input: string, fuel: nat): (r: Result<real>)
    decreases fuel, 1
  {
    if input == "" then Ok(0.0)
    else
      match Build(env, input)
      case Err(e) => Err(e)
      case Ok(expr) => EvaluateExpression(env, expr, fuel)
  }

  /** EvaluateForCell: refuse a formula that names its own cell among the
      addresses FindPointers extracts, else evaluate it. */
  function EvaluateForCell(env: Env, input: string, self: CP.Addr, fuel: nat): (r: Result<real>)
  {
    if self in CP.PointersIn(input) then Err(SelfReference)
    else Evaluate(env, input, fuel)
  }

  /** EvaluateExpression and its per-node helpers; operands are evaluated left
      to right and the first failure is the result. */
  function EvaluateExpression(env: Env, e: Expr, fuel: nat): (r: Result<real>)
    decreases fuel, 0, e
  {
    match e
    case Number(v) => Ok(v)
    case UnaryOp(x, op) =>
      (match EvaluateExpression(env, x, fuel)
       case Err(err) => Err(err)
       case Ok(v) => EvaluateUnaryOp(op, v))
    case CellRef(a) =>
      if fuel == 0 then Err(OutOfFuel)
      else Evaluate(env, env.cellData(a), fuel - 1)
    case BinaryOp(l, right, op) =>
      (match EvaluateExpression(env, l, fuel)
       case Err(err) => Err(err)
       case Ok(lv) =>
         if right.None? then Ok(lv)
         else
           match EvaluateExpression(env, right.value, fuel)
           case Err(err) => Err(err)
           case Ok(rv) => EvaluateBinaryOp(env, op, lv, rv))
    case FunctionCall(name, x) =>
      match EvaluateExpression(env, x, fuel)
      case Err(err) => Err(err)
      case Ok(v) => EvaluateFunctionCall(name, v)
  }

  function EvaluateUnaryOp(op: string, v: real): Result<real>
  {
    if op == "" || op == "+" then Ok(v)
    else if op == "-" then Ok(-v)
    else if op == "--" then Ok(v - 1.0)
    else if op == "++" then Ok(v + 1.0)
    else Err(UnsupportedUnary(op))
  }

  /** The zero test on the right operand of `/` and `%` comes before any
      arithmetic. */
  function EvaluateBinaryOp(env: Env, op: string, l: real, r: real): Result<real>
  {
    if (op == "/" || op == "%") && r == 0.0 then Err(DivideByZero)
    else if op == "+" then Ok(l + r)
    else if op == "-" then Ok(l - r)
    else if op == "*" then Ok(l * r)
    else if op == "/" then Ok(l / r)
    else if op == "%" then Ok(env.rem(l, r))
    else if op == "**" then Ok(env.pow(l, r))
    else Err(UnsupportedBinary(op))
  }

  function EvaluateFunctionCall(name: string, v: real): Result<real>
  {
    if name == Inc then Ok(v + 1.0)
    else if name == Dec then Ok(v - 1.0)
    else Err(UnsupportedFunction(name))
  }

  // ---------------------------------------------------------------------------
  // Operators
  // ---------------------------------------------------------------------------

  /** Exactly five prefix operators are understood. */
  lemma UnaryOperators(op: string, v: real)
    ensures EvaluateUnaryOp(op, v).Ok? <==> op in {"", "+", "-", "--", "++"}
    ensures EvaluateUnaryOp(op, v).Err? ==> EvaluateUnaryOp(op, v) == Err(UnsupportedUnary(op))
    ensures op in {"", "+"} ==> EvaluateUnaryOp(op, v) == Ok(v)
    ensures EvaluateUnaryOp("-", EvaluateUnaryOp("-", v).value) == Ok(v)
    ensures EvaluateUnaryOp("++", EvaluateUnaryOp("--", v).value) == Ok(v)
    ensures EvaluateUnaryOp("--", EvaluateUnaryOp("++", v).value) == Ok(v)
  {
  }

  /** Exactly two function names are understood, and they undo each other. */
  lemma FunctionNames(name: string, v: real)
    ensures EvaluateFunctionCall(name, v).Ok? <==> name == "inc" || name == "dec"
    ensures EvaluateFunctionCall(name, v).Err? ==> EvaluateFunctionCall(name, v) == Err(UnsupportedFunction(name))
    ensures EvaluateFunctionCall(Inc, EvaluateFunctionCall(Dec, v).value) == Ok(v)
    ensures EvaluateFunctionCall(Dec, EvaluateFunctionCall(Inc, v).value) == Ok(v)
  {
  }

  /** Six binary operators are understood; `/` and `%` by zero fail whatever
      the left operand, and any other operator fails as unsupported. */
  lemma BinaryOperators(env: Env, op: string, l: real, r: real)
    ensures EvaluateBinaryOp(env, op, l, r).Ok? <==>
      op in {"+", "-", "*", "**"} || (op in {"/", "%"} && r != 0.0)
    ensures op in {"/", "%"} && r == 0.0 ==> EvaluateBinaryOp(env, op, l, r) == Err(DivideByZero)
    ensures op !in {"+", "-", "*", "/", "%", "**"} ==> EvaluateBinaryOp(env, op, l, r) == Err(UnsupportedBinary(op))
    ensures EvaluateBinaryOp(env, "-", EvaluateBinaryOp(env, "+", l, r).value, r) == Ok(l)
    ensures r != 0.0 ==> EvaluateBinaryOp(env, "/", EvaluateBinaryOp(env, "*", l, r).value, r) == Ok(l)
  {
    if r != 0.0 {
      assert EvaluateBinaryOp(env, "*", l, r) == Ok(l * r);
      assert EvaluateBinaryOp(env, "/", l * r, r) == Ok((l * r) / r);
      assert (l * r) / r == l by {
        assert (l * r) / r == l * (r / r);
        assert r / r == 1.0;
      }
    }
  }

  // ---------------------------------------------------------------------------
  // Expressions
  // ---------------------------------------------------------------------------

  /** The value of each node kind once its operands have values: `-`
      negates, `--` and `++` step by one, the binary operators compute
      left op right, and `inc`/`dec` add and subtract one. */
  lemma NodeValues(env: Env, x: Expr, y: Expr, a: real, b: real, fuel: nat)
    requires EvaluateExpression(env, x, fuel) == Ok(a) && EvaluateExpression(env, y, fuel) == Ok(b)
    ensures EvaluateExpression(env, UnaryOp(x, ""), fuel) == Ok(a)
    ensures EvaluateExpression(env, UnaryOp(x, "+"), fuel) == Ok(a)
    ensures EvaluateExpression(env, UnaryOp(x, "-"), fuel) == Ok(-a)
    ensures EvaluateExpression(env, UnaryOp(x, "--"), fuel) == Ok(a - 1.0)
    ensures EvaluateExpression(env, UnaryOp(x, "++"), fuel) == Ok(a + 1.0)
    ensures EvaluateExpression(env, BinaryOp(x, Some(y), "+"), fuel) == Ok(a + b)
    ensures EvaluateExpression(env, BinaryOp(x, Some(y), "-"), fuel) == Ok(a - b)
    ensures EvaluateExpression(env, BinaryOp(x, Some(y), "*"), fuel) == Ok(a * b)
    ensures b != 0.0 ==> EvaluateExpression(env, BinaryOp(x, Some(y), "/"), fuel) == Ok(a / b)
    ensures b != 0.0 ==> EvaluateExpression(env, BinaryOp(x, Some(y), "%"), fuel) == Ok(env.rem(a, b))
    ensures EvaluateExpression(env, BinaryOp(x, Some(y), "**"), fuel) == Ok(env.pow(a, b))
    ensures EvaluateExpression(env, FunctionCall(Inc, x), fuel) == Ok(a + 1.0)
    ensures EvaluateExpression(env, FunctionCall(Dec, x), fuel) == Ok(a - 1.0)
  {
    assert EvaluateBinaryOp(env, "*", a, b) == Ok(a * b);
    assert b != 0.0 ==> EvaluateBinaryOp(env, "/", a, b) == Ok(a / b);
    assert EvaluateBinaryOp(env, "**", a, b) == Ok(env.pow(a, b));
  }

  /** inc(dec(x)) and dec(inc(x)) evaluate as x does, successes and failures
      alike; so do ++(--x) and --(++x). */
  lemma IncDecCancel(env: Env, x: Expr, fuel: nat)
    ensures EvaluateExpression(env, FunctionCall(Inc, FunctionCall(Dec, x)), fuel) == EvaluateExpression(env, x, fuel)
    ensures EvaluateExpression(env, FunctionCall(Dec, FunctionCall(Inc, x)), fuel) == EvaluateExpression(env, x, fuel)
    ensures EvaluateExpression(env, UnaryOp(UnaryOp(x, "--"), "++"), fuel) == EvaluateExpression(env, x, fuel)
  {
  }

  /** A binary node without a right side is its left side. */
  lemma MissingRightIsLeft(env: Env, l: Expr, op: string, fuel: nat)
    ensures EvaluateExpression(env, BinaryOp(l, None, op), fuel) == EvaluateExpression(env, l, fuel)
  {
  }

  /** Division or remainder by an operand that evaluates to 0 fails, and an
      unknown operator fails once both sides have values. */
  lemma BinaryFailures(env: Env, l: Expr, r: Expr, op: string, fuel: nat)
    requires EvaluateExpression(env, l, fuel).Ok? && EvaluateExpression(env, r, fuel).Ok?
    ensures op in {"/", "%"} && EvaluateExpression(env, r, fuel) == Ok(0.0) ==>
      EvaluateExpression(env, BinaryOp(l, Some(r), op), fuel) == Err(DivideByZero)
    ensures op !in {"+", "-", "*", "/", "%", "**"} ==>
      EvaluateExpression(env, BinaryOp(l, Some(r), op), fuel) == Err(UnsupportedBinary(op))
  {
  }

  /** (x + y) - y evaluates as x, and so does (x * y) / y when y is not 0. */
  lemma AddSubtractCancel(env: Env, x: Expr, y: Expr, fuel: nat)
    requires EvaluateExpression(env, y, fuel).Ok?
    ensures EvaluateExpression(env, BinaryOp(BinaryOp(x, Some(y), "+"), Some(y), "-"), fuel) ==
      EvaluateExpression(env, x, fuel)
    ensures EvaluateExpression(env, y, fuel) != Ok(0.0) ==>
      EvaluateExpression(env, BinaryOp(BinaryOp(x, Some(y), "*"), Some(y), "/"), fuel) ==
      EvaluateExpression(env, x, fuel)
  {
    var vx, vy := EvaluateExpression(env, x, fuel), EvaluateExpression(env, y, fuel);
    if vx.Ok? && vy != Ok(0.0) {
      BinaryOperators(env, "*", vx.value, vy.value);
    }
  }

  // ---------------------------------------------------------------------------
  // Fuel and cell references
  // ---------------------------------------------------------------------------

  /** Without cell references the amount of fuel is irrelevant. */
  lemma {:induction false} RefFreeIgnoresFuel(env: Env, e: Expr, f: nat, g: nat)
    requires RefFree(e)
    ensures EvaluateExpression(env, e, f) == EvaluateExpression(env, e, g)
  {
    match e
    case Number(_) =>
    case CellRef(_) =>
    case UnaryOp(x, _) =>
      RefFreeIgnoresFuel(env, x, f, g);
    case BinaryOp(l, r, _) =>
      RefFreeIgnoresFuel(env, l, f, g);
      if r.Some? {
        RefFreeIgnoresFuel(env, r.value, f, g);
      }
    case FunctionCall(_, x) =>
      RefFreeIgnoresFuel(env, x, f, g);
  }

  /** An evaluation that finished (with a value or with an error of its own)
      finishes the same way with more fuel. */
  lemma {:induction false} EvaluateMonotone(env: Env, input: string, f: nat, g: nat)
    requires f <= g
    requires Evaluate(env, input, f) != Err(OutOfFuel)
    ensures Evaluate(env, input, g) == Evaluate(env, input, f)
    decreases f, 1
  {
    if input != "" && Build(env, input).Ok? {
      ExpressionMonotone(env, Build(env, input).value, f, g);
    }
  }

  lemma {:induction false} ExpressionMonotone(env: Env, e: Expr, f: nat, g: nat)
    requires f <= g
    requires EvaluateExpression(env, e, f) != Err(OutOfFuel)
    ensures EvaluateExpression(env, e, g) == EvaluateExpression(env, e, f)
    decreases f, 0, e
  {
    match e
    case Number(_) =>
    case CellRef(a) =>
      EvaluateMonotone(env, env.cellData(a), f - 1, g - 1);
    case UnaryOp(x, _) =>
      ExpressionMonotone(env, x, f, g);
    case BinaryOp(l, r, _) =>
      ExpressionMonotone(env, l, f, g);
      if EvaluateExpression(env, l, f).Ok? && r.Some? {
        ExpressionMonotone(env, r.value, f, g);
      }
    case FunctionCall(_, x) =>
      ExpressionMonotone(env, x, f, g);
  }

  /** A reference evaluates to the referenced cell's text, evaluated: once
      that text finishes within f units, every larger fuel gives its result. */
  lemma CellRefReadsCell(env: Env, a: CP.Addr, f: nat, fuel: nat)
    requires f < fuel
    requires Evaluate(env, env.cellData(a), f) != Err(OutOfFuel)
    ensures EvaluateExpression(env, CellRef(a), fuel) == Evaluate(env, env.cellData(a), f)
  {
    EvaluateMonotone(env, env.cellData(a), f, fuel - 1);
  }

  /** Empty text is 0, and so is a reference to an empty cell. */
  lemma EmptyCellIsZero(env: Env, a: CP.Addr, fuel: nat)
    ensures Evaluate(env, "", fuel) == Ok(0.0)
    ensures env.cellData(a) == "" && fuel >= 1 ==> EvaluateExpression(env, CellRef(a), fuel) == Ok(0.0)
  {
    if env.cellData(a) == "" && fuel >= 1 {
      CellRefReadsCell(env, a, 0, fuel);
    }
  }

  /** The first cell the walk reads: operands go left to right, so a unary
      node or a call reads its operand first and a binary node its left side. */
  function FirstRef(e: Expr): Option<CP.Addr>
  {
    match e
    case Number(_) => None
    case CellRef(a) => Some(a)
    case UnaryOp(x, _) => FirstRef(x)
    case BinaryOp(l, _, _) => FirstRef(l)
    case FunctionCall(_, x) => FirstRef(x)
  }

  /** Cells whose formula builds and reads first a cell of the set, as
      `$B$1+1` in $A$1 with `$A$1+1` in $B$1. */
  ghost predicate ReferenceCycle(env: Env, cycle: set<CP.Addr>)
  {
    forall b :: b in cycle ==>
      env.cellData(b) != "" && Build(env, env.cellData(b)).Ok? &&
      FirstRef(Build(env, env.cellData(b)).value).Some? &&
      FirstRef(Build(env, env.cellData(b)).value).value in cycle
  }

  /** No cycle is detected: a tree that reads first a cell of such a set
      never finishes, whatever the fuel. */
  lemma {:induction false} CycleNeverFinishes(env: Env, cycle: set<CP.Addr>, e: Expr, fuel: nat)
    requires ReferenceCycle(env, cycle)
    requires FirstRef(e).Some? && FirstRef(e).value in cycle
    ensures EvaluateExpression(env, e, fuel) == Err(OutOfFuel)
    decreases fuel, e
  {
    match e
    case CellRef(a) =>
      if fuel > 0 {
        CycleNeverFinishes(env, cycle, Build(env, env.cellData(a)).value, fuel - 1);
      }
    case UnaryOp(x, _) =>
      CycleNeverFinishes(env, cycle, x, fuel);
    case BinaryOp(l, _, _) =>
      CycleNeverFinishes(env, cycle, l, fuel);
    case FunctionCall(_, x) =>
      CycleNeverFinishes(env, cycle, x, fuel);
  }

  /** Each cell of such a set, and each reference to one, never finishes. */
  lemma CycleCellNeverFinishes(env: Env, cycle: set<CP.Addr>, a: CP.Addr, fuel: nat)
    requires ReferenceCycle(env, cycle) && a in cycle
    ensures Evaluate(env, env.cellData(a), fuel) == Err(OutOfFuel)
    ensures EvaluateExpression(env, CellRef(a), fuel) == Err(OutOfFuel)
  {
    CycleNeverFinishes(env, cycle, Build(env, env.cellData(a)).value, fuel);
    CycleNeverFinishes(env, cycle, CellRef(a), fuel);
  }

  // ---------------------------------------------------------------------------
  // Self-reference
  // ---------------------------------------------------------------------------

  /** The walk itself never reports a self-reference: only the check at the
      top of EvaluateForCell does. */
  lemma {:induction false} EvaluateNeverSelfReference(env: Env, input: string, fuel: nat)
    ensures Evaluate(env, input, fuel) != Err(SelfReference)
    decreases fuel, 1
  {
    if input != "" && Build(env, input).Ok? {
      ExpressionNeverSelfReference(env, Build(env, input).value, fuel);
    }
  }

  lemma {:induction false} ExpressionNeverSelfReference(env: Env, e: Expr, fuel: nat)
    ensures EvaluateExpression(env, e, fuel) != Err(SelfReference)
    decreases fuel, 0, e
  {
    match e
    case Number(_) =>
    case CellRef(a) =>
      if fuel > 0 {
        EvaluateNeverSelfReference(env, env.cellData(a), fuel - 1);
      }
    case UnaryOp(x, _) =>
      ExpressionNeverSelfReference(env, x, fuel);
    case BinaryOp(l, r, _) =>
      ExpressionNeverSelfReference(env, l, fuel);
      if r.Some? {
        ExpressionNeverSelfReference(env, r.value, fuel);
      }
    case FunctionCall(_, x) =>
      ExpressionNeverSelfReference(env, x, fuel);
  }

  /** EvaluateForCell fails with a self-reference exactly when FindPointers
      finds the cell's own address, and is Evaluate otherwise. */
  lemma SelfReferenceDetected(env: Env, input: string, self: CP.Addr, fuel: nat)
    ensures EvaluateForCell(env, input, self, fuel) == Err(SelfReference) <==> self in CP.PointersIn(input)
    ensures self !in CP.PointersIn(input) ==> EvaluateForCell(env, input, self, fuel) == Evaluate(env, input, fuel)
  {
    EvaluateNeverSelfReference(env, input, fuel);
  }

  /** A formula that is the cell's own text form is refused. */
  lemma OwnAddressRefused(env: Env, self: CP.Addr, fuel: nat)
    requires self.col >= 1 && self.row >= 0
    ensures EvaluateForCell(env, CP.ToString(self), self, fuel) == Err(SelfReference)
  {
    CP.PointersOfToString(self);
  }
}
