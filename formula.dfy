/** What both evaluators receive from outside: the grid they read cells from,
    the parser that turns text into a parse tree, and the two floating-point
    operations (`%` and `Math.Pow`) that are left uninterpreted. */
module Formula {
  import opened Results
  import opened Ast
  import opened ParseTree
  import CP = CellPointer
  import AstBuilder

  datatype Env = Env(
    cellData: CP.Addr -> string,                // IGrid.GetCellData
    parse: string -> Option<ExpressionCtx>,     // lexer and parser; None on a syntax error
    rem: (real, real) -> real,                  // the `%` of double
    pow: (real, real) -> real)                  // Math.Pow

  /** Parse a formula and shape its tree into an expression. */
  function Build(env: Env, input: string): (r: Result<Expr>)
    ensures r.Ok? ==> RightsPresent(r.value)
    ensures r.Err? ==> r.error == SyntaxError || BuildFailure(r.error)
    ensures env.parse(input).None? ==> r == Err(SyntaxError)
  {
    match env.parse(input)
    case None => Err(SyntaxError)
    case Some(tree) => AstBuilder.VisitExpression(tree)
  }

  /** The expression has no cell reference in it. */
  predicate RefFree(e: Expr)
  {
    match e
    case Number(_) => true
    case CellRef(_) => false
    case UnaryOp(x, _) => RefFree(x)
    case BinaryOp(l, r, _) => RefFree(l) && (r.Some? ==> RefFree(r.value))
    case FunctionCall(_, x) => RefFree(x)
  }
}
