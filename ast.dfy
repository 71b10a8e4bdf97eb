/** The expression tree the builder produces and the evaluators walk:
    one constructor per node class of the AST (Number, CellPointer, UnaryOp,
    BinaryOp with an optional right side, FunctionCall). */
module Ast {
  import opened Results
  import CP = CellPointer

  datatype Expr =
    | Number(value: real)
    | CellRef(pointer: CP.Addr)
    | UnaryOp(operand: Expr, op: string)
    | BinaryOp(left: Expr, right: Option<Expr>, op: string)
    | FunctionCall(name: string, argument: Expr)

  /** Every binary node of the tree has its right side. */
  predicate RightsPresent(e: Expr)
  {
    match e
    case Number(_) => true
    case CellRef(_) => true
    case UnaryOp(x, _) => RightsPresent(x)
    case BinaryOp(l, r, _) => r.Some? && RightsPresent(l) && RightsPresent(r.value)
    case FunctionCall(_, x) => RightsPresent(x)
  }

  /** The ways the builder can fail: a malformed cell token, a missing
      operand, a missing operator token, or a term of no known kind. */
  predicate BuildFailure(err: Error)
  {
    err in {EmptyPointer, NonAsciiPointer, SubstringOutOfRange, BadInteger,
            IndexOutOfRange, NullOperand(true), NullOperand(false), UnsupportedTerm}
  }
}
