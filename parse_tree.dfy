/** The parse-tree contexts the ANTLR parser hands to the builder, reduced to
    what the builder reads: per precedence level the operand sub-trees and the
    operator tokens among the level's children, in order; for a unary
    expression the prefix operator tokens and the term; for a term the one
    alternative that is present. */
module ParseTree {

  datatype ExpressionCtx = ExpressionCtx(addition: AdditionCtx)

  datatype AdditionCtx = AdditionCtx(operands: seq<MultiplicationCtx>, operators: seq<string>)

  datatype MultiplicationCtx = MultiplicationCtx(operands: seq<PowerCtx>, operators: seq<string>)

  datatype PowerCtx = PowerCtx(operands: seq<UnaryCtx>, operators: seq<string>)

  datatype UnaryCtx = UnaryCtx(prefix: seq<string>, term: TermCtx)

  datatype TermCtx =
    | ParenTerm(inner: ExpressionCtx)     // '(' expression ')'
    | NumberTerm(value: real)             // NUMBER, already read as a number
    | CellTerm(text: string)              // CellPointer token text
    | CallTerm(call: FunctionCallCtx)     // functionCall
    | EmptyTerm                           // none of the above is present

  datatype FunctionCallCtx = FunctionCallCtx(name: string, argument: ExpressionCtx)

  /** The expression `(inner)` standing alone: one operand at every level. */
  function Parenthesised(inner: ExpressionCtx): ExpressionCtx
  {
    ExpressionCtx(AdditionCtx([MultiplicationCtx([PowerCtx([UnaryCtx([], ParenTerm(inner))], [])], [])], []))
  }
}
