/** Option and Result types, and the kinds of failure the engine raises.
    Each error constructor stands for one exception the grid and the evaluators throw. */
module Results {

  datatype Option<+T> = None | Some(value: T)

  datatype Error =
    | EmptyPointer                  // ArgumentException: "cannot be null or empty"
    | NonAsciiPointer               // ArgumentException: "contains non-ASCII characters"
    | SubstringOutOfRange           // ArgumentOutOfRangeException from Substring (a `$` is missing)
    | BadInteger                    // FormatException from int.Parse
    | IndexOutOfRange               // ArgumentOutOfRangeException from a list index
    | NullOperand(leftSide: bool)   // NullReferenceException thrown by the AST builder
    | UnsupportedTerm               // NotSupportedException: "Term type not supported"
    | SyntaxError                   // the lexer or parser rejected the text
    | UnsupportedNode               // NotSupportedException: expression type not supported
    | UnsupportedUnary(op: string)  // NotSupportedException: unary operator not supported
    | UnsupportedBinary(op: string) // NotSupportedException: binary operator not supported
    | UnsupportedFunction(name: string) // NotSupportedException: function not supported
    | DivideByZero                  // DivideByZeroException
    | SelfReference                 // InvalidOperationException: "Self-reference detected"
    | InvalidCount                  // InvalidOperationException: Max of an empty sequence
    | OutOfFuel                     // the evaluation did not finish within its fuel

  datatype Result<+T> = Ok(value: T) | Err(error: Error)
}
