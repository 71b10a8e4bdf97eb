# A verified model of a spreadsheet formula engine

This project models the formula engine of a small spreadsheet application (a
C# lab project with a current version under `Lab1.Core/` and an older one at
the repository root) and proves properties of the model in Dafny. It has four
parts.

- **The cell-address codec.** A cell is written `$COL$ROW`. `COL` is a
  bijective base-26 column name (`A` is 1, `Z` is 26, `AA` is 27) and `ROW` is
  a decimal integer. The codec has three pieces:
  - the column conversions in both directions;
  - the string constructor (parse) and `ToString`;
  - `FindPointers`, which scans a formula for every `\$[A-Z]+\$\d+` token.

  The copy of the codec in the AST term class, and the column-label encoder of
  the main page, are modelled too. Both are proved to agree with the first.

- **The dependency store** (module `CellStore`, used by both grids). It holds
  three maps:
  - a sparse row → column → text map;
  - `references`, which maps a cell to the cells its formula names;
  - `dependents`, which maps a cell to the cells that name it.

  Lists are sequences, because the code relies on `List.Remove` removing only
  the first occurrence and on `List.Add` never checking for duplicates.
  - The current grid (`Grid.Grid`) and the older one (`LegacyGrid.Grid`) are
    classes whose methods edit those maps in place.
  - Each method's new state is tied to a function of the old state: `Stored`,
    `UpdatedRefs`/`UpdatedDeps`, `LoadSheet`/`LoadEdges`.
  - Lemmas then prove what the edits preserve and what they break:
    - the mirror `r ∈ references[q] ⇔ q ∈ dependents[r]`;
    - its counting form;
    - "no duplicate edge";
    - every referenced cell having a dependents entry, so that no dictionary
      lookup throws.

- **The AST builder.** The ANTLR parse tree becomes a small input datatype.
  Each precedence level has a list of operands and a list of operator tokens;
  a unary level has its prefix tokens and a term. The builder
  (`AstBuilder.Visit…`) has two parts:
  - left-folds binary chains (`BinaryChain`, computed by the loop method
    `FoldBinaryChain`);
  - nests prefix operators (`Nest`, computed by `WrapUnaryOps`).

  Exceptions become `Err` values of one `Error` datatype.

- **The two evaluators** (`GridCalculator`, `LegacyGridCalculator`). Each is a
  recursive walk over the expression tree.
  - Values are `real`. Floating `%` and `Math.Pow` are parameters of the
    environment `Formula.Env`, together with the grid's `GetCellData` and the
    parser.
  - A cell reference evaluates the referenced cell's text again, and the code
    detects no indirect cycle. The walk therefore carries fuel: each reference
    spends one unit, and `Err(OutOfFuel)` stands for a walk that does not
    return.
  - Lemmas show that more fuel never changes a finished result, and that a
    cycle of references never finishes.

Some of the proved facts show where the code does not do what its comments
say (the two maps are described as mirror images of each other):

- In the current grid, `Grid.SelfReferenceThenClear` writes `$A$1+$A$1` to
  cell `$A$1` of an empty grid and then clears the cell. The first update
  stores a self-edge (`List.Remove` takes out only one of the two
  occurrences). The clearing skips the cell itself when it unlinks, so `$A$1`
  stays among its own dependents with no reference left to explain it. The
  correction `Grid.IntendedUpdatedDeps` unlinks the cell itself too, and
  `Grid.IntendedUpdateKeepsMirror` proves that it keeps the mirror on every
  update.
- `LegacyGrid.StaleEdgeBreaksMirror` and `LegacyGrid.RepeatedUpdateDuplicates`
  show the same for the older grid, which never removes stale edges on a
  non-empty edit.
- `LegacyGridCalculator.LongerRowRefused` and
  `LegacyGridCalculator.LeadingZeroAccepted` show that the older evaluator's
  substring test for self-reference refuses `$A$10` in cell `$A$1` and accepts
  `$A$01`.

The current grid's mirror guarantee also needs dependents lists without
duplicates. A load appends a cell once per occurrence of each reference, and
`Grid.LoadedDuplicateOutlivesEdits` shows two later edits after which a stale
dependent is left.

## Model

| member | source | states |
|---|---|---|
| CellPointer.ColumnToNumber | Grid/CellPointer.cs:41-44 | Definition (no contract): the `Aggregate` fold `current * 26 + (c - 'A' + 1)` from 0, over any characters. Its properties are ColumnNumberOfLetters and ColumnNameOfNumber |
| CellPointer.ColumnName | Grid/CellPointer.cs:46-59 | Definition (no contract): the letters NumberToColumn produces, `""` for n ≤ 0 and the bijective base-26 numeral otherwise. Its properties are ColumnNameShape and ColumnNumberOfName |
| CellPointer.NumberToColumn | Grid/CellPointer.cs:46-59 | The loop's result is the bijective base-26 name of n. It holds only `A`..`Z`, is empty exactly when n ≤ 0, and maps back to n under ColumnToNumber for n ≥ 0 |
| CellPointer.ColumnNameShape | Grid/CellPointer.cs:50-55 | The column name holds only capital letters and is empty exactly when the loop never runs (n ≤ 0) |
| CellPointer.ColumnNumberOfName | Grid/CellPointer.cs:41-59 | ColumnToNumber(NumberToColumn(n)) == n for every n ≥ 0, including 0 and `""` |
| CellPointer.ColumnNumberOfLetters | Grid/CellPointer.cs:41-44 | Over `A`..`Z` the fold is non-negative and is 0 only for the empty string |
| CellPointer.ColumnNameOfNumber | Grid/CellPointer.cs:41-59 | NumberToColumn(ColumnToNumber(s)) == s for every string s over `A`..`Z` |
| CellPointer.Digit | Grid/CellPointer.cs:38 | The character printed for a decimal digit d is a digit whose code is '0' + d |
| CellPointer.NatToStringShape | Grid/CellPointer.cs:38 | The decimal form of a row has no leading zero and reads back as the same number |
| CellPointer.NatToStringOfDigits | Grid/CellPointer.cs:38 | A digit string without leading zeros is the decimal form of its own value |
| CellPointer.ParseIntToString | Grid/CellPointer.cs:33-38 | int.Parse of the printed form of any integer gives that integer back |
| CellPointer.ParseInt | Grid/CellPointer.cs:33 | Definition (no contract): int.Parse as optional white space around an optional sign and one or more ASCII digits, else a format error. Its properties are ParseIntToString and ParseIntNumeral |
| CellPointer.Parse | Grid/CellPointer.cs:18-34 | Definition (no contract): the string constructor, with the empty and non-ASCII errors, the two IndexOf calls, the Substring range error and int.Parse of the row. Its properties are ParseAt, ParseOfToString, ToStringOfParse and ParseRefusesEmptyAndNonAscii |
| CellPointer.ToString | Grid/CellPointer.cs:36-39 | Definition (no contract): `"$" + NumberToColumn(Column) + "$" + Row`. Its properties are ParseOfToString and PointersOfToString |
| CellPointer.IndexOf | Grid/CellPointer.cs:28-29 | The result is -1 when c does not occur from `from` on, and otherwise the first position at or after `from` holding c |
| CellPointer.ParseAt | Grid/CellPointer.cs:28-33 | For ASCII text starting with `$` whose next `$` is at `second`, the parse is the column fold of the text between the separators and the int.Parse of the rest, or that parse's error |
| CellPointer.ParseIntNumeral | Grid/CellPointer.cs:33 | int.Parse of an optionally signed digit string is its signed decimal value |
| CellPointer.ParseTokenText | Grid/CellPointer.cs:28-33 | Parsing `"$" + letters + "$" + numeral` yields the letters' column number and the numeral's value |
| CellPointer.ParseOfToString | Grid/CellPointer.cs:18-39 | Parsing ToString(a) gives back a, for every column ≥ 0 and every row |
| CellPointer.ToStringOfParse | Grid/CellPointer.cs:18-39 | Text `$COL$ROW` with letters only and a row without leading zeros parses, and prints back as the same text |
| CellPointer.LeadingZeroRow | Grid/CellPointer.cs:33-38 | `$A$01` parses to column 1, row 1, which prints as `$A$1`, not as the original text |
| CellPointer.ParseRefusesEmptyAndNonAscii | Grid/CellPointer.cs:20-25 | Empty text fails with the empty-pointer error. Text with a character outside ASCII fails with the non-ASCII error |
| CellPointer.LetterRun | Grid/CellPointer.cs:72 | The `[A-Z]+` run from i ends at the first non-letter, or at the end of the text |
| CellPointer.DigitRun | Grid/CellPointer.cs:72 | The greedy `\d+` run from i ends at the first non-digit, or at the end of the text |
| CellPointer.LetterRunSpan | Grid/CellPointer.cs:72 | Every character inside the letter run is a capital letter |
| CellPointer.DigitRunSpan | Grid/CellPointer.cs:72 | Every character inside the digit run is a digit |
| CellPointer.MatchAt | Grid/CellPointer.cs:72-73 | A match found at i starts at i and has a non-empty column part and a non-empty row part, in that order, within the text |
| CellPointer.MatchAtGreedy | Grid/CellPointer.cs:72-73 | A match's text is a `$COL$ROW` token, and the character after it (if any) is not a digit, so the row run is maximal |
| CellPointer.MatchAtFound | Grid/CellPointer.cs:64-67 | The string constructor applied to a match's text succeeds and gives the match's column and row |
| CellPointer.TokenParses | Grid/CellPointer.cs:64-67 | A token found in the text parses to its letters' column number and its digits' value |
| CellPointer.PointerTextMatches | Grid/CellPointer.cs:72-73 | If a pointer token starts at i, the regex matches at i |
| CellPointer.MatchAtNone | Grid/CellPointer.cs:72-73 | Where the regex does not match at i, no pointer token starts at i |
| CellPointer.Scan | Grid/CellPointer.cs:64-65 | Every match of the scan lies within the text, from the scan's start onward |
| CellPointer.ScanMatches | Grid/CellPointer.cs:64-65 | Each match the scan returns is the regex match at its own start |
| CellPointer.ScanOrdered | Grid/CellPointer.cs:64-65 | The matches are in left-to-right order and do not overlap |
| CellPointer.ScanLeftmost | Grid/CellPointer.cs:64-65 | No match is skipped: at every position not covered by a returned match, the regex does not match |
| CellPointer.PointersIn | Grid/CellPointer.cs:61-70 | Definition (no contract): one address per match of the scan, in match order. Its properties are PointersReadAs, ScanOrdered, ScanLeftmost and PointersKeepDuplicates |
| CellPointer.FindPointers | Grid/CellPointer.cs:61-70 | The loop returns the addresses of the scan's matches, in order |
| CellPointer.PointersReadAs | Grid/CellPointer.cs:61-70 | There is one pointer per match, and each is the parse of its match's text |
| CellPointer.SingleToken | Grid/CellPointer.cs:61-70 | Text that is exactly one token yields exactly that one pointer |
| CellPointer.PointersOfToString | Grid/CellPointer.cs:36-73 | FindPointers(ToString(a)) == [a] for every column ≥ 1 and row ≥ 0 |
| CellPointer.PointersKeepDuplicates | Grid/CellPointer.cs:61-70 | `$A$1+$A$1` yields the pointer $A$1 twice: duplicates are kept |
| TermCellPointer.ColumnToNumber | GridCalculator/AST/Terms/CellPointer.cs:39-42 | Definition (no contract): the copy's fold. ColumnToNumberAgrees proves it equal to the Grid codec's |
| TermCellPointer.NumberToColumn | GridCalculator/AST/Terms/CellPointer.cs:44-57 | The copy's loop computes the same name: only `A`..`Z`, empty exactly for n ≤ 0, and inverted by the copy's ColumnToNumber for n ≥ 0 |
| TermCellPointer.Parse | GridCalculator/AST/Terms/CellPointer.cs:16-32 | The copy's constructor fails only with the empty-text, non-ASCII, missing-separator or bad-integer error |
| TermCellPointer.ToString | GridCalculator/AST/Terms/CellPointer.cs:34-37 | Definition (no contract): the copy's `$COL$ROW` text. ParseOfToString proves that its parse returns the address |
| TermCellPointer.ColumnToNumberAgrees | GridCalculator/AST/Terms/CellPointer.cs:39-42 | The copy's column fold equals the Grid codec's on every string |
| TermCellPointer.ParseAgrees | GridCalculator/AST/Terms/CellPointer.cs:16-32 | The copy's constructor equals the Grid codec's on every input, errors included |
| TermCellPointer.ColumnNumberOfName | GridCalculator/AST/Terms/CellPointer.cs:39-57 | ColumnToNumber(NumberToColumn(n)) == n in the copy, for n ≥ 0 |
| TermCellPointer.ParseOfToString | GridCalculator/AST/Terms/CellPointer.cs:16-37 | Parsing the copy's ToString(a) gives back a, for every column ≥ 0 |
| MainPage.GetColumnName | MainPage.xaml.cs:80-93 | The label loop computes NumberToColumn(n): `""` for n ≤ 0, only `A`..`Z` otherwise, and inverted by ColumnToNumber for n ≥ 0 |
| AstBuilder.BinaryChain | GridCalculator/AstBuilder.cs:99-120 | No operand is an index error. One operand is returned unwrapped. A longer chain's top node is a BinaryOp whose right side is the last operand. A failure is a missing operand or a missing operator token |
| AstBuilder.FoldBinaryChain | GridCalculator/AstBuilder.cs:89-121 | The for-loop computes BinaryChain of the operands and operator tokens |
| AstBuilder.ChainPrefixError | GridCalculator/AstBuilder.cs:110-118 | The first failing step decides the result: a failure on a prefix of the chain is the failure of the whole chain |
| AstBuilder.Values | GridCalculator/AstBuilder.cs:92 | The operands, all present, keep their count and order |
| AstBuilder.ChainSucceeds | GridCalculator/AstBuilder.cs:99-118 | The chain builds exactly when it is non-empty, every operand is present, and there is an operator token for each step |
| AstBuilder.ChainSpine | GridCalculator/AstBuilder.cs:110-118 | A built chain is a left fold: its left spine lists the operands in order, with the operator tokens in token order |
| AstBuilder.ChainOfThree | GridCalculator/AstBuilder.cs:110-118 | e0 op0 e1 op1 e2 builds BinaryOp(BinaryOp(e0, e1, op0), e2, op1) |
| AstBuilder.ChainRightsPresent | GridCalculator/AstBuilder.cs:110-118 | Every BinaryOp the fold creates has its right side |
| AstBuilder.WrapUnaryOps | GridCalculator/AstBuilder.cs:45-53 | The reverse-order loop wraps the term exactly as Nest does |
| AstBuilder.PeelNest | GridCalculator/AstBuilder.cs:33-54 | k prefix tokens make k nested UnaryOps. Unwrapping them from the outside yields the tokens in source order and then the term, so the first token is outermost |
| AstBuilder.NestLastInnermost | GridCalculator/AstBuilder.cs:47-51 | The last prefix token is applied to the term first (innermost) |
| AstBuilder.NestRightsPresent | GridCalculator/AstBuilder.cs:47-51 | Wrapping unary operators adds no BinaryOp without a right side |
| AstBuilder.VisitExpression | GridCalculator/AstBuilder.cs:13-16 | A built expression has every right side present. A failure is a builder failure |
| AstBuilder.VisitAdditionExpression | GridCalculator/AstBuilder.cs:18-21 | Same guarantee for the additive level |
| AstBuilder.VisitMultiplications | GridCalculator/AstBuilder.cs:92 | Building the operands of a level gives one present, well-formed expression per operand, or a builder failure |
| AstBuilder.VisitMultiplicationExpression | GridCalculator/AstBuilder.cs:23-26 | Same guarantee for the multiplicative level |
| AstBuilder.VisitPowers | GridCalculator/AstBuilder.cs:92 | One present, well-formed expression per power operand, or a builder failure |
| AstBuilder.VisitPowerExpression | GridCalculator/AstBuilder.cs:28-31 | Same guarantee for the power level |
| AstBuilder.VisitUnaries | GridCalculator/AstBuilder.cs:92 | One present, well-formed expression per unary operand, or a builder failure |
| AstBuilder.VisitUnaryExpression | GridCalculator/AstBuilder.cs:33-54 | Same guarantee for a prefixed term |
| AstBuilder.VisitTerm | GridCalculator/AstBuilder.cs:56-79 | Same guarantee for a term. A term of no known kind fails as not supported |
| AstBuilder.VisitFunctionCall | GridCalculator/AstBuilder.cs:81-87 | Same guarantee for a function call |
| AstBuilder.SingleOperandUnwrapped | GridCalculator/AstBuilder.cs:105-108 | A power level with one operand is that operand's own result, with no BinaryOp |
| AstBuilder.SingleMultiplicationOperand | GridCalculator/AstBuilder.cs:105-108 | A multiplicative level with one operand is that operand's own result |
| AstBuilder.SingleAdditionOperand | GridCalculator/AstBuilder.cs:105-108 | An additive level with one operand is that operand's own result |
| AstBuilder.UnariesAllBuilt | GridCalculator/AstBuilder.cs:92 | When every operand builds, the operand list is their results, in order |
| AstBuilder.PowerFoldsLeft | GridCalculator/AstBuilder.cs:28-31 | `a ** b ** c` builds as `(a ** b) ** c` |
| AstBuilder.ParenthesesDropped | GridCalculator/AstBuilder.cs:58-61 | A parenthesised expression builds to the inner expression's own node, with no wrapper |
| AstBuilder.FunctionCallShape | GridCalculator/AstBuilder.cs:81-87 | A call builds FunctionCall(name, built argument), or fails as the argument does |
| AstBuilder.CellTermShape | GridCalculator/AstBuilder.cs:68-71 | A cell term builds exactly when its text parses, and then to a reference to the parsed address |
| Formula.Build | Lab1.Core/GridCalculator/GridCalculator.cs:19-34 | Parse then build: the tree has every right side present. A failure is a syntax error or a builder failure. Text the parser rejects is a syntax error |
| GridCalculator.Evaluate | Lab1.Core/GridCalculator/GridCalculator.cs:15-37 | Definition (no contract): empty text is 0, otherwise parse, build and evaluate the tree, passing on the first failure. Its properties are EmptyCellIsZero, EvaluateMonotone and EvaluateNeverSelfReference |
| GridCalculator.EvaluateForCell | Lab1.Core/GridCalculator/GridCalculator.cs:39-48 | Definition (no contract): self-reference error when FindPointers of the input contains the cell, else Evaluate. Its properties are SelfReferenceDetected and OwnAddressRefused |
| GridCalculator.EvaluateExpression | Lab1.Core/GridCalculator/GridCalculator.cs:71-98 | Definition (no contract): the switch over node kinds, with operands evaluated left to right and a cell reference evaluating the cell's text with one unit less fuel. Its properties are NodeValues, MissingRightIsLeft, BinaryFailures, CellRefReadsCell, ExpressionMonotone and CycleNeverFinishes |
| GridCalculator.EvaluateUnaryOp | Lab1.Core/GridCalculator/GridCalculator.cs:100-113 | Definition (no contract): the unary switch. Its properties are UnaryOperators and NodeValues |
| GridCalculator.EvaluateBinaryOp | Lab1.Core/GridCalculator/GridCalculator.cs:115-142 | Definition (no contract): the zero test for `/` and `%` first, then the binary switch. Its properties are BinaryOperators and NodeValues |
| GridCalculator.EvaluateFunctionCall | Lab1.Core/GridCalculator/GridCalculator.cs:144-158 | Definition (no contract): the `inc`/`dec` switch. Its properties are FunctionNames and NodeValues |
| GridCalculator.NodeValues | Lab1.Core/GridCalculator/GridCalculator.cs:100-158 | Once the operands evaluate to a and b: `""` and `+` give a, `-` gives -a, `--` gives a - 1, `++` gives a + 1. `+ - *` give a + b, a - b and a * b. With b ≠ 0, `/` gives a / b and `%` gives rem(a, b). `**` gives pow(a, b). `inc` gives a + 1 and `dec` gives a - 1 |
| GridCalculator.EmptyCellIsZero | Lab1.Core/GridCalculator/GridCalculator.cs:15-17 | Empty input is 0, and a reference to an empty cell evaluates to 0 |
| GridCalculator.UnaryOperators | Lab1.Core/GridCalculator/GridCalculator.cs:100-113 | Exactly `""`, `+`, `-`, `--` and `++` are supported, and any other operator fails as unsupported. `""` and `+` are the identity, `-` undoes itself, and `++` and `--` undo each other |
| GridCalculator.FunctionNames | Lab1.Core/GridCalculator/GridCalculator.cs:144-158 | Exactly `inc` and `dec` are supported, and any other name fails as unsupported. inc(dec(x)) == x and dec(inc(x)) == x |
| GridCalculator.BinaryOperators | Lab1.Core/GridCalculator/GridCalculator.cs:115-142 | The operator succeeds exactly for `+ - * **`, and for `/ %` with a non-zero right side. `/` or `%` by 0 is a division-by-zero error. Any other operator fails as unsupported. `+`/`-` and `*`/`/` undo each other |
| GridCalculator.IncDecCancel | Lab1.Core/GridCalculator/GridCalculator.cs:144-158 | inc(dec(x)), dec(inc(x)) and ++(--x) evaluate exactly as x, errors included |
| GridCalculator.MissingRightIsLeft | Lab1.Core/GridCalculator/GridCalculator.cs:119-122 | A BinaryOp without a right side evaluates to its left operand's result |
| GridCalculator.BinaryFailures | Lab1.Core/GridCalculator/GridCalculator.cs:124-138 | Once both sides evaluate, a zero right side of `/` or `%` is a division-by-zero error and an unknown operator is unsupported |
| GridCalculator.AddSubtractCancel | Lab1.Core/GridCalculator/GridCalculator.cs:128-134 | (x + y) - y and (x * y) / y (y ≠ 0) evaluate as x |
| GridCalculator.RefFreeIgnoresFuel | Lab1.Core/GridCalculator/GridCalculator.cs:71-93 | A tree without cell references evaluates the same with any fuel |
| GridCalculator.EvaluateMonotone | Lab1.Core/GridCalculator/GridCalculator.cs:15-37 | Once an evaluation finishes, more fuel gives the same result |
| GridCalculator.ExpressionMonotone | Lab1.Core/GridCalculator/GridCalculator.cs:71-93 | The same for a tree |
| GridCalculator.CellRefReadsCell | Lab1.Core/GridCalculator/GridCalculator.cs:95-98 | A cell reference evaluates to Evaluate of that cell's stored text |
| GridCalculator.FirstRef | Lab1.Core/GridCalculator/GridCalculator.cs:71-98 | Definition (no contract): the first cell the walk reads. A unary node and a call read their operand first, and a binary node its left side. CycleNeverFinishes is its property |
| GridCalculator.CycleNeverFinishes | Lab1.Core/GridCalculator/GridCalculator.cs:71-98 | Take a set of cells whose formulas each build and read first a cell of the set (as `$B$1+1` in $A$1 with `$A$1+1` in $B$1). Any tree that reads first a cell of the set never finishes, whatever the fuel: no cycle is detected |
| GridCalculator.CycleCellNeverFinishes | Lab1.Core/GridCalculator/GridCalculator.cs:95-98 | For such a set, the text of each of its cells and a reference to each of them never finish evaluating |
| GridCalculator.EvaluateNeverSelfReference | Lab1.Core/GridCalculator/GridCalculator.cs:15-37 | Evaluate itself never reports self-reference. Only EvaluateForCell does |
| GridCalculator.ExpressionNeverSelfReference | Lab1.Core/GridCalculator/GridCalculator.cs:71-158 | The same for a tree |
| GridCalculator.SelfReferenceDetected | Lab1.Core/GridCalculator/GridCalculator.cs:39-48 | EvaluateForCell fails with self-reference exactly when FindPointers of the input contains the cell's own address. Otherwise it equals Evaluate |
| GridCalculator.OwnAddressRefused | Lab1.Core/GridCalculator/GridCalculator.cs:39-48 | A cell whose text is its own address is refused |
| LegacyGridCalculator.Evaluate | GridCalculator/GridCalculator.cs:15-34 | Definition (no contract): empty text is 0, otherwise parse, build and evaluate. Its properties are EmptyCellIsZero, EvaluateAgrees and EvaluateNeverSelfReference |
| LegacyGridCalculator.Contains | GridCalculator/GridCalculator.cs:38 | Definition (no contract): `string.Contains`, that is, t occurs in s as a contiguous piece. ShorterNotContained is its property |
| LegacyGridCalculator.EvaluateForCell | GridCalculator/GridCalculator.cs:36-44 | Definition (no contract): self-reference error when the input contains the cell's ToString, else Evaluate. Its properties are SelfReferenceBySubstring, LongerRowRefused and LeadingZeroAccepted |
| LegacyGridCalculator.EvaluateExpression | GridCalculator/GridCalculator.cs:67-90 | Definition (no contract): the older switch, in which a function call is of no handled kind. Its properties are NodeValues, NewerNodesUnsupported and ExpressionAgrees |
| LegacyGridCalculator.EvaluateUnaryOp | GridCalculator/GridCalculator.cs:92-103 | Definition (no contract): the older unary switch. Its properties are UnaryOperators and NodeValues |
| LegacyGridCalculator.EvaluateBinaryOp | GridCalculator/GridCalculator.cs:105-131 | Definition (no contract): the zero test first, then the older binary switch. Its properties are BinaryOperators and NodeValues |
| LegacyGridCalculator.NodeValues | GridCalculator/GridCalculator.cs:92-127 | Once the operands evaluate to a and b: `""` and `+` give a and `-` gives -a. `+ - *` give a + b, a - b and a * b, left op right. With b ≠ 0, `/` gives a / b and `%` gives rem(a, b) |
| LegacyGridCalculator.ShorterNotContained | GridCalculator/GridCalculator.cs:38 | Text shorter than the sought text cannot contain it |
| LegacyGridCalculator.EmptyCellIsZero | GridCalculator/GridCalculator.cs:15-17 | Empty input is 0, and a reference to an empty cell evaluates to 0 |
| LegacyGridCalculator.UnaryOperators | GridCalculator/GridCalculator.cs:92-103 | Only `""`, `+` and `-` are supported, and `++`/`--` fail as unsupported. On the supported ones the older evaluator agrees with the current one |
| LegacyGridCalculator.BinaryOperators | GridCalculator/GridCalculator.cs:105-131 | Only `+ - * / %` are supported, left op right, and `**` fails as unsupported. Division by 0 fails. On every other operator the result equals the current evaluator's |
| LegacyGridCalculator.NewerNodesUnsupported | GridCalculator/GridCalculator.cs:67-85 | A FunctionCall node fails as unsupported, and so do `++`, `--` and `**` |
| LegacyGridCalculator.EvaluateAgrees | GridCalculator/GridCalculator.cs:15-34 | On formulas (and cells) using only the older operators, the older Evaluate equals the current one |
| LegacyGridCalculator.ExpressionAgrees | GridCalculator/GridCalculator.cs:67-131 | The same for a tree |
| LegacyGridCalculator.EvaluateNeverSelfReference | GridCalculator/GridCalculator.cs:15-34 | Evaluate itself never reports self-reference |
| LegacyGridCalculator.ExpressionNeverSelfReference | GridCalculator/GridCalculator.cs:67-131 | The same for a tree |
| LegacyGridCalculator.SelfReferenceBySubstring | GridCalculator/GridCalculator.cs:36-44 | EvaluateForCell fails with self-reference exactly when the input contains the cell's ToString as a substring. Otherwise it equals Evaluate |
| LegacyGridCalculator.LongerRowRefused | GridCalculator/GridCalculator.cs:36-44 | For cell $A$1 the input `$A$10` is refused, although it names only $A$10. The current evaluator accepts it |
| LegacyGridCalculator.LeadingZeroAccepted | GridCalculator/GridCalculator.cs:36-44 | For cell $A$1 the input `$A$01` is accepted, although it names $A$1. The current evaluator refuses it |
| CellStore.CellText | Lab1.Core/Grid/Grid.cs:93-97 | Definition (no contract): GetCellData, the stored text or `""` for an absent cell. Grid.Grid.GetCellData states its meaning |
| CellStore.Stored | Lab1.Core/Grid/Grid.cs:39-63 | Definition (no contract): the setter's text map, with the row created when missing, the column removed for empty text and the text stored otherwise. StoredReadsBack and StoredKeepsNoEmptyText are its properties |
| CellStore.RemoveFirst | Lab1.Core/Grid/Grid.cs:177 | Definition (no contract): `List.Remove`. RemoveFirstCount and RemoveFirstSplits are its properties |
| CellStore.StoredReadsBack | Lab1.Core/Grid/Grid.cs:36-64 | After the setter, the cell reads back as absent for empty text and as the text otherwise. Every other cell reads as before, and the row gains an entry |
| CellStore.StoredKeepsNoEmptyText | Lab1.Core/Grid/Grid.cs:46-62 | The setter never stores empty text |
| CellStore.RemoveFirstCount | Lab1.Core/Grid/Grid.cs:177 | List.Remove takes out one occurrence (none when absent), and the list is unchanged when x is absent |
| CellStore.RemoveFirstSplits | Lab1.Core/Grid/Grid.cs:177 | List.Remove takes out exactly the first occurrence |
| CellStore.Unlink | Lab1.Core/Grid/Grid.cs:179-186 | Removing p from old targets creates no entry and drops none |
| CellStore.Link | Lab1.Core/Grid/Grid.cs:190-201 | Linking adds an entry for each new target and keeps every other entry |
| CellStore.Append | Lab1.Core/Grid/Grid.cs:145-152 | Appending adds an entry for each target and keeps every other entry |
| CellStore.UnlinkCount | Lab1.Core/Grid/Grid.cs:179-186 | How often q is listed under r after unlinking: unchanged unless q is p and r is not kept. In that case it drops by the number of times r was an old target, down to 0 |
| CellStore.UnlinkStepCount | Lab1.Core/Grid/Grid.cs:184 | One removal lowers the count of p under that target by one, down to 0, and changes nothing else |
| CellStore.LinkCount | Lab1.Core/Grid/Grid.cs:190-201 | After linking, p is listed under each new target once if it was absent, and as often as before otherwise. Nothing else changes |
| CellStore.AppendCount | Lab1.Core/Grid/Grid.cs:145-152 | Appending raises the count of q under r by the number of times r occurs among the targets, with no duplicate check |
| CellStore.AppendGrows | Grid/Grid.cs:165-173 | Appending never removes anything: each old list is a prefix of the new one |
| CellStore.UnlinkElsewhere | Lab1.Core/Grid/Grid.cs:179-186 | A cell that is not an old target keeps its dependents list |
| CellStore.LinkElsewhere | Lab1.Core/Grid/Grid.cs:190-201 | A cell that is not a new target keeps its dependents list |
| CellStore.AppendElsewhere | Lab1.Core/Grid/Grid.cs:145-152 | A cell that is not a target keeps its dependents list |
| CellStore.RemoveFromTargets | Lab1.Core/Grid/Grid.cs:179-186 | The foreach over the old targets computes Unlink |
| CellStore.AddToTargets | Lab1.Core/Grid/Grid.cs:190-201 | The foreach that creates missing lists and adds p when absent computes Link |
| CellStore.AppendToTargets | Lab1.Core/Grid/Grid.cs:145-152 | The foreach that creates missing lists and appends unconditionally computes Append |
| CellStore.CountMirrorIsMirror | Lab1.Core/Grid/Grid.cs:15-19 | Equal counts in both maps imply the mirror "r ∈ references[q] ⇔ q ∈ dependents[r]" |
| CellStore.LoadEdges | Lab1.Core/Grid/Grid.cs:135-154 | Definition (no contract): the two maps the replay loop builds from empty maps. LoadKeysPresent, LoadReferences and LoadCountMirror are its properties |
| CellStore.LoadSheet | Lab1.Core/Grid/Grid.cs:135-141 | Definition (no contract): the text map after the replay's setter calls. LoadSheetCells is its property |
| CellStore.LoadKeysPresent | Lab1.Core/Grid/Grid.cs:135-154 | After a load, `references` has an entry exactly for each loaded cell, and every referenced cell has a dependents entry |
| CellStore.LoadReferences | Lab1.Core/Grid/Grid.cs:139-144 | After a load of distinct cells, each cell's references are FindPointers of its text, unfiltered |
| CellStore.LoadCountMirror | Lab1.Core/Grid/Grid.cs:135-154 | After a load of distinct cells, each cell is listed among r's dependents as often as its text names r |
| CellStore.LoadSheetCells | Lab1.Core/Grid/Grid.cs:135-141 | After a load, each loaded cell reads back as its text (absent when empty). Every other cell reads as in the starting map |
| Grid.Grown | Lab1.Core/Grid/Grid.cs:52-60 | Definition (no contract): the setter's counter rule, where non-empty text at index k raises the counter to k + 1 when it is not above k. StoredKeepsBounds is its property |
| Grid.Extent | Lab1.Core/Grid/Grid.cs:132-141 | Definition (no contract): a counter after a load, which starts it at 0 and applies Grown per replayed cell. ExtentIsLargest is its property |
| Grid.UpdatedRefs | Lab1.Core/Grid/Grid.cs:176-188 | Definition (no contract): the new references map, references[p] := FindPointers(v) with the first p removed. Its properties are UpdatePair and UpdateKeepsMirror |
| Grid.UpdatedDeps | Lab1.Core/Grid/Grid.cs:157-201 | Definition (no contract): the new dependents map. Empty text unlinks p from every old target except itself. Other text unlinks it from the stale targets and then links it to the new ones. Its properties are UpdatedCount, UpdateLinksOnce, UpdateUnlinksStale, UpdateKeepsOthers and UpdateKeepsMirror |
| Grid.ExtentIsLargest | Lab1.Core/Grid/Grid.cs:52-60 | After a load, each counter is never below 0 and lies above every row (column) written with non-empty text. When it is positive it is 1 + such a row (column), so it is max(0, 1 + the largest one) |
| Grid.UpdatedCount | Lab1.Core/Grid/Grid.cs:157-201 | The exact count of each dependent under each cell after UpdateCell. Cells other than p are untouched. For p, new targets hold it once (or as before), kept ones are unchanged, and stale ones lose one occurrence per old reference |
| Grid.UpdateLinksOnce | Lab1.Core/Grid/Grid.cs:190-201 | After UpdateCell(p, v), p is listed among the dependents of every new reference, and exactly once when no list had duplicates before |
| Grid.UpdateUnlinksStale | Lab1.Core/Grid/Grid.cs:179-186 | Under the mirror with no duplicate dependents, any old reference that is not kept loses p from its dependents |
| Grid.UpdateKeepsOthers | Lab1.Core/Grid/Grid.cs:179-201 | No entry of a cell other than p changes. A list of a cell that is neither old nor new reference is unchanged |
| Grid.UpdatePair | Lab1.Core/Grid/Grid.cs:176-201 | Under the mirror without duplicates, and unless the text is cleared while p references itself, each pair (q, r) is an edge in the new references exactly when it is in the new dependents, at most once |
| Grid.UpdateKeepsMirror | Lab1.Core/Grid/Grid.cs:176-201 | UpdateCell preserves the mirror and "no duplicate dependent", unless the text is cleared while p references itself |
| Grid.UpdateKeepsKeys | Lab1.Core/Grid/Grid.cs:157-201 | After UpdateCell every referenced cell still has a dependents entry, so no later `_dependents[r]` throws |
| Grid.SelfEdgeSurvivesClear | Lab1.Core/Grid/Grid.cs:163-170 | For the self-edge maps {a ↦ [a]}, which mirror each other without duplicates, clearing a empties references[a] but keeps a in dependents[a], so the mirror breaks. Grid.IntendedDiffers proves the kept self-edge for any mirrored maps without duplicates |
| Grid.SelfEdgeFromText | Lab1.Core/Grid/Grid.cs:176-201 | Text `$A$1+$A$1` in cell $A$1 stores that self-edge: List.Remove takes out only one occurrence |
| Grid.SelfReferenceThenClear | Lab1.Core/Grid/Grid.cs:159-201 | Writing `$A$1+$A$1` to $A$1 of an empty grid stores the self-edge, and the maps are still a mirror. Clearing the cell then empties its references but keeps it among its own dependents, so the mirror breaks |
| Grid.IntendedUpdatedDeps | Lab1.Core/Grid/Grid.cs:163-170 | Definition (no contract): the clearing branch without the self-skip, so p leaves every old target's dependents. Its properties are IntendedAgrees, IntendedDiffers and IntendedUpdateKeepsMirror |
| Grid.IntendedAgrees | Lab1.Core/Grid/Grid.cs:157-201 | The correction gives the code's dependents map on every update except one: clearing a cell that references itself |
| Grid.IntendedDiffers | Lab1.Core/Grid/Grid.cs:163-170 | When a self-referencing cell is cleared under the mirror, the code keeps p among its own dependents and the correction removes it |
| Grid.IntendedUpdateKeepsMirror | Lab1.Core/Grid/Grid.cs:157-201 | With the correction, every update keeps the mirror and the absence of duplicates, given only the mirror and no duplicates before |
| Grid.LoadedDuplicateOutlivesEdits | Lab1.Core/Grid/Grid.cs:143-186 | A load that lists a reference twice satisfies the counting mirror. A later edit keeping the reference once, and then an edit dropping it, leave a stale dependent behind, so the mirror breaks |
| Grid.StoredKeepsBounds | Lab1.Core/Grid/Grid.cs:52-60 | Every stored cell stays below the row and column counters after the setter |
| Grid.ClearReferences | Lab1.Core/Grid/Grid.cs:159-172 | For empty text, p is removed from every old target except itself, and p's references entry is dropped. Other text changes nothing |
| Grid.Relink | Lab1.Core/Grid/Grid.cs:176-201 | references[p] becomes FindPointers(v) minus its first p. Old targets not kept lose p, and new ones gain it once |
| Grid.UpdateComposes | Lab1.Core/Grid/Grid.cs:157-201 | The empty-text branch followed by the relinking equals the single UpdatedRefs/UpdatedDeps transition |
| Grid.Grid.constructor | Lab1.Core/Grid/Grid.cs:22-30 | The grid starts with rows 0..rows-1 present and empty, both counters 0 and both maps empty |
| Grid.Grid.SetCell | Lab1.Core/Grid/Grid.cs:39-63 | The setter stores or removes the cell and raises the counters on non-empty text only. It keeps the counters above every stored cell |
| Grid.Grid.Rows | Lab1.Core/Grid/Grid.cs:83-86 | Definition (no contract): the row counter. Its meaning comes from SetCell, UpdateCell and Load (Grown, Extent) with StoredKeepsBounds and ExtentIsLargest |
| Grid.Grid.Columns | Lab1.Core/Grid/Grid.cs:88-91 | Definition (no contract): the column counter, with the same properties as Rows |
| Grid.Grid.GetCellData | Lab1.Core/Grid/Grid.cs:93-97 | The result is `""` exactly when the cell is absent |
| Grid.Grid.GetDependents | Lab1.Core/Grid/Grid.cs:211-214 | Under the mirror, the result lists exactly the cells whose references contain p |
| Grid.Grid.UpdateCell | Lab1.Core/Grid/Grid.cs:157-204 | The new text, counters and maps are those of the transition functions. The returned list is GetDependents(p), the cell reads back as v, and no other cell's text changes. Keys stay present. The mirror and "no duplicate dependent" are kept when both held before, unless the update clears a cell that references itself |
| Grid.Grid.ClearCell | Lab1.Core/Grid/Grid.cs:206-209 | ClearCell is UpdateCell(p, ""): the cell reads `""`, the counters do not shrink, and references[p] becomes empty |
| Grid.Grid.Load | Lab1.Core/Grid/Grid.cs:120-155 | No data changes nothing. Otherwise text, both maps and counters are cleared, then each cell is replayed: its text is stored, and its references are FindPointers unfiltered, appended once per occurrence |
| LegacyGrid.UpdatedRefs | Grid/Grid.cs:161-163 | Definition (no contract): references[p] := FindPointers(v), unfiltered. SelfReferenceKept and UpdateKeepsCountMirror are its properties |
| LegacyGrid.UpdatedDeps | Grid/Grid.cs:142-173 | Definition (no contract): for empty text p is removed from every old target. Then p is appended to each target of the new text, with no duplicate check. Its properties are UpdatedCount, NothingRemoved, RepeatedUpdateDuplicates and UpdateKeepsCountMirror |
| LegacyGrid.UpdateKeepsKeys | Grid/Grid.cs:142-176 | After the older UpdateCell every referenced cell still has a dependents entry |
| LegacyGrid.UpdatedCount | Grid/Grid.cs:142-176 | Exact counts after the older UpdateCell. Empty text removes one occurrence of p per old reference. Other text adds one per occurrence in the new text and removes nothing |
| LegacyGrid.SelfReferenceKept | Grid/Grid.cs:161-163 | references[p] is FindPointers(v) unfiltered, so a self-reference is kept in both maps |
| LegacyGrid.NothingRemoved | Grid/Grid.cs:165-173 | With non-empty text no dependent is removed: each old list is a prefix of the new one |
| LegacyGrid.RepeatedUpdateDuplicates | Grid/Grid.cs:165-173 | Repeating the same update lists p at least twice more under each referenced cell |
| LegacyGrid.UpdateKeepsCountMirror | Grid/Grid.cs:142-176 | The counting mirror is kept when the text is empty or p had no references |
| LegacyGrid.StaleEdgeBreaksMirror | Grid/Grid.cs:144-157 | Replacing a formula by non-empty text without references leaves the stale dependent, so the mirror breaks |
| LegacyGrid.LargestColumn | Grid/Grid.cs:75-78 | The largest column key over all rows: no stored column exceeds it, and some row holds it |
| LegacyGrid.Grid.constructor | Grid/Grid.cs:19-27 | Rows 0..rows-1 present and empty, so Rows() == rows. Both maps are empty |
| LegacyGrid.Grid.SetCell | Grid/Grid.cs:33-51 | The setter stores or removes the cell, without counters |
| LegacyGrid.Grid.Rows | Grid/Grid.cs:70-73 | Definition (no contract): the number of row entries. The constructor's ensures gives Rows() == rows, preallocated empty rows included |
| LegacyGrid.Grid.Columns | Grid/Grid.cs:75-78 | Fails (Max of an empty sequence) exactly when there is no row or some row is empty. Otherwise it is the largest column key, not a count |
| LegacyGrid.Grid.GetCellData | Grid/Grid.cs:80-84 | The result is `""` exactly when the cell is absent |
| LegacyGrid.Grid.UpdateCell | Grid/Grid.cs:142-176 | The new text and maps are the older transition. The returned list is GetDependents(p), the cell reads back as v, and no other cell changes |
| LegacyGrid.Grid.ClearCell | Grid/Grid.cs:178-181 | ClearCell is UpdateCell(p, ""): references[p] becomes empty and p leaves its old targets' lists once per reference |
| LegacyGrid.Grid.Load | Grid/Grid.cs:107-140 | No data changes nothing. Otherwise only the two maps are cleared: loaded cells merge over the existing text, and the maps are rebuilt from the loaded cells alone |

## Left out

- Lexing and parsing are left out. The generated ANTLR lexer and parser
  (`ParseExpression`) and the throwing error listener become the parameter
  `Formula.Env.parse`, which returns a parse tree or `None` for a syntax
  error. The grammar is not part of this model.
- Floating point is left out. Values are `real`, and `double.Parse` becomes a
  `real` in the parse tree. `%` and `Math.Pow` are the uninterpreted
  parameters `rem` and `pow`. NaN, infinities and rounding are not modelled.
- Fuel: the evaluators carry a fuel bound, and `Err(OutOfFuel)` stands for the
  source's unbounded recursion (a stack overflow on a reference cycle).
  `EvaluateMonotone` shows that a finished result never depends on the fuel.
- JSON streaming is left out. `WriteToJsonStreamAsync` and the deserializer in
  `ReadFromJsonStreamAsync` are asynchronous I/O. `Load` takes the
  deserialized data as `Option<seq<Entry>>`, and the sequence order stands for
  the unspecified dictionary enumeration order.
- `GetEnumerator` is left out; its order over dictionaries is unspecified.
  The user interface of the main page is left out except `GetColumnName`, and
  so is the file-save picker.
- Integer overflow is left out: integers are unbounded. The 32-bit
  wrap-around of `ColumnToNumber` on long column names and the overflow check
  of `int.Parse` are not modelled.
- Only ASCII digits are recognised, both by the regex's `\d` and by
  `int.Parse`. Unicode digits are not.
- The ASCII test of the string constructor is "every character is below 128". That is
  exactly when the UTF-8 byte count equals the length. Encoding is not
  modelled beyond that.
- Addresses are the value datatype `CellPointer.Addr(col, row)` in both grids.
  The current grid compares addresses by value. The older grid's
  `Grid/CellPointer.cs` class does not override `Equals`, so its dictionaries
  compare by reference. That reference identity is not modelled.
- `Lab1.Core/Grid/CellPointer.cs` is not part of this model. Its behaviour is
  taken from `Grid/CellPointer.cs`.
- The current version's AST and AstBuilder files are not part of this model.
  Both evaluators use the builder of `GridCalculator/AstBuilder.cs`.
- The older evaluator reads `cellPointer.Pointer`, which the older AST
  cell-pointer term does not declare. `LegacyGridCalculator` reads the term's
  own address.
- Exception types and messages are one `Error` constructor per kind: no
  message text, and no wrapping of `ParseCanceledException` into
  `InvalidOperationException`.
- `null` is left out. Null strings and null lists are represented by `""` and
  by an absent key.
- The lists a grid returns are values. The aliasing of returned `List`
  objects with the grid's own lists, through which a caller could change the
  grid, is not modelled.
- Grid.Grid.UpdateCell, LegacyGrid.Grid.UpdateCell and both Load methods keep
  the two maps in local variables while editing and assign the fields once.
  Their `foreach` loops are the value-level methods `RemoveFromTargets`,
  `AddToTargets` and `AppendToTargets`. The source edits the dictionaries in
  place at every step. No read of a map happens between those steps other
  than through the same local copy, so the final state is the same.
- Grid.UpdatePair: its requires carries the same two conditions as
  Grid.UpdateKeepsMirror, for the same reason.
- Grid.UpdateKeepsMirror: the mirror is proved preserved only when it held
  before with no duplicate dependents, and not when p references itself and
  is cleared. `SelfEdgeSurvivesClear` and `LoadedDuplicateOutlivesEdits` show
  that the code breaks it in those cases.
- Grid.Grid.UpdateCell: its ensures about the mirror has the same two
  conditions as Grid.UpdateKeepsMirror, for the same reason.
- Grid.Grid.constructor and LegacyGrid.Grid.constructor require `rows >= 0`,
  and `columns >= 0` when `rows > 0`. For other arguments the source throws
  `ArgumentOutOfRangeException`, because a dictionary's initial capacity
  cannot be negative (Lab1.Core/Grid/Grid.cs:24-29, Grid/Grid.cs:21-26). A
  constructor that throws is not modelled.
- CellPointer.ParseInt: `int.Parse` is modelled with `+` and `-` as the only
  sign strings. The current culture's own positive and negative signs, and
  the trailing `'\0'` characters that .NET accepts, are not modelled.
- LegacyGrid.Grid.GetDependents is not specified on its own. It returns
  `dependents[p]` or the empty list, as `Grid.Grid.GetDependents` does.

## Findings

| source | as written | input that shows it | evidently intended | confidence | as-written member | corrected member |
|---|---|---|---|---|---|---|
| GridCalculator/GridCalculator.cs:38 | the self-reference test is a substring test of the input against the cell's `$COL$ROW` text | for cell `$A$1`, the formula `$A$10`, which names only `$A$10`, is refused | refuse exactly the formulas whose pointers include the cell, as Lab1.Core/GridCalculator/GridCalculator.cs:41-44 does | not executed | LegacyGridCalculator.LongerRowRefused | GridCalculator.SelfReferenceDetected |
| Grid/Grid.cs:142-173 | UpdateCell unlinks the old targets only when the text is cleared, and appends to the new targets without a duplicate check | cell b references a, then gets a non-empty text without pointers: a still lists b as a dependent, with addresses compared by value as in this model | remove p from stale targets and add each new target once, as Lab1.Core/Grid/Grid.cs:178-201 does | not executed | LegacyGrid.StaleEdgeBreaksMirror | Grid.UpdateUnlinksStale |
| Lab1.Core/Grid/Grid.cs:163-170 | clearing a cell unlinks it from every old target except itself | write `$A$1+$A$1` to `$A$1` of an empty grid, then clear `$A$1`: `$A$1` stays among its own dependents while its references are empty | remove the cell from the dependents of every old target, itself included, so the maps stay mirror images | not executed | Grid.SelfReferenceThenClear | Grid.IntendedUpdateKeepsMirror |
