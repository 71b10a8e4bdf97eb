/** The second copy of the codec, in GridCalculator/AST/Terms/CellPointer.cs:
    the cell-reference term of the older AST. Its code is the same text as
    Grid/CellPointer.cs; it is modelled on its own and proved to agree. */
module TermCellPointer {
  import opened Results
  import CP = CellPointer

  /** The private ColumnToNumber: the same left fold over the characters. */
  function ColumnToNumber(column: string): int
  {
    if column == [] then 0
    else ColumnToNumber(column[..|column| - 1]) * 26 + (column[|column| - 1] as int - 'A' as int + 1)
  }

  /** The private NumberToColumn loop. */
  method NumberToColumn(columnNumber: int) returns (column: string)
    ensures column == CP.ColumnName(columnNumber)
    ensures CP.AllLetters(column) && (column == "" <==> columnNumber <= 0)
    ensures columnNumber >= 0 ==> ColumnToNumber(column) == columnNumber
  {
    var n := columnNumber;
    column := "";
    while n > 0
      invariant CP.ColumnName(n) + column == CP.ColumnName(columnNumber)
      decreases n
    {
      n := n - 1;
      var letter := ('A' as int + n % 26) as char;
      column := [letter] + column;
      n := n / 26;
    }
    CP.ColumnNameShape(columnNumber);
    if columnNumber >= 0 {
      ColumnNumberOfName(columnNumber);
    }
  }

  /** The string constructor of the term. */
  function Parse(raw: string): (r: Result<CP.Addr>)
    ensures r.Err? ==> r.error in {EmptyPointer, NonAsciiPointer, SubstringOutOfRange, BadInteger}
  {
    if raw == [] then Err(EmptyPointer)
    else if !CP.IsAscii(raw) then Err(NonAsciiPointer)
    else
      var first := CP.IndexOf(raw, CP.Separator, 0);
      var second := CP.IndexOf(raw, CP.Separator, first + 1);
      if second - first - 1 < 0 then Err(SubstringOutOfRange)
      else
        match CP.ParseInt(raw[second + 1..])
        case Err(e) => Err(e)
        case Ok(row) => Ok(CP.Addr(ColumnToNumber(raw[first + 1..second]), row))
  }

  /** The term's ToString. */
  function ToString(a: CP.Addr): string
  {
    "$" + CP.ColumnName(a.col) + "$" + CP.IntToString(a.row)
  }

  /** The two column folds agree on every string. */
  lemma {:induction false} ColumnToNumberAgrees(s: string)
    ensures ColumnToNumber(s) == CP.ColumnToNumber(s)
  {
    if s != [] {
      ColumnToNumberAgrees(s[..|s| - 1]);
    }
  }

  /** The two string constructors agree on every input, errors included. */
  lemma ParseAgrees(raw: string)
    ensures Parse(raw) == CP.Parse(raw)
  {
    if raw != [] && CP.IsAscii(raw) {
      var first := CP.IndexOf(raw, CP.Separator, 0);
      var second := CP.IndexOf(raw, CP.Separator, first + 1);
      if second - first - 1 >= 0 {
        ColumnToNumberAgrees(raw[first + 1..second]);
      }
    }
  }

  /** Decoding the letters of a column number gives the number back. */
  lemma ColumnNumberOfName(n: int)
    requires n >= 0
    ensures ColumnToNumber(CP.ColumnName(n)) == n
  {
    ColumnToNumberAgrees(CP.ColumnName(n));
    CP.ColumnNumberOfName(n);
  }

  /** The term's text form parses back to the same column and row. */
  lemma ParseOfToString(a: CP.Addr)
    requires a.col >= 0
    ensures Parse(ToString(a)) == Ok(a)
  {
    ParseAgrees(ToString(a));
    CP.ParseOfToString(a);
  }
}
