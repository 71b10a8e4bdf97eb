/** GetColumnName of MainPage.xaml.cs, the header label of a grid column. */
module MainPage {
  import CP = CellPointer

  /** The while-loop over `dividend`, prepending `Convert.ToChar(65 + modulo)`. */
  method GetColumnName(colIndex: int) returns (columnName: string)
    ensures columnName == CP.ColumnName(colIndex)
    ensures CP.AllLetters(columnName) && (columnName == "" <==> colIndex <= 0)
    ensures colIndex >= 0 ==> CP.ColumnToNumber(columnName) == colIndex
  {
    var dividend := colIndex;
    columnName := "";
    while dividend > 0
      invariant CP.ColumnName(dividend) + columnName == CP.ColumnName(colIndex)
      decreases dividend
    {
      var modulo := (dividend - 1) % 26;
      columnName := [(65 + modulo) as char] + columnName;
      assert (dividend - modulo) / 26 == (dividend - 1) / 26;
      dividend := (dividend - modulo) / 26;
    }
    CP.ColumnNameShape(colIndex);
    if colIndex >= 0 {
      CP.ColumnNumberOfName(colIndex);
    }
  }
}
