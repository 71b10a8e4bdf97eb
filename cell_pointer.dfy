/** The cell-address codec of Grid/CellPointer.cs: bijective base-26 column
    letters, the `$COL$ROW` text form and its parse, and the scan that finds
    every `$COL$ROW` token in a formula. */
module CellPointer {
  import opened Results

  /** A cell address. Addresses are compared by value. */
  datatype Addr = Addr(col: int, row: int)

  const Separator: char := '$'

  predicate IsLetter(c: char) { 'A' <= c <= 'Z' }
  predicate IsDigit(c: char) { '0' <= c <= '9' }
  /** The white space int.Parse skips: U+0009 to U+000D and the space. */
  predicate IsWhite(c: char) { c == ' ' || '\t' <= c <= '\r' }

  predicate AllLetters(s: string) { forall i :: 0 <= i < |s| ==> IsLetter(s[i]) }
  predicate AllDigits(s: string) { forall i :: 0 <= i < |s| ==> IsDigit(s[i]) }

  /** A string whose UTF-8 encoding has as many bytes as it has characters. */
  predicate IsAscii(s: string) { forall i :: 0 <= i < |s| ==> s[i] as int < 128 }

  function Letter(d: int): (c: char)
    requires 0 <= d < 26
    ensures IsLetter(c) && c as int == 'A' as int + d
  {
    ('A' as int + d) as char
  }

  function Digit(d: int): (c: char)
    requires 0 <= d < 10
    ensures IsDigit(c) && c as int == '0' as int + d
  {
    ('0' as int + d) as char
  }

  // ---------------------------------------------------------------------
  // Column letters

  /** ColumnToNumber: the left fold `current * 26 + (c - 'A' + 1)` over the
      characters, starting from 0. Characters outside 'A'..'Z' are folded in
      with the same arithmetic. */
  function ColumnToNumber(column: string): int
  {
    if column == [] then 0
    else ColumnToNumber(column[..|column| - 1]) * 26 + (column[|column| - 1] as int - 'A' as int + 1)
  }

  /** The column letters NumberToColumn produces: empty for n <= 0, otherwise
      the bijective base-26 numeral of n with 'A' = 1 and 'Z' = 26. */
  function ColumnName(n: int): string
    decreases n
  {
    if n <= 0 then "" else ColumnName((n - 1) / 26) + [Letter((n - 1) % 26)]
  }

  /** NumberToColumn: the while-loop that takes one letter off the right of
      the column number per turn. */
  method NumberToColumn(columnNumber: int) returns (column: string)
    ensures column == ColumnName(columnNumber)
    ensures AllLetters(column) && (column == "" <==> columnNumber <= 0)
    ensures columnNumber >= 0 ==> ColumnToNumber(column) == columnNumber
  {
    var n := columnNumber;
    column := "";
    while n > 0
      invariant ColumnName(n) + column == ColumnName(columnNumber)
      decreases n
    {
      n := n - 1;
      var letter := Letter(n % 26);
      column := [letter] + column;
      n := n / 26;
    }
    ColumnNameShape(columnNumber);
    if columnNumber >= 0 {
      ColumnNumberOfName(columnNumber);
    }
  }

  lemma {:induction false} ColumnNameShape(n: int)
    ensures AllLetters(ColumnName(n))
    ensures ColumnName(n) == "" <==> n <= 0
  {
    if n > 0 {
      ColumnNameShape((n - 1) / 26);
    }
  }

  /** Decoding the letters of a column number gives the number back. */
  lemma {:induction false} ColumnNumberOfName(n: int)
    requires n >= 0
    ensures ColumnToNumber(ColumnName(n)) == n
  {
    if n > 0 {
      var q, d := (n - 1) / 26, (n - 1) % 26;
      ColumnNumberOfName(q);
      var s := ColumnName(n);
      assert s[..|s| - 1] == ColumnName(q);
      assert s[|s| - 1] == Letter(d);
    }
  }

  lemma {:induction false} ColumnNumberOfLetters(s: string)
    requires AllLetters(s)
    ensures ColumnToNumber(s) >= 0
    ensures ColumnToNumber(s) == 0 <==> s == []
  {
    if s != [] {
      ColumnNumberOfLetters(s[..|s| - 1]);
    }
  }

  /** Encoding the number of a column made of letters gives the letters back. */
  lemma {:induction false} ColumnNameOfNumber(s: string)
    requires AllLetters(s)
    ensures ColumnName(ColumnToNumber(s)) == s
  {
    if s != [] {
      var init, last := s[..|s| - 1], s[|s| - 1];
      var d := last as int - 'A' as int;
      ColumnNumberOfLetters(init);
      ColumnNameOfNumber(init);
      var q := ColumnToNumber(init);
      var n := ColumnToNumber(s);
      assert n - 1 == q * 26 + d;
      assert (n - 1) / 26 == q && (n - 1) % 26 == d;
      assert Letter(d) == last;
      assert s == init + [last];
    }
  }

  // ---------------------------------------------------------------------
  // Row numbers: int.ToString and int.Parse

  /** The decimal digits of a natural number, without leading zeros. */
  function NatToString(n: nat): string
    decreases n
  {
    if n < 10 then [Digit(n)] else NatToString(n / 10) + [Digit(n % 10)]
  }

  /** int.ToString: a minus sign for a negative number, then the digits. */
  function IntToString(n: int): string
  {
    if n < 0 then "-" + NatToString(-n) else NatToString(n)
  }

  /** The value of a string of decimal digits, read left to right. */
  function DigitsValue(s: string): int
  {
    if s == [] then 0 else DigitsValue(s[..|s| - 1]) * 10 + (s[|s| - 1] as int - '0' as int)
  }

  function TrimStart(s: string): string
  {
    if s != [] && IsWhite(s[0]) then TrimStart(s[1..]) else s
  }

  function TrimEnd(s: string): string
  {
    if s != [] && IsWhite(s[|s| - 1]) then TrimEnd(s[..|s| - 1]) else s
  }

  /** int.Parse with `+` and `-` as the sign strings: optional white space
      around an optional sign and one or more ASCII digits. */
  function ParseInt(s: string): Result<int>
  {
    var t := TrimEnd(TrimStart(s));
    if |t| > 1 && (t[0] == '+' || t[0] == '-') && AllDigits(t[1..]) then
      Ok(if t[0] == '-' then -DigitsValue(t[1..]) else DigitsValue(t[1..]))
    else if t != [] && AllDigits(t) then
      Ok(DigitsValue(t))
    else
      Err(BadInteger)
  }

  /** Digits without a leading zero (except the number 0 itself). */
  predicate Canonical(d: string)
  {
    |d| >= 1 && AllDigits(d) && (d[0] == '0' ==> |d| == 1)
  }

  lemma {:induction false} NatToStringShape(n: nat)
    ensures Canonical(NatToString(n))
    ensures DigitsValue(NatToString(n)) == n
  {
    if n >= 10 {
      NatToStringShape(n / 10);
      var s := NatToString(n);
      assert s[..|s| - 1] == NatToString(n / 10);
    }
  }

  lemma {:induction false} DigitsValueBounds(d: string)
    requires AllDigits(d)
    ensures DigitsValue(d) >= 0
    ensures |d| >= 1 && d[0] != '0' ==> DigitsValue(d) >= 1
  {
    if d != [] {
      DigitsValueBounds(d[..|d| - 1]);
    }
  }

  /** Printing the value of canonical digits gives the digits back. */
  lemma {:induction false} NatToStringOfDigits(d: string)
    requires Canonical(d)
    ensures DigitsValue(d) >= 0 && NatToString(DigitsValue(d)) == d
  {
    DigitsValueBounds(d);
    if |d| > 1 {
      var init := d[..|d| - 1];
      assert init[0] == d[0];
      NatToStringOfDigits(init);
      DigitsValueBounds(init);
      var v := DigitsValue(d);
      var q, c := DigitsValue(init), d[|d| - 1] as int - '0' as int;
      assert v == q * 10 + c && 0 <= c < 10 && q >= 1;
      assert v / 10 == q && v % 10 == c;
      assert Digit(c) == d[|d| - 1];
      assert d == init + [d[|d| - 1]];
    }
  }

  /** int.Parse reads back what int.ToString prints. */
  lemma ParseIntToString(n: int)
    ensures ParseInt(IntToString(n)) == Ok(n)
  {
    IntToStringNumeral(n);
    ParseIntNumeral(IntToString(n));
  }

  // ---------------------------------------------------------------------
  // The text form `$COL$ROW`

  /** string.IndexOf(c, from): the first position at or after `from` that
      holds `c`, or -1 when there is none. */
  function IndexOf(s: string, c: char, from: nat): (k: int)
    requires from <= |s|
    ensures k == -1 || (from <= k < |s| && s[k] == c)
    ensures k == -1 ==> forall j :: from <= j < |s| ==> s[j] != c
    ensures k != -1 ==> forall j :: from <= j < k ==> s[j] != c
    decreases |s| - from
  {
    if from == |s| then -1 else if s[from] == c then from else IndexOf(s, c, from + 1)
  }

  /** The string constructor `new CellPointer(rawValue)`: the column is the
      text between the first two separators, the row everything after the
      second. */
  function Parse(raw: string): Result<Addr>
  {
    if raw == [] then Err(EmptyPointer)
    else if !IsAscii(raw) then Err(NonAsciiPointer)
    else
      var first := IndexOf(raw, Separator, 0);
      var second := IndexOf(raw, Separator, first + 1);
      if second - first - 1 < 0 then Err(SubstringOutOfRange)
      else
        match ParseInt(raw[second + 1..])
        case Err(e) => Err(e)
        case Ok(row) => Ok(Addr(ColumnToNumber(raw[first + 1..second]), row))
  }

  /** CellPointer.ToString. */
  function ToString(a: Addr): string
  {
    "$" + ColumnName(a.col) + "$" + IntToString(a.row)
  }

  /** IndexOf finds the first occurrence. */
  lemma IndexOfFirst(s: string, c: char, from: nat, k: nat)
    requires from <= k < |s| && s[k] == c
    requires forall j :: from <= j < k ==> s[j] != c
    ensures IndexOf(s, c, from) == k
  {
  }

  /** The string constructor once both separators are located. */
  lemma ParseAt(raw: string, second: nat)
    requires raw != [] && IsAscii(raw) && raw[0] == Separator
    requires 1 <= second < |raw| && raw[second] == Separator
    requires forall j :: 1 <= j < second ==> raw[j] != Separator
    ensures Parse(raw) == match ParseInt(raw[second + 1..])
      case Err(e) => Err(e)
      case Ok(row) => Ok(Addr(ColumnToNumber(raw[1..second]), row))
  {
    IndexOfFirst(raw, Separator, 0, 0);
    IndexOfFirst(raw, Separator, 1, second);
  }

  /** A numeral: digits, or a minus sign followed by digits. */
  predicate IsNumeral(row: string)
  {
    |row| >= 1 && (AllDigits(row) || (|row| > 1 && row[0] == '-' && AllDigits(row[1..])))
  }

  lemma NumeralUntrimmed(row: string)
    requires IsNumeral(row)
    ensures TrimStart(row) == row && TrimEnd(row) == row
  {
    if row[0] == '-' {
      assert row[|row| - 1] == row[1..][|row| - 2];
    }
  }

  /** int.Parse of a plain or negative numeral. */
  lemma ParseIntNumeral(row: string)
    requires IsNumeral(row)
    ensures ParseInt(row) == Ok(if row[0] == '-' then -DigitsValue(row[1..]) else DigitsValue(row))
  {
    NumeralUntrimmed(row);
  }

  /** The string constructor reads `$` letters `$` digits as the number of the
      letters and the value of the digits. */
  lemma ParseTokenText(col: string, row: string)
    requires AllLetters(col) && IsNumeral(row)
    ensures Parse("$" + col + "$" + row) ==
      Ok(Addr(ColumnToNumber(col), if row[0] == '-' then -DigitsValue(row[1..]) else DigitsValue(row)))
  {
    var s := "$" + col + "$" + row;
    var second := 1 + |col|;
    assert |s| == second + 1 + |row|;
    assert s[1..second] == col;
    assert s[second + 1..] == row;
    assert s[0] == Separator && s[second] == Separator;
    forall i | 0 <= i < |s| ensures s[i] as int < 128 && (1 <= i < second ==> s[i] != Separator) {
      if 1 <= i < second {
        assert s[i] == s[1..second][i - 1];
      } else if i > second {
        assert s[i] == s[second + 1..][i - second - 1];
      }
    }
    ParseAt(s, second);
    ParseIntNumeral(row);
  }

  /** int.ToString prints a numeral whose value is the number. */
  lemma IntToStringNumeral(n: int)
    ensures IsNumeral(IntToString(n))
    ensures (if IntToString(n)[0] == '-' then -DigitsValue(IntToString(n)[1..]) else DigitsValue(IntToString(n))) == n
  {
    var m: nat := if n < 0 then -n else n;
    NatToStringShape(m);
    var s := IntToString(n);
    if n < 0 {
      assert s[1..] == NatToString(m);
    } else {
      assert IsDigit(s[0]);
    }
  }

  /** The text form of an address with a non-negative column parses back to
      the same address (a column of 0 prints as no letters and reads back as 0). */
  lemma ParseOfToString(a: Addr)
    requires a.col >= 0
    ensures Parse(ToString(a)) == Ok(a)
  {
    ColumnNameShape(a.col);
    ColumnNumberOfName(a.col);
    IntToStringNumeral(a.row);
    ParseTokenText(ColumnName(a.col), IntToString(a.row));
  }

  /** A canonical token `$COL$ROW` (letters, then digits without a leading
      zero) prints back exactly as it was read. */
  lemma ToStringOfParse(col: string, row: string)
    requires AllLetters(col) && Canonical(row)
    ensures Parse("$" + col + "$" + row).Ok?
    ensures ToString(Parse("$" + col + "$" + row).value) == "$" + col + "$" + row
  {
    ParseTokenText(col, row);
    ColumnNameOfNumber(col);
    NatToStringOfDigits(row);
  }

  /** Row digits with a leading zero do not survive the round trip. */
  lemma LeadingZeroRow(raw: string)
    requires raw == "$A$01"
    ensures Parse(raw) == Ok(Addr(1, 1))
    ensures ToString(Addr(1, 1)) == "$A$1" != raw
  {
    assert Parse(raw) == Ok(Addr(1, 1)) by {
      var col, row := raw[1..2], raw[3..];
      assert raw == "$" + col + "$" + row;
      assert col == "A" && row == "01";
      assert ColumnToNumber(col) == 1 by {
        assert col[..0] == [];
      }
      assert DigitsValue(row) == 1 by {
        assert row[..1] == "0" && row[..1][..0] == [];
        assert DigitsValue(row[..1]) == 0;
      }
      ParseTokenText(col, row);
    }
    assert ToString(Addr(1, 1)) == "$A$1" by {
      assert ColumnName(1) == "A";
      assert IntToString(1) == "1";
    }
  }

  /** The string constructor refuses empty and non-ASCII text. */
  lemma ParseRefusesEmptyAndNonAscii(raw: string)
    ensures raw == "" ==> Parse(raw) == Err(EmptyPointer)
    ensures raw != "" && (exists i :: 0 <= i < |raw| && raw[i] as int >= 128) ==> Parse(raw) == Err(NonAsciiPointer)
  {
  }

  // ---------------------------------------------------------------------
  // FindPointers: the matches of `\$[A-Z]+\$\d+`

  /** A match of the pattern: the position of its opening separator, of the
      separator between its letters and its digits, and the end of its digits. */
  datatype Match = Match(start: nat, sep: nat, end: nat)

  /** `t` is a separator, letters up to m, a separator at m, then digits. */
  predicate PointerShape(t: string, m: int)
  {
    1 < m < |t| - 1 && t[0] == Separator && AllLetters(t[1..m]) && t[m] == Separator && AllDigits(t[m + 1..])
  }

  /** Text that the pattern matches as a whole. */
  ghost predicate IsPointerText(t: string)
  {
    exists m :: PointerShape(t, m)
  }

  /** The end of the longest run of letters that starts at i. */
  function LetterRun(s: string, i: nat): (j: nat)
    requires i <= |s|
    ensures i <= j <= |s| && (j < |s| ==> !IsLetter(s[j]))
    decreases |s| - i
  {
    if i < |s| && IsLetter(s[i]) then LetterRun(s, i + 1) else i
  }

  /** The end of the longest run of digits that starts at i. */
  function DigitRun(s: string, i: nat): (j: nat)
    requires i <= |s|
    ensures i <= j <= |s| && (j < |s| ==> !IsDigit(s[j]))
    decreases |s| - i
  {
    if i < |s| && IsDigit(s[i]) then DigitRun(s, i + 1) else i
  }

  lemma {:induction false} LetterRunSpan(s: string, i: nat)
    requires i <= |s|
    ensures forall t :: i <= t < LetterRun(s, i) ==> IsLetter(s[t])
    decreases |s| - i
  {
    if i < |s| && IsLetter(s[i]) {
      LetterRunSpan(s, i + 1);
    }
  }

  lemma {:induction false} DigitRunSpan(s: string, i: nat)
    requires i <= |s|
    ensures forall t :: i <= t < DigitRun(s, i) ==> IsDigit(s[t])
    decreases |s| - i
  {
    if i < |s| && IsDigit(s[i]) {
      DigitRunSpan(s, i + 1);
    }
  }

  /** A run of letters from i that stops before a non-letter ends there. */
  lemma {:induction false} LetterRunEnds(s: string, i: nat, j: nat)
    requires i <= j <= |s| && (j < |s| ==> !IsLetter(s[j]))
    requires forall t :: i <= t < j ==> IsLetter(s[t])
    ensures LetterRun(s, i) == j
    decreases j - i
  {
    if i < j {
      LetterRunEnds(s, i + 1, j);
    }
  }

  /** A run of digits from i that stops before a non-digit ends there. */
  lemma {:induction false} DigitRunEnds(s: string, i: nat, j: nat)
    requires i <= j <= |s| && (j < |s| ==> !IsDigit(s[j]))
    requires forall t :: i <= t < j ==> IsDigit(s[t])
    ensures DigitRun(s, i) == j
    decreases j - i
  {
    if i < j {
      DigitRunEnds(s, i + 1, j);
    }
  }

  /** The match the regular-expression engine finds when it tries position i:
      a separator, the longest run of letters, a separator, the longest run of
      digits. */
  function MatchAt(s: string, i: nat): (r: Option<Match>)
    requires i <= |s|
    ensures r.Some? ==> r.value.start == i && i + 1 < r.value.sep && r.value.sep + 1 < r.value.end <= |s|
  {
    if i < |s| && s[i] == Separator then
      var j := LetterRun(s, i + 1);
      if i + 1 < j < |s| && s[j] == Separator then
        var k := DigitRun(s, j + 1);
        if j + 1 < k then Some(Match(i, j, k)) else None
      else None
    else None
  }

  /** The address of a match: the number of its letters and the value of its digits. */
  function PointerOf(s: string, m: Match): Addr
    requires m.start < m.sep < m.end <= |s|
  {
    Addr(ColumnToNumber(s[m.start + 1..m.sep]), DigitsValue(s[m.sep + 1..m.end]))
  }

  /** A separator at i, letters strictly between i and j, a separator at j,
      digits strictly between j and k. */
  ghost predicate TokenAt(s: string, i: nat, j: nat, k: nat)
  {
    && i + 1 < j && j + 1 < k <= |s|
    && s[i] == Separator && s[j] == Separator
    && (forall t :: i < t < j ==> IsLetter(s[t]))
    && (forall t :: j < t < k ==> IsDigit(s[t]))
  }

  lemma TokenText(s: string, i: nat, j: nat, k: nat)
    requires TokenAt(s, i, j, k)
    ensures s[i..k] == "$" + s[i + 1..j] + "$" + s[j + 1..k]
    ensures AllLetters(s[i + 1..j]) && IsNumeral(s[j + 1..k]) && s[j + 1..k][0] != '-'
    ensures IsPointerText(s[i..k])
  {
    var col, row := s[i + 1..j], s[j + 1..k];
    assert s[i..k] == "$" + col + "$" + row by {
      assert s[i..k] == s[i..i + 1] + s[i + 1..j] + s[j..j + 1] + s[j + 1..k];
      assert s[i..i + 1] == [s[i]] && s[j..j + 1] == [s[j]];
    }
    assert IsDigit(row[0]) by {
      assert row[0] == s[j + 1];
    }
    var t := s[i..k];
    var m := j - i;
    assert t[1..m] == col && t[m] == Separator && t[m + 1..] == row;
    assert PointerShape(t, m);
  }

  /** When the text at i is a token whose digits are not followed by a digit,
      the engine matches exactly that token. */
  lemma MatchOfToken(s: string, i: nat, j: nat, k: nat)
    requires TokenAt(s, i, j, k) && (k == |s| || !IsDigit(s[k]))
    ensures MatchAt(s, i) == Some(Match(i, j, k))
  {
    LetterRunEnds(s, i + 1, j);
    DigitRunEnds(s, j + 1, k);
  }

  /** A match found at its start is a token ended by the longest run of digits. */
  lemma MatchAtToken(s: string, m: Match)
    requires m.start <= |s| && MatchAt(s, m.start) == Some(m)
    ensures TokenAt(s, m.start, m.sep, m.end)
    ensures m.end == |s| || !IsDigit(s[m.end])
  {
    LetterRunSpan(s, m.start + 1);
    DigitRunSpan(s, m.sep + 1);
  }

  /** The string constructor reads a token as the number of its letters and
      the value of its digits. */
  lemma TokenParses(s: string, i: nat, j: nat, k: nat)
    requires TokenAt(s, i, j, k)
    ensures Parse(s[i..k]) == Ok(Addr(ColumnToNumber(s[i + 1..j]), DigitsValue(s[j + 1..k])))
  {
    TokenText(s, i, j, k);
    ParseTokenText(s[i + 1..j], s[j + 1..k]);
  }

  /** A match found at its start is a longest match of the pattern. */
  lemma MatchAtGreedy(s: string, m: Match)
    requires m.start <= |s| && MatchAt(s, m.start) == Some(m)
    ensures IsPointerText(s[m.start..m.end])
    ensures m.end == |s| || !IsDigit(s[m.end])
  {
    MatchAtToken(s, m);
    TokenText(s, m.start, m.sep, m.end);
  }

  /** The string constructor reads the text of a match found at its start as
      the match's address. */
  lemma MatchAtFound(s: string, m: Match)
    requires m.start <= |s| && MatchAt(s, m.start) == Some(m)
    ensures Parse(s[m.start..m.end]) == Ok(PointerOf(s, m))
  {
    MatchAtToken(s, m);
    TokenParses(s, m.start, m.sep, m.end);
  }

  /** The text at i..k spells a separator, letters up to i + m, a separator
      and then digits. */
  lemma PointerTextAt(s: string, i: nat, k: nat, m: nat)
    requires i < k <= |s| && PointerShape(s[i..k], m)
    ensures s[i] == Separator && s[i + m] == Separator && i + m + 1 < |s| && IsDigit(s[i + m + 1])
    ensures forall p :: i < p < i + m ==> IsLetter(s[p])
  {
    var t := s[i..k];
    forall p | i < p < i + m ensures IsLetter(s[p]) {
      assert s[p] == t[1..m][p - i - 1];
    }
    assert s[i] == t[0] && s[i + m] == t[m];
    assert s[i + m + 1] == t[m + 1..][0];
  }

  /** Text starting at i that the pattern matches makes the engine find a match at i. */
  lemma PointerTextMatches(s: string, i: nat, k: nat)
    requires i < k <= |s| && IsPointerText(s[i..k])
    ensures MatchAt(s, i).Some?
  {
    var t := s[i..k];
    var m :| PointerShape(t, m);
    PointerTextAt(s, i, k, m);
    var e := DigitRun(s, i + m + 1);
    DigitRunSpan(s, i + m + 1);
    assert TokenAt(s, i, i + m, e);
    MatchOfToken(s, i, i + m, e);
  }

  /** When no match is found at i, no text starting at i matches. */
  lemma MatchAtNone(s: string, i: nat, k: nat)
    requires i < k <= |s|
    ensures MatchAt(s, i).None? ==> !IsPointerText(s[i..k])
  {
    if IsPointerText(s[i..k]) {
      PointerTextMatches(s, i, k);
    }
  }

  /** Whether position p lies inside one of the matches. */
  function Covered(ms: seq<Match>, p: nat): bool
  {
    ms != [] && (ms[0].start <= p < ms[0].end || Covered(ms[1..], p))
  }

  /** The matches, left to right, that the engine returns from position i on:
      after a match it resumes at the match's end, otherwise at the next
      position. */
  function Scan(s: string, i: nat): (r: seq<Match>)
    requires i <= |s|
    ensures forall j :: 0 <= j < |r| ==> i <= r[j].start < r[j].sep < r[j].end <= |s|
    decreases |s| - i
  {
    if i == |s| then []
    else match MatchAt(s, i)
      case Some(m) => [m] + Scan(s, m.end)
      case None => Scan(s, i + 1)
  }

  /** Every match the scan returns is the match the engine finds at its start. */
  lemma {:induction false} ScanMatches(s: string, i: nat)
    requires i <= |s|
    ensures forall j :: 0 <= j < |Scan(s, i)| ==> MatchAt(s, Scan(s, i)[j].start) == Some(Scan(s, i)[j])
    decreases |s| - i
  {
    if i < |s| {
      match MatchAt(s, i)
      case Some(m) =>
        ScanMatches(s, m.end);
        var rest := Scan(s, m.end);
        assert Scan(s, i) == [m] + rest;
        forall j | 1 <= j < |Scan(s, i)| ensures MatchAt(s, Scan(s, i)[j].start) == Some(Scan(s, i)[j]) {
          assert Scan(s, i)[j] == rest[j - 1];
        }
      case None =>
        ScanMatches(s, i + 1);
    }
  }

  /** The matches come in increasing order and do not overlap. */
  lemma {:induction false} ScanOrdered(s: string, i: nat)
    requires i <= |s|
    ensures forall j :: 0 < j < |Scan(s, i)| ==> Scan(s, i)[j - 1].end <= Scan(s, i)[j].start
    decreases |s| - i
  {
    if i < |s| {
      match MatchAt(s, i)
      case Some(m) =>
        ScanOrdered(s, m.end);
        var rest := Scan(s, m.end);
        assert Scan(s, i) == [m] + rest;
        forall j | 1 < j < |Scan(s, i)| ensures Scan(s, i)[j - 1].end <= Scan(s, i)[j].start {
          assert Scan(s, i)[j - 1] == rest[j - 2] && Scan(s, i)[j] == rest[j - 1];
        }
      case None =>
        ScanOrdered(s, i + 1);
    }
  }

  /** No position from i on that lies outside every match starts a match:
      the matches are the leftmost ones. */
  lemma {:induction false} ScanLeftmost(s: string, i: nat, p: nat)
    requires i <= p < |s| && !Covered(Scan(s, i), p)
    ensures MatchAt(s, p).None?
    decreases |s| - i
  {
    match MatchAt(s, i)
    case Some(m) =>
      assert Scan(s, i) == [m] + Scan(s, m.end);
      assert !(m.start <= p < m.end) && !Covered(Scan(s, m.end), p);
      ScanLeftmost(s, m.end, p);
    case None =>
      if p > i {
        ScanLeftmost(s, i + 1, p);
      }
  }

  /** The addresses FindPointers returns, one per match, in match order. */
  function PointersIn(s: string): seq<Addr>
  {
    var ms := Scan(s, 0);
    seq(|ms|, j requires 0 <= j < |ms| => PointerOf(s, ms[j]))
  }

  /** FindPointers: one `new CellPointer(match.Value)` per match of the
      pattern, appended in match order. */
  method FindPointers(expression: string) returns (pointers: seq<Addr>)
    ensures pointers == PointersIn(expression)
  {
    var matches := Scan(expression, 0);
    pointers := [];
    for j := 0 to |matches|
      invariant |pointers| == j
      invariant forall t :: 0 <= t < j ==> pointers[t] == PointerOf(expression, matches[t])
    {
      var m := matches[j];
      assert MatchAt(expression, m.start) == Some(m) by {
        ScanMatches(expression, 0);
      }
      MatchAtFound(expression, m);
      var p := Parse(expression[m.start..m.end]);
      pointers := pointers + [p.value];
    }
  }

  /** Each address FindPointers returns is what the string constructor reads
      from the text of its match. */
  lemma PointersReadAs(s: string)
    ensures |PointersIn(s)| == |Scan(s, 0)|
    ensures forall j :: 0 <= j < |PointersIn(s)| ==>
      Parse(s[Scan(s, 0)[j].start..Scan(s, 0)[j].end]) == Ok(PointersIn(s)[j])
  {
    ScanMatches(s, 0);
    var ms := Scan(s, 0);
    forall j | 0 <= j < |ms| ensures Parse(s[ms[j].start..ms[j].end]) == Ok(PointersIn(s)[j]) {
      MatchAtFound(s, ms[j]);
    }
  }

  /** A text that is one token from end to end holds exactly its address. */
  lemma SingleToken(s: string, j: nat)
    requires TokenAt(s, 0, j, |s|)
    ensures PointersIn(s) == [Addr(ColumnToNumber(s[1..j]), DigitsValue(s[j + 1..]))]
  {
    MatchOfToken(s, 0, j, |s|);
    assert s[j + 1..|s|] == s[j + 1..];
    assert Scan(s, |s|) == [];
    assert Scan(s, 0) == [Match(0, j, |s|)];
  }

  /** The text form of an address with a positive column is one token. */
  lemma ToStringIsToken(a: Addr)
    requires a.col >= 1 && a.row >= 0
    ensures TokenAt(ToString(a), 0, 1 + |ColumnName(a.col)|, |ToString(a)|)
    ensures ToString(a)[1..1 + |ColumnName(a.col)|] == ColumnName(a.col)
    ensures ToString(a)[2 + |ColumnName(a.col)|..] == NatToString(a.row)
  {
    var col, row := ColumnName(a.col), NatToString(a.row);
    ColumnNameShape(a.col);
    NatToStringShape(a.row);
    var s := ToString(a);
    var j := 1 + |col|;
    assert s == "$" + col + "$" + row;
    assert s[1..j] == col && s[j + 1..] == row;
    forall t | 0 < t < j ensures IsLetter(s[t]) {
      assert s[t] == s[1..j][t - 1];
    }
    forall t | j < t < |s| ensures IsDigit(s[t]) {
      assert s[t] == s[j + 1..][t - j - 1];
    }
  }

  /** The text form of an address is a single match that reads back as it. */
  lemma PointersOfToString(a: Addr)
    requires a.col >= 1 && a.row >= 0
    ensures PointersIn(ToString(a)) == [a]
  {
    var s := ToString(a);
    var j := 1 + |ColumnName(a.col)|;
    ToStringIsToken(a);
    SingleToken(s, j);
    assert ColumnToNumber(s[1..j]) == a.col by {
      ColumnNumberOfName(a.col);
    }
    assert DigitsValue(s[j + 1..]) == a.row by {
      NatToStringShape(a.row);
    }
  }

  /** FindPointers keeps repeated references, in order. */
  lemma PointersKeepDuplicates(s: string)
    requires s == "$A$1+$A$1"
    ensures PointersIn(s) == [Addr(1, 1), Addr(1, 1)]
  {
    assert TokenAt(s, 0, 2, 4) && TokenAt(s, 5, 7, 9);
    MatchOfToken(s, 0, 2, 4);
    MatchOfToken(s, 5, 7, 9);
    assert MatchAt(s, 4).None?;
    assert Scan(s, 9) == [];
    assert Scan(s, 5) == [Match(5, 7, 9)];
    assert Scan(s, 4) == Scan(s, 5);
    assert Scan(s, 0) == [Match(0, 2, 4), Match(5, 7, 9)];
    assert s[1..2] == "A" && s[3..4] == "1" && s[6..7] == "A" && s[8..9] == "1";
    assert ColumnToNumber("A") == 1 && DigitsValue("1") == 1;
  }
}
