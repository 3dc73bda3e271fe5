/** The worksheet as the extractors see it after `pd.read_excel`: a grid of
    cells, each either NaN (`pd.isna`) or a value, with Python's `str` of a
    cell and the `strftime("%d/%m/%Y")` formatting of the date cell. */
module Sheets {
  import opened Wrappers
  import opened Strings

  type Day = d: nat | 1 <= d <= 31 witness 1
  type Month = m: nat | 1 <= m <= 12 witness 1
  /** pandas timestamps lie between the years 1677 and 2262, so the year
      always has four digits. */
  type Year = y: nat | 1000 <= y <= 9999 witness 1000

  datatype Date = Date(day: Day, month: Month, year: Year)

  /** A cell value that is not NaN. `repr` is what Python's `str` prints. */
  datatype Value =
    | Text(s: string)                 // a string cell
    | Stamp(date: Date, repr: string) // a timestamp, which has `strftime`
    | Other(repr: string)             // a number, a time of day, a boolean

  /** None is a NaN cell. */
  type Cell = Option<Value>

  /** A DataFrame: `width` columns and the data rows below the header. Cells
      past the end of a short row read as NaN. */
  datatype Sheet = Sheet(width: nat, rows: seq<seq<Cell>>)

  /** `df.empty`. */
  predicate IsEmpty(sh: Sheet) {
    |sh.rows| == 0 || sh.width == 0
  }

  /** Whether `df.iat[r, c]` is in range. */
  predicate InRange(sh: Sheet, r: nat, c: nat) {
    r < |sh.rows| && c < sh.width
  }

  /** The cell at row r, column c; NaN out of range. */
  function At(sh: Sheet, r: nat, c: nat): Cell {
    if InRange(sh, r, c) && c < |sh.rows[r]| then sh.rows[r][c] else None
  }

  /** Python's `str` of a cell; `str(nan)` is "nan". */
  function Str(c: Cell): string {
    match c
    case None => "nan"
    case Some(Text(s)) => s
    case Some(Stamp(_, repr)) => repr
    case Some(Other(repr)) => repr
  }

  /** `pd.notna(v) and str(v).strip() != ""`. */
  predicate Present(c: Cell) {
    c.Some? && Strip(Str(c)) != ""
  }

  function Pad2(n: nat): string {
    PadLeft(NatToString(n), 2, '0')
  }

  /** `value.strftime("%d/%m/%Y")` when the value has `strftime`, otherwise
      `str(value)` (the `except` branch). */
  function FormatDate(c: Cell): string {
    match c
    case Some(Stamp(d, _)) => Pad2(d.day) + "/" + Pad2(d.month) + "/" + NatToString(d.year)
    case _ => Str(c)
  }

  lemma Pad2Value(n: nat)
    requires n < 100
    ensures |Pad2(n)| == 2 && AllDigits(Pad2(n)) && DigitsValue(Pad2(n)) == n
  {
    NatToStringLength(n, 2);
    PaddedNatValue(n, 2);
  }

  /** A formatted date is `DD/MM/YYYY`, and reading its three digit groups
      back gives the day, month and year. */
  lemma FormatDateFields(d: Date, repr: string)
    ensures var s := FormatDate(Some(Stamp(d, repr)));
      |s| == 10 && s[2] == '/' && s[5] == '/'
      && AllDigits(s[..2]) && DigitsValue(s[..2]) == d.day
      && AllDigits(s[3..5]) && DigitsValue(s[3..5]) == d.month
      && AllDigits(s[6..]) && DigitsValue(s[6..]) == d.year
  {
    Pad2Value(d.day);
    Pad2Value(d.month);
    NatToStringLength(d.year, 4);
    NatToStringValue(d.year);
    assert Pow10(4) == 10000;
    var dd, mm, yy := Pad2(d.day), Pad2(d.month), NatToString(d.year);
    assert |yy| == 4 by {
      DigitsBelow(yy);
      assert Pow10(3) == 1000;
    }
    var s := dd + "/" + mm + "/" + yy;
    assert s[..2] == dd && s[3..5] == mm && s[6..] == yy;
  }

  /** A digit string denotes less than 10^|s|. */
  lemma {:induction false} DigitsBelow(s: string)
    requires AllDigits(s)
    ensures DigitsValue(s) < Pow10(|s|)
  {
    if s != [] {
      DigitsBelow(s[..|s| - 1]);
    }
  }
}
