/** The proleptic Gregorian calendar as Python's `datetime` sees it: the
    leap-year rule, month lengths, the ordinal day number that date
    subtraction uses, and `strptime(s, '%Y-%m-%d')`. */
module Calendar {

  import opened Wrappers

  /** `datetime.MINYEAR` and `datetime.MAXYEAR`. */
  const MinYear: int := 1
  const MaxYear: int := 9999

  /** A civil date; only `ValidDate` ones can be constructed. */
  datatype Date = Date(year: int, month: int, day: int)

  predicate IsLeapYear(y: int) {
    y % 4 == 0 && (y % 100 != 0 || y % 400 == 0)
  }

  function DaysInMonth(y: int, m: int): (n: int)
    requires 1 <= m <= 12
    ensures 28 <= n <= 31
    ensures n == 29 <==> m == 2 && IsLeapYear(y)
  {
    if m == 2 then (if IsLeapYear(y) then 29 else 28)
    else if m == 4 || m == 6 || m == 9 || m == 11 then 30
    else 31
  }

  predicate ValidDate(d: Date) {
    && MinYear <= d.year <= MaxYear
    && 1 <= d.month <= 12
    && 1 <= d.day <= DaysInMonth(d.year, d.month)
  }

  /** The constructor `datetime(y, m, d)`: `None` stands for its ValueError. */
  function MakeDate(y: int, m: int, d: int): (r: Option<Date>)
    ensures r.Some? <==> ValidDate(Date(y, m, d))
    ensures r.Some? ==> r.value == Date(y, m, d)
  {
    if ValidDate(Date(y, m, d)) then Some(Date(y, m, d)) else None
  }

  /** Calendar order, the order `datetime` comparison uses on the date part. */
  predicate DateLess(a: Date, b: Date) {
    || a.year < b.year
    || (a.year == b.year && a.month < b.month)
    || (a.year == b.year && a.month == b.month && a.day < b.day)
  }

  /** Days in the years before `y`. */
  function DaysBeforeYear(y: int): int
    requires y >= 1
  {
    var p := y - 1;
    p * 365 + p / 4 - p / 100 + p / 400
  }

  /** Days in the months of year `y` before month `m`. */
  function DaysBeforeMonth(y: int, m: int): int
    requires 1 <= m <= 13
  {
    if m == 1 then 0 else DaysBeforeMonth(y, m - 1) + DaysInMonth(y, m - 1)
  }

  /** `date.toordinal()`: 0001-01-01 is day 1. */
  function Ordinal(d: Date): int
    requires ValidDate(d)
  {
    DaysBeforeYear(d.year) + DaysBeforeMonth(d.year, d.month) + d.day
  }

  lemma DaysInYear(y: int)
    ensures DaysBeforeMonth(y, 13) == if IsLeapYear(y) then 366 else 365
  {
    var feb := if IsLeapYear(y) then 29 else 28;
    assert DaysBeforeMonth(y, 2) == 31;
    assert DaysBeforeMonth(y, 3) == 31 + feb;
    assert DaysBeforeMonth(y, 4) == 62 + feb;
    assert DaysBeforeMonth(y, 5) == 92 + feb;
    assert DaysBeforeMonth(y, 6) == 123 + feb;
    assert DaysBeforeMonth(y, 7) == 153 + feb;
    assert DaysBeforeMonth(y, 8) == 184 + feb;
    assert DaysBeforeMonth(y, 9) == 215 + feb;
    assert DaysBeforeMonth(y, 10) == 245 + feb;
    assert DaysBeforeMonth(y, 11) == 276 + feb;
    assert DaysBeforeMonth(y, 12) == 306 + feb;
    assert DaysBeforeMonth(y, 13) == 337 + feb;
  }

  /** Consecutive years are as far apart as the first one is long. */
  lemma DaysBeforeYearStep(y: int)
    requires y >= 1
    ensures DaysBeforeYear(y + 1) == DaysBeforeYear(y) + DaysBeforeMonth(y, 13)
  {
    DaysInYear(y);
    var p := y - 1;
    assert y / 4 - p / 4 == if y % 4 == 0 then 1 else 0;
    assert y / 100 - p / 100 == if y % 100 == 0 then 1 else 0;
    assert y / 400 - p / 400 == if y % 400 == 0 then 1 else 0;
  }

  lemma {:induction false} DaysBeforeMonthGrows(y: int, m: int, m': int)
    requires 1 <= m <= m' <= 13
    ensures DaysBeforeMonth(y, m) + (m' - m) * 28 <= DaysBeforeMonth(y, m')
    decreases m' - m
  {
    if m < m' {
      DaysBeforeMonthGrows(y, m, m' - 1);
    }
  }

  lemma {:induction false} DaysBeforeYearGrows(y: int, y': int)
    requires 1 <= y <= y'
    ensures DaysBeforeYear(y) + (y' - y) * 365 <= DaysBeforeYear(y')
    decreases y' - y
  {
    if y < y' {
      DaysBeforeYearGrows(y, y' - 1);
      DaysBeforeYearStep(y' - 1);
      DaysInYear(y' - 1);
    }
  }

  /** A date's ordinal lies inside its own year's span of ordinals. */
  lemma OrdinalWithinYear(d: Date)
    requires ValidDate(d)
    ensures DaysBeforeYear(d.year) < Ordinal(d) <= DaysBeforeYear(d.year + 1)
  {
    DaysBeforeMonthGrows(d.year, 1, d.month);
    assert DaysBeforeMonth(d.year, d.month + 1) == DaysBeforeMonth(d.year, d.month) + DaysInMonth(d.year, d.month);
    DaysBeforeMonthGrows(d.year, d.month + 1, 13);
    DaysBeforeYearStep(d.year);
  }

  /** `toordinal` is strictly increasing in calendar order, so the
      difference of two ordinals has the sign of their comparison. */
  lemma OrdinalMonotone(a: Date, b: Date)
    requires ValidDate(a) && ValidDate(b)
    ensures DateLess(a, b) <==> Ordinal(a) < Ordinal(b)
    ensures a == b <==> Ordinal(a) == Ordinal(b)
  {
    forall x: Date, z: Date | ValidDate(x) && ValidDate(z) && DateLess(x, z)
      ensures Ordinal(x) < Ordinal(z)
    {
      if x.year < z.year {
        OrdinalWithinYear(x);
        OrdinalWithinYear(z);
        DaysBeforeYearGrows(x.year + 1, z.year);
      } else if x.month < z.month {
        DaysBeforeMonthGrows(x.year, x.month + 1, z.month);
      }
    }
  }

  // ---------------------------------------------------------------------
  // strptime(s, '%Y-%m-%d')

  predicate IsDigit(c: char) {
    '0' <= c <= '9'
  }

  function DigitValue(c: char): (v: int)
    requires IsDigit(c)
    ensures 0 <= v <= 9
  {
    c as int - '0' as int
  }

  /** The `%Y` directive: exactly four digits. */
  function YearField(t: string): (r: Option<int>)
    ensures r.Some? ==> 0 <= r.value <= 9999
  {
    if |t| == 4 && IsDigit(t[0]) && IsDigit(t[1]) && IsDigit(t[2]) && IsDigit(t[3])
    then Some(1000 * DigitValue(t[0]) + 100 * DigitValue(t[1]) + 10 * DigitValue(t[2]) + DigitValue(t[3]))
    else None
  }

  /** The `%m` directive, pattern `1[0-2]|0[1-9]|[1-9]`, covering all of `t`. */
  function MonthField(t: string): (r: Option<int>)
    ensures r.Some? ==> 1 <= r.value <= 12
  {
    if |t| == 1 && '1' <= t[0] <= '9' then Some(DigitValue(t[0]))
    else if |t| == 2 && t[0] == '0' && '1' <= t[1] <= '9' then Some(DigitValue(t[1]))
    else if |t| == 2 && t[0] == '1' && '0' <= t[1] <= '2' then Some(10 + DigitValue(t[1]))
    else None
  }

  /** The `%d` directive, pattern `3[01]|[12]\d|0[1-9]|[1-9]| [1-9]`,
      covering all of `t` (anything left over is "unconverted data"). */
  function DayField(t: string): (r: Option<int>)
    ensures r.Some? ==> 1 <= r.value <= 31
  {
    if |t| == 1 && '1' <= t[0] <= '9' then Some(DigitValue(t[0]))
    else if |t| == 2 && (t[0] == '0' || t[0] == ' ') && '1' <= t[1] <= '9' then Some(DigitValue(t[1]))
    else if |t| == 2 && (t[0] == '1' || t[0] == '2') && IsDigit(t[1]) then Some(10 * DigitValue(t[0]) + DigitValue(t[1]))
    else if |t| == 2 && t[0] == '3' && (t[1] == '0' || t[1] == '1') then Some(30 + DigitValue(t[1]))
    else None
  }

  /** Where the `-` after the month sits: the month is one or two characters. */
  function MonthEnd(s: string): (j: int)
    requires |s| >= 8
    ensures j == 0 || j == 6 || j == 7
  {
    if s[6] == '-' then 6 else if s[7] == '-' then 7 else 0
  }

  /** `datetime.strptime(s, '%Y-%m-%d')`; `None` stands for its ValueError
      (no match, unconverted data, or a date that does not exist). */
  function ParseIsoDate(s: string): (r: Option<Date>)
    ensures r.Some? ==> ValidDate(r.value)
  {
    if |s| < 8 || s[4] != '-' || MonthEnd(s) == 0 then None
    else
      var j := MonthEnd(s);
      match (YearField(s[..4]), MonthField(s[5..j]), DayField(s[j + 1..]))
      case (Some(y), Some(m), Some(d)) => MakeDate(y, m, d)
      case _ => None
  }

  /** The digit character for `0 <= k <= 9`. */
  function Digit(k: int): (c: char)
    requires 0 <= k <= 9
    ensures IsDigit(c) && DigitValue(c) == k
  {
    ('0' as int + k) as char
  }

  /** `date.isoformat()`: zero-padded `YYYY-MM-DD`. */
  function FormatIsoDate(d: Date): (s: string)
    requires ValidDate(d)
    ensures |s| == 10
  {
    [Digit(d.year / 1000), Digit(d.year / 100 % 10), Digit(d.year / 10 % 10), Digit(d.year % 10), '-',
     Digit(d.month / 10), Digit(d.month % 10), '-',
     Digit(d.day / 10), Digit(d.day % 10)]
  }

  /** The parser reads back every date the canonical format writes. */
  lemma ParseFormatRoundTrip(d: Date)
    requires ValidDate(d)
    ensures ParseIsoDate(FormatIsoDate(d)) == Some(d)
  {
    var s := FormatIsoDate(d);
    assert MonthEnd(s) == 7;
    YearDigits(d.year);
    assert YearField(s[..4]) == Some(d.year);
    TwoDigits(d.month);
    assert MonthField(s[5..7]) == Some(d.month);
    TwoDigits(d.day);
    assert DayField(s[8..]) == Some(d.day);
  }

  lemma YearDigits(y: int)
    requires 0 <= y <= 9999
    ensures 0 <= y / 1000 <= 9 && 0 <= y / 100 % 10 <= 9
    ensures 1000 * (y / 1000) + 100 * (y / 100 % 10) + 10 * (y / 10 % 10) + y % 10 == y
  {
    assert y == 10 * (y / 10) + y % 10;
    assert y / 10 == 10 * (y / 100) + y / 10 % 10;
    assert y / 100 == 10 * (y / 1000) + y / 100 % 10;
  }

  lemma TwoDigits(n: int)
    requires 1 <= n <= 31
    ensures 0 <= n / 10 <= 3 && 10 * (n / 10) + n % 10 == n
  {
  }

  /** A parsed date string has the shape the sort key relies on. */
  lemma ParsedShape(s: string)
    requires ParseIsoDate(s).Some?
    ensures 8 <= |s| <= 10 && s[4] == '-'
  {
  }

  /** Worked cases: a date that does not exist is refused, one- and
      two-digit months and days are accepted, and a leading space is
      allowed on the day. */
  lemma ParseExamples()
    ensures ParseIsoDate("2023-02-29") == None
    ensures ParseIsoDate("2024-02-29") == Some(Date(2024, 2, 29))
    ensures ParseIsoDate("2023-1-5") == Some(Date(2023, 1, 5))
    ensures ParseIsoDate("2023-01- 5") == Some(Date(2023, 1, 5))
    ensures ParseIsoDate("2023-13-01") == None
    ensures ParseIsoDate("2023-01-32") == None
    ensures ParseIsoDate("0000-01-01") == None
    ensures ParseIsoDate("invalid") == None
  {
    assert MonthEnd("2023-02-29") == 7;
    assert MonthEnd("2024-02-29") == 7;
    assert MonthEnd("2023-1-5") == 6;
    assert MonthEnd("2023-01- 5") == 7;
    assert MonthEnd("2023-13-01") == 7;
    assert MonthEnd("2023-01-32") == 7;
    assert MonthEnd("0000-01-01") == 7;
    assert "2023-02-29"[..4] == "2023" && "2023-02-29"[5..7] == "02" && "2023-02-29"[8..] == "29";
    assert "2024-02-29"[..4] == "2024" && "2024-02-29"[5..7] == "02" && "2024-02-29"[8..] == "29";
    assert "2023-1-5"[..4] == "2023" && "2023-1-5"[5..6] == "1" && "2023-1-5"[7..] == "5";
    assert "2023-01- 5"[..4] == "2023" && "2023-01- 5"[5..7] == "01" && "2023-01- 5"[8..] == " 5";
    assert "2023-13-01"[5..7] == "13";
    assert "2023-01-32"[8..] == "32";
    assert "0000-01-01"[..4] == "0000";
  }
}
