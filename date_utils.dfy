/** Calendar arithmetic of the proleptic Gregorian calendar as JavaScript's
    `Date` does it (ECMA-262, section 21.4.1), date formatting and the
    "YYYY-MM-DD" reader. One fixed time zone that agrees with UTC is assumed,
    so a date-only string parsed as UTC reads back the same local fields. */
module DateUtils {
  import opened Wrappers
  import Decimal

  /** What `getFullYear()`, `getMonth()` (0 to 11) and `getDate()` report. */
  datatype CivilDate = CivilDate(year: int, month: int, day: int)

  predicate IsLeapYear(y: int) {
    (y % 4 == 0 && y % 100 != 0) || y % 400 == 0
  }

  function DaysInYear(y: int): int {
    if IsLeapYear(y) then 366 else 365
  }

  /** Days in month `m` (0 = January) of year `y`. */
  function MonthLength(y: int, m: int): int
    requires 0 <= m < 12
  {
    if m == 1 then (if IsLeapYear(y) then 29 else 28)
    else if m == 3 || m == 5 || m == 8 || m == 10 then 30
    else 31
  }

  /** Days from the first of January to the first of month `m`. */
  function MonthStart(y: int, m: int): int
    requires 0 <= m < 12
  {
    var before := [0, 31, 59, 90, 120, 151, 181, 212, 243, 273, 304, 334];
    before[m] + (if m >= 2 && IsLeapYear(y) then 1 else 0)
  }

  /** ECMA-262 DayFromYear: days from 1970-01-01 to the first of January of `y`
      (`/` on a positive divisor is floor division here). */
  function DayFromYear(y: int): int {
    365 * (y - 1970) + (y - 1969) / 4 - (y - 1901) / 100 + (y - 1601) / 400
  }

  /** ECMA-262 MakeDay: the day number of date `d` of month `m` of year `y`;
      a month outside 0 to 11 moves into the neighbouring years, and any
      date (0, negative, past the end) counts on from the first of the month. */
  function MakeDay(y: int, m: int, d: int): int {
    var ym := y + m / 12;
    var mn := m % 12;
    DayFromYear(ym) + MonthStart(ym, mn) + d - 1
  }

  /** The year the `Date(year, month, day)` constructor uses: 0 to 99 stand
      for 1900 to 1999. */
  function ConstructorYear(year: int): int {
    if 0 <= year <= 99 then 1900 + year else year
  }

  /** ECMA-262 WeekDay: 0 is Sunday; day 0 (1970-01-01) was a Thursday. */
  function WeekDay(dayNumber: int): int {
    (dayNumber + 4) % 7
  }

  predicate IsValidDate(d: CivilDate) {
    0 <= d.month < 12 && 1 <= d.day <= MonthLength(d.year, d.month)
  }

  /** The day number `Date` keeps for a calendar date (its time value is this
      times 86400000). */
  function DayNumber(d: CivilDate): int {
    MakeDay(d.year, d.month, d.day)
  }

  // ----- getDaysInMonth and getFirstDayOfMonth -----

  /** `new Date(year, month + 1, 0).getDate()`: day 0 of the next month is the
      last day of this one. */
  function GetDaysInMonth(year: int, month: int): (r: int)
    ensures 28 <= r <= 31
    ensures var y := ConstructorYear(year) + month / 12;
      month % 12 == 1 ==> (r == 29 <==> IsLeapYear(y))
  {
    var y := ConstructorYear(year) + month / 12;
    MonthLength(y, month % 12)
  }

  /** `new Date(year, month, 1).getDay()`. */
  function GetFirstDayOfMonth(year: int, month: int): (r: int)
    ensures 0 <= r < 7
  {
    WeekDay(MakeDay(ConstructorYear(year), month, 1))
  }

  lemma FloorStep4(y: int)
    ensures (y - 1968) / 4 == (y - 1969) / 4 + (if y % 4 == 0 then 1 else 0)
  {
    var q, r := (y - 1969) / 4, (y - 1969) % 4;
    assert y - 1969 == 4 * q + r;
    if r == 3 {
      assert y - 1968 == 4 * (q + 1);
    } else {
      assert y - 1968 == 4 * q + (r + 1);
    }
  }

  lemma FloorStep100(y: int)
    ensures (y - 1900) / 100 == (y - 1901) / 100 + (if y % 100 == 0 then 1 else 0)
  {
    var q, r := (y - 1901) / 100, (y - 1901) % 100;
    assert y - 1901 == 100 * q + r;
    if r == 99 {
      assert y - 1900 == 100 * (q + 1);
    } else {
      assert y - 1900 == 100 * q + (r + 1);
    }
  }

  lemma FloorStep400(y: int)
    ensures (y - 1600) / 400 == (y - 1601) / 400 + (if y % 400 == 0 then 1 else 0)
  {
    var q, r := (y - 1601) / 400, (y - 1601) % 400;
    assert y - 1601 == 400 * q + r;
    if r == 399 {
      assert y - 1600 == 400 * (q + 1);
    } else {
      assert y - 1600 == 400 * q + (r + 1);
    }
  }

  /** A year contributes its own length to the day count. */
  lemma DayFromYearStep(y: int)
    ensures DayFromYear(y + 1) == DayFromYear(y) + DaysInYear(y)
  {
    FloorStep4(y);
    FloorStep100(y);
    FloorStep400(y);
  }

  /** Months follow each other without gap or overlap, December running into
      the January of the next year. */
  lemma NextMonthStart(y: int, m: int)
    ensures MakeDay(y, m + 1, 1) == MakeDay(y, m, 1) + MonthLength(y + m / 12, m % 12)
  {
    var ym, mn := y + m / 12, m % 12;
    if mn == 11 {
      assert (m + 1) / 12 == m / 12 + 1 && (m + 1) % 12 == 0;
      DayFromYearStep(ym);
    } else {
      assert (m + 1) / 12 == m / 12 && (m + 1) % 12 == mn + 1;
    }
  }

  /** What the source's expression computes: day 0 of month `month + 1` is the
      same day as day `GetDaysInMonth(year, month)` of month `month`, and that
      day lies in month `month`. */
  lemma DaysInMonthIsLastDay(year: int, month: int)
    ensures var y := ConstructorYear(year);
      MakeDay(y, month + 1, 0) == MakeDay(y, month, GetDaysInMonth(year, month))
  {
    NextMonthStart(ConstructorYear(year), month);
  }

  /** The first weekday of a month is the previous month's first weekday moved
      on by that month's length. */
  lemma FirstDayChain(year: int, month: int)
    ensures GetFirstDayOfMonth(year, month + 1)
         == (GetFirstDayOfMonth(year, month) + GetDaysInMonth(year, month)) % 7
  {
    var y := ConstructorYear(year);
    var first := MakeDay(y, month, 1);
    NextMonthStart(y, month);
    ModAdd(first + 4, GetDaysInMonth(year, month));
  }

  lemma ModAdd(a: int, b: int)
    ensures (a % 7 + b) % 7 == (a + b) % 7
  {
    var q := a / 7;
    assert a == 7 * q + a % 7;
    assert a + b == 7 * q + (a % 7 + b);
  }

  /** December of one year and January of the next, for years the constructor
      does not remap (neither the year nor the next one in 0 to 99). */
  lemma FirstDayNewYear(year: int)
    requires year >= 100 || year < -1
    ensures GetFirstDayOfMonth(year + 1, 0) == (GetFirstDayOfMonth(year, 11) + 31) % 7
  {
    FirstDayChain(year, 11);
    assert GetFirstDayOfMonth(year, 12) == GetFirstDayOfMonth(year + 1, 0);
  }

  /** November 2025 begins on a Saturday and has 30 days. */
  lemma November2025()
    ensures GetFirstDayOfMonth(2025, 10) == 6 && GetDaysInMonth(2025, 10) == 30
  {
    assert DayFromYear(2025) == 20075 + 14 - 1 + 1;
    assert MonthStart(2025, 10) == 304;
    assert MakeDay(2025, 10, 1) == 20393;
  }

  // ----- formatDate, parseDate, isSameMonth -----

  /** `formatDate(date, separator)`: the year as `String` writes it, then the
      month number and the day, each padded to two digits. */
  function FormatDate(d: CivilDate, separator: string): string {
    Decimal.Show(d.year) + separator + Decimal.TwoDigits(d.month + 1) + separator + Decimal.TwoDigits(d.day)
  }

  /** The date-only form "YYYY-MM-DD" with a month from 01 to 12 and a day
      that exists in that month. */
  predicate IsDateString(s: string) {
    && |s| == 10 && s[4] == '-' && s[7] == '-'
    && Decimal.IsDigits(s[..4]) && Decimal.IsDigits(s[5..7]) && Decimal.IsDigits(s[8..])
    && 1 <= Decimal.DigitsValue(s[5..7]) <= 12
    && 1 <= Decimal.DigitsValue(s[8..]) <= MonthLength(Decimal.DigitsValue(s[..4]), Decimal.DigitsValue(s[5..7]) - 1)
  }

  /** `new Date(dateStr)` on a date-only string; `None` is an Invalid Date. */
  function ParseDate(s: string): (r: Option<CivilDate>)
    ensures r.Some? ==> IsValidDate(r.value)
  {
    if IsDateString(s) then
      Some(CivilDate(Decimal.DigitsValue(s[..4]), Decimal.DigitsValue(s[5..7]) - 1, Decimal.DigitsValue(s[8..])))
    else None
  }

  /** `isSameMonth`: an Invalid Date matches no month. */
  function IsSameMonth(s: string, year: int, month: int): (r: bool)
    ensures r ==> IsDateString(s)
    ensures IsDateString(s) ==>
      (r <==> Decimal.DigitsValue(s[..4]) == year && Decimal.DigitsValue(s[5..7]) == month + 1)
  {
    match ParseDate(s)
    case None => false
    case Some(d) => d.year == year && d.month == month
  }

  lemma FormatDateSplit(d: CivilDate, separator: string)
    requires 0 <= d.month < 12 && 1 <= d.day <= 31
    ensures var s, n := FormatDate(d, separator), |Decimal.Show(d.year)|;
      && |s| == n + 2 * |separator| + 4
      && s[..n] == Decimal.Show(d.year)
      && s[n + |separator| .. n + |separator| + 2] == Decimal.TwoDigits(d.month + 1)
      && s[n + 2 * |separator| + 2..] == Decimal.TwoDigits(d.day)
  {
    Decimal.TwoDigitsShape(d.month + 1);
    Decimal.TwoDigitsShape(d.day);
  }

  /** Two dates with the same text under the same separator are the same date. */
  lemma FormatDateInjective(d1: CivilDate, d2: CivilDate, separator: string)
    requires 0 <= d1.month < 12 && 1 <= d1.day <= 31
    requires 0 <= d2.month < 12 && 1 <= d2.day <= 31
    requires FormatDate(d1, separator) == FormatDate(d2, separator)
    ensures d1 == d2
  {
    FormatDateSplit(d1, separator);
    FormatDateSplit(d2, separator);
    Decimal.ShowInjective(d1.year, d2.year);
    Decimal.TwoDigitsShape(d1.month + 1);
    Decimal.TwoDigitsShape(d2.month + 1);
    Decimal.TwoDigitsShape(d1.day);
    Decimal.TwoDigitsShape(d2.day);
  }

  /** The three fields of a dash-formatted date of a four-digit year. */
  lemma DashFormatFields(d: CivilDate)
    requires IsValidDate(d) && 1000 <= d.year <= 9999
    ensures var s := FormatDate(d, "-");
      && |s| == 10 && s[4] == '-' && s[7] == '-'
      && s[..4] == Decimal.ShowNat(d.year)
      && s[5..7] == Decimal.TwoDigits(d.month + 1)
      && s[8..] == Decimal.TwoDigits(d.day)
  {
    var y, mm, dd := Decimal.ShowNat(d.year), Decimal.TwoDigits(d.month + 1), Decimal.TwoDigits(d.day);
    Decimal.ShowNatFourDigits(d.year);
    Decimal.TwoDigitsShape(d.month + 1);
    Decimal.TwoDigitsShape(d.day);
    var s := FormatDate(d, "-");
    assert s == y + "-" + mm + "-" + dd;
  }

  /** A date of a four-digit year, written with '-', reads back as itself. */
  lemma ParseFormatDate(d: CivilDate)
    requires IsValidDate(d) && 1000 <= d.year <= 9999
    ensures ParseDate(FormatDate(d, "-")) == Some(d)
    ensures IsSameMonth(FormatDate(d, "-"), d.year, d.month)
  {
    var s := FormatDate(d, "-");
    DashFormatFields(d);
    Decimal.DigitsValueOfShowNat(d.year);
    Decimal.TwoDigitsShape(d.month + 1);
    Decimal.TwoDigitsShape(d.day);
    assert Decimal.DigitsValue(s[..4]) == d.year;
    assert Decimal.DigitsValue(s[5..7]) == d.month + 1;
    assert Decimal.DigitsValue(s[8..]) == d.day;
    assert IsDateString(s);
  }

  /** A date string is the only text that reads as its date. */
  lemma DateStringUnique(s1: string, s2: string)
    requires IsDateString(s1) && IsDateString(s2) && ParseDate(s1) == ParseDate(s2)
    ensures s1 == s2
  {
    Decimal.DigitsValueInjective(s1[..4], s2[..4]);
    Decimal.DigitsValueInjective(s1[5..7], s2[5..7]);
    Decimal.DigitsValueInjective(s1[8..], s2[8..]);
    assert s1 == s1[..4] + "-" + s1[5..7] + "-" + s1[8..];
    assert s2 == s2[..4] + "-" + s2[5..7] + "-" + s2[8..];
  }
}
