/**
 * Calendar arithmetic shared by the attendance screens and endpoints: the
 * Gregorian month length, the way JavaScript's `new Date(year, monthIndex, day)`
 * normalises its arguments, and dates written as `YYYY-MM-DD`.
 */
module Calendar {
  import opened Wrappers
  import opened Text

  datatype Date = Date(year: int, month: int, day: int)

  datatype YearMonth = YearMonth(year: int, month: int)

  predicate IsLeapYear(year: int) {
    year % 4 == 0 && (year % 100 != 0 || year % 400 == 0)
  }

  /** The number of days of a month (1-based) in the proleptic Gregorian calendar. */
  function DaysInMonth(year: int, month: int): (n: int)
    requires 1 <= month <= 12
    ensures 28 <= n <= 31
    ensures n == 29 <==> month == 2 && IsLeapYear(year)
    ensures n == 28 <==> month == 2 && !IsLeapYear(year)
    ensures n == 30 <==> month == 4 || month == 6 || month == 9 || month == 11
  {
    if month == 2 then (if IsLeapYear(year) then 29 else 28)
    else if month == 4 || month == 6 || month == 9 || month == 11 then 30
    else 31
  }

  predicate IsCalendarDate(d: Date) {
    1 <= d.month <= 12 && 1 <= d.day <= DaysInMonth(d.year, d.month)
  }

  /** Months counted from year 0, so that consecutive months differ by one. */
  function MonthNumber(ym: YearMonth): int {
    ym.year * 12 + ym.month - 1
  }

  /** The year `new Date(year, ...)` uses: the Date constructor reads 0..99 as 1900..1999. */
  function ConstructorYear(year: int): int {
    if 0 <= year <= 99 then 1900 + year else year
  }

  /**
   * The month `new Date(year, monthIndex, ...)` falls in: `monthIndex` is
   * 0-based and may lie outside 0..11, in which case it carries into the year.
   */
  function ConstructorMonth(year: int, monthIndex: int): (ym: YearMonth)
    ensures 1 <= ym.month <= 12
    ensures MonthNumber(ym) == ConstructorYear(year) * 12 + monthIndex
  {
    YearMonth(ConstructorYear(year) + monthIndex / 12, monthIndex % 12 + 1)
  }

  /**
   * `new Date(year, month, 0).getDate()` for a 1-based `month`: day 0 of the
   * next month is the last day of `month`, after the constructor's normalisation.
   */
  function LastDayOfMonth(year: int, month: int): (n: int)
    ensures 28 <= n <= 31
  {
    var ym := ConstructorMonth(year, month - 1);
    DaysInMonth(ym.year, ym.month)
  }

  /** Outside the two-digit years, the last day is the Gregorian length of that very month. */
  lemma LastDayIsMonthLength(year: int, month: int)
    requires 1 <= month <= 12
    requires year < 0 || year > 99
    ensures LastDayOfMonth(year, month) == DaysInMonth(year, month)
  {
    assert ConstructorMonth(year, month - 1) == YearMonth(year, month);
  }

  /** Year 0 is read as 1900, which is not a leap year although year 0 is. */
  lemma TwoDigitYearQuirk()
    ensures LastDayOfMonth(0, 2) == 28
    ensures DaysInMonth(0, 2) == 29
  {
    assert ConstructorMonth(0, 1) == YearMonth(1900, 2);
  }

  /** `${year}-${pad2(month)}-${pad2(day)}`, the way the screens and endpoints write a date. */
  function DateText(year: int, month: nat, day: nat): string {
    IntToString(year) + "-" + Pad2(month) + "-" + Pad2(day)
  }

  /** The regular expression `^\d{4}-\d{2}-\d{2}$` (`\d` being an ASCII digit). */
  predicate MatchesDatePattern(s: string) {
    && |s| == 10
    && AllDigits(s[0..4]) && s[4] == '-'
    && AllDigits(s[5..7]) && s[7] == '-'
    && AllDigits(s[8..10])
  }

  /** The year, month and day fields of a string that matches the pattern. */
  function PatternDate(s: string): Date
    requires MatchesDatePattern(s)
  {
    Date(RadixValue(s[0..4], 10), RadixValue(s[5..7], 10), RadixValue(s[8..10], 10))
  }

  /** A date written with a four-digit year matches the pattern and reads back as itself. */
  lemma {:induction false} DateTextRoundTrip(year: int, month: nat, day: nat)
    requires 1000 <= year <= 9999
    requires month < 100 && day < 100
    ensures MatchesDatePattern(DateText(year, month, day))
    ensures PatternDate(DateText(year, month, day)) == Date(year, month, day)
  {
    var y, m, d := NatToString(year), Pad2(month), Pad2(day);
    var s := DateText(year, month, day);
    assert s == y + "-" + m + "-" + d;
    assert s[0..4] == y;
    assert s[5..7] == m;
    assert s[8..10] == d;
  }

  /**
   * How the attendance table reads a date literal: a `YYYY-MM-DD` string
   * naming a real calendar date of year 1 or later; anything else is refused.
   */
  function ReadDate(s: string): (r: Option<Date>)
    ensures r.Some? ==> IsCalendarDate(r.value) && r.value.year >= 1 && MatchesDatePattern(s)
  {
    if MatchesDatePattern(s) && IsCalendarDate(PatternDate(s)) && PatternDate(s).year >= 1
    then Some(PatternDate(s)) else None
  }

  /** Every calendar date with a four-digit year, written out, is read back as itself. */
  lemma ReadDateText(date: Date)
    requires IsCalendarDate(date) && 1000 <= date.year <= 9999
    ensures ReadDate(DateText(date.year, date.month, date.day)) == Some(date)
  {
    DateTextRoundTrip(date.year, date.month, date.day);
  }

  /** Lexicographic order on dates. */
  predicate DateLe(a: Date, b: Date) {
    a.year < b.year || (a.year == b.year && (a.month < b.month || (a.month == b.month && a.day <= b.day)))
  }

  predicate InMonth(d: Date, ym: YearMonth) {
    d.year == ym.year && d.month == ym.month
  }
}
