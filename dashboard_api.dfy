/**
 * The dashboard endpoint (`GET /api/dashboard?month=YYYY-MM&grade=...`):
 * roster size, present and absent totals with percentages, and a per-day
 * chart series for one month or for the whole table.
 *
 * The SQL counts are cardinalities of filtered sets of attendance keys; the
 * current date comes in as `today`.
 */
module DashboardApi {
  import opened Wrappers
  import opened Text
  import opened Calendar
  import opened Store
  import opened Http

  function Min(a: int, b: int): int {
    if a <= b then a else b
  }

  // ---------------------------------------------------------------- window

  /**
   * `new Date(year, monthNum - 1, 1) < today`: the first of the selected
   * month, after the Date constructor's normalisation, lies no later than
   * today's month (today's time of day is taken to be after midnight).
   */
  predicate MonthStartPassed(ym: YearMonth, today: Date) {
    MonthNumber(ConstructorMonth(ym.year, ym.month - 1)) <= MonthNumber(YearMonth(today.year, today.month))
  }

  /**
   * How many days of the selected month count towards the expected records:
   * up to today in the current month, the whole month in a past month,
   * none in a future month.
   */
  function DaysToConsider(ym: YearMonth, today: Date): (n: nat)
    requires IsCalendarDate(today)
    ensures n <= 31
  {
    var lastDay := LastDayOfMonth(ym.year, ym.month);
    if ym.year == today.year && ym.month == today.month then Min(today.day, lastDay)
    else if MonthStartPassed(ym, today) then lastDay
    else 0
  }

  /** In the current month the window runs up to today's day, which never passes the month's length. */
  lemma CurrentMonthWindow(today: Date)
    requires IsCalendarDate(today) && today.year >= 100
    ensures DaysToConsider(YearMonth(today.year, today.month), today) == today.day
    ensures today.day <= DaysInMonth(today.year, today.month)
  {
    LastDayIsMonthLength(today.year, today.month);
  }

  /** A month before today's month counts all its days, whatever today's day is. */
  lemma PastMonthWindow(ym: YearMonth, today: Date)
    requires IsCalendarDate(today) && 1 <= ym.month <= 12 && ym.year >= 100
    requires MonthNumber(ym) < MonthNumber(YearMonth(today.year, today.month))
    ensures DaysToConsider(ym, today) == DaysInMonth(ym.year, ym.month)
  {
    LastDayIsMonthLength(ym.year, ym.month);
    assert ConstructorMonth(ym.year, ym.month - 1) == ym;
  }

  /** A month after today's month counts no days. */
  lemma FutureMonthWindow(ym: YearMonth, today: Date)
    requires IsCalendarDate(today) && 1 <= ym.month <= 12 && ym.year >= 100
    requires MonthNumber(ym) > MonthNumber(YearMonth(today.year, today.month))
    ensures DaysToConsider(ym, today) == 0
  {
    assert ConstructorMonth(ym.year, ym.month - 1) == ym;
  }

  // ---------------------------------------------------------------- counts

  function CountInGrade(students: seq<Student>, grade: string): (n: nat)
    ensures n <= |students|
    ensures n == |students| <==> forall i :: 0 <= i < |students| ==> students[i].grade == grade
  {
    if |students| == 0 then 0
    else (if students[0].grade == grade then 1 else 0) + CountInGrade(students[1..], grade)
  }

  /** `SELECT COUNT(*) FROM students [WHERE grade = ...]`. */
  function TotalStudents(students: seq<Student>, g: Option<string>): (n: nat)
    ensures n <= |students|
    ensures g.None? ==> n == |students|
  {
    if g.Some? then CountInGrade(students, g.value) else |students|
  }

  /**
   * The attendance keys whose flag is `present`, restricted to a month and
   * to the students of a grade when those filters are given.
   */
  function Selected(students: seq<Student>, table: AttendanceTable, month: Option<YearMonth>,
                    g: Option<string>, present: bool): set<AttendanceKey>
  {
    set k | k in table && table[k] == present
                       && (month.Some? ==> InMonth(k.1, month.value))
                       && (g.Some? ==> InGrade(students, k.0, g.value))
  }

  /** The present count: month-filtered when a month is given, grade-filtered when a grade is. */
  function PresentCount(students: seq<Student>, table: AttendanceTable, month: Option<YearMonth>,
                        g: Option<string>): nat
  {
    |Selected(students, table, month, g, true)|
  }

  /** The explicit absent count: rows marked absent, grade-filtered but never month-filtered. */
  function ExplicitAbsentCount(students: seq<Student>, table: AttendanceTable, g: Option<string>): nat
  {
    |Selected(students, table, None, g, false)|
  }

  datatype Totals = Totals(present: int, absent: int, total: int)

  /**
   * With a month and a positive expectation, absence is implied: the
   * expected records minus the present ones, unclamped. Otherwise absence is
   * the explicit count and the total is the sum of both counts.
   */
  function ResolveTotals(monthGiven: bool, expected: int, present: int, explicitAbsent: int): (t: Totals)
    ensures t.present == present
    ensures t.total == t.present + t.absent
    ensures monthGiven && expected > 0 ==> t.total == expected
    ensures !(monthGiven && expected > 0) ==> t.absent == explicitAbsent
  {
    if monthGiven && expected > 0 then Totals(present, expected - present, expected)
    else Totals(present, explicitAbsent, present + explicitAbsent)
  }

  // ---------------------------------------------------------------- percentages

  /** Half-up rounding of 1000·n/total for n >= 0. */
  function RoundedTenths(n: nat, total: int): (t: nat)
    requires total > 0
    ensures 2 * total * t <= 2000 * n + total < 2 * total * t + 2 * total
  {
    var a, b := 2000 * n + total, 2 * total;
    assert a == b * (a / b) + a % b && 0 <= a % b < b;
    a / b
  }

  /**
   * `(n / total * 100).toFixed(1)` in tenths of a percent: the nearest tenth,
   * a tie going away from zero; 0 when there are no records.
   */
  function PercentTenths(n: int, total: int): (t: int)
    ensures total <= 0 ==> t == 0
    ensures total > 0 ==> -total <= 2000 * n - 2 * total * t <= total
    ensures total > 0 && 2000 * n - 2 * total * t == total ==> n < 0
    ensures total > 0 && 2000 * n - 2 * total * t == -total ==> n >= 0
  {
    if total <= 0 then 0
    else if n >= 0 then RoundedTenths(n, total)
    else var r: int := RoundedTenths(-n, total); -r
  }

  /**
   * When present and absent split the total, their rounded percentages add
   * up to 100.0, or to 100.1 when both halves are ties.
   */
  lemma PercentagesSum(present: int, absent: int, total: int)
    requires total > 0 && present >= 0 && absent >= 0 && present + absent == total
    ensures 1000 <= PercentTenths(present, total) + PercentTenths(absent, total) <= 1001
  {
    var p, a := PercentTenths(present, total), PercentTenths(absent, total);
    var e1, e2 := 2000 * present - 2 * total * p, 2000 * absent - 2 * total * a;
    assert -total <= e1 < total && -total <= e2 < total;
    assert 2 * total * p + 2 * total * a == 2 * total * (p + a);
    BoundFactor(total, 1000 - (p + a));
  }

  /** The one integer step behind the percentage sum: -2t <= 2t·d < 2t forces d to be -1 or 0. */
  lemma BoundFactor(t: int, d: int)
    requires t > 0 && -2 * t <= 2 * t * d < 2 * t
    ensures -1 <= d <= 0
  {
    assert 2 * t * d - 2 * t == 2 * t * (d - 1);
    assert t * (d - 1) < 0;
    assert 2 * t * d + 2 * t == 2 * t * (d + 1);
    assert t * (d + 1) >= 0;
  }

  // ---------------------------------------------------------------- chart

  /**
   * One grouped row of the daily query: the day of month, the present
   * count, the distinct students with a row that day (month queries only;
   * 0 when the column is absent) and the absent count (other queries only).
   */
  datatype DailyRow = DailyRow(day: nat, present: nat, studentsThatDay: nat, absent: nat)

  datatype ChartPoint = ChartPoint(day: string, present: int, absent: int)

  /** The keys of one date, with the given flag or with any flag. */
  function DayKeys(students: seq<Student>, table: AttendanceTable, date: Date, g: Option<string>,
                   onlyPresent: bool): set<AttendanceKey>
  {
    set k | k in table && k.1 == date && (onlyPresent ==> table[k])
                       && (g.Some? ==> InGrade(students, k.0, g.value))
  }

  /**
   * The month query's grouped rows for days `from`..31, in date order: one
   * row per day that has at least one (grade-filtered) attendance row.
   */
  function MonthRows(students: seq<Student>, table: AttendanceTable, ym: YearMonth, g: Option<string>,
                     from: nat): (rows: seq<DailyRow>)
    ensures forall i :: 0 <= i < |rows| ==> rows[i].studentsThatDay > 0 && from <= rows[i].day <= 31
    ensures forall i, j :: 0 <= i < j < |rows| ==> rows[i].day < rows[j].day
    ensures forall i :: 0 <= i < |rows| ==>
      && rows[i].studentsThatDay == |DayKeys(students, table, Date(ym.year, ym.month, rows[i].day), g, false)|
      && rows[i].present == |DayKeys(students, table, Date(ym.year, ym.month, rows[i].day), g, true)|
      && rows[i].absent == 0
    decreases 32 - from
  {
    if from > 31 then []
    else
      var date := Date(ym.year, ym.month, from);
      var onDay := |DayKeys(students, table, date, g, false)|;
      var rest := MonthRows(students, table, ym, g, from + 1);
      if onDay > 0 then
        var rows := [DailyRow(from, |DayKeys(students, table, date, g, true)|, onDay, 0)] + rest;
        assert rows[1..] == rest;
        rows
      else rest
  }

  /**
   * Every day from `from` to 31 with at least one (grade-filtered)
   * attendance row has its grouped row.
   */
  lemma {:induction false} MonthRowsCoverDays(students: seq<Student>, table: AttendanceTable, ym: YearMonth,
                                               g: Option<string>, from: nat, d: nat)
    requires from <= d <= 31 && |DayKeys(students, table, Date(ym.year, ym.month, d), g, false)| > 0
    ensures exists i :: 0 <= i < |MonthRows(students, table, ym, g, from)| && MonthRows(students, table, ym, g, from)[i].day == d
    decreases 32 - from
  {
    var rows := MonthRows(students, table, ym, g, from);
    var date := Date(ym.year, ym.month, from);
    var onDay := |DayKeys(students, table, date, g, false)|;
    var rest := MonthRows(students, table, ym, g, from + 1);
    if d == from {
      assert rows == [DailyRow(from, |DayKeys(students, table, date, g, true)|, onDay, 0)] + rest;
      assert rows[0].day == d;
    } else {
      MonthRowsCoverDays(students, table, ym, g, from + 1, d);
      var i :| 0 <= i < |rest| && rest[i].day == d;
      if onDay > 0 {
        assert rows == [DailyRow(from, |DayKeys(students, table, date, g, true)|, onDay, 0)] + rest;
        assert rows[i + 1] == rest[i];
      } else {
        assert rows == rest;
      }
    }
  }

  /**
   * One chart entry: in month mode a row with students that day has
   * absent = roster size - present; otherwise the stored absent count.
   */
  function PointOf(row: DailyRow, monthGiven: bool, totalStudents: int): ChartPoint {
    ChartPoint(NatToString(row.day), row.present,
               if monthGiven && row.studentsThatDay > 0 then totalStudents - row.present else row.absent)
  }

  /** The synthesised series for a month without rows: days "1".."days", everybody absent. */
  function AllAbsent(days: nat, totalStudents: int): (s: seq<ChartPoint>)
    ensures |s| == days
  {
    seq(days, i requires 0 <= i < days => ChartPoint(NatToString(i + 1), 0, totalStudents))
  }

  /** The chart series: the rows mapped in order, or the synthesised one for an empty month. */
  function Chart(rows: seq<DailyRow>, monthGiven: bool, days: nat, totalStudents: int): (c: seq<ChartPoint>)
  {
    if monthGiven && |rows| == 0 && days > 0 then AllAbsent(days, totalStudents)
    else seq(|rows|, i requires 0 <= i < |rows| => PointOf(rows[i], monthGiven, totalStudents))
  }

  /** The `map` over the rows followed by the `push` loop for an empty month. */
  method BuildChart(rows: seq<DailyRow>, monthGiven: bool, days: nat, totalStudents: int)
    returns (chart: seq<ChartPoint>)
    ensures chart == Chart(rows, monthGiven, days, totalStudents)
  {
    chart := [];
    var i := 0;
    while i < |rows|
      invariant 0 <= i <= |rows|
      invariant |chart| == i
      invariant forall j :: 0 <= j < i ==> chart[j] == PointOf(rows[j], monthGiven, totalStudents)
    {
      chart := chart + [PointOf(rows[i], monthGiven, totalStudents)];
      i := i + 1;
    }
    if monthGiven && |chart| == 0 && days > 0 {
      var day := 1;
      while day <= days
        invariant 1 <= day <= days + 1
        invariant |chart| == day - 1
        invariant forall j :: 0 <= j < day - 1 ==> chart[j] == ChartPoint(NatToString(j + 1), 0, totalStudents)
      {
        chart := chart + [ChartPoint(NatToString(day), 0, totalStudents)];
        day := day + 1;
      }
    }
  }

  /** In month mode every entry's absent count is the roster size minus that day's present count. */
  lemma MonthChartAbsence(rows: seq<DailyRow>, days: nat, totalStudents: int)
    requires forall i :: 0 <= i < |rows| ==> rows[i].studentsThatDay > 0
    ensures forall i :: 0 <= i < |Chart(rows, true, days, totalStudents)| ==>
      Chart(rows, true, days, totalStudents)[i].absent == totalStudents - Chart(rows, true, days, totalStudents)[i].present
  {
  }

  /** Outside month mode every entry carries the stored present and absent counts of its row. */
  lemma ListedChartCounts(rows: seq<DailyRow>, days: nat, totalStudents: int)
    ensures |Chart(rows, false, days, totalStudents)| == |rows|
    ensures forall i :: 0 <= i < |rows| ==>
      Chart(rows, false, days, totalStudents)[i] == ChartPoint(NatToString(rows[i].day), rows[i].present, rows[i].absent)
  {
  }

  /**
   * A month with no rows and a positive window yields exactly the days
   * "1".."days", each with nobody present and the whole roster absent.
   */
  lemma {:induction false} EmptyMonthSeries(days: nat, totalStudents: int)
    requires days > 0
    ensures |Chart([], true, days, totalStudents)| == days
    ensures forall i :: 0 <= i < days ==>
      && ParseInt(Chart([], true, days, totalStudents)[i].day) == Some(i + 1)
      && Chart([], true, days, totalStudents)[i].present == 0
      && Chart([], true, days, totalStudents)[i].absent == totalStudents
  {
    var c := Chart([], true, days, totalStudents);
    assert c == AllAbsent(days, totalStudents);
    forall i | 0 <= i < days
      ensures ParseInt(c[i].day) == Some(i + 1)
    {
      assert c[i].day == NatToString(i + 1);
      ParseIntOfNatToString(i + 1);
    }
  }

  /** A non-empty row set is never padded: the series has one entry per row. */
  lemma NonEmptyNotPadded(rows: seq<DailyRow>, monthGiven: bool, days: nat, totalStudents: int)
    requires |rows| > 0
    ensures |Chart(rows, monthGiven, days, totalStudents)| == |rows|
  {
  }

  // ---------------------------------------------------------------- endpoint

  datatype Stats = Stats(
    totalStudents: nat,
    totalPresent: int,
    totalAbsent: int,
    presentTenths: int,
    absentTenths: int,
    chart: seq<ChartPoint>,
    expectedTotalRecords: int,
    daysToConsider: nat)

  const FetchFailed := "Failed to fetch dashboard data"

  /**
   * The whole response. A month outside 1..12, or before year 1, makes the
   * `month + '-01'` date cast fail, which the handler reports as a 500.
   * `listedRows` are the grouped rows of the non-month daily query.
   */
  function Dashboard(students: seq<Student>, table: AttendanceTable, month: Option<YearMonth>,
                     grade: Option<string>, today: Date, listedRows: seq<DailyRow>): (r: Result<Stats, ApiError>)
    requires IsCalendarDate(today)
  {
    if month.Some? && !(1 <= month.value.month <= 12 && month.value.year >= 1) then
      Failure(ApiError(ServerError, FetchFailed))
    else
      var g := GradeFilter(grade);
      var totalStudents := TotalStudents(students, g);
      var days := if month.Some? then DaysToConsider(month.value, today) else 0;
      var expected := totalStudents * days;
      var t := ResolveTotals(month.Some?, expected, PresentCount(students, table, month, g),
                             ExplicitAbsentCount(students, table, g));
      var rows := if month.Some? then MonthRows(students, table, month.value, g, 1) else listedRows;
      Success(Stats(totalStudents, t.present, t.absent,
                    PercentTenths(t.present, t.total), PercentTenths(t.absent, t.total),
                    Chart(rows, month.Some?, days, totalStudents), expected, days))
  }

  /** The handler, with its counters assigned branch by branch and the chart built by loops. */
  method Get(students: seq<Student>, table: AttendanceTable, month: Option<YearMonth>,
             grade: Option<string>, today: Date, listedRows: seq<DailyRow>) returns (r: Result<Stats, ApiError>)
    requires IsCalendarDate(today)
    ensures r == Dashboard(students, table, month, grade, today, listedRows)
  {
    if month.Some? && !(1 <= month.value.month <= 12 && month.value.year >= 1) {
      return Failure(ApiError(ServerError, FetchFailed));
    }
    var g := GradeFilter(grade);
    var totalStudents := TotalStudents(students, g);
    var expectedTotalRecords := 0;
    var daysToConsider: nat := 0;
    if month.Some? {
      daysToConsider := DaysToConsider(month.value, today);
      expectedTotalRecords := totalStudents * daysToConsider;
    }
    var presentCount := PresentCount(students, table, month, g);
    var absentCount: int, totalRecords: int;
    if month.Some? && expectedTotalRecords > 0 {
      absentCount := expectedTotalRecords - presentCount;
      totalRecords := expectedTotalRecords;
    } else {
      absentCount := ExplicitAbsentCount(students, table, g);
      totalRecords := presentCount + absentCount;
    }
    var t := ResolveTotals(month.Some?, expectedTotalRecords, presentCount, ExplicitAbsentCount(students, table, g));
    assert absentCount == t.absent && totalRecords == t.total;
    var rows := if month.Some? then MonthRows(students, table, month.value, g, 1) else listedRows;
    var chart := BuildChart(rows, month.Some?, daysToConsider, totalStudents);
    r := Success(Stats(totalStudents, presentCount, absentCount,
                       PercentTenths(presentCount, totalRecords), PercentTenths(absentCount, totalRecords),
                       chart, expectedTotalRecords, daysToConsider));
  }

  // ---------------------------------------------------------------- properties of the response

  /** Without a month no day counts and nothing is expected; with one, expected = roster × days. */
  lemma ExpectedRecords(students: seq<Student>, table: AttendanceTable, month: Option<YearMonth>,
                        grade: Option<string>, today: Date, listedRows: seq<DailyRow>)
    requires IsCalendarDate(today)
    requires Dashboard(students, table, month, grade, today, listedRows).Success?
    ensures var s := Dashboard(students, table, month, grade, today, listedRows).value;
      && s.expectedTotalRecords == s.totalStudents * s.daysToConsider
      && (month.None? ==> s.daysToConsider == 0 && s.expectedTotalRecords == 0)
      && (month.Some? ==> s.daysToConsider == DaysToConsider(month.value, today))
  {
  }

  /**
   * With a month and a positive expectation the absent total is expected
   * minus present, and it is negative whenever more present rows exist than
   * were expected.
   */
  lemma ImpliedAbsence(students: seq<Student>, table: AttendanceTable, month: Option<YearMonth>,
                       grade: Option<string>, today: Date, listedRows: seq<DailyRow>)
    requires IsCalendarDate(today)
    requires Dashboard(students, table, month, grade, today, listedRows).Success?
    requires month.Some? && Dashboard(students, table, month, grade, today, listedRows).value.expectedTotalRecords > 0
    ensures var s := Dashboard(students, table, month, grade, today, listedRows).value;
      && s.totalAbsent == s.expectedTotalRecords - s.totalPresent
      && (s.totalPresent > s.expectedTotalRecords ==> s.totalAbsent < 0)
  {
  }

  /**
   * Otherwise the absent total is the explicit absent count, which does not
   * depend on the month at all.
   */
  lemma ExplicitAbsence(students: seq<Student>, table: AttendanceTable, month: Option<YearMonth>,
                        grade: Option<string>, today: Date, listedRows: seq<DailyRow>)
    requires IsCalendarDate(today)
    requires Dashboard(students, table, month, grade, today, listedRows).Success?
    requires month.None? || Dashboard(students, table, month, grade, today, listedRows).value.expectedTotalRecords == 0
    ensures Dashboard(students, table, month, grade, today, listedRows).value.totalAbsent
         == ExplicitAbsentCount(students, table, GradeFilter(grade))
  {
  }

  /**
   * An absence recorded in June is counted for a July that has not begun:
   * the future month expects nothing, so the explicit count is used unfiltered.
   */
  lemma AbsenceFromOtherMonthCounted()
    ensures var students := [Student(1, "Ann", "7", None, None)];
      var table := map[(1, Date(2024, 6, 3)) := false];
      var r := Dashboard(students, table, Some(YearMonth(2024, 7)), None, Date(2024, 6, 15), []);
      r.Success? && r.value.totalAbsent == 1 && r.value.daysToConsider == 0
  {
    var students := [Student(1, "Ann", "7", None, None)];
    var table := map[(1, Date(2024, 6, 3)) := false];
    assert Selected(students, table, None, None, false) == {(1, Date(2024, 6, 3))};
    FutureMonthWindow(YearMonth(2024, 7), Date(2024, 6, 15));
  }

  /** Both percentages are 0 when there are no records to divide by. */
  lemma NoRecordsNoPercentages(students: seq<Student>, table: AttendanceTable, month: Option<YearMonth>,
                               grade: Option<string>, today: Date, listedRows: seq<DailyRow>)
    requires IsCalendarDate(today)
    requires Dashboard(students, table, month, grade, today, listedRows).Success?
    requires var s := Dashboard(students, table, month, grade, today, listedRows).value;
      s.totalPresent + s.totalAbsent == 0
    ensures var s := Dashboard(students, table, month, grade, today, listedRows).value;
      s.presentTenths == 0 && s.absentTenths == 0
  {
  }

  /** In month mode the chart's absent counts are the roster size minus each day's present count. */
  lemma MonthChartUsesRoster(students: seq<Student>, table: AttendanceTable, month: Option<YearMonth>,
                             grade: Option<string>, today: Date, listedRows: seq<DailyRow>)
    requires IsCalendarDate(today)
    requires Dashboard(students, table, month, grade, today, listedRows).Success?
    requires month.Some?
    ensures var s := Dashboard(students, table, month, grade, today, listedRows).value;
      forall i :: 0 <= i < |s.chart| ==> s.chart[i].absent == s.totalStudents - s.chart[i].present
  {
    var g := GradeFilter(grade);
    var s := Dashboard(students, table, month, grade, today, listedRows).value;
    var rows := MonthRows(students, table, month.value, g, 1);
    MonthChartAbsence(rows, s.daysToConsider, s.totalStudents);
  }
}
