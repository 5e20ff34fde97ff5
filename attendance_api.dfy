/**
 * The attendance endpoint: `GET /api/attendance?year=&month=&grade=` lists
 * attendance rows, restricted to one month when both year and month are
 * given; `POST /api/attendance` saves one (student, date, present) triple.
 *
 * Whether JavaScript's Date parser can read a date string is a parameter
 * (`readable`): it is a browser-engine routine outside this model.
 */
module AttendanceApi {
  import opened Wrappers
  import opened Text
  import opened Calendar
  import opened Store
  import opened Http
  import opened JsValues

  const InvalidYearOrMonth := "Invalid year or month parameter"
  const FetchFailed := "Failed to fetch attendance"
  const FieldsRequired := "student_id, date, and present (boolean) are required"
  const BadDateFormat := "Date must be in YYYY-MM-DD format"
  const InvalidDate := "Invalid date provided"
  const SaveFailed := "Failed to save attendance"

  // ---------------------------------------------------------------- GET

  /** The inclusive date range of a month, as the two literals the query compares with. */
  datatype DateRange = DateRange(start: string, end: string)

  datatype AttendanceQuery = AttendanceQuery(range: Option<DateRange>, grade: Option<string>)

  /** A query parameter that is present and not empty (truthy). */
  predicate Given(p: Option<string>) {
    p.Some? && p.value != ""
  }

  /** `${y}-${mm}-01` to `${y}-${mm}-${lastDay}`, with the month and the last day zero-padded. */
  function MonthRange(year: int, month: int): DateRange
    requires 1 <= month <= 12
  {
    DateRange(DateText(year, month, 1), DateText(year, month, LastDayOfMonth(year, month)))
  }

  /**
   * The query the parameters select: a month range only when both year and
   * month are given, and then only if both parse and the month is 1..12.
   */
  function PlanQuery(year: Option<string>, month: Option<string>, grade: Option<string>): (r: Result<AttendanceQuery, ApiError>)
    ensures r.Failure? <==>
      Given(year) && Given(month) &&
      (ParseInt(year.value).None? || ParseInt(month.value).None? || !(1 <= ParseInt(month.value).value <= 12))
    ensures r.Failure? ==> r.error == ApiError(BadRequest, InvalidYearOrMonth)
    ensures r.Success? ==> r.value.grade == GradeFilter(grade)
    ensures r.Success? ==> (r.value.range.Some? <==> Given(year) && Given(month))
    ensures r.Success? && r.value.range.Some? ==>
      r.value.range.value == MonthRange(ParseInt(year.value).value, ParseInt(month.value).value)
  {
    if Given(year) && Given(month) then
      match (ParseInt(year.value), ParseInt(month.value))
      case (Some(y), Some(m)) =>
        if m < 1 || m > 12 then Failure(ApiError(BadRequest, InvalidYearOrMonth))
        else Success(AttendanceQuery(Some(MonthRange(y, m)), GradeFilter(grade)))
      case _ => Failure(ApiError(BadRequest, InvalidYearOrMonth))
    else Success(AttendanceQuery(None, GradeFilter(grade)))
  }

  /** For a four-digit year the range literals read as the first and the last day of the month. */
  lemma MonthRangeBounds(year: int, month: int)
    requires 1000 <= year <= 9999 && 1 <= month <= 12
    ensures ReadDate(MonthRange(year, month).start) == Some(Date(year, month, 1))
    ensures ReadDate(MonthRange(year, month).end) == Some(Date(year, month, DaysInMonth(year, month)))
  {
    LastDayIsMonthLength(year, month);
    ReadDateText(Date(year, month, 1));
    ReadDateText(Date(year, month, DaysInMonth(year, month)));
  }

  /** A calendar date lies between the first and the last day of a month iff it is in that month. */
  lemma WithinMonthRange(d: Date, ym: YearMonth)
    requires IsCalendarDate(d) && 1 <= ym.month <= 12
    ensures DateLe(Date(ym.year, ym.month, 1), d) && DateLe(d, Date(ym.year, ym.month, DaysInMonth(ym.year, ym.month)))
        <==> InMonth(d, ym)
  {
  }

  /**
   * The rows a planned query returns (the join on `students` keeps only
   * rows whose student exists); a range literal the database cannot read as
   * a date makes the query fail.
   */
  function Listing(students: seq<Student>, table: AttendanceTable, q: AttendanceQuery): Result<set<AttendanceKey>, ApiError>
  {
    if q.range.None? then Success(set k | k in table && Joined(students, q.grade, k.0))
    else match (ReadDate(q.range.value.start), ReadDate(q.range.value.end))
      case (Some(first), Some(last)) =>
        Success(set k | k in table && Joined(students, q.grade, k.0) && DateLe(first, k.1) && DateLe(k.1, last))
      case _ => Failure(ApiError(ServerError, FetchFailed))
  }

  /** The row's student exists and, when a grade is selected, is in that grade. */
  predicate Joined(students: seq<Student>, g: Option<string>, id: int) {
    HasStudent(students, id) && (g.Some? ==> InGrade(students, id, g.value))
  }

  /** The GET handler: the parameter check first, then the query. */
  function Get(students: seq<Student>, table: AttendanceTable, year: Option<string>, month: Option<string>,
               grade: Option<string>): Result<set<AttendanceKey>, ApiError>
  {
    match PlanQuery(year, month, grade)
    case Failure(e) => Failure(e)
    case Success(q) => Listing(students, table, q)
  }

  /**
   * With a valid four-digit year and a month 1..12, GET returns exactly the
   * rows of that month, of the grade when one is selected.
   */
  lemma GetOneMonth(students: seq<Student>, table: AttendanceTable, year: Option<string>, month: Option<string>,
                    grade: Option<string>, y: int, m: int)
    requires References(students, table)
    requires Given(year) && Given(month) && ParseInt(year.value) == Some(y) && ParseInt(month.value) == Some(m)
    requires 1000 <= y <= 9999 && 1 <= m <= 12
    ensures Get(students, table, year, month, grade) ==
      Success(set k | k in table && InMonth(k.1, YearMonth(y, m))
                      && (GradeFilter(grade).Some? ==> InGrade(students, k.0, GradeFilter(grade).value)))
  {
    MonthRangeBounds(y, m);
    var g := GradeFilter(grade);
    var q := AttendanceQuery(Some(MonthRange(y, m)), g);
    assert PlanQuery(year, month, grade) == Success(q);
    var first, last := Date(y, m, 1), Date(y, m, DaysInMonth(y, m));
    assert Listing(students, table, q) ==
      Success(set k | k in table && Joined(students, g, k.0) && DateLe(first, k.1) && DateLe(k.1, last));
    MonthRowsAgree(students, table, g, y, m);
  }

  /** The rows between the month's first and last day are the rows dated in the month. */
  lemma MonthRowsAgree(students: seq<Student>, table: AttendanceTable, g: Option<string>, y: int, m: int)
    requires References(students, table)
    requires 1000 <= y <= 9999 && 1 <= m <= 12
    ensures var first, last := Date(y, m, 1), Date(y, m, DaysInMonth(y, m));
      (set k | k in table && Joined(students, g, k.0) && DateLe(first, k.1) && DateLe(k.1, last))
      == (set k | k in table && InMonth(k.1, YearMonth(y, m)) && (g.Some? ==> InGrade(students, k.0, g.value)))
  {
    var first, last := Date(y, m, 1), Date(y, m, DaysInMonth(y, m));
    var listed := set k | k in table && Joined(students, g, k.0) && DateLe(first, k.1) && DateLe(k.1, last);
    var expected := set k | k in table && InMonth(k.1, YearMonth(y, m)) && (g.Some? ==> InGrade(students, k.0, g.value));
    forall k | k in table
      ensures k in listed <==> k in expected
    {
      WithinMonthRange(k.1, YearMonth(y, m));
    }
  }

  /** Without both year and month no date filter applies: every joined row of the grade is listed. */
  lemma GetWithoutMonth(students: seq<Student>, table: AttendanceTable, year: Option<string>, month: Option<string>,
                        grade: Option<string>)
    requires !(Given(year) && Given(month))
    ensures Get(students, table, year, month, grade) ==
      Success(set k | k in table && Joined(students, GradeFilter(grade), k.0))
  {
  }

  // ---------------------------------------------------------------- POST

  datatype PostBody = PostBody(studentId: JsValue, date: JsValue, present: JsValue)

  /**
   * The guards before the write, in order: required fields, the
   * `^\d{4}-\d{2}-\d{2}$` pattern, then the Date parser. On success the
   * date text is returned.
   */
  function ValidatePost(body: PostBody, readable: string -> bool): (r: Result<string, ApiError>)
    ensures !Truthy(body.studentId) || !Truthy(body.date) || !body.present.Bool? ==>
      r == Failure(ApiError(BadRequest, FieldsRequired))
    ensures r.Failure? ==> r.error.status == BadRequest
    ensures r.Success? <==>
      Truthy(body.studentId) && body.present.Bool? && body.date.Str? && MatchesDatePattern(body.date.s)
      && readable(body.date.s + "T00:00:00.000Z")
    ensures r.Success? ==> r.value == body.date.s
  {
    if !Truthy(body.studentId) || !Truthy(body.date) || !body.present.Bool? then
      Failure(ApiError(BadRequest, FieldsRequired))
    else if !(body.date.Str? && MatchesDatePattern(body.date.s)) then
      Failure(ApiError(BadRequest, BadDateFormat))
    else if !readable(body.date.s + "T00:00:00.000Z") then
      Failure(ApiError(BadRequest, InvalidDate))
    else Success(body.date.s)
  }

  /**
   * The whole POST: the guards, then the upsert, which fails (500) when the
   * id is not a number, the student does not exist or the text is no
   * calendar date. A body that passes the guards is saved exactly when none
   * of these happens.
   */
  function PostOutcome(students: seq<Student>, body: PostBody, readable: string -> bool): (r: Result<AttendanceRow, ApiError>)
    ensures r.Success? ==> ValidatePost(body, readable).Success?
    ensures r.Success? ==>
      && body.studentId == Num(r.value.studentId)
      && body.present == Bool(r.value.present)
      && ReadDate(body.date.s) == Some(r.value.date)
      && HasStudent(students, r.value.studentId)
    ensures r.Success? <==>
      && ValidatePost(body, readable).Success? && body.studentId.Num?
      && ReadDate(body.date.s).Some? && HasStudent(students, body.studentId.n)
    ensures ValidatePost(body, readable).Success? && r.Failure? ==> r.error == ApiError(ServerError, SaveFailed)
  {
    match ValidatePost(body, readable)
    case Failure(e) => Failure(e)
    case Success(dateText) =>
      if !body.studentId.Num? then Failure(ApiError(ServerError, SaveFailed))
      else match UpsertRow(students, body.studentId.n, dateText, body.present.b)
        case None => Failure(ApiError(ServerError, SaveFailed))
        case Some(row) => Success(row)
  }

  /** A body the guards reject never reaches the table. */
  lemma RejectedBeforeWrite(students: seq<Student>, body: PostBody, readable: string -> bool)
    requires ValidatePost(body, readable).Failure?
    ensures PostOutcome(students, body, readable) == Failure(ValidatePost(body, readable).error)
    ensures PostOutcome(students, body, readable).error.status == BadRequest
  {
  }

  /** The handler against the database: exactly the key of a saved row changes. */
  method Post(db: Database, body: PostBody, readable: string -> bool) returns (r: Result<AttendanceRow, ApiError>)
    requires db.Valid()
    modifies db
    ensures db.Valid()
    ensures r == PostOutcome(old(db.students), body, readable)
    ensures db.students == old(db.students) && db.teachers == old(db.teachers)
    ensures r.Success? ==> db.attendance == Upsert(old(db.attendance), (r.value.studentId, r.value.date), r.value.present)
    ensures r.Failure? ==> db.attendance == old(db.attendance)
  {
    var checked := ValidatePost(body, readable);
    if checked.Failure? {
      return Failure(checked.error);
    }
    if !body.studentId.Num? {
      return Failure(ApiError(ServerError, SaveFailed));
    }
    var row := db.UpsertAttendance(body.studentId.n, checked.value, body.present.b);
    if row.None? {
      return Failure(ApiError(ServerError, SaveFailed));
    }
    r := Success(row.value);
  }
}
