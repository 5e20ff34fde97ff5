/**
 * `POST /api/attendance/bulk`: saves a list of (student, date, present)
 * entries one by one. Entries with a falsy student id or date are skipped,
 * an entry whose insert fails is dropped without stopping the batch, and
 * the response lists the rows that were saved.
 */
module AttendanceBulk {
  import opened Wrappers
  import opened Text
  import opened Calendar
  import opened Store
  import opened Http
  import opened JsValues

  const DataRequired := "Attendance data is required"
  const BulkFailed := "Failed to save bulk attendance"
  const SavedSuffix := " attendance records saved successfully"

  datatype BulkEntry = BulkEntry(studentId: JsValue, date: JsValue, present: JsValue)

  /**
   * An element of `attendanceData`. Destructuring a null or undefined
   * element throws, which ends the whole request with a 500.
   */
  datatype Item = Missing | Entry(entry: BulkEntry)

  datatype BulkResponse = BulkResponse(data: seq<AttendanceRow>, message: string)

  /** `!student_id || !date`: the loop skips the entry. */
  predicate Skipped(e: BulkEntry) {
    !Truthy(e.studentId) || !Truthy(e.date)
  }

  /**
   * The row the entry's upsert writes, or None when the database refuses it
   * (an id that is not a number or names no student, a date that is not a
   * calendar date, a flag that is not a boolean).
   */
  function EntryRow(students: seq<Student>, e: BulkEntry): Option<AttendanceRow> {
    if e.studentId.Num? && e.date.Str? && e.present.Bool?
    then UpsertRow(students, e.studentId.n, e.date.s, e.present.b)
    else None
  }

  /** The loop's state: the table so far, the rows pushed into `results`, and whether it threw. */
  datatype Run = Run(table: AttendanceTable, saved: seq<AttendanceRow>, aborted: bool)

  function Step(students: seq<Student>, run: Run, item: Item): Run {
    if run.aborted then run
    else match item
      case Missing => run.(aborted := true)
      case Entry(e) =>
        if Skipped(e) then run
        else match EntryRow(students, e)
          case None => run
          case Some(row) => Run(Upsert(run.table, (row.studentId, row.date), row.present), run.saved + [row], false)
  }

  /** The loop over all items, in order. */
  function RunAll(students: seq<Student>, table: AttendanceTable, items: seq<Item>): (run: Run)
    ensures |run.saved| <= |items|
    decreases |items|
  {
    if items == [] then Run(table, [], false)
    else Step(students, RunAll(students, table, items[..|items| - 1]), items[|items| - 1])
  }

  /** The response the loop's end state produces. */
  function Respond(run: Run): Result<BulkResponse, ApiError> {
    if run.aborted then Failure(ApiError(ServerError, BulkFailed))
    else Success(BulkResponse(run.saved, NatToString(|run.saved|) + SavedSuffix))
  }

  /** The saved rows written into a table one after the other. */
  function Replay(table: AttendanceTable, rows: seq<AttendanceRow>): AttendanceTable
    decreases |rows|
  {
    if rows == [] then table
    else var last := rows[|rows| - 1]; Upsert(Replay(table, rows[..|rows| - 1]), (last.studentId, last.date), last.present)
  }

  function Key(row: AttendanceRow): AttendanceKey {
    (row.studentId, row.date)
  }

  /** The table after the loop is the old table with the saved rows written over it in order. */
  lemma {:induction false} RunIsReplay(students: seq<Student>, table: AttendanceTable, items: seq<Item>)
    ensures RunAll(students, table, items).table == Replay(table, RunAll(students, table, items).saved)
    decreases |items|
  {
    if items != [] {
      RunIsReplay(students, table, items[..|items| - 1]);
      StepReplays(students, table, RunAll(students, table, items[..|items| - 1]), items[|items| - 1]);
    }
  }

  /** One step keeps the table equal to the replay of the saved rows. */
  lemma StepReplays(students: seq<Student>, table: AttendanceTable, run: Run, item: Item)
    requires run.table == Replay(table, run.saved)
    ensures Step(students, run, item).table == Replay(table, Step(students, run, item).saved)
  {
    if !run.aborted && item.Entry? && !Skipped(item.entry) && EntryRow(students, item.entry).Some? {
      var row := EntryRow(students, item.entry).value;
      assert Step(students, run, item) == Run(Upsert(run.table, Key(row), row.present), run.saved + [row], false);
      ReplayAppend(table, run.saved, row);
    } else {
      assert Step(students, run, item).table == run.table && Step(students, run, item).saved == run.saved;
    }
  }

  lemma ReplayAppend(table: AttendanceTable, rows: seq<AttendanceRow>, row: AttendanceRow)
    ensures Replay(table, rows + [row]) == Upsert(Replay(table, rows), Key(row), row.present)
  {
    assert (rows + [row])[..|rows|] == rows;
  }

  /** For a key written more than once, the last saved row's flag remains. */
  lemma {:induction false} ReplayLastWins(table: AttendanceTable, rows: seq<AttendanceRow>, j: nat)
    requires j < |rows|
    requires forall k :: j < k < |rows| ==> Key(rows[k]) != Key(rows[j])
    ensures Key(rows[j]) in Replay(table, rows)
    ensures Replay(table, rows)[Key(rows[j])] == rows[j].present
    decreases |rows|
  {
    var init := rows[..|rows| - 1];
    if j < |rows| - 1 {
      assert forall k :: j < k < |init| ==> init[k] == rows[k];
      ReplayLastWins(table, init, j);
    }
  }

  /** A key no saved row has keeps its old state. */
  lemma {:induction false} ReplayUntouched(table: AttendanceTable, rows: seq<AttendanceRow>, key: AttendanceKey)
    requires forall k :: 0 <= k < |rows| ==> Key(rows[k]) != key
    ensures key in Replay(table, rows) <==> key in table
    ensures key in table ==> Replay(table, rows)[key] == table[key]
    decreases |rows|
  {
    if rows != [] {
      var init := rows[..|rows| - 1];
      assert forall k :: 0 <= k < |init| ==> init[k] == rows[k];
      ReplayUntouched(table, init, key);
    }
  }

  /** Once the loop has thrown, later items change nothing. */
  lemma {:induction false} AbortStays(students: seq<Student>, table: AttendanceTable, items: seq<Item>, i: nat)
    requires i <= |items| && RunAll(students, table, items[..i]).aborted
    ensures RunAll(students, table, items) == RunAll(students, table, items[..i])
    decreases |items| - i
  {
    if i < |items| {
      assert items[..i + 1][..i] == items[..i];
      AbortStays(students, table, items, i + 1);
    } else {
      assert items[..i] == items;
    }
  }

  /** A skipped entry, and an entry whose insert fails, leave the loop state as it was. */
  lemma EntryWithoutRow(students: seq<Student>, run: Run, e: BulkEntry)
    requires Skipped(e) || EntryRow(students, e).None?
    ensures Step(students, run, Entry(e)) == run
  {
  }

  /** A batch of entries that are all skipped still succeeds, saves nothing and writes nothing. */
  lemma {:induction false} AllSkipped(students: seq<Student>, table: AttendanceTable, items: seq<Item>)
    requires forall i :: 0 <= i < |items| ==> items[i].Entry? && Skipped(items[i].entry)
    ensures RunAll(students, table, items) == Run(table, [], false)
    ensures Respond(RunAll(students, table, items)) == Success(BulkResponse([], "0" + SavedSuffix))
    decreases |items|
  {
    if items != [] {
      AllSkipped(students, table, items[..|items| - 1]);
    }
  }

  /**
   * The handler: a missing or empty list is a 400 with nothing written;
   * otherwise the loop, whose writes stay even when a later element throws.
   */
  method PostBulk(db: Database, data: Option<seq<Item>>) returns (r: Result<BulkResponse, ApiError>)
    requires db.Valid()
    modifies db
    ensures db.Valid()
    ensures db.students == old(db.students) && db.teachers == old(db.teachers)
    ensures data.None? || data.value == [] ==>
      r == Failure(ApiError(BadRequest, DataRequired)) && db.attendance == old(db.attendance)
    ensures data.Some? && data.value != [] ==>
      && r == Respond(RunAll(old(db.students), old(db.attendance), data.value))
      && db.attendance == RunAll(old(db.students), old(db.attendance), data.value).table
  {
    if data.None? || data.value == [] {
      return Failure(ApiError(BadRequest, DataRequired));
    }
    var items := data.value;
    ghost var students0, table0 := db.students, db.attendance;
    var results: seq<AttendanceRow> := [];
    var i := 0;
    while i < |items|
      invariant 0 <= i <= |items|
      invariant db.Valid()
      invariant db.students == students0 && db.teachers == old(db.teachers)
      invariant RunAll(students0, table0, items[..i]) == Run(db.attendance, results, false)
    {
      assert items[..i + 1][..i] == items[..i];
      match items[i]
      case Missing =>
        AbortStays(students0, table0, items, i + 1);
        return Failure(ApiError(ServerError, BulkFailed));
      case Entry(e) =>
        if !Truthy(e.studentId) || !Truthy(e.date) {
          i := i + 1;
          continue;
        }
        if e.studentId.Num? && e.date.Str? && e.present.Bool? {
          var row := db.UpsertAttendance(e.studentId.n, e.date.s, e.present.b);
          if row.Some? {
            results := results + [row.value];
          }
        }
        i := i + 1;
    }
    assert items[..|items|] == items;
    r := Success(BulkResponse(results, NatToString(|results|) + SavedSuffix));
  }
}
