/**
 * The attendance grid screen: one row per student with a cell per day of
 * the selected month, filled from the month's attendance records, and an
 * optimistic toggle of one cell that is written back when the save fails.
 *
 * Record dates arrive already read into local calendar fields; `None`
 * stands for a date the browser could not parse.
 */
module AttendancePage {
  import opened Wrappers
  import opened Calendar

  /** A student as the roster endpoint lists it. */
  datatype RosterStudent = RosterStudent(id: int, name: string, grade: string)

  /** An attendance record as the attendance endpoint lists it. */
  datatype Record = Record(studentId: int, date: Option<Date>, present: bool)

  /** A grid row: the student and one cell per day. */
  datatype Row = Row(id: int, name: string, grade: string, attendance: seq<bool>)

  /** What a toggle sends and what it needs to undo itself. */
  datatype PendingSave = PendingSave(studentId: int, dayIndex: nat, date: string, newStatus: bool, previous: bool)

  // ---------------------------------------------------------------- filling a row

  /**
   * The 0-based cell a record writes in the row of `studentId`: only a record
   * of that student, with a readable date in the selected month and year,
   * whose day falls inside the row.
   */
  function TargetCell(r: Record, studentId: int, ym: YearMonth, daysCount: int): (c: Option<nat>)
    ensures c.Some? <==> r.studentId == studentId && r.date.Some? && InMonth(r.date.value, ym)
                         && 0 <= r.date.value.day - 1 < daysCount
    ensures c.Some? ==> c.value == r.date.value.day - 1 && c.value < daysCount
  {
    if r.studentId == studentId && r.date.Some? && r.date.value.month == ym.month && r.date.value.year == ym.year
       && 0 <= r.date.value.day - 1 < daysCount
    then Some(r.date.value.day - 1)
    else None
  }

  /** The records applied in order to a row's cells, each one writing its target cell. */
  function Apply(cells: seq<bool>, records: seq<Record>, studentId: int, ym: YearMonth): (out: seq<bool>)
    ensures |out| == |cells|
  {
    if records == [] then cells
    else
      var before := Apply(cells, records[..|records| - 1], studentId, ym);
      var last := records[|records| - 1];
      match TargetCell(last, studentId, ym, |cells|)
      case None => before
      case Some(d) => before[d := last.present]
  }

  /** `Array(daysCount).fill(false)` followed by the records. */
  function Filled(daysCount: nat, records: seq<Record>, studentId: int, ym: YearMonth): seq<bool> {
    Apply(seq(daysCount, _ => false), records, studentId, ym)
  }

  /** When several records hit one cell, the last of them decides its value. */
  lemma {:induction false} LastRecordWins(cells: seq<bool>, records: seq<Record>, studentId: int, ym: YearMonth,
                                          j: nat, d: nat)
    requires j < |records| && TargetCell(records[j], studentId, ym, |cells|) == Some(d)
    requires forall k :: j < k < |records| ==> TargetCell(records[k], studentId, ym, |cells|) != Some(d)
    ensures d < |cells|
    ensures Apply(cells, records, studentId, ym)[d] == records[j].present
    decreases |records|
  {
    var init := records[..|records| - 1];
    if j < |records| - 1 {
      assert forall k :: j < k < |init| ==> init[k] == records[k];
      LastRecordWins(cells, init, studentId, ym, j, d);
    }
  }

  /** A cell no record targets keeps its initial value. */
  lemma {:induction false} UntouchedCell(cells: seq<bool>, records: seq<Record>, studentId: int, ym: YearMonth, d: nat)
    requires d < |cells|
    requires forall k :: 0 <= k < |records| ==> TargetCell(records[k], studentId, ym, |cells|) != Some(d)
    ensures Apply(cells, records, studentId, ym)[d] == cells[d]
    decreases |records|
  {
    if records != [] {
      var init := records[..|records| - 1];
      assert forall k :: 0 <= k < |init| ==> init[k] == records[k];
      UntouchedCell(cells, init, studentId, ym, d);
    }
  }

  /** A record that targets no cell (another student, an unreadable date, another month, a day out of range) changes nothing. */
  lemma SkippedRecord(cells: seq<bool>, records: seq<Record>, r: Record, studentId: int, ym: YearMonth)
    requires TargetCell(r, studentId, ym, |cells|).None?
    ensures Apply(cells, records + [r], studentId, ym) == Apply(cells, records, studentId, ym)
  {
    assert (records + [r])[..|records|] == records;
  }

  /** Every row has exactly `daysCount` cells, and a cell no record targets is false. */
  lemma FilledShape(daysCount: nat, records: seq<Record>, studentId: int, ym: YearMonth, d: nat)
    requires d < daysCount
    requires forall k :: 0 <= k < |records| ==> TargetCell(records[k], studentId, ym, daysCount) != Some(d)
    ensures |Filled(daysCount, records, studentId, ym)| == daysCount
    ensures !Filled(daysCount, records, studentId, ym)[d]
  {
    UntouchedCell(seq(daysCount, _ => false), records, studentId, ym, d);
  }

  /** One row, filled cell by cell in an array as the records are walked in order. */
  method FillRow(daysCount: nat, records: seq<Record>, studentId: int, ym: YearMonth) returns (cells: seq<bool>)
    ensures cells == Filled(daysCount, records, studentId, ym)
  {
    var a := new bool[daysCount](_ => false);
    assert a[..] == seq(daysCount, _ => false);
    var i := 0;
    while i < |records|
      invariant 0 <= i <= |records|
      invariant a[..] == Apply(seq(daysCount, _ => false), records[..i], studentId, ym)
    {
      var r := records[i];
      assert records[..i + 1][..i] == records[..i];
      if r.studentId == studentId && r.date.Some? {
        var date := r.date.value;
        if date.month == ym.month && date.year == ym.year {
          var day := date.day - 1;
          if day >= 0 && day < daysCount {
            a[day] := r.present;
          }
        }
      }
      i := i + 1;
    }
    assert records[..|records|] == records;
    cells := a[..];
  }

  /** The rows for a roster; a failed attendance fetch leaves every cell false. */
  function RowsOf(roster: seq<RosterStudent>, attendance: Option<seq<Record>>, daysCount: nat, ym: YearMonth): (rows: seq<Row>)
    ensures |rows| == |roster|
  {
    var records := if attendance.Some? then attendance.value else [];
    seq(|roster|, i requires 0 <= i < |roster| =>
      Row(roster[i].id, roster[i].name, roster[i].grade, Filled(daysCount, records, roster[i].id, ym)))
  }

  method BuildRows(roster: seq<RosterStudent>, attendance: Option<seq<Record>>, daysCount: nat, ym: YearMonth)
    returns (rows: seq<Row>)
    ensures rows == RowsOf(roster, attendance, daysCount, ym)
  {
    var records := if attendance.Some? then attendance.value else [];
    rows := [];
    var i := 0;
    while i < |roster|
      invariant 0 <= i <= |roster|
      invariant rows == RowsOf(roster, attendance, daysCount, ym)[..i]
    {
      var cells := FillRow(daysCount, records, roster[i].id, ym);
      rows := rows + [Row(roster[i].id, roster[i].name, roster[i].grade, cells)];
      i := i + 1;
    }
  }

  // ---------------------------------------------------------------- toggling a cell

  predicate UniqueRosterIds(roster: seq<RosterStudent>) {
    forall i, j :: 0 <= i < j < |roster| ==> roster[i].id != roster[j].id
  }

  predicate UniqueRowIds(rows: seq<Row>) {
    forall i, j :: 0 <= i < j < |rows| ==> rows[i].id != rows[j].id
  }

  /** The index of the first row with the id (`students.find`). */
  function FindRow(rows: seq<Row>, id: int): (r: Option<nat>)
    ensures r.None? <==> forall i :: 0 <= i < |rows| ==> rows[i].id != id
    ensures r.Some? ==> r.value < |rows| && rows[r.value].id == id
                        && forall i :: 0 <= i < r.value ==> rows[i].id != id
  {
    if |rows| == 0 then None
    else if rows[0].id == id then Some(0)
    else match FindRow(rows[1..], id)
      case None => None
      case Some(k) => Some(k + 1)
  }

  /** Every row with the id has the cell. */
  predicate HasCell(rows: seq<Row>, id: int, dayIndex: nat) {
    forall i :: 0 <= i < |rows| && rows[i].id == id ==> dayIndex < |rows[i].attendance|
  }

  /**
   * `rows.map(s => s.id === id ? { ...s, attendance: [cell dayIndex := value] } : s)`:
   * only that cell of the rows with that id changes.
   */
  function SetCells(rows: seq<Row>, id: int, dayIndex: nat, value: bool): (out: seq<Row>)
    requires HasCell(rows, id, dayIndex)
    ensures |out| == |rows|
    ensures forall i :: 0 <= i < |rows| && rows[i].id != id ==> out[i] == rows[i]
    ensures forall i :: 0 <= i < |rows| && rows[i].id == id ==>
      && out[i].id == id && out[i].name == rows[i].name && out[i].grade == rows[i].grade
      && |out[i].attendance| == |rows[i].attendance|
      && out[i].attendance[dayIndex] == value
      && forall c :: 0 <= c < |rows[i].attendance| && c != dayIndex ==> out[i].attendance[c] == rows[i].attendance[c]
  {
    seq(|rows|, i requires 0 <= i < |rows| =>
      if rows[i].id == id then rows[i].(attendance := rows[i].attendance[dayIndex := value]) else rows[i])
  }

  /** Writing the previous value back after a flip restores the grid, ids being unique. */
  lemma RevertRestores(rows: seq<Row>, id: int, dayIndex: nat)
    requires UniqueRowIds(rows) && HasCell(rows, id, dayIndex) && FindRow(rows, id).Some?
    ensures var previous := rows[FindRow(rows, id).value].attendance[dayIndex];
      SetCells(SetCells(rows, id, dayIndex, !previous), id, dayIndex, previous) == rows
  {
    var k := FindRow(rows, id).value;
    var previous := rows[k].attendance[dayIndex];
    var flipped := SetCells(rows, id, dayIndex, !previous);
    var back := SetCells(flipped, id, dayIndex, previous);
    forall i | 0 <= i < |rows|
      ensures back[i] == rows[i]
    {
      if rows[i].id == id {
        assert i == k;
        assert back[i].attendance == rows[i].attendance;
      }
    }
  }

  class AttendanceView {
    var year: int
    var month: int
    var daysInMonth: int
    var students: seq<Row>

    ghost predicate Valid()
      reads this
    {
      1 <= month <= 12 && UniqueRowIds(students)
    }

    /** The screen opens on July 2024 with 31 days and no rows. */
    constructor ()
      ensures Valid()
      ensures year == 2024 && month == 7 && daysInMonth == 31 && students == []
    {
      year := 2024;
      month := 7;
      daysInMonth := 31;
      students := [];
    }

    /**
     * A new year or month: the day count becomes that month's length and the
     * rows are rebuilt with it; a failed roster fetch keeps the old rows.
     */
    method SelectPeriod(newYear: int, newMonth: int, roster: Option<seq<RosterStudent>>,
                        attendance: Option<seq<Record>>)
      requires Valid() && 1 <= newMonth <= 12
      requires roster.Some? ==> UniqueRosterIds(roster.value)
      modifies this
      ensures Valid()
      ensures year == newYear && month == newMonth
      ensures daysInMonth == LastDayOfMonth(newYear, newMonth) && 28 <= daysInMonth <= 31
      ensures roster.None? ==> students == old(students)
      ensures roster.Some? ==>
        students == RowsOf(roster.value, attendance, daysInMonth, YearMonth(newYear, newMonth))
    {
      year := newYear;
      month := newMonth;
      daysInMonth := LastDayOfMonth(newYear, newMonth);
      if roster.Some? {
        students := BuildRows(roster.value, attendance, daysInMonth, YearMonth(year, month));
      }
    }

    /**
     * The search button: the grade's roster with the stored day count and
     * the selected month's records; a failed roster fetch keeps the old rows.
     */
    method Search(roster: Option<seq<RosterStudent>>, attendance: Option<seq<Record>>)
      requires Valid()
      requires roster.Some? ==> UniqueRosterIds(roster.value)
      requires daysInMonth >= 0
      modifies this
      ensures Valid()
      ensures year == old(year) && month == old(month) && daysInMonth == old(daysInMonth)
      ensures roster.None? ==> students == old(students)
      ensures roster.Some? ==> students == RowsOf(roster.value, attendance, daysInMonth, YearMonth(year, month))
    {
      if roster.Some? {
        students := BuildRows(roster.value, attendance, daysInMonth, YearMonth(year, month));
      }
    }

    /**
     * The optimistic half of a toggle: the cell flips at once and the save
     * to send is returned; an unknown student changes nothing.
     */
    method BeginToggle(studentId: int, dayIndex: nat) returns (pending: Option<PendingSave>)
      requires Valid() && HasCell(students, studentId, dayIndex)
      modifies this
      ensures Valid()
      ensures year == old(year) && month == old(month) && daysInMonth == old(daysInMonth)
      ensures FindRow(old(students), studentId).None? ==> pending.None? && students == old(students)
      ensures FindRow(old(students), studentId).Some? ==>
        var previous := old(students)[FindRow(old(students), studentId).value].attendance[dayIndex];
        && pending == Some(PendingSave(studentId, dayIndex, DateText(year, month, dayIndex + 1), !previous, previous))
        && students == SetCells(old(students), studentId, dayIndex, !previous)
    {
      var found := FindRow(students, studentId);
      if found.None? {
        return None;
      }
      var previous := students[found.value].attendance[dayIndex];
      var date := DateText(year, month, dayIndex + 1);
      students := SetCells(students, studentId, dayIndex, !previous);
      pending := Some(PendingSave(studentId, dayIndex, date, !previous, previous));
    }

    /** The answer to the save: on failure the previous value goes back into the cell. */
    method FinishToggle(pending: PendingSave, saved: bool)
      requires Valid() && HasCell(students, pending.studentId, pending.dayIndex)
      modifies this
      ensures Valid()
      ensures year == old(year) && month == old(month) && daysInMonth == old(daysInMonth)
      ensures saved ==> students == old(students)
      ensures !saved ==> students == SetCells(old(students), pending.studentId, pending.dayIndex, pending.previous)
    {
      if !saved {
        students := SetCells(students, pending.studentId, pending.dayIndex, pending.previous);
      }
    }
  }

  /** A failed save right after the flip leaves the grid exactly as it was before the click. */
  method ToggleThenFail(view: AttendanceView, studentId: int, dayIndex: nat)
    requires view.Valid() && HasCell(view.students, studentId, dayIndex)
    modifies view
    ensures view.students == old(view.students)
  {
    var pending := view.BeginToggle(studentId, dayIndex);
    if pending.Some? {
      RevertRestores(old(view.students), studentId, dayIndex);
      view.FinishToggle(pending.value, false);
    }
  }
}
