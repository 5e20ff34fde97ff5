/**
 * The database tables the handlers read and write: `students` (serial id,
 * name and grade required, address and contact optional), `attendance`
 * (one row per student and date, the pair being unique, referencing a
 * student) and `teachers`. The attendance table is a map from the
 * (student id, date) pair to the present flag, which makes the uniqueness
 * constraint hold by construction.
 */
module Store {
  import opened Wrappers
  import opened Calendar

  datatype Student = Student(id: int, name: string, grade: string, address: Option<string>, contact: Option<string>)

  datatype Teacher = Teacher(id: int, fullName: string, email: string, passwordHash: string)

  datatype AttendanceRow = AttendanceRow(studentId: int, date: Date, present: bool)

  type AttendanceKey = (int, Date)

  type AttendanceTable = map<AttendanceKey, bool>

  predicate HasStudent(students: seq<Student>, id: int) {
    exists i :: 0 <= i < |students| && students[i].id == id
  }

  /** The student has the given id and grade: the inner join on `students` the grade filters use. */
  predicate InGrade(students: seq<Student>, id: int, grade: string) {
    exists i :: 0 <= i < |students| && students[i].id == id && students[i].grade == grade
  }

  predicate UniqueStudentIds(students: seq<Student>) {
    forall i, j :: 0 <= i < j < |students| ==> students[i].id != students[j].id
  }

  predicate UniqueTeacherIds(teachers: seq<Teacher>) {
    forall i, j :: 0 <= i < j < |teachers| ==> teachers[i].id != teachers[j].id
  }

  /** Every attendance row names an existing student and a real calendar date. */
  predicate References(students: seq<Student>, table: AttendanceTable) {
    forall k :: k in table ==> HasStudent(students, k.0) && IsCalendarDate(k.1)
  }

  /**
   * `INSERT ... ON CONFLICT (student_id, date) DO UPDATE SET present = ...`:
   * after it the key holds the new flag and every other key is as before.
   */
  function Upsert(table: AttendanceTable, key: AttendanceKey, present: bool): (t: AttendanceTable)
    ensures t.Keys == table.Keys + {key}
    ensures t[key] == present
    ensures forall k :: k in table && k != key ==> t[k] == table[k]
  {
    table[key := present]
  }

  /** Saving the same key twice leaves the later value. */
  lemma UpsertLastWins(table: AttendanceTable, key: AttendanceKey, first: bool, second: bool)
    ensures Upsert(Upsert(table, key, first), key, second) == Upsert(table, key, second)
  {
  }

  /** Repeating an identical save changes nothing. */
  lemma UpsertIdempotent(table: AttendanceTable, key: AttendanceKey, present: bool)
    ensures Upsert(Upsert(table, key, present), key, present) == Upsert(table, key, present)
  {
  }

  /** Saves to different keys commute. */
  lemma UpsertCommutes(table: AttendanceTable, k1: AttendanceKey, k2: AttendanceKey, a: bool, b: bool)
    requires k1 != k2
    ensures Upsert(Upsert(table, k1, a), k2, b) == Upsert(Upsert(table, k2, b), k1, a)
  {
  }

  /**
   * The row an upsert writes, or None when the database refuses it: the date
   * literal is not a calendar date, or the foreign key names no student.
   */
  function UpsertRow(students: seq<Student>, studentId: int, dateText: string, present: bool): (r: Option<AttendanceRow>)
    ensures r.Some? <==> ReadDate(dateText).Some? && HasStudent(students, studentId)
    ensures r.Some? ==> r.value == AttendanceRow(studentId, ReadDate(dateText).value, present)
  {
    match ReadDate(dateText)
    case None => None
    case Some(date) => if HasStudent(students, studentId) then Some(AttendanceRow(studentId, date, present)) else None
  }

  /** The first teacher with exactly this email (`SELECT ... FROM teachers WHERE email = ...`). */
  function FindTeacher(teachers: seq<Teacher>, email: string): (r: Option<Teacher>)
    ensures r.None? <==> forall i :: 0 <= i < |teachers| ==> teachers[i].email != email
    ensures r.Some? ==> r.value in teachers && r.value.email == email
  {
    if |teachers| == 0 then None
    else if teachers[0].email == email then Some(teachers[0])
    else FindTeacher(teachers[1..], email)
  }

  class Database {
    var students: seq<Student>
    var attendance: AttendanceTable
    var teachers: seq<Teacher>
    var nextStudentId: int
    var nextTeacherId: int

    ghost predicate Valid()
      reads this
    {
      && UniqueStudentIds(students)
      && (forall i :: 0 <= i < |students| ==> students[i].id < nextStudentId)
      && UniqueTeacherIds(teachers)
      && (forall i :: 0 <= i < |teachers| ==> teachers[i].id < nextTeacherId)
      && References(students, attendance)
    }

    constructor ()
      ensures Valid()
      ensures students == [] && attendance == map[] && teachers == []
    {
      students := [];
      attendance := map[];
      teachers := [];
      nextStudentId := 1;
      nextTeacherId := 1;
    }

    /** The attendance upsert; a refused row leaves the table as it was. */
    method UpsertAttendance(studentId: int, dateText: string, present: bool) returns (row: Option<AttendanceRow>)
      requires Valid()
      modifies this
      ensures Valid()
      ensures students == old(students) && teachers == old(teachers)
      ensures nextStudentId == old(nextStudentId) && nextTeacherId == old(nextTeacherId)
      ensures row == UpsertRow(old(students), studentId, dateText, present)
      ensures row.Some? ==> attendance == Upsert(old(attendance), (studentId, row.value.date), present)
      ensures row.None? ==> attendance == old(attendance)
    {
      row := UpsertRow(students, studentId, dateText, present);
      if row.Some? {
        attendance := Upsert(attendance, (studentId, row.value.date), present);
      }
    }

    /** `INSERT INTO students ... RETURNING *`: the new row gets the next serial id and goes last. */
    method InsertStudent(name: string, grade: string, address: Option<string>, contact: Option<string>)
      returns (s: Student)
      requires Valid()
      modifies this
      ensures Valid()
      ensures s == Student(old(nextStudentId), name, grade, address, contact)
      ensures !HasStudent(old(students), s.id)
      ensures students == old(students) + [s]
      ensures attendance == old(attendance) && teachers == old(teachers)
      ensures nextTeacherId == old(nextTeacherId)
    {
      s := Student(nextStudentId, name, grade, address, contact);
      students := students + [s];
      nextStudentId := nextStudentId + 1;
      assert forall k :: k in attendance ==> HasStudent(students, k.0) by {
        forall k | k in attendance
          ensures HasStudent(students, k.0)
        {
          var i :| 0 <= i < |old(students)| && old(students)[i].id == k.0;
          assert students[i] == old(students)[i];
        }
      }
    }

    /** `INSERT INTO teachers ... RETURNING ...`: the new row gets the next serial id and goes last. */
    method InsertTeacher(fullName: string, email: string, passwordHash: string) returns (t: Teacher)
      requires Valid()
      modifies this
      ensures Valid()
      ensures t == Teacher(old(nextTeacherId), fullName, email, passwordHash)
      ensures forall u :: u in old(teachers) ==> u.id != t.id
      ensures teachers == old(teachers) + [t]
      ensures students == old(students) && attendance == old(attendance)
      ensures nextStudentId == old(nextStudentId)
    {
      t := Teacher(nextTeacherId, fullName, email, passwordHash);
      teachers := teachers + [t];
      nextTeacherId := nextTeacherId + 1;
    }
  }
}
