/**
 * The students screen: the list it shows for a search term, and the
 * handlers that add, edit and delete entries of the list it holds. Adding
 * goes through `POST /api/students`; editing and deleting change only the
 * list on the screen.
 */
module StudentsPage {
  import opened Wrappers
  import opened Text
  import opened Store
  import StudentsApi

  /** The form's fields: a student without its id. */
  datatype StudentFields = StudentFields(name: string, grade: string, address: Option<string>, contact: Option<string>)

  /** The name or the grade contains the term, ignoring letter case. */
  predicate MatchesTerm(s: Student, term: string) {
    Contains(ToLower(s.name), ToLower(term)) || Contains(ToLower(s.grade), ToLower(term))
  }

  /** `filteredStudents`: the students that match the search term, in list order. */
  function FilteredStudents(students: seq<Student>, term: string): (r: seq<Student>)
    ensures forall x :: x in r <==> x in students && MatchesTerm(x, term)
    ensures |r| <= |students|
  {
    var keep := (s: Student) => MatchesTerm(s, term);
    StudentsApi.WhereMembers(students, keep);
    StudentsApi.Where(students, keep)
  }

  /** The list keeps its order: filtering two halves and joining them is filtering the whole. */
  lemma FilterKeepsOrder(a: seq<Student>, b: seq<Student>, term: string)
    ensures FilteredStudents(a + b, term) == FilteredStudents(a, term) + FilteredStudents(b, term)
  {
    StudentsApi.WhereAppend(a, b, (s: Student) => MatchesTerm(s, term));
  }

  /** An empty search term shows everyone. */
  lemma EmptyTermShowsAll(students: seq<Student>)
    ensures FilteredStudents(students, "") == students
  {
    forall i | 0 <= i < |students|
      ensures MatchesTerm(students[i], "")
    {
      ContainsEmpty(ToLower(students[i].name));
    }
    StudentsApi.WhereAll(students, (s: Student) => MatchesTerm(s, ""));
  }

  /** `{ ...student, ...studentData }`: the form's fields over the student's, the id kept. */
  function Overwrite(s: Student, data: StudentFields): Student {
    Student(s.id, data.name, data.grade, data.address, data.contact)
  }

  /**
   * The list after an edit of the student with id `id`: every entry with
   * that id takes the form's fields and keeps its id, every other entry and
   * the length stay as they were.
   */
  function EditedList(students: seq<Student>, id: int, data: StudentFields): (r: seq<Student>)
    ensures |r| == |students|
    ensures forall i :: 0 <= i < |r| ==> r[i].id == students[i].id
    ensures forall i :: 0 <= i < |r| && students[i].id == id ==>
      r[i] == Student(id, data.name, data.grade, data.address, data.contact)
    ensures forall i :: 0 <= i < |r| && students[i].id != id ==> r[i] == students[i]
  {
    seq(|students|, i requires 0 <= i < |students| => if students[i].id == id then Overwrite(students[i], data) else students[i])
  }

  /** Submitting the same edit twice changes nothing more. */
  lemma EditIdempotent(students: seq<Student>, id: int, data: StudentFields)
    ensures EditedList(EditedList(students, id, data), id, data) == EditedList(students, id, data)
  {
  }

  /** The list after a confirmed delete: the students with another id, in order. */
  function WithoutId(students: seq<Student>, id: int): (r: seq<Student>)
    ensures forall x :: x in r <==> x in students && x.id != id
    ensures |r| <= |students|
  {
    var keep := (s: Student) => s.id != id;
    StudentsApi.WhereMembers(students, keep);
    StudentsApi.Where(students, keep)
  }

  /** Deleting a student that was just added, under an id no other entry has, restores the list. */
  lemma DeleteUndoesAdd(students: seq<Student>, added: Student)
    requires forall i :: 0 <= i < |students| ==> students[i].id != added.id
    ensures WithoutId(students + [added], added.id) == students
  {
    var keep := (s: Student) => s.id != added.id;
    StudentsApi.WhereAppend(students, [added], keep);
    StudentsApi.WhereAll(students, keep);
    assert [added][..0] == [];
  }

  /** Deleting the same id twice is deleting it once. */
  lemma DeleteIdempotent(students: seq<Student>, id: int)
    ensures WithoutId(WithoutId(students, id), id) == WithoutId(students, id)
  {
    StudentsApi.WhereIdempotent(students, (s: Student) => s.id != id);
  }

  /** The screen's state: the list, the student being edited, and whether the form is open. */
  class Page {
    var students: seq<Student>
    var editingStudent: Option<Student>
    var isFormOpen: bool

    constructor ()
      ensures students == [] && editingStudent == None && !isFormOpen
    {
      students := [];
      editingStudent := None;
      isFormOpen := false;
    }

    /** The initial load: the list becomes the response's data when the request succeeds. */
    method Load(response: Option<seq<Student>>)
      modifies this
      ensures response.Some? ==> students == response.value
      ensures response.None? ==> students == old(students)
      ensures editingStudent == old(editingStudent) && isFormOpen == old(isFormOpen)
    {
      if response.Some? {
        students := response.value;
      }
    }

    /**
     * `handleAddStudent`, given the outcome of the POST: the created
     * student is appended at the end; on failure the list is unchanged.
     */
    method AddStudent(created: Option<Student>)
      modifies this
      ensures created.Some? ==> students == old(students) + [created.value]
      ensures created.None? ==> students == old(students)
      ensures editingStudent == old(editingStudent) && isFormOpen == old(isFormOpen)
    {
      if created.Some? {
        students := students + [created.value];
      }
    }

    /** `openEditForm`: selects the student and opens the form. */
    method OpenEditForm(student: Student)
      modifies this
      ensures editingStudent == Some(student) && isFormOpen
      ensures students == old(students)
    {
      editingStudent := Some(student);
      isFormOpen := true;
    }

    /** `closeForm`: closes the form and drops the selection. */
    method CloseForm()
      modifies this
      ensures editingStudent == None && !isFormOpen
      ensures students == old(students)
    {
      isFormOpen := false;
      editingStudent := None;
    }

    /**
     * `handleEditStudent`: with nothing selected nothing happens; otherwise
     * the selected student's entries take the form's fields and the
     * selection is cleared.
     */
    method EditStudent(data: StudentFields)
      modifies this
      ensures old(editingStudent).None? ==> students == old(students) && editingStudent == None
      ensures old(editingStudent).Some? ==>
        students == EditedList(old(students), old(editingStudent).value.id, data) && editingStudent == None
      ensures isFormOpen == old(isFormOpen)
    {
      if editingStudent.None? {
        return;
      }
      students := EditedList(students, editingStudent.value.id, data);
      editingStudent := None;
    }

    /** `handleDeleteStudent`: when the user confirms, every entry with the id is removed. */
    method DeleteStudent(studentId: int, confirmed: bool)
      modifies this
      ensures confirmed ==> students == WithoutId(old(students), studentId)
      ensures !confirmed ==> students == old(students)
      ensures editingStudent == old(editingStudent) && isFormOpen == old(isFormOpen)
    {
      if confirmed {
        students := WithoutId(students, studentId);
      }
    }
  }
}
