/**
 * `GET /api/students` and `POST /api/students`: the roster, optionally
 * narrowed to one grade and to names matching a search term, ordered by
 * name; and the creation of a student from a form with trimmed fields.
 */
module StudentsApi {
  import opened Wrappers
  import opened Text
  import opened JsValues
  import opened Store
  import opened Http

  const FetchFailed := "Failed to fetch students"
  const NameAndGradeRequired := "Name and grade are required"
  const CreateFailed := "Failed to create student"

  // ---------------------------------------------------------------- name patterns

  /**
   * SQL `LIKE`: `%` matches any run of characters, `_` any one character,
   * and a backslash makes the next character literal.
   */
  predicate LikeMatch(s: string, pattern: string)
    decreases |pattern|, |s|
  {
    if pattern == [] then s == []
    else if pattern[0] == '%' then LikeMatch(s, pattern[1..]) || (s != [] && LikeMatch(s[1..], pattern))
    else if pattern[0] == '\\' && |pattern| >= 2 then s != [] && s[0] == pattern[1] && LikeMatch(s[1..], pattern[2..])
    else if pattern[0] == '_' then s != [] && LikeMatch(s[1..], pattern[1..])
    else s != [] && s[0] == pattern[0] && LikeMatch(s[1..], pattern[1..])
  }

  /** `name ILIKE pattern`: `LIKE` after lower-casing both sides. */
  predicate ILike(name: string, pattern: string) {
    LikeMatch(ToLower(name), ToLower(pattern))
  }

  /** Text in which no character has a special meaning to `LIKE`. */
  predicate IsPlainText(t: string) {
    forall k :: 0 <= k < |t| ==> t[k] != '%' && t[k] != '_' && t[k] != '\\'
  }

  /** `%` alone matches every string. */
  lemma {:induction false} PercentMatchesAll(s: string)
    ensures LikeMatch(s, "%")
    decreases |s|
  {
    if s != [] {
      PercentMatchesAll(s[1..]);
    } else {
      assert "%"[1..] == [];
    }
  }

  /** A plain text followed by `%` matches exactly the strings that start with it. */
  lemma {:induction false} PrefixPattern(s: string, t: string)
    requires IsPlainText(t)
    ensures LikeMatch(s, t + "%") <==> StartsWith(s, t)
    decreases |t|
  {
    if t == [] {
      PercentMatchesAll(s);
      assert t + "%" == "%";
      assert StartsWith(s, t);
    } else {
      var p := t + "%";
      assert p[0] == t[0] && p[1..] == t[1..] + "%";
      if s != [] {
        PrefixPattern(s[1..], t[1..]);
        if StartsWith(s, t) {
          assert s[1..][..|t| - 1] == s[..|t|][1..];
        }
        if StartsWith(s[1..], t[1..]) && s[0] == t[0] {
          assert s[..|t|] == [s[0]] + s[1..][..|t| - 1];
        }
      }
    }
  }

  /** A leading `%` lets the rest of the pattern match any suffix. */
  lemma {:induction false} LeadingPercent(s: string, q: string)
    ensures LikeMatch(s, "%" + q) <==> exists k :: 0 <= k <= |s| && LikeMatch(s[k..], q)
    decreases |s|
  {
    var p := "%" + q;
    assert p[0] == '%' && p[1..] == q;
    assert s[0..] == s;
    if s != [] {
      LeadingPercent(s[1..], q);
      if exists k :: 0 <= k <= |s[1..]| && LikeMatch(s[1..][k..], q) {
        var k :| 0 <= k <= |s[1..]| && LikeMatch(s[1..][k..], q);
        assert s[1..][k..] == s[k + 1..];
      }
      if exists k :: 0 <= k <= |s| && LikeMatch(s[k..], q) {
        var k :| 0 <= k <= |s| && LikeMatch(s[k..], q);
        if k > 0 {
          assert s[1..][k - 1..] == s[k..];
        }
      }
    }
  }

  /** `%t%` with a plain `t` matches exactly the strings that contain `t`. */
  lemma ContainsPattern(s: string, t: string)
    requires IsPlainText(t)
    ensures LikeMatch(s, "%" + t + "%") <==> Contains(s, t)
  {
    assert "%" + t + "%" == "%" + (t + "%");
    LeadingPercent(s, t + "%");
    ContainsIffOccurs(s, t);
    if Contains(s, t) {
      var i :| OccursAt(s, t, i);
      assert s[i..][..|t|] == s[i..i + |t|];
      PrefixPattern(s[i..], t);
    }
    if exists k :: 0 <= k <= |s| && LikeMatch(s[k..], t + "%") {
      var k :| 0 <= k <= |s| && LikeMatch(s[k..], t + "%");
      PrefixPattern(s[k..], t);
      assert s[k..][..|t|] == s[k..k + |t|];
      assert OccursAt(s, t, k);
    }
  }

  /** Lower-casing touches only A..Z, so it keeps text plain and distributes over concatenation. */
  lemma LowerPattern(t: string)
    requires IsPlainText(t)
    ensures ToLower("%" + t + "%") == "%" + ToLower(t) + "%"
    ensures IsPlainText(ToLower(t))
  {
    var p := "%" + t + "%";
    var q := "%" + ToLower(t) + "%";
    assert forall k :: 0 <= k < |p| ==> ToLower(p)[k] == q[k] by {
      forall k | 0 <= k < |p|
        ensures ToLower(p)[k] == q[k]
      {
        if 1 <= k <= |t| {
          assert p[k] == t[k - 1];
        }
      }
    }
  }

  /**
   * For a search term without `%`, `_` or backslash, the name filter is a
   * case-insensitive substring test.
   */
  lemma PlainSearchIsSubstring(name: string, term: string)
    requires IsPlainText(term)
    ensures ILike(name, "%" + term + "%") <==> Contains(ToLower(name), ToLower(term))
  {
    LowerPattern(term);
    ContainsPattern(ToLower(name), ToLower(term));
  }

  /** The search text is used as a pattern: `_` matches any one character. */
  lemma UnderscoreMatchesAnyName()
    ensures ILike("Bob", "%" + "_" + "%")
    ensures !ILike("", "%" + "_" + "%")
  {
    var p := "%" + "_" + "%";
    assert ToLower(p) == p by {
      assert forall k :: 0 <= k < |p| ==> ToLower(p)[k] == p[k];
    }
    var s := ToLower("Bob");
    assert p[1..] == "_%" && "_%"[1..] == "%";
    PercentMatchesAll(s[1..]);
    assert LikeMatch(s, "_%");
    assert ToLower("") == "";
    assert !LikeMatch("", "_%");
    assert !LikeMatch("", p);
  }

  // ---------------------------------------------------------------- GET

  /** `search && search.trim()`: the trimmed term when it is not blank. */
  function SearchTerm(search: Option<string>): (t: Option<string>)
    ensures t.Some? <==> search.Some? && Trim(search.value) != ""
    ensures t.Some? ==> t.value == Trim(search.value)
  {
    if search.Some? && Trim(search.value) != "" then Some(Trim(search.value)) else None
  }

  /** The students of `students`, in order, that satisfy `keep`. */
  function Where(students: seq<Student>, keep: Student -> bool): (r: seq<Student>)
    ensures |r| <= |students|
    decreases |students|
  {
    if students == [] then []
    else (if keep(students[0]) then [students[0]] else []) + Where(students[1..], keep)
  }

  /** A student is kept exactly when it is in the input and passes the test. */
  lemma {:induction false} WhereMembers(students: seq<Student>, keep: Student -> bool)
    ensures forall x :: x in Where(students, keep) <==> x in students && keep(x)
    decreases |students|
  {
    if students != [] {
      WhereMembers(students[1..], keep);
      assert students == [students[0]] + students[1..];
    }
  }

  /** Each kept student appears as often as in the input, each other one not at all. */
  lemma {:induction false} WhereCounts(students: seq<Student>, keep: Student -> bool)
    ensures forall x :: keep(x) ==> multiset(Where(students, keep))[x] == multiset(students)[x]
    ensures forall x :: !keep(x) ==> multiset(Where(students, keep))[x] == 0
    decreases |students|
  {
    if students != [] {
      WhereCounts(students[1..], keep);
      assert students == [students[0]] + students[1..];
      assert multiset(students) == multiset{students[0]} + multiset(students[1..]);
    }
  }

  /** Filtering keeps the order: the filter of a concatenation is the concatenation of the filters. */
  lemma {:induction false} WhereAppend(a: seq<Student>, b: seq<Student>, keep: Student -> bool)
    ensures Where(a + b, keep) == Where(a, keep) + Where(b, keep)
    decreases |a|
  {
    if a == [] {
      assert a + b == b;
    } else {
      WhereAppend(a[1..], b, keep);
      var ab := a + b;
      assert ab[0] == a[0] && ab[1..] == a[1..] + b;
      var head: seq<Student> := if keep(a[0]) then [a[0]] else [];
      assert Where(ab, keep) == head + (Where(a[1..], keep) + Where(b, keep));
      assert Where(a, keep) == head + Where(a[1..], keep);
      assert head + (Where(a[1..], keep) + Where(b, keep)) == (head + Where(a[1..], keep)) + Where(b, keep);
    }
  }

  /** A filter that keeps every element returns the sequence itself. */
  lemma {:induction false} WhereAll(students: seq<Student>, keep: Student -> bool)
    requires forall i :: 0 <= i < |students| ==> keep(students[i])
    ensures Where(students, keep) == students
    decreases |students|
  {
    if students != [] {
      WhereAll(students[1..], keep);
      assert students == [students[0]] + students[1..];
    }
  }

  /** Filtering twice by the same test is filtering once. */
  lemma {:induction false} WhereIdempotent(students: seq<Student>, keep: Student -> bool)
    ensures Where(Where(students, keep), keep) == Where(students, keep)
  {
    var r := Where(students, keep);
    WhereMembers(students, keep);
    forall i | 0 <= i < |r|
      ensures keep(r[i])
    {
      assert r[i] in r;
    }
    WhereAll(r, keep);
  }

  /** The four queries of the handler, chosen as the handler chooses them. */
  function Select(students: seq<Student>, grade: Option<string>, search: Option<string>): seq<Student> {
    var g := GradeFilter(grade);
    var t := SearchTerm(search);
    if g.Some? && t.Some? then Where(students, (s: Student) => s.grade == g.value && ILike(s.name, "%" + t.value + "%"))
    else if g.Some? then Where(students, (s: Student) => s.grade == g.value)
    else if t.Some? then Where(students, (s: Student) => ILike(s.name, "%" + t.value + "%"))
    else students
  }

  /** A student is listed when it passes every filter in force. */
  predicate Listed(s: Student, grade: Option<string>, search: Option<string>) {
    && (GradeFilter(grade).Some? ==> s.grade == GradeFilter(grade).value)
    && (SearchTerm(search).Some? ==> ILike(s.name, "%" + SearchTerm(search).value + "%"))
  }

  /** Code-point order on names, shorter first when one is a prefix of the other. */
  predicate NameLe(a: string, b: string)
    decreases |a|
  {
    a == [] || (b != [] && (a[0] < b[0] || (a[0] == b[0] && NameLe(a[1..], b[1..]))))
  }

  lemma {:induction false} NameLeTotal(a: string, b: string)
    ensures NameLe(a, b) || NameLe(b, a)
    decreases |a|
  {
    if a != [] && b != [] && a[0] == b[0] {
      NameLeTotal(a[1..], b[1..]);
    }
  }

  lemma {:induction false} NameLeTransitive(a: string, b: string, c: string)
    requires NameLe(a, b) && NameLe(b, c)
    ensures NameLe(a, c)
    decreases |a|
  {
    if a != [] && a[0] == b[0] && b[0] == c[0] {
      NameLeTransitive(a[1..], b[1..], c[1..]);
    }
  }

  predicate SortedByName(xs: seq<Student>) {
    forall i, j :: 0 <= i < j < |xs| ==> NameLe(xs[i].name, xs[j].name)
  }

  /** One step of the ordering: `x` placed before the first name it does not follow. */
  function InsertByName(x: Student, sorted: seq<Student>): (r: seq<Student>)
    requires SortedByName(sorted)
    ensures SortedByName(r)
    ensures multiset(r) == multiset(sorted) + multiset{x}
    decreases |sorted|
  {
    if sorted == [] then [x]
    else if NameLe(x.name, sorted[0].name) then
      PrependSorted(x, sorted);
      [x] + sorted
    else
      var rest := InsertByName(x, sorted[1..]);
      HeadBeforeRest(x, sorted, rest);
      [sorted[0]] + rest
  }

  /** A name no later than the first of a sorted list can go in front of it. */
  lemma PrependSorted(x: Student, sorted: seq<Student>)
    requires SortedByName(sorted) && sorted != [] && NameLe(x.name, sorted[0].name)
    ensures SortedByName([x] + sorted)
  {
    forall j | 0 <= j < |sorted|
      ensures NameLe(x.name, sorted[j].name)
    {
      if j > 0 {
        NameLeTransitive(x.name, sorted[0].name, sorted[j].name);
      }
    }
    var r := [x] + sorted;
    forall i, j | 0 <= i < j < |r|
      ensures NameLe(r[i].name, r[j].name)
    {
      assert r[j] == sorted[j - 1];
      if i > 0 {
        assert r[i] == sorted[i - 1];
      }
    }
  }

  /** When `x` goes after the head, the head stays first and the rest holds `x`. */
  lemma HeadBeforeRest(x: Student, sorted: seq<Student>, rest: seq<Student>)
    requires SortedByName(sorted) && sorted != [] && !NameLe(x.name, sorted[0].name)
    requires SortedByName(rest) && multiset(rest) == multiset(sorted[1..]) + multiset{x}
    ensures SortedByName([sorted[0]] + rest)
    ensures multiset([sorted[0]] + rest) == multiset(sorted) + multiset{x}
  {
    var head := sorted[0];
    assert sorted == [head] + sorted[1..];
    NameLeTotal(x.name, head.name);
    forall j | 0 <= j < |rest|
      ensures NameLe(head.name, rest[j].name)
    {
      assert rest[j] in multiset(rest);
      if rest[j] != x {
        assert rest[j] in multiset(sorted[1..]);
        var k :| 0 <= k < |sorted[1..]| && sorted[1..][k] == rest[j];
        assert sorted[k + 1] == rest[j];
      }
    }
    var r := [head] + rest;
    forall i, j | 0 <= i < j < |r|
      ensures NameLe(r[i].name, r[j].name)
    {
      assert r[j] == rest[j - 1];
      if i > 0 {
        assert r[i] == rest[i - 1];
      }
    }
  }

  /** `ORDER BY name ASC`, by insertion. */
  function SortByName(xs: seq<Student>): (r: seq<Student>)
    ensures SortedByName(r)
    ensures multiset(r) == multiset(xs)
    decreases |xs|
  {
    if xs == [] then []
    else
      assert xs == xs[..|xs| - 1] + [xs[|xs| - 1]];
      InsertByName(xs[|xs| - 1], SortByName(xs[..|xs| - 1]))
  }

  /** The response data of `GET /api/students`. */
  function Get(students: seq<Student>, grade: Option<string>, search: Option<string>): seq<Student> {
    SortByName(Select(students, grade, search))
  }

  /**
   * The four branches amount to one rule: a student is returned exactly
   * when it passes every filter in force (as often as it is stored), and
   * the list is ordered by name.
   */
  lemma GetMeaning(students: seq<Student>, grade: Option<string>, search: Option<string>)
    ensures SortedByName(Get(students, grade, search))
    ensures forall x :: Listed(x, grade, search) ==> multiset(Get(students, grade, search))[x] == multiset(students)[x]
    ensures forall x :: !Listed(x, grade, search) ==> multiset(Get(students, grade, search))[x] == 0
    ensures forall x :: x in Get(students, grade, search) <==> x in students && Listed(x, grade, search)
  {
    var selected := Select(students, grade, search);
    SelectMeaning(students, grade, search);
    var r := Get(students, grade, search);
    assert multiset(r) == multiset(selected);
    forall x
      ensures x in r <==> x in students && Listed(x, grade, search)
    {
      assert x in r <==> x in multiset(r);
      assert x in students <==> x in multiset(students);
    }
  }

  /** Each branch's query keeps exactly the students that pass the filters in force. */
  lemma SelectMeaning(students: seq<Student>, grade: Option<string>, search: Option<string>)
    ensures forall x :: Listed(x, grade, search) ==> multiset(Select(students, grade, search))[x] == multiset(students)[x]
    ensures forall x :: !Listed(x, grade, search) ==> multiset(Select(students, grade, search))[x] == 0
  {
    var g := GradeFilter(grade);
    var t := SearchTerm(search);
    var keep: Student -> bool;
    if g.Some? && t.Some? {
      keep := (s: Student) => s.grade == g.value && ILike(s.name, "%" + t.value + "%");
    } else if g.Some? {
      keep := (s: Student) => s.grade == g.value;
    } else if t.Some? {
      keep := (s: Student) => ILike(s.name, "%" + t.value + "%");
    } else {
      keep := (s: Student) => true;
      WhereAll(students, keep);
    }
    assert Select(students, grade, search) == Where(students, keep);
    WhereCounts(students, keep);
    assert forall x :: keep(x) <==> Listed(x, grade, search);
  }

  /** Without a grade (or with `all`) and without a non-blank search, the whole roster comes back. */
  lemma NoFilterListsAll(students: seq<Student>, grade: Option<string>, search: Option<string>)
    requires grade.None? || grade.value == "" || grade.value == "all"
    requires search.None? || Trim(search.value) == ""
    ensures multiset(Get(students, grade, search)) == multiset(students)
  {
  }

  // ---------------------------------------------------------------- POST

  /** The JSON body of a create request. */
  datatype StudentBody = StudentBody(name: JsValue, grade: JsValue, address: JsValue, contact: JsValue)

  /**
   * `value?.trim() || null`: a missing value is null, a string is trimmed
   * and becomes null when nothing is left; any other value has no `trim`
   * and the call throws (None).
   */
  function OptionalText(v: JsValue): (r: Option<Option<string>>)
    ensures r == Some(None) <==> v.Undefined? || v.Null? || (v.Str? && Trim(v.s) == "")
    ensures r.Some? && r.value.Some? <==> v.Str? && Trim(v.s) != ""
    ensures r.Some? && r.value.Some? ==> r.value.value == Trim(v.s)
  {
    match v
    case Undefined => Some(None)
    case Null => Some(None)
    case Str(s) => if Trim(s) == "" then Some(None) else Some(Some(Trim(s)))
    case _ => None
  }

  /** The row the insert writes, before the id is assigned, or the error response. */
  datatype NewStudent = NewStudent(name: string, grade: string, address: Option<string>, contact: Option<string>)

  /**
   * The checks before the insert: a missing name or grade is a 400; a name
   * or grade that is not a string, or an address or contact that is neither
   * missing, null nor a string, makes `trim` throw (500). Every other body
   * is created.
   */
  function CheckCreate(body: StudentBody): (r: Result<NewStudent, ApiError>)
    ensures !Truthy(body.name) || !Truthy(body.grade) ==> r == Failure(ApiError(BadRequest, NameAndGradeRequired))
    ensures r.Failure? ==> r.error in {ApiError(BadRequest, NameAndGradeRequired), ApiError(ServerError, CreateFailed)}
    ensures r.Success? ==>
      && body.name.Str? && body.grade.Str?
      && r.value.name == Trim(body.name.s) && r.value.grade == Trim(body.grade.s)
      && Some(r.value.address) == OptionalText(body.address)
      && Some(r.value.contact) == OptionalText(body.contact)
    ensures r.Success? <==>
      && Truthy(body.name) && Truthy(body.grade) && body.name.Str? && body.grade.Str?
      && (body.address.Undefined? || body.address.Null? || body.address.Str?)
      && (body.contact.Undefined? || body.contact.Null? || body.contact.Str?)
  {
    if !Truthy(body.name) || !Truthy(body.grade) then Failure(ApiError(BadRequest, NameAndGradeRequired))
    else if !body.name.Str? || !body.grade.Str? then Failure(ApiError(ServerError, CreateFailed))
    else match (OptionalText(body.address), OptionalText(body.contact))
      case (Some(address), Some(contact)) =>
        Success(NewStudent(Trim(body.name.s), Trim(body.grade.s), address, contact))
      case _ => Failure(ApiError(ServerError, CreateFailed))
  }

  /**
   * A name or grade that is only white space passes the required-field
   * check (the check looks at the untrimmed text) and is stored empty.
   */
  lemma BlankNameIsStored()
    ensures CheckCreate(StudentBody(Str(" "), Str("5"), Undefined, Str("")))
      == Success(NewStudent("", "5", None, None))
  {
    assert IsJsWhitespace(' ');
    assert Trim(" ") == "";
    assert Trim("5") == "5" by {
      assert !IsJsWhitespace('5');
      assert LeadingSpace("5") == 0 && "5"[0..] == "5" && TrailingSpace("5") == 0;
    }
    assert Trim("") == "";
  }

  /**
   * The handler: the checks, then the insert. A rejected body writes
   * nothing; an accepted one appends exactly one new student.
   */
  method Post(db: Database, body: StudentBody) returns (r: Result<Student, ApiError>)
    requires db.Valid()
    modifies db
    ensures db.Valid()
    ensures db.attendance == old(db.attendance) && db.teachers == old(db.teachers)
    ensures CheckCreate(body).Failure? ==> r == Failure(CheckCreate(body).error) && db.students == old(db.students)
    ensures CheckCreate(body).Success? ==>
      && var n := CheckCreate(body).value;
      && r == Success(Student(old(db.nextStudentId), n.name, n.grade, n.address, n.contact))
      && !HasStudent(old(db.students), r.value.id)
      && db.students == old(db.students) + [r.value]
  {
    var checked := CheckCreate(body);
    if checked.Failure? {
      return Failure(checked.error);
    }
    var n := checked.value;
    var s := db.InsertStudent(n.name, n.grade, n.address, n.contact);
    r := Success(s);
  }
}
