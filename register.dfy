/**
 * `POST /api/auth/register`: validates a sign-up form and inserts the new
 * teacher with a trimmed name, a lower-cased e-mail and a password hash.
 * The checks run in a fixed order and the first one that fails decides the
 * response.
 */
module Register {
  import opened Wrappers
  import opened Text
  import opened JsValues
  import opened Store
  import opened Http
  import Auth

  const AllFieldsRequired := "All fields are required"
  const NameTooShort := "Full name must be at least 2 characters long"
  const InvalidEmail := "Please enter a valid email address"
  const WeakPassword := "Password must be at least 8 characters long and contain at least one letter and one number"
  const PasswordsDiffer := "Passwords do not match"
  const EmailTaken := "A teacher with this email already exists"
  const RegistrationFailed := "Registration failed. Please try again."

  datatype RegisterBody = RegisterBody(fullName: JsValue, email: JsValue, password: JsValue, confirmPassword: JsValue)

  /** What is inserted once every check has passed: the trimmed name, the lower-cased e-mail, the password to hash. */
  datatype Accepted = Accepted(fullName: string, email: string, password: string)

  /**
   * `isValidEmail(email)` on any value. The pattern test reads a value that
   * is not a string through `String()`, and the text of a number, a boolean
   * or an object has no `@`.
   */
  predicate EmailValid(v: JsValue) {
    v.Str? && Auth.IsValidEmail(v.s)
  }

  /**
   * The strength guard as written, `!isValidPassword(password)`: it negates
   * the result object, which is always truthy, so it never fires.
   */
  predicate StrengthGuardAsWritten(password: JsValue) {
    var result := Object;
    !Truthy(result)
  }

  /**
   * The strength guard as intended: it fires when `isValidPassword` reports
   * the password invalid. A value that is not a string never passes that
   * test (its `length` is undefined, and its text lacks an upper-case letter
   * or a digit).
   */
  predicate StrengthGuard(password: JsValue) {
    !password.Str? || !Auth.IsValidPassword(password.s).valid
  }

  /**
   * The handler's checks in order, with `guard` standing for the strength
   * test. `trim()` on a name that is not a string throws, and so does the
   * hashing of a password that is not a string; both end in a 500.
   */
  function Validate(teachers: seq<Teacher>, body: RegisterBody, guard: JsValue -> bool): Result<Accepted, ApiError> {
    if !Truthy(body.fullName) || !Truthy(body.email) || !Truthy(body.password) || !Truthy(body.confirmPassword) then
      Failure(ApiError(BadRequest, AllFieldsRequired))
    else if !body.fullName.Str? then Failure(ApiError(ServerError, RegistrationFailed))
    else if Auth.Utf16Length(Trim(body.fullName.s)) < 2 then Failure(ApiError(BadRequest, NameTooShort))
    else if !EmailValid(body.email) then Failure(ApiError(BadRequest, InvalidEmail))
    else if guard(body.password) then Failure(ApiError(BadRequest, WeakPassword))
    else if !StrictEquals(body.password, body.confirmPassword) then Failure(ApiError(BadRequest, PasswordsDiffer))
    else if FindTeacher(teachers, ToLower(body.email.s)).Some? then Failure(ApiError(Conflict, EmailTaken))
    else if !body.password.Str? then Failure(ApiError(ServerError, RegistrationFailed))
    else Success(Accepted(Trim(body.fullName.s), ToLower(body.email.s), body.password.s))
  }

  /** The checks with the strength guard as intended. */
  function Check(teachers: seq<Teacher>, body: RegisterBody): (r: Result<Accepted, ApiError>)
    ensures r.Success? ==>
      && body.fullName.Str? && r.value.fullName == Trim(body.fullName.s) && Auth.Utf16Length(r.value.fullName) >= 2
      && body.email.Str? && Auth.IsValidEmail(body.email.s) && r.value.email == ToLower(body.email.s)
      && body.password == Str(r.value.password) && body.confirmPassword == body.password
      && Auth.IsValidPassword(r.value.password).valid
      && forall i :: 0 <= i < |teachers| ==> teachers[i].email != r.value.email
    ensures r.Failure? ==> r.error.status in {BadRequest, Conflict, ServerError}
  {
    ValidateOutcome(teachers, body, StrengthGuard);
    Validate(teachers, body, StrengthGuard)
  }

  /**
   * The checks as written, the ones the handler runs: the strength guard
   * never fires, so an accepted password need only be a non-empty string
   * equal to its confirmation.
   */
  function CheckAsWritten(teachers: seq<Teacher>, body: RegisterBody): (r: Result<Accepted, ApiError>)
    ensures r.Success? ==>
      && body.fullName.Str? && r.value.fullName == Trim(body.fullName.s) && Auth.Utf16Length(r.value.fullName) >= 2
      && body.email.Str? && Auth.IsValidEmail(body.email.s) && r.value.email == ToLower(body.email.s)
      && body.password == Str(r.value.password) && r.value.password != [] && body.confirmPassword == body.password
      && forall i :: 0 <= i < |teachers| ==> teachers[i].email != r.value.email
    ensures r.Failure? ==> r.error.status in {BadRequest, Conflict, ServerError}
  {
    ValidateOutcome(teachers, body, StrengthGuardAsWritten);
    Validate(teachers, body, StrengthGuardAsWritten)
  }

  /** What every accepted form satisfies, whichever strength guard runs. */
  lemma ValidateOutcome(teachers: seq<Teacher>, body: RegisterBody, guard: JsValue -> bool)
    ensures var r := Validate(teachers, body, guard);
      && (r.Success? ==>
        && body.fullName.Str? && r.value.fullName == Trim(body.fullName.s) && Auth.Utf16Length(r.value.fullName) >= 2
        && body.email.Str? && Auth.IsValidEmail(body.email.s) && r.value.email == ToLower(body.email.s)
        && body.password == Str(r.value.password) && r.value.password != [] && body.confirmPassword == body.password
        && !guard(body.password)
        && forall i :: 0 <= i < |teachers| ==> teachers[i].email != r.value.email)
      && (r.Failure? ==> r.error.status in {BadRequest, Conflict, ServerError})
  {
    var r := Validate(teachers, body, guard);
    if r.Success? {
      assert FindTeacher(teachers, r.value.email).None?;
    }
  }

  /** The guard as written is the only difference: the two agree except where the intended one rejects a weak password. */
  lemma AsWrittenDiffersOnlyOnStrength(teachers: seq<Teacher>, body: RegisterBody)
    ensures CheckAsWritten(teachers, body) != Check(teachers, body) ==>
      Check(teachers, body) == Failure(ApiError(BadRequest, WeakPassword))
  {
  }

  /** A three-letter password gets through the checks as written but not the intended ones. */
  lemma AsWrittenAcceptsWeakPassword()
    ensures CheckAsWritten([], RegisterBody(Str("Al"), Str("a@b.co"), Str("abc"), Str("abc")))
      == Success(Accepted("Al", "a@b.co", "abc"))
    ensures Check([], RegisterBody(Str("Al"), Str("a@b.co"), Str("abc"), Str("abc")))
      == Failure(ApiError(BadRequest, WeakPassword))
  {
    var body := RegisterBody(Str("Al"), Str("a@b.co"), Str("abc"), Str("abc"));
    SampleFields();
    StringFormWellFormed("Al", "a@b.co", "abc", "abc");
    AsWrittenSkipsStrength([], body);
    RejectsWeakPassword([], body);
  }

  /**
   * As written, a well-formed form with matching passwords and a new
   * e-mail is accepted whatever the password's strength.
   */
  lemma AsWrittenSkipsStrength(teachers: seq<Teacher>, body: RegisterBody)
    requires FormWellFormed(body) && body.password.Str? && StrictEquals(body.password, body.confirmPassword)
    requires FindTeacher(teachers, ToLower(body.email.s)).None?
    ensures CheckAsWritten(teachers, body) == Success(Accepted(Trim(body.fullName.s), ToLower(body.email.s), body.password.s))
  {
    assert !StrengthGuardAsWritten(body.password);
  }

  /** A form of four strings passes the first checks when the trimmed name is long enough and the e-mail valid. */
  lemma StringFormWellFormed(name: string, email: string, password: string, confirmPassword: string)
    requires Auth.Utf16Length(Trim(name)) >= 2 && Auth.IsValidEmail(email)
    requires password != [] && confirmPassword != []
    ensures FormWellFormed(RegisterBody(Str(name), Str(email), Str(password), Str(confirmPassword)))
  {
    assert name != [] by {
      assert |Trim(name)| >= 1;
    }
    assert email != [] by {
      assert '@' in email;
    }
  }

  /** The sample form's fields: a two-letter name, a valid e-mail already in lower case and a three-letter password. */
  lemma SampleFields()
    ensures Trim("Al") == "Al" && Auth.Utf16Length("Al") == 2
    ensures Auth.IsValidEmail("a@b.co")
    ensures Auth.Utf16Length("abc") == 3
    ensures ToLower("a@b.co") == "a@b.co"
  {
    SampleName();
    SampleEmail();
    SampleLower();
    SamplePassword();
  }

  lemma SamplePassword()
    ensures Auth.Utf16Length("abc") == 3
  {
    assert "abc"[1..] == "bc" && "bc"[1..] == "c";
  }

  lemma SampleName()
    ensures Trim("Al") == "Al" && Auth.Utf16Length("Al") == 2
  {
    assert !IsJsWhitespace('A') && !IsJsWhitespace('l');
    assert LeadingSpace("Al") == 0;
    assert "Al"[0..] == "Al";
    assert TrailingSpace("Al") == 0;
    assert "Al"[1..] == "l";
  }

  lemma SampleEmail()
    ensures Auth.IsValidEmail("a@b.co")
  {
    var email := "a@b.co";
    assert email[1] == '@' && email[0] != '@';
    assert IndexOf(email, '@') == 1;
    assert email[2..] == "b.co" && email[3..5] == ".c";
  }

  lemma SampleLower()
    ensures ToLower("a@b.co") == "a@b.co"
  {
    var email := "a@b.co";
    var lower := ToLower(email);
    assert forall i :: 0 <= i < |email| ==> lower[i] == email[i];
  }

  /** A weak password in a form that passes the earlier checks is refused with the strength message. */
  lemma RejectsWeakPassword(teachers: seq<Teacher>, body: RegisterBody)
    requires FormWellFormed(body) && StrengthGuard(body.password)
    ensures Check(teachers, body) == Failure(ApiError(BadRequest, WeakPassword))
  {
  }

  /** The first failing check decides: a missing field wins over every later problem. */
  lemma MissingFieldFirst(teachers: seq<Teacher>, body: RegisterBody)
    requires !Truthy(body.fullName) || !Truthy(body.email) || !Truthy(body.password) || !Truthy(body.confirmPassword)
    ensures Check(teachers, body) == Failure(ApiError(BadRequest, AllFieldsRequired))
    ensures CheckAsWritten(teachers, body) == Failure(ApiError(BadRequest, AllFieldsRequired))
  {
  }

  /** After a successful registration, looking up its lower-cased e-mail finds the new teacher. */
  lemma RegisteredIsFound(teachers: seq<Teacher>, body: RegisterBody, t: Teacher)
    requires CheckAsWritten(teachers, body).Success? && t.email == CheckAsWritten(teachers, body).value.email
    ensures FindTeacher(teachers + [t], t.email) == Some(t)
  {
    var all := teachers + [t];
    assert all[|teachers|] == t;
    var found := FindTeacher(all, t.email);
    var i :| 0 <= i < |all| && all[i] == found.value;
    assert i == |teachers|;
  }

  /**
   * Registering again with the same e-mail in any letter case, once the
   * first registration is stored, is refused with 409.
   */
  lemma SecondRegistrationConflicts(teachers: seq<Teacher>, body: RegisterBody, t: Teacher, email: string)
    requires CheckAsWritten(teachers, body).Success? && t.email == CheckAsWritten(teachers, body).value.email
    requires Auth.IsValidEmail(email) && ToLower(email) == t.email
    ensures CheckAsWritten(teachers + [t], body.(email := Str(email))) == Failure(ApiError(Conflict, EmailTaken))
  {
    RegisteredIsFound(teachers, body, t);
    AcceptedFields(teachers, body);
    FieldsWithEmail(body, email);
    ConflictOnTakenEmail(teachers + [t], body.(email := Str(email)));
  }

  /** An accepted form passes every check before the lookup. */
  lemma AcceptedFields(teachers: seq<Teacher>, body: RegisterBody)
    requires CheckAsWritten(teachers, body).Success?
    ensures FieldsAccepted(body)
  {
  }

  /** Replacing the e-mail by another valid one keeps those checks passing. */
  lemma FieldsWithEmail(body: RegisterBody, email: string)
    requires FieldsAccepted(body) && Auth.IsValidEmail(email)
    ensures FieldsAccepted(body.(email := Str(email)))
  {
    assert email != [] by {
      assert '@' in email;
    }
  }

  /** The checks before the strength guard pass: every field present, a long enough name, a valid e-mail. */
  predicate FormWellFormed(body: RegisterBody) {
    && Truthy(body.fullName) && Truthy(body.email) && Truthy(body.password) && Truthy(body.confirmPassword)
    && body.fullName.Str? && Auth.Utf16Length(Trim(body.fullName.s)) >= 2
    && EmailValid(body.email)
  }

  /** Every check before the e-mail lookup passes, as written (so with no strength test). */
  predicate FieldsAccepted(body: RegisterBody) {
    FormWellFormed(body) && StrictEquals(body.password, body.confirmPassword)
  }

  /**
   * A well-formed form whose lower-cased e-mail is already stored is refused
   * with 409, and so it is by the intended checks when the password is strong.
   */
  lemma ConflictOnTakenEmail(teachers: seq<Teacher>, body: RegisterBody)
    requires FieldsAccepted(body) && FindTeacher(teachers, ToLower(body.email.s)).Some?
    ensures CheckAsWritten(teachers, body) == Failure(ApiError(Conflict, EmailTaken))
    ensures !StrengthGuard(body.password) ==> Check(teachers, body) == Failure(ApiError(Conflict, EmailTaken))
  {
  }

  /**
   * The handler: the checks as written, then the insert. On any failure the teachers
   * table is unchanged; on success it gains exactly the new teacher.
   */
  method PostRegister(db: Database, body: RegisterBody, hash: string -> string) returns (r: Result<Teacher, ApiError>)
    requires db.Valid()
    modifies db
    ensures db.Valid()
    ensures db.students == old(db.students) && db.attendance == old(db.attendance)
    ensures CheckAsWritten(old(db.teachers), body).Failure? ==>
      r == Failure(CheckAsWritten(old(db.teachers), body).error) && db.teachers == old(db.teachers)
    ensures CheckAsWritten(old(db.teachers), body).Success? ==>
      && var a := CheckAsWritten(old(db.teachers), body).value;
      && r == Success(Teacher(old(db.nextTeacherId), a.fullName, a.email, hash(a.password)))
      && db.teachers == old(db.teachers) + [r.value]
  {
    var checked := CheckAsWritten(db.teachers, body);
    if checked.Failure? {
      return Failure(checked.error);
    }
    var a := checked.value;
    var t := db.InsertTeacher(a.fullName, a.email, hash(a.password));
    r := Success(t);
  }
}
