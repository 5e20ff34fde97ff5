/**
 * `POST /api/auth/login`: looks the teacher up by lower-cased e-mail,
 * compares the password against the stored hash, and on success returns a
 * fresh token that is also set as the `token` cookie for seven days.
 */
module Login {
  import opened Wrappers
  import opened Text
  import opened JsValues
  import opened Store
  import opened Http
  import Auth
  import Register

  const CredentialsRequired := "Email and password are required"
  const InvalidEmail := "Please enter a valid email address"
  const InvalidCredentials := "Invalid email or password"
  const LoginFailed := "Login failed. Please try again."

  /** The cookie's `maxAge`, in seconds. */
  const CookieMaxAge: int := 7 * 24 * 60 * 60

  datatype LoginBody = LoginBody(email: JsValue, password: JsValue)

  /** The successful response: the token, the teacher it was issued for, and the cookie's lifetime. */
  datatype LoginSuccess = LoginSuccess(token: string, teacher: Teacher, cookieMaxAge: int)

  /** The payload handed to token generation for a teacher. */
  function TokenInputFor(t: Teacher): Auth.TokenInput {
    Auth.TokenInput(Num(t.id), Num(t.id), Str(t.email), Str(t.fullName), Str("teacher"))
  }

  /**
   * The handler on a teachers table. `passwordMatches` stands for the hash
   * comparison, `prims` for the token primitives and `now` for the clock.
   * Comparing a password that is not a string throws, and so does encoding
   * a signature whose bytes are not a binary string; both end in a 500.
   */
  function Login(teachers: seq<Teacher>, body: LoginBody, passwordMatches: (string, string) -> bool,
                 prims: Auth.Primitives, now: int): (r: Result<LoginSuccess, ApiError>)
    ensures r.Success? ==>
      && body.email.Str? && body.password.Str?
      && r.value.teacher in teachers && r.value.teacher.email == ToLower(body.email.s)
      && passwordMatches(body.password.s, r.value.teacher.passwordHash)
      && Some(r.value.token) == Auth.GenerateToken(prims, TokenInputFor(r.value.teacher), now)
      && r.value.cookieMaxAge == Auth.TokenLifetime
    ensures !Truthy(body.email) || !Truthy(body.password) ==> r == Failure(ApiError(BadRequest, CredentialsRequired))
    ensures Truthy(body.email) && Truthy(body.password) && !Register.EmailValid(body.email) ==>
      r == Failure(ApiError(BadRequest, InvalidEmail))
    ensures r.Failure? ==> r.error.status in {BadRequest, Unauthorized, ServerError}
  {
    if !Truthy(body.email) || !Truthy(body.password) then Failure(ApiError(BadRequest, CredentialsRequired))
    else if !Register.EmailValid(body.email) then Failure(ApiError(BadRequest, InvalidEmail))
    else match FindTeacher(teachers, ToLower(body.email.s))
      case None => Failure(ApiError(Unauthorized, InvalidCredentials))
      case Some(t) =>
        if !body.password.Str? then Failure(ApiError(ServerError, LoginFailed))
        else if !passwordMatches(body.password.s, t.passwordHash) then Failure(ApiError(Unauthorized, InvalidCredentials))
        else match Auth.GenerateToken(prims, TokenInputFor(t), now)
          case None => Failure(ApiError(ServerError, LoginFailed))
          case Some(token) => Success(LoginSuccess(token, t, CookieMaxAge))
  }

  /**
   * An unknown e-mail and a wrong password get the same answer, so the
   * response does not reveal which accounts exist.
   */
  lemma IdenticalFailures(teachers: seq<Teacher>, body: LoginBody, passwordMatches: (string, string) -> bool,
                          prims: Auth.Primitives, now: int)
    requires Register.EmailValid(body.email) && body.password.Str? && body.password.s != ""
    requires var found := FindTeacher(teachers, ToLower(body.email.s));
      found.None? || !passwordMatches(body.password.s, found.value.passwordHash)
    ensures Login(teachers, body, passwordMatches, prims, now) == Failure(ApiError(Unauthorized, InvalidCredentials))
  {
    assert body.email.s != [] by {
      assert '@' in body.email.s;
    }
  }

  /**
   * A token from a successful login verifies until it expires (when the
   * JSON primitives read back what they wrote) and names the teacher's id,
   * unless its payload text has a length divisible by 3, when the written
   * decode rejects it at once; the cookie lives exactly as long as the token.
   */
  lemma LoginTokenVerifies(teachers: seq<Teacher>, body: LoginBody, passwordMatches: (string, string) -> bool,
                           prims: Auth.Primitives, issued: int, now: int)
    requires Login(teachers, body, passwordMatches, prims, issued).Success?
    requires var t := Login(teachers, body, passwordMatches, prims, issued).value.teacher;
      var claims := Auth.TokenClaims(TokenInputFor(t), issued);
      prims.parse(prims.stringify(claims)) == Some(claims)
    ensures var s := Login(teachers, body, passwordMatches, prims, issued).value;
      var v := Auth.VerifyTokenAsWritten(prims, s.token, now);
      var json := prims.stringify(Auth.TokenClaims(TokenInputFor(s.teacher), issued));
      && (v.Success? <==> |json| % 3 != 0 && (issued + s.cookieMaxAge == 0 || now <= issued + s.cookieMaxAge))
      && (v.Success? ==> v.value.userId == Num(s.teacher.id) && v.value.exp == Num(issued + s.cookieMaxAge))
  {
    var s := Login(teachers, body, passwordMatches, prims, issued).value;
    IssuedTokenVerifies(prims, s.teacher, s.token, issued, now);
  }

  /** The token issued for a teacher at `issued`: its verification window and the claims it carries. */
  lemma IssuedTokenVerifies(prims: Auth.Primitives, t: Teacher, token: string, issued: int, now: int)
    requires Some(token) == Auth.GenerateToken(prims, TokenInputFor(t), issued)
    requires var claims := Auth.TokenClaims(TokenInputFor(t), issued);
      prims.parse(prims.stringify(claims)) == Some(claims)
    ensures var v := Auth.VerifyTokenAsWritten(prims, token, now);
      var json := prims.stringify(Auth.TokenClaims(TokenInputFor(t), issued));
      && (v.Success? <==> |json| % 3 != 0 && (issued + CookieMaxAge == 0 || now <= issued + CookieMaxAge))
      && (v.Success? ==> v.value.userId == Num(t.id) && v.value.exp == Num(issued + CookieMaxAge))
  {
    Auth.GeneratedTokenVerifiesAsWritten(prims, TokenInputFor(t), issued, now);
  }

  /**
   * A teacher who has just registered can sign in with the same e-mail and
   * password, provided the hash comparison accepts a password against its
   * own hash and the token primitives work.
   */
  lemma RegisterThenLogin(teachers: seq<Teacher>, reg: Register.RegisterBody, t: Teacher,
                          hash: string -> string, passwordMatches: (string, string) -> bool,
                          prims: Auth.Primitives, now: int)
    requires Register.CheckAsWritten(teachers, reg).Success?
    requires var a := Register.CheckAsWritten(teachers, reg).value;
      t.fullName == a.fullName && t.email == a.email && t.passwordHash == hash(a.password)
    requires forall p :: passwordMatches(p, hash(p))
    requires Auth.GenerateToken(prims, TokenInputFor(t), now).Some?
    ensures Login(teachers + [t], LoginBody(reg.email, reg.password), passwordMatches, prims, now)
      == Success(LoginSuccess(Auth.GenerateToken(prims, TokenInputFor(t), now).value, t, CookieMaxAge))
  {
    Register.RegisteredIsFound(teachers, reg, t);
    assert reg.email.s != [] by {
      assert '@' in reg.email.s;
    }
    var a := Register.CheckAsWritten(teachers, reg).value;
    assert passwordMatches(a.password, hash(a.password));
  }
}
