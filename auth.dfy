/**
 * The authentication library: a JSON Web Token in the compact form of
 * section 7.1 of RFC 7515 (header, payload and HMAC-SHA-256 signature, each
 * base64url-encoded, joined by dots) with a seven-day `exp` claim (section
 * 4.1.4 of RFC 7519), and the e-mail and password checks used at sign-up.
 *
 * JSON text, HMAC and the clock are parameters: `Primitives` carries
 * `JSON.stringify` of a payload, `JSON.parse` of a decoded payload and the
 * HMAC of a string under the server's secret, and every operation takes the
 * current time in seconds.
 */
module Auth {
  import opened Wrappers
  import opened Text
  import opened JsValues
  import opened Base64

  // ---------------------------------------------------------------- tokens

  /** The token payload; `userType` is the `type` claim. */
  datatype Claims = Claims(userId: JsValue, id: JsValue, email: JsValue, fullName: JsValue,
                           userType: JsValue, iat: JsValue, exp: JsValue)

  /** What the caller passes to `generateToken`. */
  datatype TokenInput = TokenInput(userId: JsValue, id: JsValue, email: JsValue, fullName: JsValue, userType: JsValue)

  /**
   * `stringify` is `JSON.stringify` of a payload; `parse` is `JSON.parse` of
   * decoded text, None when it throws or the result has no properties to
   * read; `mac` is the HMAC-SHA-256 of a string under the secret, as the
   * string of its byte values.
   */
  datatype Primitives = Primitives(stringify: Claims -> string, parse: string -> Option<Claims>, mac: string -> string)

  datatype TokenError = Malformed | BadSignature | Undecodable | Expired

  /** Seven days in seconds. */
  const TokenLifetime: int := 7 * 24 * 60 * 60

  /** `JSON.stringify({ alg: 'HS256', typ: 'JWT' })`. */
  const HeaderJson: string := "{\"alg\":\"HS256\",\"typ\":\"JWT\"}"

  /** The payload `generateToken` signs at time `now`. */
  function TokenClaims(input: TokenInput, now: int): Claims {
    var user := Or(input.userId, input.id);
    Claims(user, user, input.email, input.fullName, Or(input.userType, Str("teacher")), Num(now), Num(now + TokenLifetime))
  }

  /** The user id is the first truthy of `userId` and `id`, the type defaults to teacher, and the token lives seven days. */
  lemma TokenClaimsMeaning(input: TokenInput, now: int)
    ensures var c := TokenClaims(input, now);
      && c.userId == c.id
      && (Truthy(input.userId) ==> c.userId == input.userId)
      && (!Truthy(input.userId) ==> c.userId == input.id)
      && (Truthy(input.userType) ==> c.userType == input.userType)
      && (!Truthy(input.userType) ==> c.userType == Str("teacher"))
      && c.exp.Num? && c.iat.Num? && c.exp.n - c.iat.n == 604800
  {
  }

  /** `createSignature`: the HMAC in base64url; None when its text cannot be encoded (the call throws). */
  function Signature(prims: Primitives, data: string): (r: Option<string>)
    ensures r.Some? <==> IsBinary(prims.mac(data))
  {
    UrlEncode(prims.mac(data))
  }

  /** `verifySignature`: the expected signature exists and equals the given one; a throw counts as a mismatch. */
  predicate SignatureMatches(prims: Primitives, data: string, signature: string) {
    Signature(prims, data) == Some(signature)
  }

  /**
   * `generateToken`: header, payload and signature joined by dots; None when
   * an encoding throws. A token exists exactly when the header, the payload
   * text and the HMAC are binary strings, and it splits back into its three encoded parts.
   */
  function GenerateToken(prims: Primitives, input: TokenInput, now: int): (r: Option<string>)
    ensures var json := prims.stringify(TokenClaims(input, now));
      r.Some? <==> (UrlEncode(HeaderJson).Some? && IsBinary(json)
        && IsBinary(prims.mac(UrlEncode(HeaderJson).value + "." + UrlEncode(json).value)))
    ensures r.Some? ==>
      var h, p := UrlEncode(HeaderJson).value, UrlEncode(prims.stringify(TokenClaims(input, now))).value;
      Split(r.value, '.') == [h, p, Signature(prims, h + "." + p).value]
  {
    match (UrlEncode(HeaderJson), UrlEncode(prims.stringify(TokenClaims(input, now))))
    case (Some(h), Some(p)) =>
      (match Signature(prims, h + "." + p)
       case Some(sig) =>
         EncodedHasNoDot(HeaderJson);
         EncodedHasNoDot(prims.stringify(TokenClaims(input, now)));
         EncodedHasNoDot(prims.mac(h + "." + p));
         ThreeParts(h, p, sig);
         Some(h + "." + p + "." + sig)
       case None => None)
    case _ => None
  }

  /** The header text is ASCII, so only the payload or the HMAC can make `generateToken` fail. */
  lemma HeaderIsBinary()
    ensures UrlEncode(HeaderJson).Some?
  {
    forall i | 0 <= i < |HeaderJson|
      ensures HeaderJson[i] as int < 256
    {
    }
    assert IsBinary(HeaderJson);
  }

  /**
   * `payload.exp && payload.exp < now`: a missing or zero expiry never
   * expires, a numeric one expires once `now` has passed it.
   */
  function IsExpired(exp: JsValue, now: int): (r: bool)
    ensures exp.Num? && exp.n != 0 ==> (r <==> exp.n < now)
    ensures !exp.Num? || exp.n == 0 ==> !r
  {
    Truthy(exp) && exp.Num? && exp.n < now
  }

  /** The checks after the signature, given the decoded payload text. */
  function CheckPayload(prims: Primitives, decoded: Option<string>, now: int): Result<Claims, TokenError> {
    match decoded
    case None => Failure(Undecodable)
    case Some(json) =>
      match prims.parse(json)
      case None => Failure(Undecodable)
      case Some(c) => if IsExpired(c.exp, now) then Failure(Expired) else Success(c)
  }

  /**
   * `verifyToken`, with the payload decoded as intended: exactly three
   * dot-separated parts, a matching signature over the first two, a payload
   * that decodes and parses, and no past expiry.
   */
  function VerifyToken(prims: Primitives, token: string, now: int): (r: Result<Claims, TokenError>)
    ensures r.Success? ==> |Split(token, '.')| == 3
    ensures r.Success? ==> var parts := Split(token, '.');
      SignatureMatches(prims, parts[0] + "." + parts[1], parts[2])
    ensures r.Success? ==> !IsExpired(r.value.exp, now)
  {
    var parts := Split(token, '.');
    if |parts| != 3 then Failure(Malformed)
    else if !SignatureMatches(prims, parts[0] + "." + parts[1], parts[2]) then Failure(BadSignature)
    else CheckPayload(prims, UrlDecode(parts[1]), now)
  }

  /**
   * `verifyToken` as written, the one the rest of the application calls:
   * the same checks, with `base64UrlDecode` padding as written, so a token
   * whose payload segment has a length divisible by 4 never verifies.
   */
  function VerifyTokenAsWritten(prims: Primitives, token: string, now: int): (r: Result<Claims, TokenError>)
    ensures r.Success? ==> |Split(token, '.')| == 3
    ensures r.Success? ==> var parts := Split(token, '.');
      SignatureMatches(prims, parts[0] + "." + parts[1], parts[2]) && |parts[1]| % 4 != 0
    ensures r.Success? ==> !IsExpired(r.value.exp, now)
  {
    var parts := Split(token, '.');
    if |parts| != 3 then Failure(Malformed)
    else if !SignatureMatches(prims, parts[0] + "." + parts[1], parts[2]) then Failure(BadSignature)
    else if |parts[1]| % 4 == 0 then
      AsWrittenRejectsAligned(parts[1]);
      CheckPayload(prims, UrlDecodeAsWritten(parts[1]), now)
    else CheckPayload(prims, UrlDecodeAsWritten(parts[1]), now)
  }

  /** On every token whose payload segment length is not a multiple of 4, the written and intended checks agree. */
  lemma AsWrittenAgreesOnToken(prims: Primitives, token: string, now: int)
    requires |Split(token, '.')| == 3 ==> |Split(token, '.')[1]| % 4 != 0
    ensures VerifyTokenAsWritten(prims, token, now) == VerifyToken(prims, token, now)
  {
    var parts := Split(token, '.');
    if |parts| == 3 {
      AsWrittenAgreesOtherwise(parts[1]);
    }
  }

  /** Three dot-free pieces joined by dots split back into those pieces. */
  lemma ThreeParts(h: string, p: string, sig: string)
    requires '.' !in h && '.' !in p && '.' !in sig
    ensures Split(h + "." + p + "." + sig, '.') == [h, p, sig]
  {
    var parts := [h, p, sig];
    assert parts[1..][1..] == [sig];
    assert Join(parts[1..], '.') == p + "." + sig;
    assert Join(parts, '.') == h + "." + p + "." + sig;
    SplitJoin(parts, '.');
  }

  /** Base64url text has no dot. */
  lemma EncodedHasNoDot(s: string)
    requires IsBinary(s)
    ensures '.' !in UrlEncode(s).value
  {
    UrlEncodeShape(s);
    var e := UrlEncode(s).value;
    assert forall i :: 0 <= i < |e| ==> e[i] != '.';
  }

  /**
   * With the padding as intended, a token generated at `issued` verifies at
   * `now` and yields the signed payload exactly when it has not expired — when `now` is at most seven
   * days later (or the expiry is the falsy time 0) — provided JSON parsing
   * gives back the stringified payload.
   */
  lemma GeneratedTokenVerifies(prims: Primitives, input: TokenInput, issued: int, now: int)
    requires GenerateToken(prims, input, issued).Some?
    requires prims.parse(prims.stringify(TokenClaims(input, issued))) == Some(TokenClaims(input, issued))
    ensures var r := VerifyToken(prims, GenerateToken(prims, input, issued).value, now);
      && (r.Success? <==> issued + TokenLifetime == 0 || now <= issued + TokenLifetime)
      && (r.Success? ==> r.value == TokenClaims(input, issued))
      && (r.Failure? ==> r.error == Expired)
  {
    var claims := TokenClaims(input, issued);
    var json := prims.stringify(claims);
    var h, p := UrlEncode(HeaderJson).value, UrlEncode(json).value;
    var token := GenerateToken(prims, input, issued).value;
    UrlRoundTrip(json);
    assert UrlDecode(p) == Some(json);
    assert VerifyToken(prims, token, now) == CheckPayload(prims, Some(json), now);
    FreshPayload(prims, json, input, issued, now);
  }

  /** A payload that parses to the claims of a token issued at `issued` fails only by expiring. */
  lemma FreshPayload(prims: Primitives, json: string, input: TokenInput, issued: int, now: int)
    requires prims.parse(json) == Some(TokenClaims(input, issued))
    ensures var r := CheckPayload(prims, Some(json), now);
      && (r.Success? <==> issued + TokenLifetime == 0 || now <= issued + TokenLifetime)
      && (r.Success? ==> r.value == TokenClaims(input, issued))
      && (r.Failure? ==> r.error == Expired)
  {
  }

  /**
   * As written, a generated token whose payload text has a length divisible
   * by 3 never verifies: its payload segment has a length divisible by 4 and
   * the decode throws.
   */
  lemma AsWrittenRejectsGenerated(prims: Primitives, input: TokenInput, issued: int, now: int)
    requires GenerateToken(prims, input, issued).Some?
    requires |prims.stringify(TokenClaims(input, issued))| % 3 == 0
    ensures VerifyTokenAsWritten(prims, GenerateToken(prims, input, issued).value, now) == Failure(Undecodable)
  {
    var json := prims.stringify(TokenClaims(input, issued));
    UrlEncodeShape(json);
    DigitCountAligned(|json|);
    AsWrittenRejectsAligned(UrlEncode(json).value);
  }

  /**
   * As written, a token generated at `issued` verifies at `now` exactly when
   * its payload text has a length not divisible by 3 and it has not expired;
   * it then yields the signed payload. Otherwise the decode throws or the
   * token has expired.
   */
  lemma GeneratedTokenVerifiesAsWritten(prims: Primitives, input: TokenInput, issued: int, now: int)
    requires GenerateToken(prims, input, issued).Some?
    requires prims.parse(prims.stringify(TokenClaims(input, issued))) == Some(TokenClaims(input, issued))
    ensures var r := VerifyTokenAsWritten(prims, GenerateToken(prims, input, issued).value, now);
      var json := prims.stringify(TokenClaims(input, issued));
      && (r.Success? <==> |json| % 3 != 0 && (issued + TokenLifetime == 0 || now <= issued + TokenLifetime))
      && (r.Success? ==> r.value == TokenClaims(input, issued))
      && (r.Failure? ==> r.error == (if |json| % 3 == 0 then Undecodable else Expired))
  {
    var json := prims.stringify(TokenClaims(input, issued));
    if |json| % 3 == 0 {
      AsWrittenRejectsGenerated(prims, input, issued, now);
    } else {
      UrlEncodeShape(json);
      DigitCountAligned(|json|);
      AsWrittenAgreesOnToken(prims, GenerateToken(prims, input, issued).value, now);
      GeneratedTokenVerifies(prims, input, issued, now);
    }
  }

  /**
   * `getUserIdFromToken`: `decoded.userId || decoded.id || null` for a token
   * that verifies, null for one that does not (`verifyToken` as written).
   */
  function UserIdFromToken(prims: Primitives, token: string, now: int): (r: JsValue)
    ensures r == Null || Truthy(r)
    ensures r == Null <==> match VerifyTokenAsWritten(prims, token, now)
      case Failure(_) => true
      case Success(c) => !Truthy(c.userId) && !Truthy(c.id)
  {
    match VerifyTokenAsWritten(prims, token, now)
    case Failure(_) => Null
    case Success(c) => Or(c.userId, Or(c.id, Null))
  }

  /**
   * The id in an unexpired generated token is the first truthy of the
   * caller's `userId` and `id`, unless its payload text has a length
   * divisible by 3: then the decode throws and the id is null.
   */
  lemma UserIdOfGeneratedToken(prims: Primitives, input: TokenInput, issued: int, now: int)
    requires GenerateToken(prims, input, issued).Some?
    requires prims.parse(prims.stringify(TokenClaims(input, issued))) == Some(TokenClaims(input, issued))
    requires issued <= now <= issued + TokenLifetime
    ensures UserIdFromToken(prims, GenerateToken(prims, input, issued).value, now) ==
      if |prims.stringify(TokenClaims(input, issued))| % 3 == 0 then Null
      else if Truthy(input.userId) then input.userId else if Truthy(input.id) then input.id else Null
  {
    GeneratedTokenVerifiesAsWritten(prims, input, issued, now);
  }

  // ---------------------------------------------------------------- e-mail

  /** `[^\s@]+`: a non-empty run without white space and without `@`. */
  predicate IsPlainRun(s: string) {
    |s| >= 1 && forall k :: 0 <= k < |s| ==> !IsJsWhitespace(s[k]) && s[k] != '@'
  }

  /** The language of `^[^\s@]+@[^\s@]+\.[^\s@]+$`: local part, `@`, then a dot with text on both sides. */
  predicate MatchesEmailPattern(email: string) {
    exists i, j :: 0 < i < j < |email| && email[i] == '@' && email[j] == '.' &&
      IsPlainRun(email[..i]) && IsPlainRun(email[i + 1..j]) && IsPlainRun(email[j + 1..])
  }

  /**
   * `isValidEmail`, read character by character: no white space, one `@`
   * with text before it, and a dot inside the part after it.
   */
  predicate IsValidEmail(email: string) {
    && (forall k :: 0 <= k < |email| ==> !IsJsWhitespace(email[k]))
    && '@' in email
    && var at := IndexOf(email, '@');
       && at > 0
       && '@' !in email[at + 1..]
       && at + 3 <= |email|
       && '.' in email[at + 2..|email| - 1]
  }

  /** The character-level check accepts exactly the strings the pattern matches. */
  lemma EmailCheckMatchesPattern(email: string)
    ensures IsValidEmail(email) <==> MatchesEmailPattern(email)
  {
    if IsValidEmail(email) {
      ValidEmailMatches(email);
    }
    if MatchesEmailPattern(email) {
      var i, j :| 0 < i < j < |email| && email[i] == '@' && email[j] == '.' &&
        IsPlainRun(email[..i]) && IsPlainRun(email[i + 1..j]) && IsPlainRun(email[j + 1..]);
      MatchIsValid(email, i, j);
    }
  }

  lemma ValidEmailMatches(email: string)
    requires IsValidEmail(email)
    ensures MatchesEmailPattern(email)
  {
    var at := IndexOf(email, '@');
    var inner := email[at + 2..|email| - 1];
    var j := at + 2 + IndexOf(inner, '.');
    assert email[j] == '.';
    assert forall m :: at + 1 <= m < |email| ==> email[m] != '@' by {
      forall m | at + 1 <= m < |email|
        ensures email[m] != '@'
      {
        assert email[m] == email[at + 1..][m - at - 1];
      }
    }
    assert IsPlainRun(email[..at]);
    assert IsPlainRun(email[at + 1..j]);
    assert IsPlainRun(email[j + 1..]);
  }

  lemma MatchIsValid(email: string, i: int, j: int)
    requires 0 < i < j < |email| && email[i] == '@' && email[j] == '.'
    requires IsPlainRun(email[..i]) && IsPlainRun(email[i + 1..j]) && IsPlainRun(email[j + 1..])
    ensures IsValidEmail(email)
  {
    assert forall m :: 0 <= m < |email| && m != i && m != j ==> !IsJsWhitespace(email[m]) && email[m] != '@' by {
      forall m | 0 <= m < |email| && m != i && m != j
        ensures !IsJsWhitespace(email[m]) && email[m] != '@'
      {
        if m < i {
          assert email[m] == email[..i][m];
        } else if m < j {
          assert email[m] == email[i + 1..j][m - i - 1];
        } else {
          assert email[m] == email[j + 1..][m - j - 1];
        }
      }
    }
    assert email == email[..i] + ['@'] + email[i + 1..];
    IndexOfAfterPrefix(email[..i], '@', email[i + 1..]);
    var after := email[i + 1..];
    assert '@' !in after by {
      forall m | 0 <= m < |after|
        ensures after[m] != '@'
      {
        assert after[m] == email[i + 1 + m];
      }
    }
    assert email[i + 2..|email| - 1][j - i - 2] == '.';
  }

  // ---------------------------------------------------------------- passwords

  const PasswordTooShort := "Password must be at least 8 characters long"
  const PasswordNeedsLowercase := "Password must contain at least one lowercase letter"
  const PasswordNeedsUppercase := "Password must contain at least one uppercase letter"
  const PasswordNeedsNumber := "Password must contain at least one number"

  datatype PasswordCheck = PasswordCheck(valid: bool, message: Option<string>)

  /** JavaScript's `length`: UTF-16 code units, two for a character beyond U+FFFF. */
  function Utf16Length(s: string): (n: nat)
    ensures |s| <= n <= 2 * |s|
  {
    if s == [] then 0 else (if s[0] as int > 0xFFFF then 2 else 1) + Utf16Length(s[1..])
  }

  /** Some character of `s` lies in `lo..hi`. */
  predicate HasCharIn(s: string, lo: char, hi: char) {
    exists k :: 0 <= k < |s| && lo <= s[k] <= hi
  }

  /** The regular-expression scan: `(?=.*[lo-hi])` finds a match at some position. */
  function ScanFor(s: string, lo: char, hi: char): (found: bool)
    ensures found <==> HasCharIn(s, lo, hi)
  {
    if s == [] then false
    else if lo <= s[0] <= hi then true
    else
      var rest := ScanFor(s[1..], lo, hi);
      assert HasCharIn(s, lo, hi) ==> HasCharIn(s[1..], lo, hi) by {
        if HasCharIn(s, lo, hi) {
          var k :| 0 <= k < |s| && lo <= s[k] <= hi;
          assert s[1..][k - 1] == s[k];
        }
      }
      assert HasCharIn(s[1..], lo, hi) ==> HasCharIn(s, lo, hi) by {
        if HasCharIn(s[1..], lo, hi) {
          var k :| 0 <= k < |s[1..]| && lo <= s[1..][k] <= hi;
          assert s[k + 1] == s[1..][k];
        }
      }
      rest
  }

  /**
   * `isValidPassword`: valid exactly when the password has at least 8
   * code units, a lower-case letter, an upper-case letter and a digit;
   * otherwise the message names the first of these checks that fails.
   */
  function IsValidPassword(password: string): (r: PasswordCheck)
    ensures r.valid <==> Utf16Length(password) >= 8 && HasCharIn(password, 'a', 'z')
                         && HasCharIn(password, 'A', 'Z') && HasCharIn(password, '0', '9')
    ensures r.valid <==> r.message.None?
    ensures Utf16Length(password) < 8 ==> r.message == Some(PasswordTooShort)
    ensures Utf16Length(password) >= 8 && !HasCharIn(password, 'a', 'z') ==> r.message == Some(PasswordNeedsLowercase)
    ensures (Utf16Length(password) >= 8 && HasCharIn(password, 'a', 'z') && !HasCharIn(password, 'A', 'Z')) ==>
      r.message == Some(PasswordNeedsUppercase)
    ensures (Utf16Length(password) >= 8 && HasCharIn(password, 'a', 'z') && HasCharIn(password, 'A', 'Z') &&
             !HasCharIn(password, '0', '9')) ==> r.message == Some(PasswordNeedsNumber)
  {
    if Utf16Length(password) < 8 then PasswordCheck(false, Some(PasswordTooShort))
    else if !ScanFor(password, 'a', 'z') then PasswordCheck(false, Some(PasswordNeedsLowercase))
    else if !ScanFor(password, 'A', 'Z') then PasswordCheck(false, Some(PasswordNeedsUppercase))
    else if !ScanFor(password, '0', '9') then PasswordCheck(false, Some(PasswordNeedsNumber))
    else PasswordCheck(true, None)
  }

  /** A character beyond U+FFFF counts twice toward the minimum length. */
  lemma SupplementaryCharactersCountTwice()
    ensures Utf16Length("aA1\U{1F600}\U{1F600}") == 7
    ensures !IsValidPassword("aA1\U{1F600}\U{1F600}").valid
    ensures IsValidPassword("aA1\U{1F600}\U{1F600}\U{1F600}").valid
  {
    var s := "aA1\U{1F600}\U{1F600}";
    assert s[1..] == "A1\U{1F600}\U{1F600}" && s[1..][1..] == "1\U{1F600}\U{1F600}";
    assert s[1..][1..][1..] == "\U{1F600}\U{1F600}" && s[1..][1..][1..][1..] == "\U{1F600}";
    assert s[0] == 'a' && s[1] == 'A' && s[2] == '1';
    var t := "aA1\U{1F600}\U{1F600}\U{1F600}";
    assert t[1..] == "A1\U{1F600}\U{1F600}\U{1F600}" && t[1..][1..] == "1\U{1F600}\U{1F600}\U{1F600}";
    assert t[1..][1..][1..] == "\U{1F600}\U{1F600}\U{1F600}";
    assert t[1..][1..][1..][1..] == "\U{1F600}\U{1F600}" && t[1..][1..][1..][1..][1..] == "\U{1F600}";
    assert t[0] == 'a' && t[1] == 'A' && t[2] == '1';
  }
}
