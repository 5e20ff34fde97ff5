/**
 * The route guard that runs before every page request: pages under the
 * protected prefixes need a token that verifies, the sign-in and sign-up
 * pages send an already signed-in user to the dashboard, and the matcher
 * decides which paths the guard sees at all.
 */
module Middleware {
  import opened Wrappers
  import opened Text
  import opened Auth

  const ProtectedPrefixes: seq<string> := ["/dashboard", "/profile", "/students", "/attendance", "/settings"]
  const PublicPrefixes: seq<string> := ["/login", "/register"]

  /** What the guard answers: let the request through, or redirect (optionally clearing the token cookie). */
  datatype Decision = PassThrough | Redirect(location: string, clearsToken: bool)

  /** `prefixes.some(route => path.startsWith(route))`, scanning the list in order. */
  function SomePrefix(path: string, prefixes: seq<string>): (found: bool)
    ensures found <==> exists k :: 0 <= k < |prefixes| && StartsWith(path, prefixes[k])
  {
    if prefixes == [] then false
    else if StartsWith(path, prefixes[0]) then true
    else
      var rest := SomePrefix(path, prefixes[1..]);
      assert forall k :: 1 <= k < |prefixes| ==> prefixes[k] == prefixes[1..][k - 1];
      rest
  }

  predicate IsProtected(path: string) {
    SomePrefix(path, ProtectedPrefixes)
  }

  predicate IsPublic(path: string) {
    SomePrefix(path, PublicPrefixes)
  }

  /** The cookie counts only when it is present and not empty. */
  predicate HasToken(token: Option<string>) {
    token.Some? && token.value != ""
  }

  /** A token that is present and verifies at `now` (`verifyToken` as written). */
  predicate SignedIn(prims: Primitives, token: Option<string>, now: int) {
    HasToken(token) && VerifyTokenAsWritten(prims, token.value, now).Success?
  }

  /**
   * The decision for a path the matcher sends to the guard: it only ever
   * redirects to the sign-in page or the dashboard, clears the cookie only
   * when a token was sent and failed, and lets a protected page through only
   * for a signed-in user.
   */
  function Decide(prims: Primitives, path: string, token: Option<string>, now: int): (d: Decision)
    ensures d.Redirect? ==> d.location == "/login" || d.location == "/dashboard"
    ensures d.Redirect? && d.clearsToken ==> d.location == "/login" && HasToken(token) && !SignedIn(prims, token, now)
    ensures d.Redirect? && d.location == "/dashboard" ==> SignedIn(prims, token, now)
    ensures IsProtected(path) && d == PassThrough ==> SignedIn(prims, token, now)
  {
    if IsProtected(path) then
      if !HasToken(token) then Redirect("/login", false)
      else if VerifyTokenAsWritten(prims, token.value, now).Success? then PassThrough
      else Redirect("/login", true)
    else if IsPublic(path) && HasToken(token) && VerifyTokenAsWritten(prims, token.value, now).Success? then
      Redirect("/dashboard", false)
    else PassThrough
  }

  /**
   * The guard's table: a protected page is let through exactly for a
   * signed-in user and otherwise sends to the sign-in page, clearing the
   * cookie exactly when a token was present but failed; a public page sends
   * a signed-in user to the dashboard and never clears the cookie; every
   * other page is let through.
   */
  lemma DecisionTable(prims: Primitives, path: string, token: Option<string>, now: int)
    ensures var d := Decide(prims, path, token, now);
      && (IsProtected(path) ==> (d == PassThrough <==> SignedIn(prims, token, now)))
      && (IsProtected(path) && !SignedIn(prims, token, now) ==>
            d == Redirect("/login", HasToken(token)))
      && (IsPublic(path) ==> (d == Redirect("/dashboard", false) <==> SignedIn(prims, token, now)))
      && (IsPublic(path) && !SignedIn(prims, token, now) ==> d == PassThrough)
      && (!IsProtected(path) && !IsPublic(path) ==> d == PassThrough)
  {
    ProtectedPublicDisjoint(path);
  }

  /**
   * A freshly issued, unexpired token opens a protected page unless its
   * payload text has a length divisible by 3: then the written decode
   * throws, and the guard sends the user to the sign-in page and clears
   * the cookie.
   */
  lemma GeneratedTokenAtGuard(prims: Primitives, path: string, input: TokenInput, issued: int, now: int)
    requires IsProtected(path)
    requires GenerateToken(prims, input, issued).Some?
    requires prims.parse(prims.stringify(TokenClaims(input, issued))) == Some(TokenClaims(input, issued))
    requires issued <= now <= issued + TokenLifetime
    ensures Decide(prims, path, GenerateToken(prims, input, issued), now) ==
      if |prims.stringify(TokenClaims(input, issued))| % 3 == 0 then Redirect("/login", true) else PassThrough
  {
    GeneratedTokenVerifiesAsWritten(prims, input, issued, now);
  }

  /** No path is both protected and public, so the order of the two checks does not matter. */
  lemma ProtectedPublicDisjoint(path: string)
    ensures IsProtected(path) ==> !IsPublic(path)
  {
    if IsProtected(path) {
      var i :| 0 <= i < |ProtectedPrefixes| && StartsWith(path, ProtectedPrefixes[i]);
      assert path[1] == ProtectedPrefixes[i][1];
      forall j | 0 <= j < |PublicPrefixes|
        ensures !StartsWith(path, PublicPrefixes[j])
      {
        assert PublicPrefixes[j][1] != path[1];
      }
    }
  }

  /** Matching is by prefix, not by path segment. */
  lemma PrefixNotSegment()
    ensures IsProtected("/studentsarchive")
    ensures IsPublic("/login-help")
  {
    assert StartsWith("/studentsarchive", ProtectedPrefixes[2]);
    assert StartsWith("/login-help", PublicPrefixes[0]);
  }

  /**
   * The matcher `/((?!api|_next/static|_next/image|favicon.ico|public).*)`:
   * the text after the leading `/` must not begin with one of the excluded
   * words, where the `.` of `favicon.ico` matches any character.
   */
  predicate Excluded(rest: string) {
    || StartsWith(rest, "api")
    || StartsWith(rest, "_next/static")
    || StartsWith(rest, "_next/image")
    || (|rest| >= 11 && rest[..7] == "favicon" && rest[8..11] == "ico")
    || StartsWith(rest, "public")
  }

  predicate GuardRuns(path: string) {
    |path| >= 1 && path[0] == '/' && !Excluded(path[1..])
  }

  /** The whole middleware: paths outside the matcher never reach the guard. */
  function Route(prims: Primitives, path: string, token: Option<string>, now: int): (d: Decision)
    ensures !GuardRuns(path) ==> d == PassThrough
  {
    if GuardRuns(path) then Decide(prims, path, token, now) else PassThrough
  }

  /** Every protected page is inside the matcher, so the guard always runs for it. */
  lemma ProtectedPagesGuarded(prims: Primitives, path: string, now: int)
    requires IsProtected(path)
    ensures GuardRuns(path)
    ensures Route(prims, path, None, now) == Redirect("/login", false)
  {
    var k :| 0 <= k < |ProtectedPrefixes| && StartsWith(path, ProtectedPrefixes[k]);
    var p := ProtectedPrefixes[k];
    var rest := path[1..];
    assert path[1] == p[1] && path[2] == p[2];
    assert rest[0] == p[1] && rest[1] == p[2];
    assert p[1] != '_' && p[1] != 'f';
    assert p[1] == 'a' ==> p[2] != 'p';
    assert p[1] == 'p' ==> p[2] != 'u';
  }

  /** The excluded words are prefixes too: `/apiary` and `/favicon-ico` are never guarded. */
  lemma MatcherQuirks()
    ensures !GuardRuns("/apiary")
    ensures !GuardRuns("/favicon-ico")
    ensures GuardRuns("/dashboard")
  {
    assert "/apiary"[1..] == "apiary";
    assert "/favicon-ico"[1..] == "favicon-ico";
    assert "favicon-ico"[..7] == "favicon" && "favicon-ico"[8..11] == "ico";
    var rest := "/dashboard"[1..];
    assert rest == "dashboard" && rest[0] == 'd';
    assert !StartsWith(rest, "api") && !StartsWith(rest, "public");
  }
}
