/**
 * The session callbacks and the route gate (`src/auth.config.ts`), and the
 * middleware's route matcher (`src/middleware.ts`).
 */
module AuthConfig {
  import opened Wrappers
  import opened Text

  /** The user object a provider's `authorize` returns; `role` is absent unless the provider sets it. */
  datatype AuthUser = AuthUser(id: string, name: string, email: string, role: Option<string>)

  /** The JWT: the two claims the callbacks write, and the claims they leave alone (`sub`, `name`, `email`, ...). */
  datatype Token = Token(id: Option<string>, role: Option<string>, claims: map<string, string>)

  datatype SessionUser = SessionUser(id: Option<string>, name: Option<string>, email: Option<string>, role: Option<string>)

  /** What `auth()` hands a server action. */
  datatype Session = Session(user: Option<SessionUser>, expires: string)

  /** The `jwt` callback: on sign-in (a user is present) copy its id and role into the token. */
  function Jwt(token: Token, user: Option<AuthUser>): (t: Token)
    ensures user.None? ==> t == token
    ensures user.Some? ==> t.id == Some(user.value.id) && t.role == user.value.role
    ensures t.claims == token.claims
  {
    match user
    case None => token
    case Some(u) => token.(id := Some(u.id), role := u.role)
  }

  /** The `session` callback: copy the token's id and role onto the session's user, if there is one. */
  function SessionOf(session: Session, token: Token): (s: Session)
    ensures session.user.None? ==> s == session
    ensures session.user.Some? ==>
              && s.user.Some?
              && s.user.value.id == token.id
              && s.user.value.role == token.role
              && s.user.value.name == session.user.value.name
              && s.user.value.email == session.user.value.email
    ensures s.expires == session.expires
  {
    match session.user
    case None => session
    case Some(u) => session.(user := Some(u.(id := token.id, role := token.role)))
  }

  /** The token after a run of `jwt` calls: the sign-in call, then one per later request. */
  function Replay(token: Token, users: seq<Option<AuthUser>>): Token
    decreases |users|
  {
    if |users| == 0 then token else Replay(Jwt(token, users[0]), users[1..])
  }

  /** If no user the `jwt` callback sees carries a role, no role ever enters the token. */
  lemma {:induction false} ReplayKeepsRoleAbsent(token: Token, users: seq<Option<AuthUser>>)
    requires token.role.None?
    requires forall i :: 0 <= i < |users| ==> users[i].None? || users[i].value.role.None?
    ensures Replay(token, users).role.None?
    decreases |users|
  {
    if |users| > 0 {
      ReplayKeepsRoleAbsent(Jwt(token, users[0]), users[1..]);
    }
  }

  // ---- redirect ----
  // Only the middleware's instance installs this callback, and it uses nothing but
  // `.auth`; sign-in and sign-out follow Auth.js's default redirect.

  const AdminPath := "/admin"

  /** Step 1 of `redirect`: a relative target is resolved against the base URL. */
  function Target(url: string, baseUrl: string): string {
    if IsPrefix("/", url) then baseUrl + url else url
  }

  /**
   * The `redirect` callback as written: a target counts as internal when it
   * merely starts with the base URL's text.
   */
  function RedirectAsWritten(url: string, baseUrl: string): (r: string)
    ensures IsPrefix(baseUrl, r)
    ensures !IsPrefix(baseUrl, Target(url, baseUrl)) ==> r == baseUrl + AdminPath
    ensures IsPrefix(baseUrl, Target(url, baseUrl)) ==> r == Target(url, baseUrl) || r == baseUrl + AdminPath
  {
    var target := Target(url, baseUrl);
    if IsPrefix(baseUrl, target) then
      if target == baseUrl || target == baseUrl + "/" then baseUrl + AdminPath else target
    else baseUrl + AdminPath
  }

  /** The site root, given absolutely, with a trailing slash, or as `/`, goes to the dashboard. */
  lemma RedirectRootGoesToAdmin(baseUrl: string)
    requires |baseUrl| > 0 && baseUrl[0] != '/'
    ensures RedirectAsWritten(baseUrl, baseUrl) == baseUrl + AdminPath
    ensures RedirectAsWritten(baseUrl + "/", baseUrl) == baseUrl + AdminPath
    ensures RedirectAsWritten("/", baseUrl) == baseUrl + AdminPath
  {
    assert IsPrefix(baseUrl, baseUrl);
    assert IsPrefix(baseUrl, baseUrl + "/");
    assert !IsPrefix("/", baseUrl + "/") by {
      assert (baseUrl + "/")[..1] == baseUrl[..1];
    }
    assert IsPrefix("/", "/");
  }

  /** Any other target that starts with the base URL is returned unchanged. */
  lemma RedirectKeepsInternalTarget(url: string, baseUrl: string)
    requires IsPrefix(baseUrl, Target(url, baseUrl))
    requires Target(url, baseUrl) != baseUrl && Target(url, baseUrl) != baseUrl + "/"
    ensures RedirectAsWritten(url, baseUrl) == Target(url, baseUrl)
  {
  }

  /** A relative target never leaves the site: it becomes the base URL plus the path. */
  lemma RedirectRelativeStaysInternal(url: string, baseUrl: string)
    requires IsPrefix("/", url)
    ensures RedirectAsWritten(url, baseUrl) == baseUrl + url || RedirectAsWritten(url, baseUrl) == baseUrl + AdminPath
  {
    assert (baseUrl + url)[..|baseUrl|] == baseUrl;
  }

  /** The URL `r` addresses the site at `baseUrl`: it is the base itself or continues it with a path, query or fragment. */
  predicate SameSite(r: string, baseUrl: string) {
    r == baseUrl || (|r| > |baseUrl| && IsPrefix(baseUrl, r) && r[|baseUrl|] in "/?#")
  }

  /**
   * The as-written check lets an absolute URL on another host through when
   * that host's name extends the base URL's text: for the base
   * `https://elevateuacademy.in`, the target
   * `https://elevateuacademy.in.evil.example/login` is returned as is.
   */
  lemma RedirectAsWrittenLeavesSite(baseUrl: string, url: string)
    requires |baseUrl| > 0 && baseUrl[0] != '/'
    requires url == baseUrl + ".evil.example/login"
    ensures RedirectAsWritten(url, baseUrl) == url
    ensures !SameSite(url, baseUrl)
  {
    assert url[..|baseUrl|] == baseUrl;
    assert url[|baseUrl|] == '.';
    assert url[..1] == baseUrl[..1];
    assert url != baseUrl + "/" by {
      assert (baseUrl + "/")[|baseUrl|] == '/';
    }
  }

  /** The `redirect` callback with the internal check it evidently intends: same site, not just same prefix. */
  function Redirect(url: string, baseUrl: string): (r: string)
    ensures SameSite(r, baseUrl)
    ensures IsPrefix(baseUrl, r)
    ensures !SameSite(Target(url, baseUrl), baseUrl) ==> r == baseUrl + AdminPath
  {
    var target := Target(url, baseUrl);
    var fallback := baseUrl + AdminPath;
    assert fallback[|baseUrl|] == '/' && IsPrefix(baseUrl, fallback);
    if SameSite(target, baseUrl) then
      if target == baseUrl || target == baseUrl + "/" then fallback else target
    else fallback
  }

  /** On every same-site target, and so on every relative one, the corrected callback agrees with the original. */
  lemma RedirectAgreesOnSameSite(url: string, baseUrl: string)
    requires SameSite(Target(url, baseUrl), baseUrl)
    ensures Redirect(url, baseUrl) == RedirectAsWritten(url, baseUrl)
  {
  }

  // ---- authorized ----

  datatype Decision = Allow | Deny | RedirectTo(path: string)

  const AuthApiPrefix := "/api/auth"
  const SignInMarker := "/signin"

  /**
   * The `authorized` callback: send a signed-in user away from a sign-in page,
   * let the auth API through, keep anonymous users out of `/admin...`.
   */
  function Authorized(loggedIn: bool, path: string): (d: Decision)
    ensures d.RedirectTo? <==> loggedIn && Contains(path, SignInMarker)
    ensures d.RedirectTo? ==> d.path == AdminPath
    ensures d == Deny <==> !loggedIn && IsPrefix(AdminPath, path)
    ensures IsPrefix(AuthApiPrefix, path) ==> d != Deny
  {
    assert IsPrefix(AdminPath, path) ==> path[2] == AdminPath[2] == 'd';
    assert IsPrefix(AuthApiPrefix, path) ==> path[2] == AuthApiPrefix[2] == 'p';
    if loggedIn && Contains(path, SignInMarker) then RedirectTo(AdminPath)
    else if IsPrefix(AuthApiPrefix, path) then Allow
    else if IsPrefix(AdminPath, path) && !loggedIn then Deny
    else Allow
  }

  /** The sign-in route can never be denied, so the gate cannot loop a visitor back to it. */
  lemma SignInNeverDenied(loggedIn: bool)
    ensures Authorized(loggedIn, "/api/auth/signin") != Deny
    ensures loggedIn ==> Authorized(loggedIn, "/api/auth/signin") == RedirectTo(AdminPath)
    ensures !loggedIn ==> Authorized(loggedIn, "/api/auth/signin") == Allow
  {
    var p := "/api/auth/signin";
    assert IsPrefix(AuthApiPrefix, p);
    assert p[9..] == SignInMarker;
    assert IsPrefix(SignInMarker, p[9..]);
    assert Contains(p[9..], SignInMarker);
    assert p[9..] == p[1..][1..][1..][1..][1..][1..][1..][1..][1..];
  }

  /** `matcher: ["/admin/:path*"]`: `/admin` itself or anything below `/admin/`. */
  predicate MiddlewareMatches(path: string) {
    path == AdminPath || IsPrefix(AdminPath + "/", path)
  }

  /** The gate as deployed: `authorized` runs only on paths the matcher selects. */
  function Gate(loggedIn: bool, path: string): (d: Decision)
    ensures d == Deny <==> !loggedIn && MiddlewareMatches(path)
    ensures !MiddlewareMatches(path) ==> d == Allow
  {
    assert MiddlewareMatches(path) ==> IsPrefix(AdminPath, path) by {
      if IsPrefix(AdminPath + "/", path) {
        assert path[..|AdminPath|] == (AdminPath + "/")[..|AdminPath|];
      }
    }
    if MiddlewareMatches(path) then Authorized(loggedIn, path) else Allow
  }

  /** `/administrator` shares the `/admin` prefix: `authorized` alone would deny it, the deployed gate never runs there. */
  lemma AdministratorPrefixCase()
    ensures Authorized(false, "/administrator") == Deny
    ensures Gate(false, "/administrator") == Allow
  {
    var p := "/administrator";
    assert IsPrefix(AdminPath, p);
    assert p[6] == 'i';
    assert !IsPrefix(AdminPath + "/", p);
  }
}
