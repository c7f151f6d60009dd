/**
 * The Credentials provider's `authorize` (`src/auth.ts`): the submitted
 * credentials are parsed, then compared with `ADMIN_EMAIL` and
 * `ADMIN_PASSWORD`. The zod email check is the parameter `isEmail`.
 */
module Auth {
  import opened Wrappers
  import opened Text
  import opened AuthConfig
  import opened UserStore

  /** The submitted credentials; `None` for a missing (or non-string) value. */
  datatype Credentials = Credentials(email: Option<string>, password: Option<string>)

  const MinPasswordLength := 6

  /** `z.object({ email: z.string().email(), password: z.string().min(6) }).safeParse(credentials).success`. */
  predicate CredentialsParse(creds: Credentials, isEmail: string -> bool) {
    && creds.email.Some? && isEmail(creds.email.value)
    && creds.password.Some? && MinLength(creds.password.value, MinPasswordLength)
  }

  /** `authorize(credentials)`: the fixed user on a match with the environment, `null` otherwise. */
  function Authorize(creds: Credentials, env: AdminEnv, isEmail: string -> bool): (r: Option<AuthUser>)
    ensures r.Some? <==>
              && CredentialsParse(creds, isEmail)
              && env.adminEmail.Some? && creds.email == env.adminEmail
              && env.adminPassword.Some? && creds.password == env.adminPassword
    ensures r.Some? ==> r.value == AuthUser("1", "Admin", env.adminEmail.value, None)
  {
    if CredentialsParse(creds, isEmail) && creds.email == env.adminEmail && creds.password == env.adminPassword
    then Some(AuthUser("1", "Admin", env.adminEmail.value, None))
    else None
  }

  // ---- the callbacks `auth()` runs: `src/auth.ts` configures none, so Auth.js uses its defaults ----

  /** A claim of the token, `undefined` when absent. */
  function Claim(t: Token, key: string): Option<string> {
    if key in t.claims then Some(t.claims[key]) else None
  }

  /**
   * The token Auth.js writes at sign-in when no `jwt` callback is configured:
   * the user's name, email and id (as `sub`) become claims, and nothing else is
   * copied, so the token has no `id` or `role` field. (The user has no image, so
   * no `picture` claim.) The default `jwt` callback returns the token unchanged on
   * every later request.
   */
  function DefaultToken(user: AuthUser): (t: Token)
    ensures t.id.None? && t.role.None?
    ensures Claim(t, "sub") == Some(user.id)
    ensures Claim(t, "name") == Some(user.name) && Claim(t, "email") == Some(user.email)
  {
    Token(None, None, map["name" := user.name, "email" := user.email, "sub" := user.id])
  }

  /**
   * The session Auth.js builds when no `session` callback is configured: a user
   * holding only the token's name and email (and image), never an id or a role.
   */
  function DefaultSession(token: Token, expires: string): (s: Session)
    ensures s.user.Some? && s.user.value.id.None? && s.user.value.role.None?
    ensures s.user.value.name == Claim(token, "name") && s.user.value.email == Claim(token, "email")
    ensures s.expires == expires
  {
    Session(Some(SessionUser(None, Claim(token, "name"), Claim(token, "email"), None)), expires)
  }

  /** An `ADMIN_PASSWORD` shorter than six UTF-16 code units can never be used to sign in. */
  lemma ShortAdminPasswordNeverAuthenticates(creds: Credentials, env: AdminEnv, isEmail: string -> bool)
    requires env.adminPassword.Some? && Utf16Length(env.adminPassword.value) < MinPasswordLength
    ensures Authorize(creds, env, isEmail) == None
  {
  }

  /** A password of three emoji is six UTF-16 code units long, so it passes `.min(6)` and can sign in. */
  lemma EmojiPasswordAuthenticates(env: AdminEnv, isEmail: string -> bool)
    requires env.adminEmail.Some? && isEmail(env.adminEmail.value)
    requires env.adminPassword == Some("\U{1F600}\U{1F600}\U{1F600}")
    ensures Authorize(Credentials(env.adminEmail, env.adminPassword), env, isEmail).Some?
  {
    EmojiIsTwoUnits();
    Utf16LengthConcat("\U{1F600}", "\U{1F600}");
    Utf16LengthConcat("\U{1F600}\U{1F600}", "\U{1F600}");
  }

  /** With either variable unset nobody can sign in. */
  lemma UnsetEnvNeverAuthenticates(creds: Credentials, env: AdminEnv, isEmail: string -> bool)
    requires env.adminEmail.None? || env.adminPassword.None?
    ensures Authorize(creds, env, isEmail) == None
  {
  }
}
