/**
 * The administrator mutations (`src/app/actions/admin-actions.ts`): each one
 * checks the session's role first, then validates or guards, then runs one
 * store statement and maps its error to a message.
 */
module AdminActions {
  import opened Wrappers
  import opened Text
  import opened Responses
  import opened UserStore
  import opened AuthConfig
  import opened Auth

  const AdminRole := "admin"
  const UsersPath := "/admin/users"

  const UnauthorizedText := "Unauthorized: You do not have permission to perform this action."
  const InvalidEmail := "Invalid email address"
  const PasswordTooShort := "Password must be at least 6 characters"
  const CreatedText := "Admin user created successfully!"
  const EmailExistsText := "Email already exists."
  const CreateFailedText := "Failed to create admin user."
  const SelfDeleteText := "You cannot delete your own account."
  const RootDeleteText := "Cannot delete the Root Admin."
  const DeletedText := "User deleted."
  const DeleteFailedText := "Failed to delete user."

  /** `session?.user && session.user.role === 'admin'`. */
  predicate IsAdmin(session: Option<Session>) {
    session.Some? && session.value.user.Some? && session.value.user.value.role == Some(AdminRole)
  }

  /** The create form: `FormData.get` of each field. */
  datatype AdminForm = AdminForm(name: Option<string>, email: Option<string>, password: Option<string>)

  datatype NewAdmin = NewAdmin(name: string, email: string, password: string)

  predicate EmailOk(v: Option<string>, isEmail: string -> bool) {
    v.Some? && isEmail(v.value)
  }

  predicate PasswordOk(v: Option<string>) {
    v.Some? && MinLength(v.value, MinPasswordLength)
  }

  /** `createUserSchema.safeParse(...)`: every field is checked and each failing one is named. */
  function ValidateAdmin(form: AdminForm, isEmail: string -> bool): (r: Result<NewAdmin, FieldErrors>)
    ensures r.Ok? <==> NameOk(form.name) && EmailOk(form.email, isEmail) && PasswordOk(form.password)
    ensures r.Ok? ==> r.value == NewAdmin(form.name.value, form.email.value, form.password.value)
    ensures r.Err? ==> ("name" in r.error <==> !NameOk(form.name))
    ensures r.Err? ==> ("email" in r.error <==> !EmailOk(form.email, isEmail))
    ensures r.Err? ==> ("password" in r.error <==> !PasswordOk(form.password))
    ensures r.Err? ==> r.error.Keys <= {"name", "email", "password"}
    ensures r.Err? && form.name.Some? && !NameOk(form.name) ==> r.error["name"] == [NameTooShort]
    ensures r.Err? && form.email.Some? && !EmailOk(form.email, isEmail) ==> r.error["email"] == [InvalidEmail]
    ensures r.Err? && form.password.Some? && !PasswordOk(form.password) ==> r.error["password"] == [PasswordTooShort]
  {
    var nameIssues := StringIssues(form.name, s => MinLength(s, MinNameLength), NameTooShort);
    var emailIssues := StringIssues(form.email, isEmail, InvalidEmail);
    var passwordIssues := StringIssues(form.password, s => MinLength(s, MinPasswordLength), PasswordTooShort);
    if |nameIssues| == 0 && |emailIssues| == 0 && |passwordIssues| == 0 then
      Ok(NewAdmin(form.name.value, form.email.value, form.password.value))
    else
      Err(AddIssues(AddIssues(AddIssues(map[], "name", nameIssues), "email", emailIssues), "password", passwordIssues))
  }

  /** The `catch` of `createAdminUser`: a unique violation is reported as a taken email, anything else generically. */
  function CreateErrorReply(code: string): (r: Reply)
    ensures !r.Succeeded()
    ensures r == Failure(EmailExistsText) <==> code == UniqueViolation
    ensures r == Failure(CreateFailedText) <==> code != UniqueViolation
  {
    if code == UniqueViolation then Failure(EmailExistsText) else Failure(CreateFailedText)
  }

  /**
   * `createAdminUser(prevState, formData)`. `hash` is bcrypt, `newId` the UUID
   * the store generates, `now` its timestamp, `fault` an error raised by the
   * hashing or the statement for reasons outside the table.
   */
  function CreateAdminUser(db: UserDb, session: Option<Session>, form: AdminForm, isEmail: string -> bool,
                           hash: string -> string, newId: string, now: int, fault: Option<string>): (out: Effect<UserDb>)
    // Role check first: nothing else happens without an admin session.
    ensures !IsAdmin(session) ==> out == Effect(Failure(UnauthorizedText), db, None)
    ensures IsAdmin(session) && ValidateAdmin(form, isEmail).Err? ==>
              out == Effect(Reply(false, PerField(ValidateAdmin(form, isEmail).error)), db, None)
    // Store errors: the code decides the message; nothing is written.
    ensures IsAdmin(session) && ValidateAdmin(form, isEmail).Ok? && fault.Some? ==>
              out == Effect(CreateErrorReply(fault.value), db, None)
    ensures IsAdmin(session) && ValidateAdmin(form, isEmail).Ok? && fault.None?
            && (newId in db || HasEmail(db, form.email.value)) ==>
              out == Effect(Failure(EmailExistsText), db, None)
    // Success: exactly one new admin row, holding the hash of the password.
    ensures IsAdmin(session) && ValidateAdmin(form, isEmail).Ok? && fault.None?
            && newId !in db && !HasEmail(db, form.email.value) ==>
              && out.reply == Success(CreatedText)
              && out.revalidated == Some(UsersPath)
              && out.store.Keys == db.Keys + {newId}
              && (forall k :: k in db ==> out.store[k] == db[k])
              && out.store[newId] == UserRow(form.name.value, form.email.value, hash(form.password.value), AdminRole, now)
    ensures out.store != db ==> out.reply.Succeeded()
    ensures UniqueEmails(db) ==> UniqueEmails(out.store)
  {
    if !IsAdmin(session) then Effect(Failure(UnauthorizedText), db, None)
    else
      match ValidateAdmin(form, isEmail)
      case Err(errors) => Effect(Reply(false, PerField(errors)), db, None)
      case Ok(input) =>
        var row := UserRow(input.name, input.email, hash(input.password), AdminRole, now);
        match Insert(db, newId, row, fault)
        case Err(code) => Effect(CreateErrorReply(code), db, None)
        case Ok(db') => Effect(Success(CreatedText), db', Some(UsersPath))
  }

  /** A successful create never stores the plaintext password, provided the hash never returns its input. */
  lemma CreateNeverStoresPlaintext(db: UserDb, session: Option<Session>, form: AdminForm, isEmail: string -> bool,
                                   hash: string -> string, newId: string, now: int, fault: Option<string>)
    requires forall p :: hash(p) != p
    requires CreateAdminUser(db, session, form, isEmail, hash, newId, now, fault).reply.Succeeded()
    ensures var out := CreateAdminUser(db, session, form, isEmail, hash, newId, now, fault);
            newId in out.store && out.store[newId].password != form.password.value
  {
  }

  /** Creating two admins with one email: the second call reports the taken email. */
  lemma SecondCreateWithSameEmailConflicts(db: UserDb, session: Option<Session>, form: AdminForm, form2: AdminForm,
                                           isEmail: string -> bool, hash: string -> string,
                                           id1: string, id2: string, now1: int, now2: int)
    requires CreateAdminUser(db, session, form, isEmail, hash, id1, now1, None).reply.Succeeded()
    requires ValidateAdmin(form2, isEmail).Ok? && form2.email == form.email
    ensures var db1 := CreateAdminUser(db, session, form, isEmail, hash, id1, now1, None).store;
            CreateAdminUser(db1, session, form2, isEmail, hash, id2, now2, None).reply == Failure(EmailExistsText)
  {
    var db1 := CreateAdminUser(db, session, form, isEmail, hash, id1, now1, None).store;
    assert db1[id1].email == form.email.value;
    assert HasEmail(db1, form2.email.value);
  }

  /** The target row carries the root email (`ADMIN_EMAIL`). */
  predicate IsRootTarget(db: UserDb, userId: string, rootEmail: Option<string>) {
    userId in db && rootEmail == Some(db[userId].email)
  }

  /** The caller's own id, when the session carries one. */
  predicate IsSelf(session: Option<Session>, userId: string) {
    session.Some? && session.value.user.Some? && session.value.user.value.id == Some(userId)
  }

  /**
   * `deleteAdminUser(userId)`. `rootEmail` is `ADMIN_EMAIL`; `lookupFails`
   * stands for the email lookup throwing (its error is ignored) and
   * `deleteFails` for the `DELETE` throwing.
   */
  function DeleteAdminUser(db: UserDb, session: Option<Session>, userId: string, rootEmail: Option<string>,
                           lookupFails: bool, deleteFails: bool): (out: Effect<UserDb>)
    ensures !IsAdmin(session) ==> out == Effect(Failure(UnauthorizedText), db, None)
    ensures IsAdmin(session) && IsSelf(session, userId) ==> out == Effect(Failure(SelfDeleteText), db, None)
    ensures IsAdmin(session) && !IsSelf(session, userId) && !lookupFails && IsRootTarget(db, userId, rootEmail) ==>
              out == Effect(Failure(RootDeleteText), db, None)
    ensures IsAdmin(session) && !IsSelf(session, userId) && (lookupFails || !IsRootTarget(db, userId, rootEmail)) ==>
              if deleteFails then out == Effect(Failure(DeleteFailedText), db, None)
              else && out.reply == Success(DeletedText) && out.revalidated == Some(UsersPath)
                   && out.store.Keys == db.Keys - {userId}
                   && (forall k :: k in out.store ==> out.store[k] == db[k])
  {
    if !IsAdmin(session) then Effect(Failure(UnauthorizedText), db, None)
    else if IsSelf(session, userId) then Effect(Failure(SelfDeleteText), db, None)
    else if !lookupFails && IsRootTarget(db, userId, rootEmail) then Effect(Failure(RootDeleteText), db, None)
    else if deleteFails then Effect(Failure(DeleteFailedText), db, None)
    else Effect(Success(DeletedText), db - {userId}, Some(UsersPath))
  }

  /** A delete removes at most the target row: every other row survives unchanged. */
  lemma DeleteTouchesOnlyTarget(db: UserDb, session: Option<Session>, userId: string, rootEmail: Option<string>,
                                lookupFails: bool, deleteFails: bool)
    ensures var out := DeleteAdminUser(db, session, userId, rootEmail, lookupFails, deleteFails);
            forall k :: k in db && k != userId ==> k in out.store && out.store[k] == db[k]
    ensures var out := DeleteAdminUser(db, session, userId, rootEmail, lookupFails, deleteFails);
            out.store.Keys <= db.Keys
  {
  }

  /** While the lookup works, the root admin's row survives every delete. */
  lemma RootSurvivesDelete(db: UserDb, session: Option<Session>, userId: string, root: string, deleteFails: bool)
    requires HasEmail(db, root)
    ensures HasEmail(DeleteAdminUser(db, session, userId, Some(root), false, deleteFails).store, root)
  {
    var out := DeleteAdminUser(db, session, userId, Some(root), false, deleteFails);
    var r :| r in db && db[r].email == root;
    if r == userId {
      assert IsRootTarget(db, userId, Some(root));
      assert out.store == db;
    } else {
      assert r in out.store && out.store[r] == db[r];
    }
  }

  /** Fail-open: when the lookup throws, even the root admin's row is deleted. */
  lemma LookupFailureDeletesRoot(db: UserDb, session: Option<Session>, userId: string, rootEmail: Option<string>)
    requires IsAdmin(session) && !IsSelf(session, userId)
    requires IsRootTarget(db, userId, rootEmail)
    ensures userId !in DeleteAdminUser(db, session, userId, rootEmail, true, false).store
  {
  }

  /**
   * The session `auth()` returns after a sign-in through this `authorize`. The
   * instance in `src/auth.ts` has no callbacks, so the session user holds the
   * name and email and never a role, whatever the token was before.
   */
  lemma SignedInSessionIsNotAdmin(creds: Credentials, env: AdminEnv, isEmail: string -> bool, expires: string)
    requires Authorize(creds, env, isEmail).Some?
    ensures var s := DefaultSession(DefaultToken(Authorize(creds, env, isEmail).value), expires);
            && s.user.Some? && s.user.value.email == env.adminEmail
            && !IsAdmin(Some(s))
  {
  }

  /**
   * The middleware's instance (`src/middleware.ts`) reads the same token with the
   * callbacks of `src/auth.config.ts`. Its requests carry no user, so `jwt` keeps
   * the token and `session` copies its absent role: the role is missing there too.
   */
  lemma MiddlewareSessionIsNotAdmin(creds: Credentials, env: AdminEnv, isEmail: string -> bool,
                                    later: nat, session: Session)
    requires Authorize(creds, env, isEmail).Some?
    ensures var t := Replay(DefaultToken(Authorize(creds, env, isEmail).value), seq(later, i => None));
            !IsAdmin(Some(SessionOf(session, t)))
  {
    ReplayKeepsRoleAbsent(DefaultToken(Authorize(creds, env, isEmail).value), seq(later, i => None));
  }

  /** Hence every admin mutation attempted under a signed-in session is refused and changes nothing. */
  lemma SignedInAdminCannotMutate(creds: Credentials, env: AdminEnv, isEmail: string -> bool, expires: string,
                                  db: UserDb, form: AdminForm, hash: string -> string, newId: string, now: int,
                                  fault: Option<string>, userId: string, lookupFails: bool, deleteFails: bool)
    requires Authorize(creds, env, isEmail).Some?
    ensures var s := Some(DefaultSession(DefaultToken(Authorize(creds, env, isEmail).value), expires));
            && CreateAdminUser(db, s, form, isEmail, hash, newId, now, fault) == Effect(Failure(UnauthorizedText), db, None)
            && DeleteAdminUser(db, s, userId, env.adminEmail, lookupFails, deleteFails) == Effect(Failure(UnauthorizedText), db, None)
  {
    SignedInSessionIsNotAdmin(creds, env, isEmail, expires);
  }

  // ---- the wiring the action evidently expects ----

  /**
   * The session under the wiring `deleteAdminUser`'s comments assume: the
   * instance behind `auth()` installs the callbacks of `src/auth.config.ts`, so
   * the sign-in `jwt` call copies the user's id and role into the token and
   * `session` copies them onto the default session's user.
   */
  function IntendedSession(user: AuthUser, expires: string): (s: Session)
    ensures s.user.Some? && s.user.value.id == Some(user.id) && s.user.value.role == user.role
    ensures s.user.value.email == Some(user.email) && s.expires == expires
  {
    var t := Jwt(DefaultToken(user), Some(user));
    SessionOf(DefaultSession(t, expires), t)
  }

  /**
   * With that wiring, and with `authorize` giving its user the `admin` role, the
   * signed-in administrator is an admin session: neither mutation answers
   * Unauthorized, and the self-deletion guard recognises the caller's own id "1".
   */
  lemma IntendedAdminCanMutate(creds: Credentials, env: AdminEnv, isEmail: string -> bool, expires: string,
                               db: UserDb, form: AdminForm, hash: string -> string, newId: string, now: int,
                               fault: Option<string>, userId: string, lookupFails: bool, deleteFails: bool)
    requires Authorize(creds, env, isEmail).Some?
    ensures var s := Some(IntendedSession(Authorize(creds, env, isEmail).value.(role := Some(AdminRole)), expires));
            && IsAdmin(s)
            && CreateAdminUser(db, s, form, isEmail, hash, newId, now, fault).reply != Failure(UnauthorizedText)
            && DeleteAdminUser(db, s, userId, env.adminEmail, lookupFails, deleteFails).reply != Failure(UnauthorizedText)
            && (DeleteAdminUser(db, s, userId, env.adminEmail, lookupFails, deleteFails).reply == Failure(SelfDeleteText)
                <==> userId == "1")
  {
  }
}
