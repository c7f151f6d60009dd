/**
 * The seeding script (`scripts/seed-admin.js`): create the root
 * administrator from `ADMIN_EMAIL` and `ADMIN_PASSWORD` unless a row with
 * that email already exists. `hash` is bcrypt, `newId` the generated UUID.
 */
module SeedAdmin {
  import opened Wrappers
  import opened Text
  import opened UserStore

  const RootName := "Super Admin"
  const RootRole := "admin"

  /**
   * What a run ends with: a console message, a caught error logged by the
   * `catch`, or a rejection that escapes it (the connection is opened before
   * the `try`).
   */
  datatype Outcome = MissingEnv | Seeded | AlreadyExists | Failed(code: string) | Unhandled(code: string)

  /**
   * The statement that throws, if any: opening the connection, `CREATE TABLE`,
   * the `SELECT` by email, or the hashing and `INSERT`.
   */
  datatype Stage = Connect | CreateTable | Lookup | Write
  datatype Fault = Fault(stage: Stage, code: string)

  predicate FailsAt(fault: Option<Fault>, stage: Stage) {
    fault.Some? && fault.value.stage == stage
  }

  /** The error the `INSERT` raises for reasons outside the table, if the write is the step that fails. */
  function WriteFault(fault: Option<Fault>): Option<string> {
    if FailsAt(fault, Write) then Some(fault.value.code) else None
  }

  /** The environment names a usable root account: both variables set and non-empty. */
  predicate EnvReady(env: AdminEnv) {
    Truthy(env.adminEmail) && Truthy(env.adminPassword)
  }

  /** The row the script inserts for the root administrator. */
  function RootRow(env: AdminEnv, hash: string -> string, now: int): UserRow
    requires EnvReady(env)
  {
    UserRow(RootName, env.adminEmail.value, hash(env.adminPassword.value), RootRole, now)
  }

  /** One run of `seed()`. Every error is thrown before anything is written, so it leaves the table as it was. */
  function Seed(db: UserDb, env: AdminEnv, hash: string -> string, newId: string, now: int, fault: Option<Fault>)
    : (out: (Outcome, UserDb))
    ensures FailsAt(fault, Connect) ==> out == (Unhandled(fault.value.code), db)
    ensures FailsAt(fault, CreateTable) ==> out == (Failed(fault.value.code), db)
    ensures !EnvReady(env) && !FailsAt(fault, Connect) && !FailsAt(fault, CreateTable) ==> out == (MissingEnv, db)
    ensures EnvReady(env) && FailsAt(fault, Lookup) ==> out == (Failed(fault.value.code), db)
    ensures EnvReady(env) && (fault.None? || FailsAt(fault, Write)) && HasEmail(db, env.adminEmail.value) ==>
              out == (AlreadyExists, db)
    ensures EnvReady(env) && FailsAt(fault, Write) && !HasEmail(db, env.adminEmail.value) ==>
              out == (Failed(fault.value.code), db)
    ensures EnvReady(env) && fault.None? && !HasEmail(db, env.adminEmail.value) && newId in db ==>
              out == (Failed(UniqueViolation), db)
    ensures EnvReady(env) && fault.None? && !HasEmail(db, env.adminEmail.value) && newId !in db ==>
              && out.0 == Seeded
              && out.1.Keys == db.Keys + {newId}
              && (forall k :: k in db ==> out.1[k] == db[k])
              && out.1[newId] == RootRow(env, hash, now)
    ensures out.1 != db ==> out.0 == Seeded
    ensures UniqueEmails(db) ==> UniqueEmails(out.1)
  {
    if FailsAt(fault, Connect) then (Unhandled(fault.value.code), db)
    else if FailsAt(fault, CreateTable) then (Failed(fault.value.code), db)
    else if !EnvReady(env) then (MissingEnv, db)
    else if FailsAt(fault, Lookup) then (Failed(fault.value.code), db)
    else if HasEmail(db, env.adminEmail.value) then (AlreadyExists, db)
    else
      match Insert(db, newId, RootRow(env, hash, now), WriteFault(fault))
      case Err(code) => (Failed(code), db)
      case Ok(db') => (Seeded, db')
  }

  /** After a run with a usable environment in which nothing throws, the root email is in the table. */
  lemma SeedEstablishesRoot(db: UserDb, env: AdminEnv, hash: string -> string, newId: string, now: int)
    requires EnvReady(env) && newId !in db
    ensures HasEmail(Seed(db, env, hash, newId, now, None).1, env.adminEmail.value)
  {
    var out := Seed(db, env, hash, newId, now, None);
    if !HasEmail(db, env.adminEmail.value) {
      assert out.1[newId].email == env.adminEmail.value;
    }
  }

  /**
   * Running the script a second time changes nothing, whatever that run
   * throws, and without an error it reports the existing admin.
   */
  lemma SeedIdempotent(db: UserDb, env: AdminEnv, hash: string -> string, id1: string, id2: string,
                       now1: int, now2: int, fault2: Option<Fault>)
    requires id1 !in db
    ensures var db1 := Seed(db, env, hash, id1, now1, None).1;
            Seed(db1, env, hash, id2, now2, fault2).1 == db1
    ensures EnvReady(env) && fault2.None? ==>
              Seed(Seed(db, env, hash, id1, now1, None).1, env, hash, id2, now2, fault2).0 == AlreadyExists
  {
    if EnvReady(env) {
      SeedEstablishesRoot(db, env, hash, id1, now1);
    }
  }

  /** Starting from a table with unique emails, the root email names exactly one row after a clean run. */
  lemma SeedRootUnique(db: UserDb, env: AdminEnv, hash: string -> string, newId: string, now: int)
    requires EnvReady(env) && newId !in db && UniqueEmails(db)
    ensures var db1 := Seed(db, env, hash, newId, now, None).1;
            exists r :: r in db1 && db1[r].email == env.adminEmail.value &&
              forall k :: k in db1 && db1[k].email == env.adminEmail.value ==> k == r
  {
    var db1 := Seed(db, env, hash, newId, now, None).1;
    SeedEstablishesRoot(db, env, hash, newId, now);
    var r :| r in db1 && db1[r].email == env.adminEmail.value;
  }
}
