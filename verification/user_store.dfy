/**
 * The `users` table as an abstract store: rows keyed by their UUID id, with
 * the UNIQUE constraint on `email` (and the primary key) enforced on insert.
 * Also the deployment's root-admin settings read from the environment.
 */
module UserStore {
  import opened Wrappers

  /** A row of `users`; `password` holds the bcrypt hash. */
  datatype UserRow = UserRow(name: string, email: string, password: string, role: string, createdAt: int)

  type UserDb = map<string, UserRow>

  /** `ADMIN_EMAIL` and `ADMIN_PASSWORD`; `None` when the variable is unset. */
  datatype AdminEnv = AdminEnv(adminEmail: Option<string>, adminPassword: Option<string>)

  /** Postgres' SQLSTATE for a unique-constraint violation. */
  const UniqueViolation := "23505"

  /** Some row carries `email`. */
  predicate HasEmail(db: UserDb, email: string) {
    exists id :: id in db && db[id].email == email
  }

  /** The UNIQUE constraint on `email`. */
  predicate UniqueEmails(db: UserDb) {
    forall a, b :: a in db && b in db && db[a].email == db[b].email ==> a == b
  }

  /**
   * `INSERT INTO users ...` under id `id`. `fault` is an error the statement
   * raises for reasons outside the table (connection, hashing); otherwise a
   * clash on the primary key or on `email` raises `23505`.
   */
  function Insert(db: UserDb, id: string, row: UserRow, fault: Option<string>): (r: Result<UserDb, string>)
    ensures fault.Some? ==> r == Err(fault.value)
    ensures fault.None? ==> (r.Ok? <==> id !in db && !HasEmail(db, row.email))
    ensures fault.None? && r.Err? ==> r.error == UniqueViolation
    ensures r.Ok? ==> r.value.Keys == db.Keys + {id} && id !in db && r.value[id] == row
    ensures r.Ok? ==> forall k :: k in db ==> r.value[k] == db[k]
    ensures r.Ok? && UniqueEmails(db) ==> UniqueEmails(r.value)
  {
    if fault.Some? then Err(fault.value)
    else if id in db || HasEmail(db, row.email) then Err(UniqueViolation)
    else Ok(db[id := row])
  }
}
