/**
 * The `enquiries` table as an abstract store: rows keyed by their SERIAL id,
 * plus the next value the id sequence hands out.
 */
module EnquiryStore {
  import opened Wrappers

  /** One lead: the row of `enquiries`, and the record the admin table receives. */
  datatype Enquiry = Enquiry(
    id: int,
    name: string,
    phone: string,
    courseInterest: Option<string>,  // nullable column
    status: string,
    createdAt: int                   // milliseconds since the epoch
  )

  datatype Db = Db(rows: map<int, Enquiry>, nextId: int)

  /** Every row sits under its own id, and ids come from the SERIAL sequence (from 1, below `nextId`). */
  predicate Valid(db: Db) {
    && 1 <= db.nextId
    && forall k :: k in db.rows ==> db.rows[k].id == k && 1 <= k < db.nextId
  }

  /** `INSERT INTO enquiries (...)`: the store assigns the next id and the creation time `now`. */
  function Insert(db: Db, name: string, phone: string, course: string, status: string, now: int): (r: Db)
    requires Valid(db)
    ensures Valid(r)
    ensures db.nextId !in db.rows
    ensures r.rows.Keys == db.rows.Keys + {db.nextId}
    ensures forall k :: k in db.rows ==> r.rows[k] == db.rows[k]
    ensures r.rows[db.nextId] == Enquiry(db.nextId, name, phone, Some(course), status, now)
  {
    Db(db.rows[db.nextId := Enquiry(db.nextId, name, phone, Some(course), status, now)], db.nextId + 1)
  }

  /** `DELETE FROM enquiries WHERE id = ...` for each id in turn; a missing id deletes nothing. */
  function DeleteIds(rows: map<int, Enquiry>, ids: seq<int>): (r: map<int, Enquiry>)
    ensures forall k :: k in r <==> k in rows && k !in ids
    ensures forall k :: k in r ==> r[k] == rows[k]
    decreases |ids|
  {
    if |ids| == 0 then rows else DeleteIds(rows - {ids[0]}, ids[1..])
  }
}
