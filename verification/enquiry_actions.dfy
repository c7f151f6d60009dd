/**
 * The public lead-capture action and the bulk delete of enquiries
 * (`src/app/actions.ts`): honeypot short-circuit, zod validation, one insert
 * with defaults; `parseInt` of the submitted ids and one delete per id.
 */
module EnquiryActions {
  import opened Wrappers
  import opened Text
  import opened JsNumber
  import opened Responses
  import opened EnquiryStore
  import opened Seqs

  const InvalidPhone := "Invalid phone number"
  const SubmittedText := "Enquiry submitted successfully!"
  const SaveFailedText := "Database Error: Failed to save enquiry."
  const NoValidIdsText := "No valid IDs provided"
  const DeleteFailedText := "Failed to delete enquiries"
  const DefaultCourse := "General"
  const NewStatus := "New"
  /** The admin dashboard path whose cached view both actions invalidate. */
  const AdminPath := "/admin"

  /** The submitted form: `FormData.get` of each field, `None` when the field is absent. */
  datatype EnquiryForm = EnquiryForm(
    name: Option<string>,
    phone: Option<string>,
    course: Option<string>,
    confirmEmail: Option<string>  // the hidden honeypot field
  )

  /** The data of a form that passed the schema. */
  datatype EnquiryInput = EnquiryInput(name: string, phone: string, course: string)

  /** The class `[\d\s-]`. */
  predicate PhoneChar(c: char) {
    IsDigit(c) || IsJsWhitespace(c) || c == '-'
  }

  predicate AllPhoneChars(s: string) {
    forall i :: 0 <= i < |s| ==> PhoneChar(s[i])
  }

  /**
   * `/^\+?[\d\s-]{10,}$/`: the whole string is a run of at least ten class
   * characters, or a plus sign followed by such a run. (A plus sign is not in
   * the class, so a string starting with one can only match the second way.)
   */
  predicate ValidPhone(s: string): (r: bool)
    // A run of class characters matches exactly when it is at least ten long.
    ensures AllPhoneChars(s) ==> (r <==> |s| >= 10)
    // After a leading plus sign the rest must be such a run.
    ensures |s| > 0 && s[0] == '+' ==> (r <==> |s| >= 11 && AllPhoneChars(s[1..]))
    // Nothing else matches.
    ensures r ==> |s| >= 10 && (AllPhoneChars(s) || s[0] == '+')
  {
    (|s| >= 10 && AllPhoneChars(s)) || (|s| >= 11 && s[0] == '+' && AllPhoneChars(s[1..]))
  }

  predicate PhoneOk(v: Option<string>) {
    v.Some? && ValidPhone(v.value)
  }

  /**
   * `schema.safeParse(...)`: every field is checked, and the flattened error
   * map names each failing field. `course` is `z.string().optional()`, which
   * admits `undefined` but not the `null` of an absent form field.
   */
  function ValidateEnquiry(form: EnquiryForm): (r: Result<EnquiryInput, FieldErrors>)
    ensures r.Ok? <==> NameOk(form.name) && PhoneOk(form.phone) && form.course.Some?
    ensures r.Ok? ==> r.value == EnquiryInput(form.name.value, form.phone.value, form.course.value)
    ensures r.Err? ==> ("name" in r.error <==> !NameOk(form.name))
    ensures r.Err? ==> ("phone" in r.error <==> !PhoneOk(form.phone))
    ensures r.Err? ==> ("course" in r.error <==> form.course.None?)
    ensures r.Err? ==> r.error.Keys <= {"name", "phone", "course"}
    ensures r.Err? && form.name.Some? && !NameOk(form.name) ==> r.error["name"] == [NameTooShort]
    ensures r.Err? && form.phone.Some? && !PhoneOk(form.phone) ==> r.error["phone"] == [InvalidPhone]
  {
    var nameIssues := StringIssues(form.name, s => MinLength(s, MinNameLength), NameTooShort);
    var phoneIssues := StringIssues(form.phone, ValidPhone, InvalidPhone);
    var courseIssues := StringIssues(form.course, s => true, "");
    if |nameIssues| == 0 && |phoneIssues| == 0 && |courseIssues| == 0 then
      Ok(EnquiryInput(form.name.value, form.phone.value, form.course.value))
    else
      Err(AddIssues(AddIssues(AddIssues(map[], "name", nameIssues), "phone", phoneIssues), "course", courseIssues))
  }

  /**
   * zod measures `.min(2)` in UTF-16 code units, as JavaScript's `length` does: a
   * name made of a single emoji is long enough.
   */
  lemma EmojiNameAccepted()
    ensures ValidateEnquiry(EnquiryForm(Some("\U{1F600}"), Some("9876543210"), Some(""), None)).Ok?
  {
    EmojiIsTwoUnits();
    assert AllPhoneChars("9876543210");
  }

  /** `course || 'General'`. */
  function CourseInterest(course: string): (r: string)
    ensures |course| > 0 ==> r == course
    ensures |course| == 0 ==> r == DefaultCourse
  {
    if |course| > 0 then course else DefaultCourse
  }

  /**
   * `submitEnquiry(prevState, formData)`. `insertFails` stands for the
   * `INSERT` throwing; `now` is the creation time the store stamps.
   */
  function SubmitEnquiry(db: Db, form: EnquiryForm, insertFails: bool, now: int): (out: Effect<Db>)
    requires Valid(db)
    ensures Valid(out.store)
    // Honeypot: fabricated success, nothing stored, whatever the other fields hold.
    ensures Truthy(form.confirmEmail) ==>
              out.reply == Success(SubmittedText) && out.store == db && out.revalidated == None
    // Validation failure: the per-field map, nothing stored.
    ensures !Truthy(form.confirmEmail) && ValidateEnquiry(form).Err? ==>
              out.reply == Reply(false, PerField(ValidateEnquiry(form).error))
              && out.store == db && out.revalidated == None
    // Insert failure: a generic message, nothing stored, no cache invalidation.
    ensures !Truthy(form.confirmEmail) && ValidateEnquiry(form).Ok? && insertFails ==>
              out.reply == Failure(SaveFailedText) && out.store == db && out.revalidated == None
    // Success: exactly one new row, defaults applied, every existing row untouched.
    ensures !Truthy(form.confirmEmail) && ValidateEnquiry(form).Ok? && !insertFails ==>
              && out.reply == Success(SubmittedText)
              && out.revalidated == Some(AdminPath)
              && out.store.rows.Keys == db.rows.Keys + {db.nextId}
              && db.nextId !in db.rows
              && (forall k :: k in db.rows ==> out.store.rows[k] == db.rows[k])
              && out.store.rows[db.nextId].name == form.name.value
              && out.store.rows[db.nextId].phone == form.phone.value
              && out.store.rows[db.nextId].status == NewStatus
              && out.store.rows[db.nextId].createdAt == now
              && out.store.rows[db.nextId].courseInterest ==
                 Some(if form.course.value == "" then DefaultCourse else form.course.value)
    // Any successful reply is the one text the honeypot also shows.
    ensures out.reply.Succeeded() ==> out.reply == Success(SubmittedText)
  {
    if Truthy(form.confirmEmail) then
      Effect(Success(SubmittedText), db, None)
    else
      match ValidateEnquiry(form)
      case Err(errors) => Effect(Reply(false, PerField(errors)), db, None)
      case Ok(input) =>
        if insertFails then Effect(Failure(SaveFailedText), db, None)
        else
          var db' := Insert(db, input.name, input.phone, CourseInterest(input.course), NewStatus, now);
          Effect(Success(SubmittedText), db', Some(AdminPath))
  }

  /** `ids.map(id => parseInt(id, 10)).filter(id => !isNaN(id))`. */
  function ParseIds(ids: seq<string>): (r: seq<int>)
    ensures |r| <= |ids|
  {
    FilterMap(ParseInt, ids)
  }

  /** An integer is kept iff some submitted id parses to it. */
  lemma ParseIdsMembers(ids: seq<string>, n: int)
    ensures n in ParseIds(ids) <==> exists i :: 0 <= i < |ids| && ParseInt(ids[i]) == Some(n)
  {
    FilterMapMembers(ParseInt, ids, n);
  }

  /** Parsing distributes over concatenation: each id is kept or dropped on its own, in order. */
  lemma ParseIdsConcat(a: seq<string>, b: seq<string>)
    ensures ParseIds(a + b) == ParseIds(a) + ParseIds(b)
  {
    FilterMapConcat(ParseInt, a, b);
  }

  /** A single id contributes its parsed value, or nothing when `parseInt` gives NaN. */
  lemma ParseIdsSingle(s: string)
    ensures ParseIds([s]) == (match ParseInt(s) case Some(n) => [n] case None => [])
  {
    FilterMapSingle(ParseInt, s);
  }

  /** `ns.map(n => n.toString())`. */
  function Rendered(ns: seq<int>): (r: seq<string>)
    ensures |r| == |ns|
    ensures forall i :: 0 <= i < |ns| ==> r[i] == IntToString(ns[i])
  {
    Map(IntToString, ns)
  }

  /** Ids rendered with `toString()` parse back to themselves, in order. */
  lemma ParseIdsOfRendered(ns: seq<int>)
    ensures ParseIds(Rendered(ns)) == ns
  {
    forall n | n in ns
      ensures ParseInt(IntToString(n)) == Some(n)
    {
      ParseIntToString(n);
    }
    FilterMapInverse(ParseInt, IntToString, ns);
  }

  /**
   * `deleteEnquiries(ids)`. No session is consulted. `failAt == Some(k)` stands
   * for the `k`-th delete statement throwing: the deletes before it stay
   * applied (there is no transaction), and the cache is not invalidated.
   */
  function DeleteEnquiries(db: Db, ids: seq<string>, failAt: Option<nat>): (out: Effect<Db>)
    ensures ParseIds(ids) == [] ==>
              out.reply == Failure(NoValidIdsText) && out.store == db && out.revalidated == None
    ensures ParseIds(ids) != [] && (failAt.None? || failAt.value >= |ParseIds(ids)|) ==>
              && out.reply == Counted(|ParseIds(ids)|)
              && out.revalidated == Some(AdminPath)
              && out.store.nextId == db.nextId
              && (forall k :: k in out.store.rows <==> k in db.rows && k !in ParseIds(ids))
              && (forall k :: k in out.store.rows ==> out.store.rows[k] == db.rows[k])
    ensures ParseIds(ids) != [] && failAt.Some? && failAt.value < |ParseIds(ids)| ==>
              && out.reply == Failure(DeleteFailedText)
              && out.revalidated == None
              && out.store.nextId == db.nextId
              && (forall k :: k in out.store.rows <==>
                    k in db.rows && k !in ParseIds(ids)[..failAt.value])
              && (forall k :: k in out.store.rows ==> out.store.rows[k] == db.rows[k])
    ensures Valid(db) ==> Valid(out.store)
  {
    var nums := ParseIds(ids);
    if |nums| == 0 then Effect(Failure(NoValidIdsText), db, None)
    else if failAt.Some? && failAt.value < |nums| then
      Effect(Failure(DeleteFailedText), Db(DeleteIds(db.rows, nums[..failAt.value]), db.nextId), None)
    else
      Effect(Counted(|nums|), Db(DeleteIds(db.rows, nums), db.nextId), Some(AdminPath))
  }

  /** `"12"` denotes twelve. */
  lemma TwelveValue()
    ensures AllDigits("12") && DigitsValue("12") == 12
  {
    assert "12"[..1] == "1";
    assert "1"[..0] == "";
  }

  /** `parseInt("12abc", 10)` is 12 and `parseInt("abc", 10)` is NaN. */
  lemma ParseIntSamples()
    ensures ParseInt("12abc") == Some(12)
    ensures ParseInt("abc") == None
    ensures ParseInt("12") == Some(12)
  {
    TwelveValue();
    ParseIntOfNumeral("", "", "12", "abc");
    assert "" + "" + "12" + "abc" == "12abc";
    ParseIntNaN("", "", "abc");
    assert "" + "" + "abc" == "abc";
    ParseIntDigits("12");
  }

  /** The ids `["12abc", "abc", "12"]` parse to `[12, 12]`: a digit prefix is kept, NaN is dropped, repeats stay. */
  lemma ParseIdsSample()
    ensures ParseIds(["12abc", "abc", "12"]) == [12, 12]
  {
    ParseIntSamples();
    FilterMapDropsMiddle(ParseInt, "12abc", "abc", "12", 12, 12);
  }

  /** The reply counts both copies of 12 although at most one row can go. */
  lemma DeleteCountsParsedIds(db: Db)
    ensures DeleteEnquiries(db, ["12abc", "abc", "12"], None).reply == Counted(2)
    ensures 12 !in DeleteEnquiries(db, ["12abc", "abc", "12"], None).store.rows
  {
    ParseIdsSample();
  }
}
