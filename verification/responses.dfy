/**
 * The plain-object replies of the server actions, the field-error map zod's
 * `error.flatten().fieldErrors` produces, and the side effects an action
 * leaves behind (the store after it and the cache path it invalidated).
 */
module Responses {
  import opened Wrappers
  import opened Text

  /** Field name to the messages of the checks that field failed. */
  type FieldErrors = map<string, seq<string>>

  /** `message` is either display text or a per-field error map. */
  datatype Message = Plain(text: string) | PerField(errors: FieldErrors)

  /** `{ success, message }`, or the bulk delete's `{ success: true, count }`. */
  datatype Reply = Reply(success: bool, message: Message) | Counted(count: nat) {
    /** The `success` field the client reads. */
    predicate Succeeded() {
      Counted? || success
    }
  }

  /** `{ success: true, message: text }`. */
  function Success(text: string): Reply {
    Reply(true, Plain(text))
  }

  /** `{ success: false, message: text }`. */
  function Failure(text: string): Reply {
    Reply(false, Plain(text))
  }

  /**
   * An action's observable result: its reply, the store after it, and the
   * path passed to `revalidatePath`, if the action reached that call.
   */
  datatype Effect<S> = Effect(reply: Reply, store: S, revalidated: Option<string>)

  /** zod's message when a `z.string()` field receives `null` (what `FormData.get` returns for a missing field). */
  const NullStringIssue := "Expected string, received null"

  /** The issues zod reports for a `z.string()` field with one refinement check. */
  function StringIssues(v: Option<string>, ok: string -> bool, message: string): (r: seq<string>)
    ensures v.None? ==> r == [NullStringIssue]
    ensures v.Some? ==> (r == [] <==> ok(v.value))
    ensures v.Some? && !ok(v.value) ==> r == [message]
  {
    match v
    case None => [NullStringIssue]
    case Some(s) => if ok(s) then [] else [message]
  }

  /** `z.string().min(2, ...)` on the `name` field, shared by the enquiry and the admin forms. */
  const MinNameLength := 2
  const NameTooShort := "Name must be at least 2 characters"

  /** The name field is present and at least two UTF-16 code units long. */
  predicate NameOk(v: Option<string>) {
    v.Some? && MinLength(v.value, MinNameLength)
  }

  /** Records a field's issues; a field without issues does not appear in the flattened map. */
  function AddIssues(errs: FieldErrors, field: string, issues: seq<string>): FieldErrors {
    if |issues| == 0 then errs else errs[field := issues]
  }
}
