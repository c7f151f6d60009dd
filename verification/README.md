# Elevate U Academy: a verified model of the site's decision logic

This project models the site elevateuacademy.in in Dafny: a Next.js marketing site with a
lead-capture form and a small password-protected admin area. The model covers the logic
that decides things and leaves out the rendering:

- **Lead capture** (`submitEnquiry`): a honeypot field, zod validation of name, phone and
  course, and one `INSERT` into the `enquiries` table with defaults.
- **Bulk delete** (`deleteEnquiries`): ids arrive as strings, are read with ECMAScript
  `parseInt(s, 10)` (section 19.2.5 of ECMA-262), and are deleted one statement at a time.
- **Admin mutations** (`createAdminUser`, `deleteAdminUser`): a role check, then
  validation or the self/root guards, then one store statement whose error is mapped to
  a message.
- **Auth.js configuration**:
  - the `jwt` and `session` callbacks of the config the middleware uses, and Auth.js's
    default callbacks, which the instance behind `auth()` runs;
  - the `redirect` normalisation of the same config. Like `jwt` and `session`, it is
    installed only on the middleware's instance (src/middleware.ts:4), which uses
    nothing but `.auth`; sign-in and sign-out go through the instance in src/auth.ts,
    which follows Auth.js's default redirect;
  - the `authorized` allow/deny/redirect gate and the middleware matcher that limits it
    to `/admin/:path*`;
  - the Credentials provider's `authorize`, which compares the credentials with
    `ADMIN_EMAIL` and `ADMIN_PASSWORD`.
- **The admin enquiry table**: a search and date filter, a selection of row ids with
  select-all and per-row toggles, CSV text, and the selection after a bulk delete.
- **The course and blog indexes**: a category menu built with `new Set`, and their
  filters.
- **The FAQ accordion**: a single-open accordion.
- **The seeding script**: creates the root administrator if none exists.

Databases are abstract maps threaded through pure functions:

- `enquiries` is keyed by its SERIAL id and carries the next id.
- `users` is keyed by its UUID and has a UNIQUE email column.

Every action returns an `Effect`: the reply object, the store afterwards, and the path
handed to `revalidatePath`, if any. Foreign calls become parameters:

- bcrypt is a function `hash`, and zod's email regex is a predicate `isEmail`.
- The clock is an integer `now` in milliseconds, and `toLocaleDateString` is a function
  `fmtDate`.
- The generated UUID is `newId`.
- A thrown database error is a boolean or an error code (in the seeding script, also the
  statement that throws).

Modules (one file each):

- Shared helpers: `Wrappers`, `Text` (JavaScript string operations), `Seqs` (`filter`
  and `Set` de-duplication), and `JsNumber` (`parseInt` and integer `toString`).
- Replies and stores: `Responses`, `EnquiryStore`, `UserStore`.
- The rest follow the source files: `EnquiryActions`, `AdminActions`, `AuthConfig`,
  `Auth`, `SeedAdmin`, `EnquiryTable`, `Faq`, `Catalogue`, `Courses`, `Blog`.

## Model

| member | source | states |
|---|---|---|
| Responses.StringIssues | src/app/actions.ts:8-10 | A `z.string()` field that is `null` (absent from the form) fails with zod's null message. A present string fails exactly when its refinement fails. |
| Text.Utf16Length | src/app/actions.ts:8 | zod's `.min(n)` counts JavaScript `length`, in UTF-16 code units: at least one unit per character and at most two, with exactly one per character iff none lies outside the Basic Multilingual Plane. |
| Text.Utf16LengthConcat | src/app/actions.ts:8 | The code-unit length of a concatenation is the sum of the lengths. |
| Text.EmojiIsTwoUnits | src/app/actions.ts:8 | A single emoji is two code units long, so it meets `.min(2)`. |
| Text.ContainsIffOccurs | src/components/admin/EnquiryDataTable.tsx:34-36 | `s.includes(t)` (here and in the blog search at src/app/blog/BlogIndexClient.tsx:23-24) holds iff `t` sits in `s` at some index; the empty string is found everywhere. |
| EnquiryStore.Insert | src/app/actions.ts:41-44 | The insert adds exactly one row, under the next SERIAL id, with the given fields and creation time. Every existing row keeps its value, and the store invariant (each row under its own id, ids below the sequence value) is kept. |
| EnquiryStore.DeleteIds | src/app/actions.ts:69-71 | After one delete per id, a row remains iff it was there and its id is not in the list. Surviving rows are unchanged, and missing ids delete nothing. |
| EnquiryActions.ValidateEnquiry | src/app/actions.ts:7-36 | Validation passes iff the name has at least 2 UTF-16 code units, the phone matches `^\+?[\d\s-]{10,}$`, and a course value is present. Otherwise every failing field is named in the error map and only those. A present short name gives "Name must be at least 2 characters"; a present bad phone gives "Invalid phone number". |
| EnquiryActions.ValidPhone | src/app/actions.ts:9 | `/^\+?[\d\s-]{10,}$/`: a run of digits, white space and hyphens matches iff it has at least ten characters; after a leading `+`, the rest must be such a run; nothing else matches. |
| EnquiryActions.EmojiNameAccepted | src/app/actions.ts:8 | A one-emoji name passes validation, because zod counts its two code units. |
| EnquiryActions.CourseInterest | src/app/actions.ts:43 | A non-empty course is stored as given; an empty one becomes "General". |
| EnquiryActions.SubmitEnquiry | src/app/actions.ts:13-51 | A non-empty honeypot gives the success text and stores nothing, even for invalid fields. A validation failure returns the per-field map and stores nothing. An insert failure gives "Database Error: Failed to save enquiry." without invalidating `/admin`. Otherwise exactly one row is added (status "New", course or "General", time `now`), all existing rows are unchanged and `/admin` is invalidated. Any successful reply is the same text the honeypot shows. |
| EnquiryActions.ParseIds | src/app/actions.ts:56 | The parsed list is never longer than the submitted list: ids are only kept or dropped. |
| EnquiryActions.ParseIdsMembers | src/app/actions.ts:56 | An integer is in the parsed list iff some submitted id `parseInt`s to it. |
| EnquiryActions.ParseIdsConcat | src/app/actions.ts:56 | Each id is kept or dropped on its own and order is preserved: parsing distributes over concatenation. |
| EnquiryActions.ParseIdsOfRendered | src/app/actions.ts:56 | Ids rendered with `toString()` parse back to exactly the original integers, in order. |
| EnquiryActions.ParseIntSamples | src/app/actions.ts:56 | `parseInt("12abc")` is 12, `parseInt("abc")` is NaN, and `parseInt("12")` is 12. |
| EnquiryActions.ParseIdsSample | src/app/actions.ts:56 | `["12abc", "abc", "12"]` parses to `[12, 12]`: the digit prefix is kept, NaN is dropped, and the duplicate stays. |
| EnquiryActions.DeleteEnquiries | src/app/actions.ts:53-81 | No parseable id gives "No valid IDs provided" and deletes nothing. Success reports `count` equal to the number of parsed ids (duplicates and missing ids included), removes exactly the rows with those ids and invalidates `/admin`. If statement `k` throws, the first `k` deletes stay applied, the reply is "Failed to delete enquiries" and nothing is invalidated. The store invariant is kept. |
| EnquiryActions.DeleteCountsParsedIds | src/app/actions.ts:56-76 | Deleting `["12abc", "abc", "12"]` reports a count of 2 and removes row 12. |
| JsNumber.ParseInt | src/app/actions.ts:56 | `parseInt(s, 10)` is NaN exactly when no decimal digit follows the leading white space and optional sign; a leading `-` gives a value of at most 0, and no sign or `+` gives at least 0. |
| JsNumber.TrimStart | src/app/actions.ts:56 | `parseInt` skips exactly the leading ECMAScript white space and line terminators: what remains is a suffix that does not start with one. |
| JsNumber.DigitPrefix | src/app/actions.ts:56 | The digits `parseInt` reads are the longest prefix of decimal digits. |
| JsNumber.ParseIntSkipsWhitespace | src/app/actions.ts:56 | Leading white space does not change the value. |
| JsNumber.ParseIntOfNumeral | src/app/actions.ts:56 | White space, an optional sign, digits, and a tail that does not start with a digit parse to the signed value of the digits. |
| JsNumber.ParseIntNaN | src/app/actions.ts:56 | Without a digit after the optional white space and sign, the result is NaN. |
| JsNumber.Decimal | src/components/admin/EnquiryDataTable.tsx:59 | The decimal rendering of a natural number is a non-empty digit string whose value is that number. |
| JsNumber.IntToString | src/components/admin/EnquiryDataTable.tsx:59 | `id.toString()` of an id below 10^21 in magnitude writes a non-negative id as digits whose value is the id, and a negative one as `-` followed by the digits of its magnitude. |
| JsNumber.ParseIntToString | src/components/admin/EnquiryDataTable.tsx:59 | `parseInt(i.toString(), 10) == i` for every integer below 10^21 in magnitude, which covers every id the SERIAL column can hold. |
| JsNumber.IntToStringInjective | src/components/admin/EnquiryDataTable.tsx:202 | Distinct ids have distinct selection keys. |
| UserStore.Insert | src/app/actions/admin-actions.ts:48-51 | The insert succeeds iff the id is new and no row has the email; otherwise (or on an injected fault) the table is unchanged and the error is "23505" or the fault. On success exactly the new row is added. Unique emails are preserved. |
| AdminActions.ValidateAdmin | src/app/actions/admin-actions.ts:9-39 | Passes iff the name has at least 2 UTF-16 code units, the email is valid and the password has at least 6 code units. Otherwise each failing field, and only those, is named with its own message. |
| AdminActions.CreateErrorReply | src/app/actions/admin-actions.ts:55-61 | Code "23505" maps to "Email already exists."; every other code maps to "Failed to create admin user.". |
| AdminActions.CreateAdminUser | src/app/actions/admin-actions.ts:15-62 | A caller without the admin role gets the Unauthorized text before any validation, and nothing changes. Invalid input returns the per-field map and nothing changes. A taken email or id gives "Email already exists."; other faults are mapped by code and nothing changes. On success exactly one row is added, with role "admin" and the hashed password, and `/admin/users` is invalidated. Unique emails are preserved, and the store changes only on success. |
| AdminActions.CreateNeverStoresPlaintext | src/app/actions/admin-actions.ts:45-51 | A successful create stores a password different from the submitted one, for any hash that never returns its input. |
| AdminActions.SecondCreateWithSameEmailConflicts | src/app/actions/admin-actions.ts:48-57 | After one successful create, a second valid create with the same email answers "Email already exists.". |
| AdminActions.DeleteAdminUser | src/app/actions/admin-actions.ts:64-107 | Unauthorized first, then self-deletion is refused, then a target holding `ADMIN_EMAIL` is refused while the lookup works. Otherwise a delete error gives "Failed to delete user." with no change. Success removes exactly the target row, leaves the others unchanged, answers "User deleted." and invalidates `/admin/users`. |
| AdminActions.DeleteTouchesOnlyTarget | src/app/actions/admin-actions.ts:99-102 | Whatever the outcome, every row other than the target survives unchanged and no row is added. |
| AdminActions.RootSurvivesDelete | src/app/actions/admin-actions.ts:85-94 | While the email lookup works, a row holding the root email survives every delete. |
| AdminActions.LookupFailureDeletesRoot | src/app/actions/admin-actions.ts:90-97 | If the lookup throws, its error is ignored and the root admin's row is deleted: the guard fails open. |
| AdminActions.SignedInSessionIsNotAdmin | src/auth.ts:5-34 | `auth()` runs Auth.js's default callbacks, so the session after signing in through `authorize` carries the admin email and no role: it is never an admin session. |
| AdminActions.MiddlewareSessionIsNotAdmin | src/middleware.ts:4 | The middleware reads the same token through the callbacks of src/auth.config.ts:6-19; with no user on those requests the token keeps its missing role, and so does the session. |
| AdminActions.SignedInAdminCannotMutate | src/app/actions/admin-actions.ts:17-25 | Under the session `auth()` returns after any successful sign-in, both mutations answer Unauthorized and leave the users table unchanged. |
| AdminActions.IntendedSession | src/auth.config.ts:6-19 | With the config's callbacks installed, the session after sign-in carries the user's id, role and email through the token. |
| AdminActions.IntendedAdminCanMutate | src/app/actions/admin-actions.ts:64-82 | With those callbacks and an `admin` role from `authorize`, the signed-in administrator is an admin session: neither mutation answers Unauthorized, and a delete is refused as self-deletion iff the target id is "1". |
| AuthConfig.Jwt | src/auth.config.ts:6-12 | With a user present, the token's id and role become the user's. Without one, the token is unchanged. Other claims are untouched. |
| AuthConfig.SessionOf | src/auth.config.ts:13-19 | With a session user, its id and role become the token's and its name and email are kept. Without a user, the session is unchanged. |
| AuthConfig.ReplayKeepsRoleAbsent | src/auth.config.ts:6-12 | If no user passed to `jwt` has a role, no sequence of calls puts a role in the token. |
| AuthConfig.RedirectAsWritten | src/auth.config.ts:20-36 | The result always starts with the base URL. A target not starting with it falls back to `baseUrl + "/admin"`. Otherwise the result is the target or that fallback. |
| AuthConfig.RedirectRootGoesToAdmin | src/auth.config.ts:22-29 | The base URL, the base URL plus "/", and the relative "/" all go to `baseUrl + "/admin"`. |
| AuthConfig.RedirectKeepsInternalTarget | src/auth.config.ts:26-31 | Any other target starting with the base URL is returned unchanged. |
| AuthConfig.RedirectRelativeStaysInternal | src/auth.config.ts:22-23 | A relative target becomes the base URL plus the path (or the dashboard fallback). |
| AuthConfig.RedirectAsWrittenLeavesSite | src/auth.config.ts:26 | The prefix test returns `baseUrl + ".evil.example/login"` unchanged although it names another host. |
| AuthConfig.Redirect | src/auth.config.ts:20-36 | With a same-site test: the result is always on the base URL's site, and any target elsewhere falls back to the dashboard. |
| AuthConfig.RedirectAgreesOnSameSite | src/auth.config.ts:26-31 | For every same-site target (so every relative one) the corrected callback returns what the original does. |
| AuthConfig.Authorized | src/auth.config.ts:37-55 | It redirects to `/admin` iff the user is logged in and the path contains "/signin". It denies iff the user is anonymous and the path starts with "/admin". A logged-in user is never denied, and nothing under `/api/auth` is denied. |
| AuthConfig.SignInNeverDenied | src/auth.config.ts:43-48 | `/api/auth/signin` is never denied: logged-in users are redirected to `/admin`, anonymous ones allowed. |
| AuthConfig.Gate | src/middleware.ts:6-9 | As deployed, a request is denied iff it is anonymous and the path is `/admin` or under `/admin/`. Paths the matcher skips are always allowed. |
| AuthConfig.AdministratorPrefixCase | src/auth.config.ts:39-51 | `/administrator` would be denied by the prefix test alone, but the deployed matcher never sends it to the gate. |
| Auth.Authorize | src/auth.ts:12-31 | A user is returned iff the credentials parse (email valid, password of at least 6 UTF-16 code units) and both equal the set `ADMIN_EMAIL` and `ADMIN_PASSWORD`. The user is always id "1", name "Admin", the admin email, and no role. |
| Auth.DefaultToken | src/auth.ts:5-34 | With no `jwt` callback configured, the token written at sign-in holds the user's name, email and id (as `sub`) and no `id` or `role` field. |
| Auth.DefaultSession | src/auth.ts:5-34 | With no `session` callback configured, the session user holds the token's name and email and never an id or role. |
| Auth.ShortAdminPasswordNeverAuthenticates | src/auth.ts:13-26 | An `ADMIN_PASSWORD` shorter than 6 UTF-16 code units never authenticates anyone. |
| Auth.EmojiPasswordAuthenticates | src/auth.ts:14-25 | An `ADMIN_PASSWORD` of three emoji (six code units) passes `.min(6)`, and the matching credentials sign in. |
| Auth.UnsetEnvNeverAuthenticates | src/auth.ts:21-30 | With either variable unset, every sign-in fails. |
| SeedAdmin.Seed | scripts/seed-admin.js:5-51 | A failed connection escapes the `try` as an unhandled error; a failed `CREATE TABLE` is caught. Then a missing or empty variable inserts nothing, a failed lookup is caught, and an existing row with the root email leaves the table unchanged. Otherwise exactly one row is added ("Super Admin", the email, the hashed password, "admin"), unless the hashing or insert throws. Every error leaves the table as it was, and unique emails are preserved. |
| SeedAdmin.SeedEstablishesRoot | scripts/seed-admin.js:32-41 | With both variables set and nothing throwing, the root email is present after a run. |
| SeedAdmin.SeedIdempotent | scripts/seed-admin.js:32-48 | After a clean run, a second run changes nothing whatever it throws and, with the variables set and no error, reports the existing admin. |
| SeedAdmin.SeedRootUnique | scripts/seed-admin.js:14-41 | Starting from unique emails, exactly one row carries the root email after seeding. |
| EnquiryTable.CeilDiv | src/components/admin/EnquiryDataTable.tsx:44 | `Math.ceil(a / b)` is the least `q` with `a <= q * b`. |
| EnquiryTable.CeilDivWithin | src/components/admin/EnquiryDataTable.tsx:44-47 | Rounded-up days are at most `n` iff the milliseconds are at most `n` days. |
| EnquiryTable.MatchesDate | src/components/admin/EnquiryDataTable.tsx:39-48 | "7days" keeps rows at most 7·86400000 ms from now (either direction) and "30days" at most 30 days. "all" and every other value keep everything. |
| EnquiryTable.FilteredEnquiries | src/components/admin/EnquiryDataTable.tsx:29-52 | The view is an order-preserving subsequence of the rows, so the count shown is at most the total. It holds exactly the rows matching both the search and the date filter, each as many times as it appears in the input. |
| EnquiryTable.EmptySearchShowsAll | src/components/admin/EnquiryDataTable.tsx:32-36 | An empty search over all time shows every row. |
| EnquiryTable.SearchIgnoresCase | src/components/admin/EnquiryDataTable.tsx:32-36 | Lower-casing the search term does not change which rows match. |
| EnquiryTable.LongerSearchNarrows | src/components/admin/EnquiryDataTable.tsx:32-36 | Extending the search term only removes rows: the new view is the old view filtered again. |
| EnquiryTable.WeekWithinMonth | src/components/admin/EnquiryDataTable.tsx:46-47 | The 7-day view is the 30-day view filtered again. |
| EnquiryTable.IdsOf | src/components/admin/EnquiryDataTable.tsx:59 | One key per row, in order: the row id's decimal text. |
| EnquiryTable.ToggleSelectAll | src/components/admin/EnquiryDataTable.tsx:55-61 | When the selection is as long as a non-empty view, the click clears it. Otherwise the selection becomes the view's ids, in order. |
| EnquiryTable.SelectAllAlternates | src/components/admin/EnquiryDataTable.tsx:55-61 | On a non-empty view each click flips the header's all-selected state; two clicks give either the view's ids or nothing. |
| EnquiryTable.SelectAllComparesLengthsOnly | src/components/admin/EnquiryDataTable.tsx:56 | A selection naming none of the visible rows, but of the same length, is cleared rather than replaced by the view. |
| EnquiryTable.ToggleSelectRow | src/components/admin/EnquiryDataTable.tsx:63-69 | The new selection's members are the old ones with the id's membership flipped. A present id is removed everywhere (the result is a shorter subsequence); an absent one is appended. No duplicates are introduced. |
| EnquiryTable.ToggleRowTwiceKeepsSet | src/components/admin/EnquiryDataTable.tsx:63-69 | Toggling one row twice leaves the same set of ids selected. |
| EnquiryTable.ToggleRowTwiceRestores | src/components/admin/EnquiryDataTable.tsx:63-69 | Starting from an unselected row, toggling it twice restores the exact selection. |
| EnquiryTable.CsvLines | src/components/admin/EnquiryDataTable.tsx:74-84 | One line per exported row, in order. |
| EnquiryTable.CsvLineSplits | src/components/admin/EnquiryDataTable.tsx:74-84 | A row whose texts hold no comma splits on commas back into its five cells. |
| EnquiryTable.Csv | src/components/admin/EnquiryDataTable.tsx:82-85 | The file starts with the header line; with no rows it is just the header, otherwise a line break and the first row's line follow it. |
| EnquiryTable.CsvSplitsIntoLines | src/components/admin/EnquiryDataTable.tsx:82-85 | When no text holds a line break, the file splits on newlines back into the header and one line per row. |
| EnquiryTable.QuoteIsRfcIffNoQuote | src/components/admin/EnquiryDataTable.tsx:76-79 | The quoting matches section 2 (rule 7) of RFC 4180 exactly on texts without a double quote. |
| EnquiryTable.SelectedExport | src/components/admin/EnquiryDataTable.tsx:157 | The export holds the rows of all received rows (not of the view) whose key is selected, each as often as in the input, in their original order. |
| EnquiryTable.ExportAfterSelectAll | src/components/admin/EnquiryDataTable.tsx:55-61 | With unique ids, selecting all of a view and exporting the selection gives exactly that view. |
| EnquiryTable.AfterBulkDelete | src/components/admin/EnquiryDataTable.tsx:97-110 | The selection is cleared iff the delete was confirmed and succeeded (or it was already empty). Otherwise it is kept. |
| EnquiryTable.BulkDeleteOfView | src/components/admin/EnquiryDataTable.tsx:97-106 | Selecting a non-empty view and confirming a successful delete counts its rows, removes exactly those ids from the store, and clears the selection. |
| Seqs.Filter | src/components/admin/EnquiryDataTable.tsx:30 | `filter` keeps only elements satisfying the predicate, keeps every element that does, and is never longer than its input. |
| Seqs.FilterCounts | src/components/admin/EnquiryDataTable.tsx:30 | `filter` keeps every copy of an accepted element and no copy of a rejected one. |
| Seqs.FilterStronger | src/app/blog/BlogIndexClient.tsx:21 | Filtering with a stronger predicate equals filtering the weaker result again. |
| Seqs.FilterMapMembers | src/app/actions.ts:56 | `xs.map(f).filter(present)` holds a value iff `f` produces it from some element. |
| Seqs.FilterMapConcat | src/app/actions.ts:56 | Mapping and filtering distributes over concatenation. |
| Seqs.FilterMapInverse | src/app/actions.ts:56 | Mapping with `g` and then keeping the present results of a left inverse `f` gives back the input, as `parseInt` does for ids written with `toString()` at src/components/admin/EnquiryDataTable.tsx:59. |
| Seqs.Dedup | src/app/courses/CoursesIndexClient.tsx:35 | `Array.from(new Set(xs))` holds exactly the elements of `xs`, each once. |
| Seqs.DedupFirstOccurrenceOrder | src/app/courses/CoursesIndexClient.tsx:35 | The distinct elements come in the order of their first occurrence. |
| Faq.Click | src/components/sections/FAQ.tsx:34 | Clicking the open item leaves nothing expanded. Clicking any other item makes it the only one expanded. |
| Faq.ExpandedItems | src/components/sections/FAQ.tsx:36-47 | At most one item is expanded in any state. |
| Faq.ClickTwice | src/components/sections/FAQ.tsx:34 | Clicking an item twice restores the state iff that item was open or none was. |
| Faq.ClicksStayInRange | src/components/sections/FAQ.tsx:12-34 | After any clicks on the accordion's items, the state is closed or names one of them. |
| Faq.AtMostOneExpanded | src/components/sections/FAQ.tsx:31-47 | After any clicks at most one item is expanded, and exactly one unless the state is closed. |
| Faq.TestScenario | src/__tests__/FAQ.test.tsx:16-40 | Item 0 starts open; a click closes it; a click on item 1 opens it alone. |
| Catalogue.CategoryMenu | src/app/courses/CoursesIndexClient.tsx:35 | The menu starts with "All". Every item's category appears once in its tail, and the tail holds nothing else. |
| Catalogue.CategoryMenuOrder | src/app/blog/BlogIndexClient.tsx:18 | The menu lists categories in the order of their first appearance. |
| Catalogue.Menu | src/app/courses/CoursesIndexClient.tsx:35 | Over any list of items (courses, or posts at src/app/blog/BlogIndexClient.tsx:18): "All" first, then each item's category exactly once, and nothing that is not some item's category. |
| Courses.Categories | src/app/courses/CoursesIndexClient.tsx:35-40 | "All" first, then each course's category once, and every entry after "All" selects at least one course. |
| Courses.FilteredCourses | src/app/courses/CoursesIndexClient.tsx:37-40 | "All" returns the list unchanged. Any other choice returns exactly the courses of that category, each as often as in the list, order preserved. |
| Blog.Categories | src/app/blog/BlogIndexClient.tsx:18-27 | "All" first, then each post's category once, and with an empty query every entry after "All" shows at least one post. |
| Blog.FilteredPosts | src/app/blog/BlogIndexClient.tsx:20-27 | An order-preserving subsequence holding exactly the posts whose category matches (or "All") and whose lower-cased title or excerpt contains the lower-cased query, each as often as in the input. |
| Blog.AllWithEmptyQueryShowsAll | src/app/blog/BlogIndexClient.tsx:22-24 | "All" with an empty query shows every post. |
| Blog.LongerQueryShrinks | src/app/blog/BlogIndexClient.tsx:23-24 | Appending to the query only removes posts, in order. |

## Left out

- **Postgres.** Modelled as abstract map stores. SQL text, the DDL (`CREATE TABLE`), connection handling and concurrent requests are not modelled; a thrown statement is a parameter, and a failed connection is only an outcome.
- **bcrypt, zod's email regex and UUID generation.** These are the parameters `hash`, `isEmail` and `newId`. Hash cost and salts are not modelled.
- **`revalidatePath`, `router.refresh`, `confirm`, `alert`, and the CSV download** (Blob, object URL, link click). They are modelled only as the path recorded in `Effect` and the selection state. The UI components, the rendering and the loading flag are left out.
- **Turnstile (the bot challenge).** Its token is posted, but `submitEnquiry` never reads it, so there is no server-side check to model.
- **The Contentful and SEO clients, the sitemap, the JSON-LD pages and all other components.** These are network or rendering glue.
- **`new Date(created_at)` and `toLocaleDateString('en-GB')`.** Creation times are integers in milliseconds and the date cell is the function `fmtDate`.
- **Case and number details:**
  - `toLowerCase` is modelled on ASCII letters only.
  - String lengths are UTF-16 code units, but a string is a sequence of Unicode scalar values, so a lone surrogate cannot be written.
  - `parseInt` yields exact integers: the loss of precision above 2^53 and the `-0` result are not modelled.
  - An id outside the SERIAL column's 32-bit range is not modelled as a database error.
- JsNumber.IntToString: always writes the plain decimal form. JavaScript switches to exponent form from 10^21 in magnitude (`(1e21).toString()` is `"1e+21"`), which is not modelled; 32-bit SERIAL ids never get near it.
- JsNumber.ParseIntToString: the round trip is proved for the decimal form only. From 10^21 in magnitude JavaScript's exponent form breaks it (`parseInt("1e+21", 10)` is 1); ids never reach that range.
- **`console` output.** The seeding script's messages become the `Outcome` value.
- **EnquiryActions.DeleteEnquiries** models a failure part-way through the loop as "the deletes before statement `k` applied". It says nothing about the timing of concurrent requests.
- **EnquiryActions.ValidateEnquiry** does not state the message text for an absent (null) field: zod's null message. That text is stated once in `Responses.StringIssues`.
- **Faq.ClickTwice** is an if-and-only-if: clicking an item twice restores the previous state only when that item was open or no item was. From another open item, two clicks leave everything closed.
- **The user flows that lead into these operations** (the enquiry form, the login page, the users page) are left out; the actions are modelled from their inputs.

## Findings

| source | as written | input that shows it | evidently intended | confidence | as-written member | corrected member |
|---|---|---|---|---|---|---|
| src/auth.config.ts:26 | `targetUrl.startsWith(baseUrl)` treats any URL whose text extends the base URL as internal. The flaw is latent as deployed: only the middleware's instance installs this callback, and sign-in and sign-out (src/auth.ts:5) follow Auth.js's default redirect, so it becomes reachable only once `authConfig` is spread into src/auth.ts | base `https://elevateuacademy.in`, url `https://elevateuacademy.in.evil.example/login` is returned unchanged | only same-site targets (the base itself, or the base followed by `/`, `?` or `#`) are kept; everything else falls back to `baseUrl + "/admin"` | not executed; high | AuthConfig.RedirectAsWritten, AuthConfig.RedirectAsWrittenLeavesSite | AuthConfig.Redirect |
| src/auth.ts:5-25 | the instance behind `auth()` installs no callbacks, and `authorize` returns a user without a role, yet src/app/actions/admin-actions.ts:20 requires `role === 'admin'` and the comment at line 78 expects `session.user.id` | any successful sign-in with `ADMIN_EMAIL` and `ADMIN_PASSWORD`: the session holds name and email only, so both admin mutations answer Unauthorized | the signed-in administrator is an admin session carrying id "1": `authConfig`'s callbacks are installed and `authorize` sets the `admin` role, so the mutations pass the role check and self-deletion is refused | not executed; high | AdminActions.SignedInSessionIsNotAdmin, AdminActions.SignedInAdminCannotMutate | AdminActions.IntendedSession, AdminActions.IntendedAdminCanMutate |
