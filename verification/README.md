# Admin credentials, feature CRUD and list editors, modelled in Dafny

This project models the sequential logic of a small marketing site with an
admin panel. It covers three pieces.

- **Credential handlers.** `/register` and `/login` exist twice:
  - the promise-style module mounted at `/api/auth` (`AuthRoutes`);
  - the callback-style duplicate mounted at `/api/users` (`UserRoutes`).

  Each request is a pure transition. It takes the `admin` table, the request
  body, the password hasher and the set of collaborator calls that fail. It
  returns a status, a `{ message, user?, error? }` body and the table
  afterwards. Every `user` in a response goes through `toPublicAdmin`
  (`Admins.ToPublicAdmin`), and that projection has no password field.
- **Feature CRUD** (`FeatureRoutes`). These are the create, list, get, update
  and delete handlers over the `feature` table, each with its own 400/404/500
  rules.
- **Client list editors.**
  - `AlumniPage` is the alumni roster. It adds, edits by id and deletes by id,
    and it writes every change to browser storage.
  - `FeaturePrograms` is the admin feature form. It validates with trim,
    chooses POST or PUT, and filters the local list after a delete.

Both SQL tables are a `Tables.Table`: a `map` from AUTO_INCREMENT id to row,
plus the id the next INSERT receives. The bcrypt library is a
`Hashing.Hasher`, a pair of total functions `hash` and `compare`. The one
property the handlers may rely on, `compare(p, hash(p))`, is the ghost
predicate `Hashing.Sound`. It is a hypothesis of the lemmas that need it, not
an axiom.

Collaborator failures are modelled as a map from each failing call to the
error it raises. A handler makes its calls in source order, and the first
failing call it reaches decides the response. The two credential modules
differ only on these paths:

- In `authRoutes.js`, the `catch` block of `/register` turns an `ER_DUP_ENTRY`
  raised by any of its calls into 409. Every other error becomes a bare 500
  "Server error". The `catch` block of `/login` answers 500 for every error.
- In `userRoutes.js`, only the INSERT's `ER_DUP_ENTRY` means 409. Every 500
  also carries the error text.

The lemmas `UserRoutes.AgreesWithAuthRoutes` and
`UserRoutes.StatusAgreesWithAuthRoutes` say where the two modules agree.

In both register handlers, a failure while reading the new row back leaves
that row inserted, even though the response is an error. The model keeps this
behaviour.

`backend/db.js` exports a mysql2 promise pool. Its `query(sql, values)` returns
a promise and never calls a third, callback argument. `userRoutes.js` passes
such callbacks. So as the repository is wired, `/api/users/register` and
`/api/users/login` answer only requests that fail validation; every other
request gets no response at all. `UserRoutes.RegisterAsWired` and
`UserRoutes.LoginAsWired` model that wiring, and "## Findings" records it.
`UserRoutes.Register` and `UserRoutes.Login` model the handlers with their
callbacks invoked, which is what the code is written for.

## Model

| member | source | states |
|---|---|---|
| Admins.ToPublicAdmin | backend/routes/authRoutes.js:9-14 | the public user carries exactly the row's id, name, email and age (the same helper is repeated at userRoutes.js:7-12) |
| Admins.ProjectionHidesHash | backend/routes/authRoutes.js:9-14 | the projection is the same whatever password hash the row stores |
| Admins.FindByEmail | backend/routes/authRoutes.js:66-72 | lookup by email finds nothing exactly when no row has that email; otherwise it finds a matching row, the lowest such id, and in a table with unique emails the only one |
| Admins.EmailIds | backend/routes/authRoutes.js:29-30 | the email SELECT yields the ids of exactly the rows whose email equals the given one |
| Admins.NewAdmin | backend/routes/authRoutes.js:37-40 | the inserted row holds the name and email as sent, the hash of the password (never the password) and the age as sent, with a missing age as null and 0 kept |
| Admins.NewAdminReadsBack | backend/routes/authRoutes.js:37-47 | the inserted row projects back to the request's public fields, and with a sound hasher its stored hash accepts the request's password |
| Admins.EmptyIsConsistent | backend/routes/authRoutes.js:28-32 | a freshly created admin table satisfies the store invariant and has no email registered |
| Tables.Insert | backend/routes/authRoutes.js:37-43 | INSERT stores the row under its insertId; in a valid table that id is new, the old rows are unchanged and the table grows by exactly one row |
| Tables.Replace | backend/routes/featureRoutes.js:46 | UPDATE of an existing id changes that row only, keeps the set of ids and leaves the AUTO_INCREMENT counter as it was |
| Tables.Remove | backend/routes/featureRoutes.js:59 | DELETE removes exactly that id, leaves every other row as it was and leaves the AUTO_INCREMENT counter as it was, so no id is given out twice |
| AuthRoutes.RegisterCaught | backend/routes/authRoutes.js:49-56 | a caught error is answered 409 "Email already registered" exactly when its code is ER_DUP_ENTRY, and otherwise 500 "Server error" without the error text; the table is left as the failed step found it |
| AuthRoutes.Register | backend/routes/authRoutes.js:17-57 | the checks run in order. Missing fields give 400 and a password shorter than 6 gives 400; 400 is returned exactly when validation fails. Then a failing email lookup goes to the catch block. An existing email gives 409, checked before hashing. Then a failing hash goes to the catch block, and so does a failing INSERT (409 for a duplicate key, else 500), each with the table unchanged. A failing read-back goes to the catch block with the row already inserted. The table changes exactly when the INSERT runs and succeeds, and only by that one row, holding the hashed password and the age as given. Success is 201 "Registered successfully" with {id, name, email, age}. Every 500 body is just "Server error". |
| AuthRoutes.Login | backend/routes/authRoutes.js:60-87 | 400 exactly when email or password is missing or empty; a failing lookup, and a failing compare for a found row, give the bare 500 "Server error" whatever the error code; an unknown email gives 401; a 401 always carries "Invalid email or password"; 200 exactly when the lookup finds a row whose hash matches, and the response carries that row's projection |
| AuthRoutes.RegisterPreservesConsistency | backend/routes/authRoutes.js:28-40 | registration keeps ids valid and emails unique |
| AuthRoutes.LoginAfterRegister | backend/routes/authRoutes.js:35-82 | with a sound hasher, logging in with the credentials just registered gives 200 with the same user, id included |
| AuthRoutes.UnknownEmailLooksLikeWrongPassword | backend/routes/authRoutes.js:66-76 | an unknown email and a wrong password get the identical response |
| AuthRoutes.OtherPasswordRefused | backend/routes/authRoutes.js:72-76 | with a collision-free hasher, after a registration any other password gets 401 |
| AuthRoutes.LoginRevealsOnlyTheVerdict | backend/routes/authRoutes.js:72-82 | changing the stored hash without changing whether the password matches it does not change the login response |
| UserRoutes.ServerError | backend/routes/userRoutes.js:27 | a callback's 500 carries "Server error" and the error's text |
| UserRoutes.Register | backend/routes/userRoutes.js:15-63 | the same validation order, with no table change. A failing email lookup is a 500 whatever its code. An existing email gives 409 before hashing or inserting. A failing hash is a 500. A failing INSERT gives 409 for ER_DUP_ENTRY and otherwise a 500, with the table unchanged. A failing read-back is a 500 with the row inserted. The table changes exactly when the INSERT runs and succeeds. 201 returns the row read back by the new id, projected. Every 500 names "Server error" and the failing call's text. |
| UserRoutes.Login | backend/routes/userRoutes.js:66-89 | the same taxonomy as the promise version; a failing lookup, and a failing compare for a found row, give a 500 with that call's error text; an unknown email and a wrong password both give 401 "Invalid email or password"; success returns the projection of the stored row |
| UserRoutes.RegisterPreservesConsistency | backend/routes/userRoutes.js:25-45 | registration through this module also keeps ids valid and emails unique |
| UserRoutes.AgreesWithAuthRoutes | backend/routes/userRoutes.js:15-89 | when no call fails, both modules return identical responses and tables for register and for login |
| UserRoutes.StatusAgreesWithAuthRoutes | backend/routes/userRoutes.js:36-45 | when only the INSERT can raise ER_DUP_ENTRY, both modules give the same status, message and table; they differ only in the error text |
| UserRoutes.RegisterAsWired | backend/routes/userRoutes.js:15-26 | against the promise pool of backend/db.js, register answers exactly the requests that fail validation, with the 400 that the callback handler gives; every other request gets no response, and the table is never changed |
| UserRoutes.LoginAsWired | backend/routes/userRoutes.js:66-72 | against the promise pool, login answers exactly the requests without email or password, with the 400; every other request gets no response |
| UserRoutes.AsWiredNeverAnswers | backend/routes/userRoutes.js:26-86 | on an empty table, a well-formed registration and the login after it get no response as wired, while the handlers with their callbacks invoked answer 201 and 200 |
| FeatureRoutes.Create | backend/routes/featureRoutes.js:6-17 | 400 "heading is required" with nothing inserted exactly when the heading is missing or empty; the table changes exactly when the INSERT runs and succeeds; a failing INSERT is a 500 with its message and no row; a failing read-back is a 500 with the row stored; 201 inserts one row, with a missing description stored as null, and returns exactly the stored row |
| FeatureRoutes.FromInput | backend/routes/featureRoutes.js:11 | the stored feature holds the heading as sent and the description as sent, so `description ?? null` keeps an empty description and stores null only when it is absent |
| FeatureRoutes.RowsDescending | backend/routes/featureRoutes.js:22-23 | the listed rows are strictly decreasing by id, each equals the stored row, and every stored row appears |
| FeatureRoutes.List | backend/routes/featureRoutes.js:20-27 | 200 with all rows by descending id, or 500 with the error text |
| FeatureRoutes.Get | backend/routes/featureRoutes.js:30-38 | a failing SELECT is a 500 with its message; otherwise 404 "Feature not found" for an absent id and 200 with that row for a present one |
| FeatureRoutes.Update | backend/routes/featureRoutes.js:41-54 | a missing heading gives 400 before the store is consulted; a failing UPDATE is a 500 with its message and the table unchanged; an absent id gives 404 with the table unchanged; otherwise heading and description are replaced (description null if absent) and only that row changes; a failing read-back is a 500 after that change; success returns the updated row; the AUTO_INCREMENT counter is never touched |
| FeatureRoutes.Delete | backend/routes/featureRoutes.js:57-65 | an absent id gives 404 with the table unchanged; an existing id removes exactly that row, leaves the rest unchanged, and returns "Feature deleted"; the AUTO_INCREMENT counter is never touched |
| FeatureRoutes.HandlersPreserveValid | backend/routes/featureRoutes.js:6-65 | create, update and delete keep the table's AUTO_INCREMENT invariant |
| FeatureRoutes.GetAfterCreate | backend/routes/featureRoutes.js:11-13 | fetching the new id returns exactly the row that create returned |
| FeatureRoutes.CreatedFeatureHeadsList | backend/routes/featureRoutes.js:11-23 | after a create, the list is the new row followed by the earlier list |
| FeatureRoutes.GetAfterUpdate | backend/routes/featureRoutes.js:46-50 | an update is visible at its id and at no other id |
| FeatureRoutes.GetAfterDelete | backend/routes/featureRoutes.js:59-61 | after a delete the id is not found, and every other id answers as before |
| FeatureRoutes.DeleteUndoesCreate | backend/routes/featureRoutes.js:11-61 | deleting the feature just created restores the table's rows |
| NatSets.Descending | backend/routes/featureRoutes.js:22 | lists a set of ids exactly once each, strictly decreasing |
| AlumniPage.Mount | testwebsite/pages/AlumniPage.jsx:9-12 | the list starts as the stored list, or empty when nothing is stored |
| AlumniPage.WithId | testwebsite/pages/AlumniPage.jsx:21-26 | `{ ...formData, id }` is an entry with that id whose fields read back as the form |
| AlumniPage.FormOf | testwebsite/pages/AlumniPage.jsx:36 | `setFormData(item)` fills the form with the entry's name, year and course |
| AlumniPage.FormRoundTrip | testwebsite/pages/AlumniPage.jsx:21-38 | loading an entry into the form and submitting it under its own id gives back the same entry |
| AlumniPage.Submit | testwebsite/pages/AlumniPage.jsx:18-33 | an incomplete form is not submitted; add mode appends one entry with the fresh id and keeps earlier entries; edit mode replaces each entry with editingId by the form data under that id and keeps the length and all other entries in place; afterwards storage equals the list, the form is empty and edit mode is off |
| AlumniPage.Edit | testwebsite/pages/AlumniPage.jsx:35-39 | enters edit mode with editingId = item.id and the form equal to the item; the list and storage are unchanged |
| AlumniPage.Delete | testwebsite/pages/AlumniPage.jsx:41-45 | exactly the entries with other ids survive, and storage equals the new list |
| AlumniPage.Change | testwebsite/pages/AlumniPage.jsx:53-76 | typing changes one form field only |
| AlumniPage.HandlersPreserveCoherence | testwebsite/pages/AlumniPage.jsx:20-44 | after mount and every handler, edit mode has an id and storage agrees with the list |
| AlumniPage.DeleteKeepsOrder | testwebsite/pages/AlumniPage.jsx:41-44 | deleting from a list is deleting from each of its halves, so the survivors keep their relative order |
| AlumniPage.DeleteUndoesAdd | testwebsite/pages/AlumniPage.jsx:24-44 | deleting an entry just added under an unused id gives back the earlier list |
| AlumniPage.EditAndResubmitIsIdentity | testwebsite/pages/AlumniPage.jsx:20-39 | in a list with distinct ids, editing an entry and resubmitting it unchanged leaves the list unchanged |
| AlumniPage.HandlersKeepEntriesFilled | testwebsite/pages/AlumniPage.jsx:59-75 | because all three inputs are `required`, submit, edit, delete and typing never store an entry with an empty name, year or course |
| FeaturePrograms.ApplyLoad | admin/src/pages/FeaturePrograms.jsx:18-31 | a successful load replaces the list and clears the error; a failed one keeps the list and sets a non-empty error |
| FeaturePrograms.FirstLoad | admin/src/pages/FeaturePrograms.jsx:7-31 | from the initial state, the first load shows the loaded list without an error, or an empty list with an error; either way the form is empty, in create mode and without a submit error |
| FeaturePrograms.ResetForm | admin/src/pages/FeaturePrograms.jsx:42-46 | empty heading and description, null editingId and null submitError; the list is untouched |
| FeaturePrograms.SaveRequest | admin/src/pages/FeaturePrograms.jsx:59-65 | a null editingId means a POST to the base URL; otherwise a PUT to base + "/" + editingId; the body is the form as typed |
| FeaturePrograms.RefusalText | admin/src/pages/FeaturePrograms.jsx:73-76 | the server's message, else its error, else the fallback; never empty |
| FeaturePrograms.Submit | admin/src/pages/FeaturePrograms.jsx:48-85 | a heading that trims to empty sets "Heading is required" and sends nothing; otherwise the save request is sent; success reloads the list and resets the form; a refusal sets the message/error/"Save failed" text and keeps the form and edit mode |
| FeaturePrograms.Edit | admin/src/pages/FeaturePrograms.jsx:87-93 | editingId = item.id; heading and description are copied, with a missing description as ""; the list, the load state and the submit error are kept |
| FeaturePrograms.Delete | admin/src/pages/FeaturePrograms.jsx:95-107 | nothing happens without confirmation; success removes only the items with that id; a failure keeps the list and raises a non-empty alert |
| FeaturePrograms.Change | admin/src/pages/FeaturePrograms.jsx:37-40 | typing changes one form field only; edit mode, the list, the load state and the submit error are kept |
| FeaturePrograms.DeleteKeepsOthersInOrder | admin/src/pages/FeaturePrograms.jsx:103 | the local filter keeps the other items in their order and removes exactly those with the id |
| FeaturePrograms.SentHeadingPassesServerCheck | admin/src/pages/FeaturePrograms.jsx:50-71 | every create or update the page sends passes the server's heading check |
| FeaturePrograms.PutTargetsEditedItem | admin/src/pages/FeaturePrograms.jsx:62-64 | the PUT URL is the base, then "/", then a segment that parses back to editingId |
| FeaturePrograms.EditThenSaveUpdatesItem | admin/src/pages/FeaturePrograms.jsx:59-93 | editing an item and saving sends a PUT for its id with its heading, and its description or "" |
| FeaturePrograms.SuccessfulSaveResets | admin/src/pages/FeaturePrograms.jsx:78-79 | a successful save shows the reloaded list with an empty form in create mode |
| JsStrings.Trim | admin/src/pages/FeaturePrograms.jsx:50 | trim yields a contiguous piece of the input with only JavaScript white space cut from either end, and that piece neither starts nor ends with white space; it is empty exactly when the input is all white space |
| JsStrings.NumberToString | admin/src/pages/FeaturePrograms.jsx:63 | `${id}` is a non-empty string of decimal digits without a leading zero (except "0" itself); `ParseNumberToString` reads it back to the id |
| JsStrings.ParseNumberToString | admin/src/pages/FeaturePrograms.jsx:63 | the decimal text of an id parses back to that id |
| Lists.FilterConcat | testwebsite/pages/AlumniPage.jsx:42 | filtering a concatenation is the concatenation of the filtered parts, so filter keeps order |
| Lists.Filter | testwebsite/pages/AlumniPage.jsx:42 | `.filter` keeps exactly the elements that satisfy the test, and no more elements than it was given |
| Lists.ReplaceWhere | testwebsite/pages/AlumniPage.jsx:21-23 | `.map(x => test(x) ? v : x)` keeps the length and replaces exactly the elements that satisfy the test |
| JsValues.OrElse | admin/src/pages/FeaturePrograms.jsx:75 | `a \|\| b` on an optional string: a when it is a non-empty string, b otherwise |

## Left out

- bcrypt's salt, cost factor (`BCRYPT_ROUNDS`, default 10) and constant-time comparison. The hasher is a parameter. Only `compare(p, hash(p))` is assumed (`Hashing.Sound`).
- AuthRoutes.OtherPasswordRefused: this also assumes that no other password matches a hash (`Hashing.Exact`). bcrypt promises this only with high probability.
- Concurrency. The check-then-insert race between two registrations is not modelled. A concurrent duplicate shows up only as an `ER_DUP_ENTRY` failure chosen by the caller.
- The MySQL pool, the SQL text and the driver. `affectedRows === 0` is modelled as "no row with that id".
- MySQL collation. Email matching is exact string equality, while a case-insensitive collation would also match emails that differ in case.
- AUTO_INCREMENT values consumed by failed INSERTs are not modelled. The counter only moves on a successful insert.
- `UserRoutes.Register` and `UserRoutes.Login` assume that each callback passed to `db.query` is invoked with the query's result. With the promise pool of `backend/db.js` none is. That wiring is modelled separately (see "## Findings"), and so is its no-response outcome. A query that fails there would become an unhandled promise rejection; that is not modelled.
- JsStrings.NumberToString: ids are unbounded naturals. JavaScript numbers are exact only up to `Number.MAX_SAFE_INTEGER` (2^53 - 1), and from 10^21 on `${n}` uses exponent notation. So `FeaturePrograms.SaveRequest`, the URL in `FeaturePrograms.Delete` and `FeaturePrograms.PutTargetsEditedItem` match the page only for ids up to `Number.MAX_SAFE_INTEGER`.
- Admins.FindByEmail: the source query has no ORDER BY, so `rows[0]` is unspecified when two rows share an email. The model picks the lowest id. In a consistent table there is at most one match.
- Route parameters. `:id` is taken as a number. MySQL's coercion of a non-numeric path segment is not modelled.
- JavaScript truthiness. It is reduced to "absent, null or empty string". A non-string JSON field (for example a numeric password) is outside the model.
- `age ?? null` and `description ?? null` are the identity on the optional value. A given 0 is kept.
- Password length counts Dafny characters (Unicode scalar values). JavaScript counts UTF-16 code units, so they differ for characters outside the Basic Multilingual Plane.
- Express wiring, CORS and preflight handling are left out. The mount paths only name the modules.
- Logging (`console.error`) is left out.
- Browser storage, `JSON.stringify`/`JSON.parse` and `Date.now()`. Storage is an optional list and the fresh alumni id is a parameter. No id is assumed unique unless a lemma says so.
- `fetch`, `window.confirm` and `alert`. The server's answers and the confirmation are parameters, and the alert text is an output.
- The `submitLoading` flag is not modelled. It is true only while a request is in flight.
- The fetch wrappers, the login modal, navigation, carousel, routing and layout components. These are rendering and network I/O.

## Findings

| source | as written | input that shows it | evidently intended | confidence | as-written member | corrected member |
|---|---|---|---|---|---|---|
| backend/routes/userRoutes.js:26-86 | `db.query(sql, values, callback)` on the mysql2 promise pool that backend/db.js:2 exports, which returns a promise and never calls the callback | an empty table; POST /api/users/register with name "Ann", email "ann@example.com", password "secret1", then POST /api/users/login with that email and password: neither gets a response | a callback-style connection, or the promise style of authRoutes.js, so that every request is answered as the callbacks say | not executed; relies on mysql2's promise `query` taking no callback; mysql2 is not part of this model | UserRoutes.AsWiredNeverAnswers | UserRoutes.AgreesWithAuthRoutes |
