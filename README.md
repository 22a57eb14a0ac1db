# Teacher directory: a Dafny model

This project models the core of a small teacher-directory web application.
The model has four parts:

- **The teachers table and its five handlers** (module `Teachers`). The
  handlers list, fetch, create, update and delete teachers. The table is a
  class, `TeacherTable`. It holds the rows in insertion order, the next
  auto-increment id, and a logical clock that stands in for the `createdAt` and
  `updatedAt` timestamps. Each handler is a method. Its contract gives the
  response it returns and the exact new state of the table. The SQL each
  handler sends is replaced by what it means:
  - the listing's `WHERE` clause becomes the function `Where`;
  - `ORDER BY createdAt DESC` becomes `Reverse`;
  - `COALESCE` becomes `Merge`;
  - the unique index on email becomes an explicit check.

  The invariant `TableInvariant` holds after every handler. It says that ids
  and emails are unique, that rows are in creation order, that names and email
  are never empty, that an optional column never holds `""`, and that no row
  has more than 5 subjects.
- **The client's teacher form** (module `TeacherForm`). This part covers the
  schema the form data must pass, the form's initial values, and the subject
  editor. The editor is a class holding the subject list and the text of the
  input box. Its add and remove handlers are methods, specified by the pure
  functions `Added` and `Without`. `String.prototype.trim` is modelled with
  ECMAScript's white-space set.
- **The bearer-token middleware** (module `AuthMiddleware`). Its decision is
  the pure function `Gate`, which gives 401, 500, or "proceed with these
  claims". The side effects are in the method `Authenticate`. It either writes
  exactly one response, or sets `req.user` and calls `next`, never both.
  `split(' ')` is modelled, and `JoinSplit` proves that joining the pieces
  gives the string back.
- **Admin login** (module `AuthController`). This is the pure function
  `LoginAdmin`. Module `AuthFlow` joins the two auth parts: a token issued by a
  successful login, sent back as `Bearer <token>`, passes the middleware with
  the admin claims.

The module `Common` holds the shared helpers: JavaScript truthiness on a
string-or-missing value (`Truthy`), `x || null` (`OrNull`), `startsWith`, and
"no duplicates".

These calls and values become parameters, because they are foreign library
code or configuration:

- the token library's `sign` and `verify`;
- the validation library's email and URL checks;
- the environment settings (admin email, admin password, token secret).

In a request body, a string member is `None` when it is absent, `null` or not
a string. The `subjects` member is `Undefined`, `NotArray(truthy)` or
`Items(list)`. With these types the model follows two checks that differ in
the code:

- create tests the member's truthiness (`if (subjects)`), so `null` or `""`
  stores `[]`;
- update tests `subjects !== undefined`, so `null` is refused with 400.

## Model

| member | source | states |
|---|---|---|
| `Common.Truthy` | server/server/controllers/teachers.controller.ts:65 | JavaScript's `!x` on a string-or-missing value: a missing value and `""` are falsy, and a truthy value has at least one character |
| `Common.OrNull` | server/server/controllers/teachers.controller.ts:85 | `x \|\| null` keeps a value exactly when it is a non-empty string, and otherwise gives null |
| `Teachers.Status` | server/server/controllers/teachers.controller.ts:51 | not found is answered with 404, and every other handler failure with 400 (the status codes at :66, :73, :77, :95, :111, :115, :135, :142, :157) |
| `Teachers.Message` | server/server/controllers/teachers.controller.ts:66-77 | every failure has a non-empty message; a not-found message starts with "Teacher not found" (the update handler's adds "(or no changes made)", :135); the email message also depends on the handler (:95, :142) |
| `Teachers.FindIndex` | server/server/controllers/teachers.controller.ts:48 | finds the first row with the id, and None exactly when no row has it |
| `Teachers.Upper` | server/server/controllers/teachers.controller.ts:16 | lower-case ASCII letters map to their upper-case letters, every other character is kept, and upper-casing twice is upper-casing once |
| `Teachers.LetterAdmits` | server/server/controllers/teachers.controller.ts:14-19 | an absent, empty or non-string letter parameter admits every row; a non-empty one admits only rows with a non-empty last name (whose first character matches it case-insensitively) |
| `Teachers.SubjectAdmits` | server/server/controllers/teachers.controller.ts:22-26 | an absent, empty or non-string subject parameter admits every row; a non-empty one admits only rows that list it, so never a row with no subjects |
| `Teachers.Where` | server/server/controllers/teachers.controller.ts:10-26 | a row is kept iff it is in the table and meets every condition; creation order is kept; never longer than the table |
| `Teachers.Reverse` | server/server/controllers/teachers.controller.ts:28 | same length, and element i is element n-1-i of the input |
| `Teachers.LetterFirstCharOnly` | server/server/controllers/teachers.controller.ts:14-19 | two letter parameters with the same first character (case-insensitively) admit the same rows |
| `Teachers.TeacherTable.GetTeachers` | server/server/controllers/teachers.controller.ts:6-38 | returns exactly the rows that pass both filters, which combine with AND; an absent, empty or non-string parameter adds no constraint; newest first (createdAt strictly decreasing); count equals the length of data |
| `Teachers.TeacherTable.GetTeacher` | server/server/controllers/teachers.controller.ts:45-54 | returns a row iff one has the id, and then it is a table row with that id; otherwise not found (404) |
| `Teachers.CheckCreate` | server/server/controllers/teachers.controller.ts:65-81 | a missing or empty name or email is refused first; then a truthy non-array subjects member, then more than 5 subjects; on success the stored list is the array sent, or `[]` when none was sent |
| `Teachers.NewRow` | server/server/controllers/teachers.controller.ts:83-86 | falsy picture, phone and room are stored as null; a row built from a valid body satisfies the row invariant |
| `Teachers.AppendKeepsInvariant` | server/server/controllers/teachers.controller.ts:83-86 | inserting a row with a fresh id, the current tick and an unused email keeps the table invariant, including email uniqueness |
| `Teachers.TeacherTable.AddTeacher` | server/server/controllers/teachers.controller.ts:61-99 | a validation failure or a duplicate email answers 400 and leaves the table unchanged; otherwise exactly one row is appended, under the next id |
| `Teachers.CreateThenFetch` | server/server/controllers/teachers.controller.ts:83-91 | after a create, fetching the new id finds the new row, with the subjects in the order they were sent |
| `Teachers.CheckUpdate` | server/server/controllers/teachers.controller.ts:108-119 | an absent subjects member keeps the column; any other non-array, null included, is refused; an array of at most 5 entries replaces the column |
| `Teachers.Coalesce` | server/server/controllers/teachers.controller.ts:123-126 | `COALESCE(x \|\| null, col)` on a NOT NULL column: a truthy value replaces the column, anything else keeps it, so a non-empty column never becomes empty |
| `Teachers.CoalesceOpt` | server/server/controllers/teachers.controller.ts:125-128 | the same on a nullable column: a truthy value replaces it, otherwise it is kept, so a set column can never be cleared and never becomes `""` |
| `Teachers.Merge` | server/server/controllers/teachers.controller.ts:121-131 | the updated row keeps its id and creation time and takes the new update time; the email is the one sent when truthy, or else the old one; a set picture, phone or room stays set; an accepted subjects array replaces the list and an absent one keeps it |
| `Teachers.MergeKeepsStoredRow` | server/server/controllers/teachers.controller.ts:121-131 | the merged row still satisfies the row invariant: names and email not empty, no `""` in optional columns, at most 5 subjects |
| `Teachers.EmptyStringsKeepFields` | server/server/controllers/teachers.controller.ts:131 | sending `""` for a field is the same update as leaving it out: only truthy values overwrite |
| `Teachers.PhoneOnlyUpdate` | server/server/controllers/teachers.controller.ts:121-131 | an update that sends only a phone changes the phone (when it is non-empty) and the update time, and nothing else |
| `Teachers.EmptyArrayClearsSubjects` | server/server/controllers/teachers.controller.ts:118-129 | an empty subjects array replaces the stored list with `[]` |
| `Teachers.MergeIdempotent` | server/server/controllers/teachers.controller.ts:121-131 | applying the same update twice gives the same row as applying it once |
| `Teachers.ReplaceKeepsInvariant` | server/server/controllers/teachers.controller.ts:121-131 | replacing a row, keeping its id and creation time, with an email no other row has keeps the table invariant |
| `Teachers.TeacherTable.UpdateTeacher` | server/server/controllers/teachers.controller.ts:103-146 | checks subjects first (400), then the id (404), then the email against the other rows (400), and each failure leaves the table unchanged; it succeeds exactly when all three checks pass, and then only that row changes, to the merged row |
| `Teachers.RemoveKeepsInvariant` | server/server/controllers/teachers.controller.ts:154 | removing a row keeps the table invariant |
| `Teachers.RemoveExactlyThatRow` | server/server/controllers/teachers.controller.ts:154-159 | after a delete, the rows left are exactly the old rows whose id differs |
| `Teachers.TeacherTable.DeleteTeacher` | server/server/controllers/teachers.controller.ts:150-164 | an absent id answers 404 and changes nothing; otherwise that row is cut out and the other rows keep their order |
| `TeacherForm.Trim` | client/src/components/TeacherForm.tsx:57 | the result is the part of the input after the leading white space, with the trailing white space cut off; it is empty iff the input is all white space, and otherwise starts and ends with a non-white-space character |
| `TeacherForm.TrimIdempotent` | client/src/components/TeacherForm.tsx:63-64 | trimming an already trimmed subject changes nothing |
| `TeacherForm.SchemaAccepts` | client/src/components/TeacherForm.tsx:11-19 | accepted form data has non-empty first and last names, at most 5 subjects, an email the library accepts, and a picture that is missing, empty or a URL |
| `TeacherForm.SchemaIgnoresOptionals` | client/src/components/TeacherForm.tsx:15-17 | phone and room number never affect acceptance, and an empty or missing picture never consults the URL check |
| `TeacherForm.InitialForm` | client/src/components/TeacherForm.tsx:39-47 | a new form starts blank with no subjects; an edit form starts from the record's email and subjects |
| `TeacherForm.BlankFormRejected` | client/src/components/TeacherForm.tsx:12-13 | a blank new form never passes the schema |
| `TeacherForm.StoredRecordOpensValidForm` | client/src/components/TeacherForm.tsx:39-47 | a record kept by the server's invariant opens an edit form that passes iff the library accepts its email and picture |
| `TeacherForm.Added` | client/src/components/TeacherForm.tsx:56-67 | blank input, or a list already at 5, changes nothing and keeps the input; otherwise the input is cleared, and the trimmed text is in the list, appended at the end only if it was absent; the list stays within 5 entries (or is unchanged), keeps its old entries as a prefix, and gains no duplicate |
| `TeacherForm.Without` | client/src/components/TeacherForm.tsx:72 | every occurrence of the subject is gone, every other entry keeps its multiplicity, and nothing new appears |
| `TeacherForm.WithoutAppend` | client/src/components/TeacherForm.tsx:72 | removal distributes over concatenation, so the remaining entries keep their order |
| `TeacherForm.WithoutAbsent` | client/src/components/TeacherForm.tsx:72 | removing a subject that is not listed leaves the list as it is |
| `TeacherForm.WithoutKeepsNoDuplicates` | client/src/components/TeacherForm.tsx:72 | removal keeps a duplicate-free list duplicate-free |
| `TeacherForm.SubjectEditor.constructor` | client/src/components/TeacherForm.tsx:46-50 | the editor opens on the form's subjects with an empty input box |
| `TeacherForm.SubjectEditor.SetInput` | client/src/components/TeacherForm.tsx:224 | typing replaces the input text and leaves the subjects alone |
| `TeacherForm.SubjectEditor.AddSubject` | client/src/components/TeacherForm.tsx:56-67 | the new subjects and input are those given by `Added` |
| `TeacherForm.SubjectEditor.RemoveSubject` | client/src/components/TeacherForm.tsx:69-75 | the new subjects are those given by `Without`; the input is untouched |
| `AuthMiddleware.Split` | server/server/middlewares/auth.middleware.ts:17 | `split(' ')` gives at least one piece, and no piece contains a space |
| `AuthMiddleware.JoinSplit` | server/server/middlewares/auth.middleware.ts:17 | joining the pieces with single spaces gives the header back |
| `AuthMiddleware.SplitHead` | server/server/middlewares/auth.middleware.ts:17 | the first piece is the longest prefix without a space; there is a second piece iff the string has a space |
| `AuthMiddleware.SplitAfterWord` | server/server/middlewares/auth.middleware.ts:17 | splitting a word followed by a space gives that word and then the pieces of the rest |
| `AuthMiddleware.HasBearer` | server/server/middlewares/auth.middleware.ts:12 | the header passes the first test exactly when it is present and starts with "Bearer "; such a header is always truthy, so `!authHeader` adds nothing |
| `AuthMiddleware.BearerToken` | server/server/middlewares/auth.middleware.ts:12-17 | after the "Bearer " prefix, the token is the text up to the next space or the end of the header |
| `AuthMiddleware.Gate` | server/server/middlewares/auth.middleware.ts:9-32 | a missing or non-Bearer header gives 401; only then is the secret checked, and a missing secret gives 500; a token verify refuses gives 401; a token verify accepts always lets the request proceed, carrying exactly what verify decoded |
| `AuthMiddleware.Response.Send` | server/server/middlewares/auth.middleware.ts:13 | writing a response sets its status and body and counts one write |
| `AuthMiddleware.Authenticate` | server/server/middlewares/auth.middleware.ts:9-32 | on every path, either exactly one error response with `Gate`'s status and message (user unset, next not called), or user set to the decoded claims and next called with nothing written |
| `AuthController.LoginAdmin` | server/server/controllers/auth.controller.ts:4-22 | a missing setting gives 500 whatever is sent; success iff email and password both equal the configured ones; success iff status 200 iff a token is issued; the token signs role `admin`, the submitted email and lifetime `1d`; a mismatch gives 401 and no token |
| `AuthController.MissingConfigIgnoresCredentials` | server/server/controllers/auth.controller.ts:10-13 | with a setting missing, any two submissions get the same answer |
| `AuthFlow.IssuedTokenPassesGate` | server/server/middlewares/auth.middleware.ts:17-28 | take a token from a successful login, and suppose verify gives back what sign put in. Sent as `Bearer <token>`, it passes the middleware with role `admin` and the login email |

## Left out

- The bulk import handler (`importTeachers`): it is routed at server/server/routes/teachers.routes.ts:24, but its body is not part of this model, nor are the CSV parsing, ZIP extraction and image writing it does.
- Database I/O, the connection pool, and table creation and teardown: the table is an in-memory value and starts empty.
- Exceptions the database throws for other reasons, and the 500 answers they produce. Examples are a VARCHAR length overflow, a dropped connection, and JSON that `JSON_CONTAINS` cannot parse because the subject contains a quote.
- Database collation:
  - The letter filter compares ASCII upper case, which is what the case-insensitive collation does for letters. Accent folding is not modelled.
  - The letter is put into a `LIKE` pattern, so a `%` or `_` matches like a wildcard. This is not modelled. The client only sends A to Z.
  - The unique email index is modelled as exact string equality. The collation's case-insensitive and trailing-space-insensitive comparison is not modelled.
- Real timestamps: `createdAt` and `updatedAt` come from a clock that ticks on every insert and update, so ties in `ORDER BY createdAt DESC` cannot occur. `updatedAt` also changes on an update that changes no value, which MySQL does not do.
- Teachers.TeacherTable.AddTeacher: a refused insert does not use up an auto-increment id, as InnoDB may do, so ids here have no gaps.
- Teachers.TeacherTable.UpdateTeacher: 404 means "no row has this id"; the case where the row exists but the update changes nothing (`affectedRows` is 0) is not distinguished.
- Request decoding: the id is a natural number, not a string that MySQL casts. Name, email and optional members that are numbers, booleans or objects are not modelled. Array elements are strings.
- The listing's JSON post-processing of `subjects` (`JSON.parse` of a string column): the column holds a list here.
- Non-ASCII case mapping in `toUpperCase`.
- The response envelopes of the teacher handlers: a handler method returns its `Failure`, and the status and message sent for it are the separate functions `Teachers.Status` and `Teachers.Message`, which no handler contract mentions. The success statuses (200, 201) and the echoed record in the create response are not modelled.
- The token library (`jwt.sign`, `jwt.verify`) and its expiry arithmetic are parameters, so the model does not check that a token signed with `1d` expires after a day.
- The validation library's email and URL checks are parameters.
- React rendering, routing, `localStorage`, the axios client, the Express and multer wiring, and the other pages and components. The form's submit handler is left out because it only calls the API and navigates. The disabled states of the Add button and input box are left out because `AddSubject` already checks both conditions.
