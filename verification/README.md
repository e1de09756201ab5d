# Course registration ledger

A Dafny model of the server side of a course-registration web application
written for Express and MySQL. Students sign up, log in and register for
courses. A course has a seat limit (`max_students`), and a student may drop a
registration and take it up again later. Administrators create, update and
delete courses and may rewrite the status of any registration.

There are two implementations of these endpoints, each modelled in its own
modules:

- **server.js**, the main application:
  - a token gate (`authenticateToken`, `requireAdmin`);
  - sign-up and login;
  - admin course management;
  - a registration ledger whose rows are never deleted. A student's drop and
    re-registration switch a row between `registered` and `dropped`, and the
    admin status update writes whatever status text it is sent.
- **routes/auth.js, routes/registrations.js, routes/courses.js**, a simpler
  set of routers:
  - validation of required fields;
  - an admin-only login;
  - a registrations table where a drop deletes rows;
  - course CRUD with not-found replies taken from `affectedRows`.

Each table is a sequence of rows in insertion (primary-key) order, and each
table has an `AUTO_INCREMENT` counter. Common SQL idioms map onto small
generic functions in `Common`:

- "the first row a `SELECT` returns" is `FirstWhere`;
- `COUNT(*)` is `Count`;
- `UPDATE ... WHERE` is `UpdateWhere`;
- `DELETE ... WHERE` is `DeleteWhere`;
- `ORDER BY <time> DESC` is `NewestFirst`.

Every state-changing handler appears twice (the read-only handlers, such as
the logins, the listings and `CourseRoutes.Get`, are step functions only):

- As a pure step function from the tables before to the tables after plus the
  reply. Its contract gives every error case, and the lemmas about it prove
  the properties (invariants preserved, only one row changed, round trips).
- As a method of a class whose fields are the tables, updated in place. The
  method is proved to leave exactly the state and reply of its step function,
  and to keep the table invariants.

These are the invariants:

- Server tables (`ServerDb.WellFormed`):
  - ids are unique and below their counters;
  - e-mails and usernames are unique;
  - a non-empty course code names one course;
  - there is at most one ledger row per (student, course) pair.
- Seat limit (`ServerDb.CapacityOk`): no course has more `registered` rows
  than its `max_students`.

Registration and drop keep capacity. The course update and the admin status
update do not, because neither checks the limit, and two concrete lemmas
exhibit a state each one breaks. Capacity is therefore not an invariant of
the server, and the model follows the code:

- the capacity invariant can be broken by `PUT /api/admin/courses/:id` and by
  `PUT /api/admin/registrations/:id`;
- `max_students` is never checked to be positive;
- `routes/courses.js` deletes a course without looking at its registrations.

Every handler method of `ServerApp.App` runs in any well-formed state,
including one an admin has overfilled. Sign-up leaves the courses and the
ledger untouched; course creation and deletion, registration and drop keep
capacity when it held before. The two
exceptions are the ones above: `App.UpdateCourse` keeps it only when the new
limit still holds the course's registered rows, and `App.SetStatus` promises
nothing about capacity.

Each error datatype has an `HttpStatus` function: a lookup table giving the
status code the source sends with that refusal. Replies carry the error
itself, not the code.

Hashing and token handling are parameters:

- `bcrypt.compare` is a function `check(password, hash)`;
- the output of `bcrypt.hash` is the `hashed` argument;
- `jwt.verify` is a function from the token to optional claims.

The routers' session user id is also a parameter.

## Model

| member | source | states |
|---|---|---|
| Gate.HttpStatus | server.js:43-50 | a missing token is the only 401; a bad token and a non-admin role are 403 |
| Gate.BearerToken | server.js:41 | the token is the second space-separated field of the header: never empty, free of spaces, absent when there is no header |
| Gate.EmptyFieldNoToken | server.js:41-45 | a header whose second field is empty (a trailing space, or two spaces in a row) yields no token, so the request is refused with 401 |
| Gate.NoSpaceNoToken | server.js:41-45 | a header without a space yields no token, so the request is refused with 401 |
| Gate.BearerTokenOf | server.js:41 | `<scheme> <token>`, with or without further fields, yields exactly `<token>` |
| Gate.Authenticate | server.js:40-55 | 401 exactly when there is no token; 403 exactly when the token does not verify; otherwise the request carries the verified claims |
| Gate.AuthenticateBearer | server.js:40-55 | a `Bearer` header with a token that verifies admits exactly that token's claims |
| Gate.RequireAdmin | server.js:58-63 | passes exactly the role `admin` and leaves the claims unchanged; anything else is 403 "Admin access required" |
| Gate.MayActForOne | server.js:682 | the owner-or-admin test: a non-admin acts only for the student whose id the token carries; an admin acts for every student |
| Gate.AuthenticateAdmin | server.js:40-63 | an admin route admits exactly the verified admin claims; a gate failure comes through unchanged; a verified non-admin gets AdminRequired |
| Users.CheckCredentials | server.js:122-131 | a user is returned only if the lookup matches and the password checks against its hash; with no matching row the result is None |
| Users.CredentialsByEmail | server.js:116-131 | with unique e-mails, a user's own e-mail logs in exactly when the password matches that user's hash |
| Users.AdminLookupSkipsOthers | routes/auth.js:198-213 | the admin lookup never returns a non-admin, even one with the right password |
| Users.AdminLookupFindsAdmin | routes/auth.js:198-225 | for an admin, the admin lookup decides as the e-mail lookup does |
| ServerDb.HttpStatus | server.js:40-742 | 404 exactly for an unknown course or registration; 401 exactly for a missing token or invalid credentials; 403 exactly for the other gate and ownership refusals; every other refusal is 400 |
| ServerDb.Enrolled | server.js:626-629 | the count of a course's `registered` rows is zero exactly when the course has none |
| ServerDb.RestatusOne | server.js:590-593 | the `UPDATE ... WHERE id = ?` of a status rewrites exactly one ledger row, and the tables stay well formed |
| ServerDb.EnrolledAfterRestatus | server.js:590-593 | rewriting one row's status moves the course count by at most that row |
| ServerDb.OneActiveRowPerPair | server.js:636-663 | two `registered` rows never belong to the same student and course |
| ServerAccounts.SignUp | server.js:68-110 | EmailTaken exactly when the e-mail exists, checked first; UsernameTaken exactly when only the username exists; no other refusal, so otherwise one new `student` row with the next id; a refusal changes nothing |
| ServerAccounts.Login | server.js:113-158 | the only refusal is the uniform InvalidCredentials, also for an unknown e-mail; a success carries the claims of a row with that e-mail and a matching password |
| ServerAccounts.LoginExact | server.js:113-158 | with unique e-mails, a user's login succeeds with exactly that row's claims when the password matches, and fails otherwise |
| ServerAccounts.SignUpKeepsWellFormed | server.js:68-110 | sign-up keeps ids, e-mails and usernames unique |
| ServerAccounts.SignUpThenLogin | server.js:68-158 | a fresh account logs in at once with the new row's id, e-mail, role `student`, name and username |
| ServerCatalog.CreateCourse | server.js:386-426 | refused (CodeTaken, nothing changed) exactly when an existing course has the same non-NULL code; otherwise one course is appended under the next id |
| ServerCatalog.UpdateCourse | server.js:429-479 | 404 exactly for an unknown id; CodeTaken exactly when a non-empty new code belongs to another course; no other refusal; on success only that course's columns are overwritten; a refusal changes nothing |
| ServerCatalog.DeleteCourse | server.js:482-515 | 404 exactly for an unknown id; refused exactly while the course has a `registered` row; no other refusal; on success only that course row is deleted |
| ServerCatalog.CreateCourseKeepsWellFormed | server.js:396-413 | creating a course keeps ids and non-empty codes unique |
| ServerCatalog.CreateCourseKeepsCapacity | server.js:409-413 | a new course has no registered rows, so capacity is kept |
| ServerCatalog.UpdateCourseKeepsWellFormed | server.js:444-469 | the code check keeps non-empty codes unique across an update |
| ServerCatalog.UpdateCourseKeepsCapacity | server.js:462-469 | an update keeps capacity when the new limit still holds the course's registered rows |
| ServerCatalog.BothTakenValid | server.js:625-632 | concrete state: a course with limit 2 holding two `registered` rows is well formed and at capacity |
| ServerCatalog.UpdateCourseCanOverfill | server.js:462-469 | concrete state: lowering `max_students` below the registered rows succeeds and breaks capacity |
| ServerCatalog.DeleteCourseRemovesOnlyIt | server.js:505 | a delete removes exactly one course, the one with that id, and leaves users and registrations untouched |
| ServerCatalog.CourseOnlyAt | server.js:487-505 | with unique course ids, the course an id names sits at one position only |
| ServerCatalog.DeleteCourseKeepsWellFormed | server.js:487-505 | deleting a course keeps the tables well formed |
| ServerCatalog.DeleteCourseKeepsCapacity | server.js:487-505 | deleting a course keeps capacity for every remaining course |
| ServerLedger.Register | server.js:608-675 | 404 exactly for an unknown course; success only when the course has room; a new row only when the student has none for the course; a restore only of the student's non-`registered` row; a refusal changes nothing |
| ServerLedger.Drop | server.js:707-742 | 404 exactly for an unknown id; 403 only when the caller is neither admin nor the row's student; success only for admin or owner, setting that id's status to `dropped` |
| ServerLedger.SetStatus | server.js:570-603 | 404 exactly when no row with that id joins an existing course; otherwise that row gets the given status and nothing else changes |
| ServerLedger.ListForStudent | server.js:678-704 | refused with 403 exactly unless the caller is admin or that student; the rows are exactly the student's rows whose course exists |
| ServerLedger.CourseLookup | server.js:614-623 | the course row a registration reads is the course with that id |
| ServerLedger.PairLookup | server.js:636-639 | the pair row a registration reads is the student's only row for that course |
| ServerLedger.RegisterFull | server.js:625-632 | a full course refuses every student with CourseFull and changes nothing, even one with a dropped row to restore |
| ServerLedger.RegisterAlready | server.js:641-643 | a `registered` row for the pair refuses with AlreadyRegistered and changes nothing |
| ServerLedger.RegisterRestores | server.js:644-655 | a dropped row for the pair becomes `registered` again; its id is returned, no row is added, no other row changes |
| ServerLedger.RegisterInserts | server.js:659-669 | with no row for the pair, exactly one `registered` row is appended under the next id |
| ServerLedger.RegisterCountsOne | server.js:625-669 | a successful registration raises its course's count by exactly one and no other course's |
| ServerLedger.RegisterKeepsWellFormed | server.js:636-669 | registration keeps one row per pair and unique ascending ids |
| ServerLedger.RegisterKeepsCapacity | server.js:625-669 | in sequence, registration never puts a course over its limit |
| ServerLedger.DropOutcome | server.js:712-732 | dropping an existing row is refused exactly for a caller who is neither admin nor owner, and otherwise rewrites only that row to `dropped` |
| ServerLedger.DropIdempotent | server.js:707-742 | dropping the same id twice gives the same tables and reply as dropping it once |
| ServerLedger.DropCountsOne | server.js:729-732 | a drop lowers the count of the row's course by one if the row was `registered`, and moves no other count |
| ServerLedger.DropKeepsWellFormed | server.js:729-732 | a drop keeps the tables well formed |
| ServerLedger.DropKeepsCapacity | server.js:729-732 | a drop only lowers a count, so capacity is kept |
| ServerLedger.DropFreesSeat | server.js:729-732 | dropping a `registered` row leaves its course with a free seat |
| ServerLedger.DropThenRegister | server.js:608-742 | a drop followed by the same student's registration restores the same row and gives back exactly the tables before the drop |
| ServerLedger.TakeSeat | server.js:659-669 | concrete: the first student takes the only seat of a one-seat course under registration id 1 |
| ServerLedger.FreeSeat | server.js:729-732 | concrete: the owner drops it and the course's count goes back to zero |
| ServerLedger.RetakeSeat | server.js:625-669 | concrete: the second student then gets in with a new row, id 2 |
| ServerLedger.LastSeat | server.js:608-742 | concrete run: take the last seat, a second student is refused as full, the first drops, and the second gets in, leaving one registered student |
| ServerLedger.SetStatusOnlyThatRow | server.js:590-593 | a status update rewrites that row only and keeps the tables well formed |
| ServerLedger.TakenAndDroppedValid | server.js:625-632 | concrete state: a one-seat course with one `registered` and one `dropped` row is well formed and within capacity |
| ServerLedger.RestoreDroppedSeat | server.js:583-593 | concrete: the status update turns the dropped row back to `registered`, leaving two registered rows on a one-seat course |
| ServerLedger.SetStatusCanOverfill | server.js:583-593 | concrete state: setting a dropped row of a full course back to `registered` succeeds and breaks capacity |
| ServerLedger.ListNewestFirst | server.js:685-694 | the student listing comes newest first (strictly decreasing registration ids) |
| ServerApp.App.SignUp | server.js:68-110 | the users table changes as `ServerAccounts.SignUp` says; courses and registrations stay as they were; invariants are kept |
| ServerApp.App.CreateCourse | server.js:386-426 | behind the admin gate a refusal changes nothing; otherwise the tables and reply are those of `ServerCatalog.CreateCourse`; well-formedness is kept, and capacity when it held |
| ServerApp.App.UpdateCourse | server.js:429-479 | as `ServerCatalog.UpdateCourse` behind the admin gate; well-formedness is kept, and capacity too when the new limit holds the registered rows |
| ServerApp.App.DeleteCourse | server.js:482-515 | as `ServerCatalog.DeleteCourse` behind the admin gate; well-formedness is kept, and capacity when it held |
| ServerApp.App.SetStatus | server.js:570-603 | as `ServerLedger.SetStatus` behind the admin gate; well-formedness is kept |
| ServerApp.App.Register | server.js:608-675 | as `ServerLedger.Register` for the token's user, in any well-formed state; well-formedness is kept, and capacity when it held |
| ServerApp.App.Drop | server.js:707-742 | as `ServerLedger.Drop` for the token's claims, in any well-formed state; well-formedness is kept, and capacity when it held |
| AuthRoutes.HttpStatus | routes/auth.js:23-151 | only InvalidCredentials is 401; every other refusal is 400 |
| AuthRoutes.SignUp | routes/auth.js:18-109 | MissingFields exactly when a field is empty; then EmailTaken exactly when the e-mail exists; then UsernameTaken exactly when the username exists; no other refusal, so otherwise one `student` row under the next id; a refusal changes nothing |
| AuthRoutes.Login | routes/auth.js:112-183 | 400 exactly when a field is missing; otherwise any refusal is the uniform 401, also for an unknown e-mail; a success carries the claims of a row with that e-mail and a matching password |
| AuthRoutes.AdminLogin | routes/auth.js:186-253 | as login, but a success is always an admin's claims |
| AuthRoutes.SignUpKeepsValid | routes/auth.js:31-99 | sign-up keeps ids, e-mails and usernames unique |
| AuthRoutes.LoginOfUser | routes/auth.js:134-164 | a user's login gives exactly its `{id, email, role, full_name, username}` when the password matches, and the unknown-e-mail 401 otherwise |
| AuthRoutes.AdminLoginRefusesOthers | routes/auth.js:198-213 | a non-admin with the correct password is refused at the admin login |
| AuthRoutes.AdminLoginAdmitsAdmins | routes/auth.js:186-253 | an admin gets the same answer at the admin login as at the ordinary one |
| AuthRoutes.AccountStore.Register | routes/auth.js:18-109 | the users table changes as `AuthRoutes.SignUp` says, and stays valid |
| RegistrationRoutes.HttpStatus | routes/registrations.js:10-101 | 404 only for a delete that matched nothing; every other refusal is 400 |
| RegistrationRoutes.Register | routes/registrations.js:6-53 | 400 exactly for a missing course id; AlreadyRegistered exactly when any row for the pair exists; no other refusal, so otherwise one row under the next id at the current time; a refusal changes nothing |
| RegistrationRoutes.Drop | routes/registrations.js:84-109 | the pair's rows are deleted; 404 exactly when there were none, success exactly when some row went; the reply carries no count |
| RegistrationRoutes.ListForStudent | routes/registrations.js:56-81 | the listing holds exactly the student's rows whose course exists |
| RegistrationRoutes.RegisterKeepsValid | routes/registrations.js:18-50 | registration keeps one row per pair, with ids and timestamps ascending |
| RegistrationRoutes.PairOnlyAt | routes/registrations.js:18-50 | in a valid table a row is the only one for its (student, course) pair |
| RegistrationRoutes.DropRemovesOnlyPair | routes/registrations.js:87-102 | a drop removes the pair's row, at most one, and keeps every other row |
| RegistrationRoutes.DropKeepsValid | routes/registrations.js:87-102 | a drop keeps the table valid |
| RegistrationRoutes.RegisterThenDrop | routes/registrations.js:6-109 | registering and then dropping the same pair succeeds, removes the one new row and restores the rows |
| RegistrationRoutes.ListNewestFirst | routes/registrations.js:59-65 | the listing is ordered by `registered_at`, newest first |
| RegistrationRoutes.RegistrationStore.Post | routes/registrations.js:6-53 | the table changes as `RegistrationRoutes.Register` says, and stays valid |
| RegistrationRoutes.RegistrationStore.DeletePair | routes/registrations.js:84-109 | the table changes as `RegistrationRoutes.Drop` says, and stays valid |
| CourseRoutes.HttpStatus | routes/courses.js:38-135 | a not-found is 404 and a missing field is 400 |
| CourseRoutes.Get | routes/courses.js:25-50 | 404 exactly for an unknown id; otherwise a row of the table with that id |
| CourseRoutes.List | routes/courses.js:6-22 | the listing holds every course exactly as often as the table does |
| CourseRoutes.Create | routes/courses.js:53-79 | 400 exactly when the title or description is empty, changing nothing; otherwise one course under the next id at the current time |
| CourseRoutes.Update | routes/courses.js:82-115 | 400 exactly for a missing field; 404 exactly for an unknown id; otherwise only that course's title and description change |
| CourseRoutes.Delete | routes/courses.js:118-143 | the course with that id is deleted; 404 exactly when there is none |
| CourseRoutes.OnlyAt | routes/courses.js:28-47 | in a valid table an id sits at one position, and get-by-id returns that row |
| CourseRoutes.CreateThenGet | routes/courses.js:53-79 | a created course reads back at once under its new id, and the table stays valid |
| CourseRoutes.RetextKeepsValid | routes/courses.js:93-94 | rewriting one course's title and description keeps the catalog valid |
| CourseRoutes.UpdateThenGet | routes/courses.js:82-115 | after an update the course reads back with the new text, and the table stays valid |
| CourseRoutes.DeleteRemovesOnlyIt | routes/courses.js:118-143 | a delete removes at most one course, the one with that id, keeps the others, and afterwards the id is unknown |
| CourseRoutes.ListNewestFirst | routes/courses.js:7 | the listing is ordered by `created_at`, newest first |
| CourseRoutes.CatalogStore.Post | routes/courses.js:53-79 | the table changes as `CourseRoutes.Create` says, and stays valid |
| CourseRoutes.CatalogStore.Put | routes/courses.js:82-115 | the table changes as `CourseRoutes.Update` says, and stays valid |
| CourseRoutes.CatalogStore.DeleteId | routes/courses.js:118-143 | the table changes as `CourseRoutes.Delete` says, and stays valid |

## Left out

- The browser scripts under `public/js/` are not modelled: they are UI code and hold no server state.
- Database connection setup and `DATE_FORMAT` formatting are left out. So are the joined display columns (`course_code`, `title`, and so on) that the listings add.
- Every 500 reply is left out: a failed query or an exception is not modelled. `updated_at` is not modelled either.
- bcrypt and JWT internals are parameters, as described above. Token expiry is part of the `verify` parameter.
- Concurrency is left out, and each handler runs atomically. The check-then-insert race in `POST /api/registrations` can overfill a course under concurrent requests. Capacity is proved only for the sequential setting.
- The schedule endpoint, the dashboard statistics, the health check and `app.listen` are left out. So is the course detail read of `class_schedule`.
- The admin user CRUD endpoints are left out, and so is the cascading delete the database performs for them.
- These listings in server.js are left out; they read without writing:
  - the public course listing and course detail (`GET /api/courses`, `GET /api/courses/:id`);
  - the admin registration listings.
- `GET /` of routes/registrations.js is left out. It joins a `students` table that no other handler reads or writes.
- The `student_progress` and `notifications` inserts after a routes/auth.js sign-up are left out. They are fire-and-forget.
- ServerLedger.ListNewestFirst: it orders by registration id rather than by `registration_date`. Ids grow with insertion, and the server code never writes that column after the insert.
- ServerLedger.Drop: the caller id and the row's student id are compared as numbers. The source's loose `!=` would also equate `"7"` with `7`.
- ServerLedger.ListForStudent: the caller id and the path id are compared as numbers, for the same reason.
- ServerCatalog.CreateCourse, ServerCatalog.UpdateCourse: `max_students` is an integer that is never NULL. An absent field in the request is a value the caller chooses. In the source a NULL limit makes `count >= course.max_students` (server.js:630) true for every count, so such a course is always full.
- ServerAccounts.SignUp: fields missing from the request body are empty strings, and the model inserts the row. The source has no validation there. A missing password makes `bcrypt.hash` (server.js:92) reject, so the source ends in a 500 and inserts nothing. Any other missing field would be stored as NULL.
- CourseRoutes.Create: `NOW()` is a clock that each insert advances by a caller-chosen amount. The same holds for `RegistrationRoutes.Register`.
- ServerAccounts.SignUp, ServerAccounts.Login, ServerCatalog.CreateCourse, ServerCatalog.UpdateCourse: e-mails, usernames and course codes are compared exactly. MySQL's default collations make `=` ignore letter case and trailing spaces, so the database also treats `Bob@x.com` as taken when `bob@x.com` exists, and finds it at login. The same holds for AuthRoutes.SignUp, AuthRoutes.Login and AuthRoutes.AdminLogin.
- ServerLedger.Register, ServerCatalog.DeleteCourse, ServerDb.Enrolled: a ledger row is active only when its status is exactly `registered`. In the source, the counts at server.js:495 and server.js:626 compare `status = "registered"` under the column collation, which ignores letter case. A row an admin has set to `Registered` through ServerLedger.SetStatus therefore counts in the source but not in the model. The source would then call the course full and refuse to delete it; the model admits a new student and deletes the course.
- ServerCatalog.DeleteCourse: the dropped ledger rows of a deleted course stay in the table. Any foreign-key behaviour of the database is not modelled.
