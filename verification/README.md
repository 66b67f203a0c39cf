# Student-productivity backend: handlers as a state machine

This project models the request handlers of the Express/MySQL backend in
`backend/server.js` as pure state transitions over three tables (`users`,
`tasks`, `verification_codes`), plus the row-to-wire codecs `formatUser` and
`formatTask` those handlers use. Each request is one atomic step
`(State, request) -> (State, reply)`. The reply is either `Ok(payload)` or
`Err(status, message)`, using the statuses and messages the handlers send.

Modules:

- `Basics` (`basics.dfy`): `Option` (SQL NULL / an absent body field) and the reply envelope.
- `CourseList` (`courses.dfy`): the comma encoding of `enrolled_courses`.
  - `join(',')` on write.
  - `split(',')` followed by dropping empty segments on read.
- `Tables` (`tables.dfy`): the rows, the database state, and its invariant `Valid`.
  - Emails are unique (the UNIQUE column).
  - There is at most one code row per (email, type).
  - Every task's `completed` is 0 or 1.
- `Codecs` (`codecs.dfy`): `formatUser` and `formatTask`.
- `Auth` (`auth.dfy`): the login, register, get-user, update-user, change-password, delete-all-users and reset-password handlers.
- `Codes` (`codes.dfy`): the store-code and verify-code handlers.
- `Tasks` (`tasks.dfy`): the task handlers (list, add, update, toggle, delete, delete-all) and the seed-if-empty step of start-up.
- `Server` (`server.dfy`): the request datatype, one step, a run of steps, and the invariants of every reachable state.

Conventions carried from the source:

- An absent body field is SQL NULL (`None`). In a WHERE clause, `col = NULL` matches no row, and `col = ?` is string equality (see "## Left out" for collation).
- Writing NULL into a NOT NULL column is the storage error that the handler's catch turns into a 500 reply. The columns are `name`, `email` and `password` of `users`, `title` of `tasks`, and `email`, `code` and `type` of `verification_codes`. Inserting a primary key that already exists also gives 500.
- The clock is the parameter `now`, in milliseconds. It stands for both `Date.now()` and the database's `NOW()`.
- Generated ids are the decimal text of `now`.
- `encodeURIComponent` is the function parameter `encode`.
- The conversion of request text into the DATETIME column `due_date` is the function parameter `datetime`. It gives `None` for text MySQL cannot read as a DATETIME, which fails the statement with 500. Otherwise it gives the value as the driver reads it back and the reply serialises it.
- BOOLEAN columns hold the integers 0/1 that MySQL returns. The codecs test `== 1`, as the source's `=== 1` does. Toggle is MySQL `NOT`, which maps 0 to 1 and every other value to 0.

Behaviour of the code worth knowing before reading the contracts:

- `formatUser` has no `isVerified` and no `program` field, so no reply ever shows them.
- Update-user on an unknown email answers success with a null user.
- Add-task replies with the request's own `userId`, `dueDate` and `notificationId`, but it stores `''` and `0` as NULL and stores the due date as a DATETIME. `Tasks.AddTaskEchoMatchesStored` states exactly when the reply and the stored row agree, in terms of the `datetime` conversion.

## Model

| member | source | states |
|---|---|---|
| CourseList.Split | backend/server.js:624 | `split(',')` always yields at least one segment, and no segment contains a comma |
| CourseList.DropEmpty | backend/server.js:624 | the `filter(s => s)` result has only non-empty entries, all taken from the input, and keeps every non-empty input entry |
| CourseList.DropEmptyCounts | backend/server.js:624 | the filter holds each non-empty string exactly as often as the input does, and no empty string |
| CourseList.DropEmptyAppend | backend/server.js:624 | the filter of a concatenation is the concatenation of the filters, so the kept entries stay in input order |
| CourseList.EncodeCourses | backend/server.js:335 | a non-array body stores `''`; a non-empty, encodable array is stored as text that splits back into exactly that array |
| CourseList.DecodeCourses | backend/server.js:623-624 | NULL or `''` reads as the empty list; the list read never holds an empty string or a comma-bearing entry |
| CourseList.SplitJoin | backend/server.js:335 | splitting the comma join of a non-empty list of comma-free strings returns that list |
| CourseList.JoinSplit | backend/server.js:624 | joining the segments of `split(',')` with commas gives back the original string |
| CourseList.DropEmptyKeeps | backend/server.js:624 | the empty-segment filter leaves a list without empty entries unchanged |
| CourseList.CoursesRoundTrip | backend/server.js:623-624 | the update-user write (the `join` at line 335) followed by the `formatUser` read gives back the list sent if and only if every entry is non-empty and comma-free |
| CourseList.CommaFreeRoundTrip | backend/server.js:335 | for every list of comma-free entries, writing then reading drops exactly the empty entries and keeps the rest in order |
| CourseList.NonArrayReadsBackEmpty | backend/server.js:335 | a non-array `enrolledCourses` is stored as `''` and reads back as `[]` |
| CourseList.CommaSplitsEntry | backend/server.js:335 | the entry `"CS,101"` reads back as the two entries `"CS"` and `"101"` |
| CourseList.EmptyEntryDropped | backend/server.js:335 | the list `["","MATH"]` reads back as `["MATH"]` |
| Tables.Decimal | backend/server.js:283 | the id made from the clock is a non-empty string of decimal digits, one digit long exactly for readings below 10 |
| Tables.DecimalInjective | backend/server.js:283 | distinct clock readings give distinct ids: equal `toString` results come from equal numbers |
| Tables.DecimalValue | backend/server.js:283 | the id is the decimal text of the clock reading: its digits denote exactly that number, with no leading zero |
| Tables.UserWithEmail | backend/server.js:315 | the lookup by email finds a row exactly when some user has that email (NULL finds none), and the row it finds has that email |
| Codecs.FormatUser | backend/server.js:622-640 | the wire user copies id, name, email and the profile columns. Its mode is the stored one when that is non-empty and 'student' for NULL or `''`. Onboarding is true iff the column is 1. The course list is the comma split with empty segments dropped (`[]` for NULL or `''`), so it never holds an empty entry |
| Codecs.FormatUserHidesSecrets | backend/server.js:626-639 | the password, program and is_verified columns never influence the wire user |
| Codecs.FormatTask | backend/server.js:482-494 | the wire task carries every column of the row under its id; `completed` is true iff the column is 1 |
| Codecs.FormatTaskInjective | backend/server.js:482-494 | on rows whose `completed` is 0 or 1, two rows that format to the same task are equal, so a read-back task determines the stored row |
| Codecs.Unformat | backend/server.js:482-494 | every wire task is the formatted form of a row with a 0/1 `completed`, so formatTask is onto the wire tasks |
| Auth.Login | backend/server.js:252-265 | success iff some row's email and password both equal the ones sent (string equality, NULL matching nothing), and the reply is that row formatted; otherwise 401 |
| Auth.Register | backend/server.js:275-304 | 409 with nothing changed iff the email is taken. Otherwise one row is inserted with id = decimal clock, student_id = "STU"+id, mode 'student', onboarding 0, unverified, with major, department, program, gpa, level and courses NULL, and no other row changes. The reply has no password, mode 'student', onboarding false and `[]` courses. A NULL name/email/password or a taken id gives 500 with nothing changed. Emails stay unique |
| Auth.GetUser | backend/server.js:312-322 | success iff a user has the email, and the reply is that row formatted; otherwise 404 |
| Auth.UpdateUser | backend/server.js:330-356 | an unknown email gives success with a null user and no change. Otherwise every listed column is overwritten, NULLs included: onboarding is 1 iff true was sent, and courses are the comma join of the array sent or `''` for a non-array. Email, password, student id, program and is_verified are kept. A NULL name gives 500 with no change. Other rows are untouched |
| Auth.ChangePassword | backend/server.js:366-380 | the password is written iff (email, currentPassword) matches a row and a new password was sent. 401 with no change iff there is no match; a NULL new password gives 500 with no change. Only that user's password changes |
| Auth.DeleteAllUsers | backend/server.js:388-397 | the users table becomes empty, and tasks and codes are untouched |
| Auth.ResetPassword | backend/server.js:455-477 | 404 with no change iff no user has the email; a NULL new password for a known email gives 500 with no change. On success the password is written, no code row for that email remains, code rows of other emails are kept, and every remaining code row is an unchanged row from before under its old key |
| Auth.RegisterThenGet | backend/server.js:278-301 | after a registration, login with the registered password succeeds, and GET returns a user that agrees with the registration reply on every field the reply has |
| Auth.RegisterTwiceConflicts | backend/server.js:278-281 | after a registration, registering the same email again gives 409 and changes nothing |
| Auth.ChangePasswordThenLogin | backend/server.js:368-377 | after a change, the new password logs in and a different old password no longer does |
| Auth.UpdateUserReadBack | backend/server.js:335-353 | the user update-user returns equals a later GET. Its courses are the list sent iff that list is encodable, and `[]` for a non-array |
| Codes.StoreCode | backend/server.js:404-417 | afterwards exactly one row exists for (email, type): it is unused and expires at now+600000. Rows of other pairs are kept, and every remaining row of another pair is an unchanged row from before under its old key. A NULL field gives 500 after the DELETE ran. One code per pair is preserved |
| Codes.VerifyCode | backend/server.js:427-447 | success iff some row matches email, code and type, is unused and has expires_at > now; otherwise 400 and no change. On success exactly that row is marked used. For type "registration" the matching users get is_verified = 1; for other types the users table is untouched |
| Codes.VerifyTwiceFails | backend/server.js:429-439 | a code that has just been verified never verifies again, at any time |
| Codes.StoreThenVerify | backend/server.js:407-432 | a freshly stored code verifies iff the check happens before now+600000 |
| Codes.StoreSupersedes | backend/server.js:406-414 | after a second code is stored for the same pair, the first one no longer verifies |
| Tasks.SeedTasks | backend/server.js:71-79 | an empty table gets exactly the rows "1".."4", all incomplete and unowned. A non-empty table is unchanged. The table is never empty afterwards |
| Tasks.SeedIdempotent | backend/server.js:71-79 | seeding twice equals seeding once, so restarts never duplicate seed data |
| Tasks.ListTasks | backend/server.js:497-501 | the reply holds the formatted form of every stored task and nothing else |
| Tasks.AddTask | backend/server.js:511-532 | one row is added under the decimal clock id. Course falls back to 'General', priority to 'low' and description to `''` when missing or empty, and completed is 0. Empty user id and due date and a zero notification id are stored as NULL, a non-empty due date as its DATETIME value, while the reply echoes all three as sent. A NULL title, a taken id or a due date that is not DATETIME text gives 500 with no change |
| Tasks.AddTaskEchoMatchesStored | backend/server.js:517-529 | the add-task reply equals the formatted stored row iff no empty user id and no zero notification id was sent, and the due date was either absent or non-empty text that the DATETIME column gives back unchanged |
| Tasks.UpdateTask | backend/server.js:542-563 | a missing id gives 404 and no change; a due date that is not DATETIME text gives 500 and no change. Otherwise each null field keeps the stored value and each non-null field replaces it (the due date by its DATETIME value); user_id and notification_id never change, other tasks are untouched, and the reply is the read-back row |
| Tasks.UpdateTaskIdempotent | backend/server.js:545-554 | sending the same patch twice has the effect of sending it once |
| Tasks.ToggleTask | backend/server.js:573-584 | a missing id gives 404 and no change. Otherwise only `completed` of that task changes, the reply is the read-back row, and its `completed` is true iff the stored value was 0 |
| Tasks.ToggleTwiceRestores | backend/server.js:575 | when every flag is 0 or 1, toggling twice restores the original state, and each toggle flips the reported value |
| Tasks.ToggleTwiceNeedsBoolean | backend/server.js:575 | with a stored value of 2, a double toggle does not restore it, which is why the 0/1 invariant matters |
| Tasks.DeleteTask | backend/server.js:594-597 | the row with that id is gone and every other row is kept; success whether or not it existed |
| Tasks.DeleteTaskIdempotent | backend/server.js:595 | deleting twice equals deleting once |
| Tasks.DeleteAllTasks | backend/server.js:605-609 | the tasks table becomes empty, always with success, and users and codes are untouched |
| Tasks.DeleteAllTasksIdempotent | backend/server.js:607 | deleting everything twice equals deleting it once |
| Server.Boot | backend/server.js:70-81 | start-up seeding keeps the invariant, leaves the other tables alone, leaves a non-empty tasks table as it was, and never leaves the table empty |
| Server.Initial | backend/server.js:70-81 | the first start-up gives no users, no codes and exactly the tasks "1".."4" |
| Server.Step | backend/server.js:273-614 | every request keeps the database invariant: unique emails (the UNIQUE column at line 35), at most one code per (email, type), and 0/1 completion flags |
| Server.Run | backend/server.js:273-614 | any sequence of requests keeps the database invariant |
| Server.ReachableInvariants | backend/server.js:273-614 | every state reachable from the first start-up has unique emails, one code per (email, type) and 0/1 completion flags |
| Server.ResetThenLoginAndVerify | backend/server.js:466-469 | after a reset the new password logs in, and no code of that email verifies any more |
| Server.RegistrationVerifiesUser | backend/server.js:442-444 | a successful "registration" verification marks the users with that email verified and changes no other column |

## Left out

- HTTP and connection plumbing (lines 1-23 and 751-756): Express, CORS, dotenv, the connection pool and `app.listen`.
- Schema creation and migration (lines 31-146): the `CREATE TABLE` and `ALTER TABLE` statements, the swallowed migration errors, and the early `connection.release()` at line 102. Only the tasks seed-if-empty step (lines 71-79) is modelled.
- Concurrency. Each request is one atomic step. The interleavings between a handler's statements, such as two toggles that both read the same value, are not modelled.
- Logging, and any storage failure other than NULL in a NOT NULL column, a duplicate primary key, or due-date text the DATETIME column rejects. The model has no other 500 path (see the `Auth.Register` line below for one more the source has).
- Time. The clock is the parameter `now`. `expires_at` is kept in milliseconds; the second precision of the DATETIME column and time-zone conversion are not modelled.
- Column widths, such as VARCHAR(10) for codes and DECIMAL(3,2) for gpa. A value that overflows one would be rejected by MySQL with 500. The model stores any length.
- The `gpa` conversion with `parseFloat` (line 634). This is floating point, so `gpa` stays the stored decimal text.
- `encodeURIComponent` (line 285). It is an opaque, total function parameter.
- Auth.Register: `encodeURIComponent` throws a URIError on a name holding an unpaired UTF-16 surrogate, and the catch at lines 305-307 answers 500 "Registration failed" before any INSERT. The model has no such 500: JavaScript strings are UTF-16 code units, while the model's strings are sequences of Unicode scalar values, which cannot hold a lone surrogate.
- JSON body values of the wrong type. For example, a number sent where a string is expected, or non-string entries in `enrolledCourses`, are not modelled. `isOnboardingComplete` and `completed` are booleans or absent.
- String comparison. SQL `=` on the text columns is modelled as exact string equality. The tables declare no collation, and MySQL 8's default (`utf8mb4_0900_ai_ci`) ignores case and accents. So every `email = ?` clause (lines 255, 278, 315, 348, 352, 369, 377, 407, 430, 443, 460, 466 and 469), the password and code comparisons beside them, and the UNIQUE email column match case variants that the model treats as different.
- Auth.Login: "matches" means exact string equality; under the default collation a login whose email or password differs only in case or accents also succeeds.
- Auth.Register: "taken email" means an exactly equal email; the UNIQUE column and the lookup at line 278 also treat case variants as taken.
- Auth.UpdateUser: `gpa` is stored as the text sent. The DECIMAL(3,2) column rounds it to two decimals and rejects values outside its range with 500; neither is modelled.
- Tasks.AddTask: the DATETIME conversion of `dueDate` is the opaque parameter `datetime`; which texts MySQL accepts, and the ISO-8601 form the driver's Date takes in the reply, are not modelled.
- SQL mode. The model assumes MySQL's strict mode, the MySQL 8 default; the source sets no `sql_mode`. The 500 replies for NULL written into a NOT NULL column (by an INSERT, or by the UPDATEs of update-user's name and of the new password in change-password and reset-password) and for due-date text the DATETIME column cannot read rest on it. In non-strict mode MySQL would store `''` or a zero date with a warning and the handler would answer success.
- Codes.StoreCode: the expiry is exactly now+600000 ms. The DATETIME column rounds it to whole seconds in the database's time zone, and that is not modelled.
- Codecs.FormatUser: `gpa` is passed through as the stored decimal text. The source converts it with `parseFloat`, which is floating point.
- Tasks.ListTasks: the reply is a set. The newest-first order comes from the database's ORDER BY on `created_at`, a column the model does not keep.
- The courses table, its seed data and its two GET handlers (lines 148-238 and 707-749). They rest on `JSON.parse` of stored documents and on static data.
- Announcements, schedule and health endpoints (lines 616-703). They are plain insert/list calls whose ordering is done by the database.
- How the driver treats `undefined` bind values. This is not visible in the code, so an absent field is modelled as NULL.
