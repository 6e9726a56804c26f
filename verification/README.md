# zachetka gradebook core in Dafny

zachetka is a small college gradebook: an Express server over SQLite with a
browser client. Teachers record grades and attendance, students read their
own records, and an exam-session calendar lists exams, tests, credits and
consultations per group. This project models the sequential core of that
system as pure Dafny functions from (request, tables) to (reply, tables).

- **Tables** (`Schema`). Each table is a row datatype. The CHECK, NOT NULL and
  UNIQUE constraints are predicates. The attendance table exists in two
  shapes: the one `database.js` creates (statuses present/absent/late/sick, no
  teacher column) and the one the migration script builds (excused instead of
  sick, teacher required). Handlers are parameterised by which one is live.
- **Gatekeeping** (`Tokens`):
  - the bearer-header split;
  - an opaque JWT verifier;
  - role lists;
  - the claim set signed at login.
- **server.js handlers:**
  - login (`ServerLogin`);
  - the ungated grade upsert and gradebook (`ServerGrades`, `GradeStore`, `Roster`);
  - the destructive replace-day attendance POST (`ServerAttendance`);
  - first-match route dispatch, which shadows the duplicated handlers (`ServerRoutes`).
- **Route modules:**
  - the role-gated grade routes (`GradeRoutes`, `GradebookRoute`);
  - the append-only attendance bulk write and the per-student statistics (`AttendanceRoutes`);
  - the session calendar (`SessionRoutes`);
  - login and profile (`AuthRoutes`);
  - the group statistics fold (`GroupStatistics`).
- **Seed data** (`Seed`): `INSERT OR IGNORE` seeding and what a restart does to it.
- **Client helpers** (`SpaClient`, `LegacyClient`): badge and label maps,
  attendance tallies, the attendance form's map and zip, and the form checks.
- **Migration** (`StatusMigration`): the status normaliser of the attendance migration.

Conventions:
- A JavaScript body field is an `Option`: `None` is undefined, null or NaN.
  "Falsy" means None, 0 or "" (`Js`).
- A new row's id is larger than every live id; the model takes one more
  than the largest, so ids are compared only for uniqueness (see "## Left out").
- A write refused by a CHECK or NOT NULL constraint is a 500, and the table
  is left as it was.
- bcrypt's `hash`/`compare` and JWT's `sign`/`verify` are function parameters.
- Three gate middlewares are imported but never defined:
  `requireTeacherOrAdmin`, `requireAdmin` and `requirePermission`. They are
  predicate parameters.

## Model

| member | source | states |
|---|---|---|
| Schema.ParseGradeType | database.js:116 | a grade type string is accepted exactly when it is one of exam, test, credit, coursework, practice, and the accepted value prints back as the same string |
| Schema.ParseGradeTypeName | database.js:116 | every stored grade type reads back as itself |
| Schema.ParseRole | database.js:132 | a role is accepted exactly when it is student, teacher or admin |
| Schema.ParseEventType | create-session-schedule-table.js:14 | an event type is accepted exactly when it is exam, test, credit or consultation |
| Schema.IndexOfId | server.js:282-283 | `WHERE id = ?`: the position found holds a row with that id and no earlier row has it; None exactly when no row has the id. Group, subject, teacher, user and event lookups and the login LEFT JOINs all go through it |
| Schema.FreshId | database.js:111 | a new AUTOINCREMENT id is positive and larger than every live id |
| Schema.AppendFreshKeepsIdsDistinct | database.js:111 | appending a row with a fresh id keeps primary keys unique |
| Tokens.SplitSpace | middleware/auth.js:9 | splitting on single spaces yields at least one field and no field contains a space |
| Tokens.SplitJoin | middleware/auth.js:9 | joining the split fields with spaces gives back the header |
| Tokens.SplitAtFirstSpace | middleware/auth.js:9 | a space-free word, a space and more text split into that word followed by the rest's fields |
| Tokens.SplitWithoutSpace | middleware/auth.js:9 | a header without a space is a single field |
| Tokens.AnySchemeReachesToken | middleware/auth.js:9 | the scheme word is never checked: any space-free word followed by a space-free token yields that token |
| Tokens.NoSpaceNoToken | middleware/auth.js:9-11 | a header without a space carries no token |
| Tokens.EmptySecondField | middleware/auth.js:9-11 | a scheme followed by nothing, or by a double space, yields an empty token |
| Tokens.Authenticate | middleware/auth.js:7-29 | 401 exactly when the token is missing or empty; 403 exactly when the verifier rejects it; otherwise the verified claims go to the handler |
| Tokens.TeacherOrAdminGate | middleware/auth.js:32-42 | `requireRole(['teacher','admin'])` admits exactly the teacher and admin roles |
| Tokens.Guard | middleware/auth.js:7-42 | authentication and one gate: 401 iff no token; 403 iff the verifier rejects or the gate refuses; admitted claims are the verified ones |
| Tokens.ClaimsOf | auth.js:37-46 | the signed claims are exactly the user's id, username, role, student id and teacher id |
| Tokens.IssuedTokenAuthenticates | auth.js:37-48 | a generated token sent back as `Bearer <token>` authenticates with the user's own claims |
| ServerLogin.FindUser | server.js:54-63 | the row found has the username; None means no row has it |
| ServerLogin.FindUserFirst | server.js:54-72 | `users[0]`: the row found is the first row with the username |
| ServerLogin.ViewOf | server.js:55-60 | the user object keeps the users row's id, name and role; student_id and teacher_id are present exactly when the LEFT JOIN finds a row with that id, and then equal it; group_id is that student's group |
| ServerLogin.Login | server.js:42-103 | 400 exactly when username or password is falsy; both failures give the same message; success exactly when the credentials are present, a row has the username and the comparison accepts the password against the first such row; the user object is that row joined to its student and teacher, and the token signs its {id, username, role, student_id, teacher_id} |
| ServerLogin.FailuresLookAlike | server.js:65-81 | an unknown user and a wrong password give the identical 401 reply |
| ServerLogin.FirstRowDecides | server.js:54-95 | for the first row with the username, an accepted password logs in as that row with the token signed over its joined claims, and a rejected one gets the generic 401 |
| GradeStore.Find | server.js:315-318 | the row found matches student, subject and type; None means no row matches |
| GradeStore.MatchesIsKey | database.js:124 | matching on the three request fields is the same as matching the UNIQUE key |
| GradeStore.SetWhereId | server.js:322-325 | the UPDATE changes grade, date and teacher on rows with the id and leaves every other row alone |
| GradeStore.Upsert | server.js:315-343 | an existing key gets only grade/date/teacher changed in place; otherwise exactly one row is appended; a CHECK violation leaves the table unchanged |
| GradeStore.UpsertPreservesValid | database.js:114-124 | an accepted write keeps the grade range, type set, UNIQUE key and primary key |
| GradeStore.CountKey | database.js:124 | the number of rows with a key is at most the table size |
| GradeStore.DistinctKeyCountsAtMostOne | database.js:124 | with the UNIQUE key, each (student, subject, type) has at most one row, and exactly one when present |
| GradeStore.SecondWriteWins | server.js:315-343 | grading the same key twice leaves exactly one row, holding the second grade and date |
| ServerGrades.PostGrade | server.js:303-343 | 400 exactly when one of the five fields is falsy; a saved row carries the request's values and teacher `teacher_id \|\| id`; created appends exactly one row, and only when no row has the (student, subject, type) key; an update keeps every row's id, key, `is_pass` and `notes` and leaves every row but the matched one unchanged; only the grades table changes; validity is kept |
| ServerGrades.Route | server.js:303 | a failed authentication changes nothing |
| ServerGrades.NoRoleGate | server.js:303 | any authenticated caller, whatever the role, gets a complete in-range grade saved |
| ServerGrades.OutOfRangeRefusedByTable | database.js:114 | without a handler range check, an out-of-range grade is refused by the CHECK and nothing changes |
| ServerGrades.Gradebook | server.js:268-292 | the students are the group/subject roster; the group and subject names are those of the rows with the requested ids when non-empty, and 'Группа' / 'Предмет' when the row is missing or its name is empty |
| ServerGrades.GradebookNames | server.js:282-287 | with unique ids, the gradebook carries the names of the group and subject rows asked for, unless a name is empty |
| Roster.Matched | server.js:276 | as many rows as grade rows join the student in that subject; each row is the student's and carries a joining grade, and every joining grade appears |
| Roster.JoinCountFront | server.js:276 | the number of joining grades splits as the first row plus the rest |
| Roster.RowsFor | server.js:276 | the student yields one row per joined grade, or the single NULL-grade row when none joins |
| Roster.Joined | routes/gradebook.js:26-30 | the join lists exactly the group's students, and its length is the sum over them of one row per joined grade (one when none joins) |
| Roster.NameLeTotal | routes/gradebook.js:31 | ordering by student name is total |
| Roster.Read | routes/gradebook.js:26-31 | the result is ordered by name, is a permutation of the joined rows, and has as many rows as the join |
| Roster.ReadHasJoinedRows | routes/gradebook.js:26-31 | sorting neither adds nor drops a joined row |
| Roster.OnlyGroupStudents | routes/gradebook.js:30 | every returned row is for a student of the requested group |
| Roster.EveryGroupStudentListed | routes/gradebook.js:27-30 | every student of the group appears |
| Roster.GradesFromSubjectOnly | routes/gradebook.js:27 | only grades of the requested subject are joined |
| Roster.UngradedStudentGetsNullRow | routes/gradebook.js:27 | a student without a grade in the subject still appears, with NULL grade fields |
| Roster.ReadEmptyIffNoStudents | routes/gradebook.js:30 | the result is empty exactly when the group has no students |
| Roster.BookOf | routes/gradebook.js:26-51 | the rows are non-empty exactly when the group and the subject exist and the group has students; the names come from the first row and are undefined when there is none |
| GradeRoutes.Save | routes/grades.js:62-126 | 400 iff student/subject/grade/date is falsy (grade_type unchecked); 400 iff the grade is outside 2..5; never a 403; stored iff the four fields are truthy, the grade is in 2..5 and the type parses; the update case returns the existing id with grade/date/teacher set and keeps every row's id, `is_pass` and `notes`, leaving the other rows unchanged; the insert case appends one row with the request's date and returns its new id; failures change nothing |
| GradeRoutes.PostGrade | routes/grades.js:62 | only teacher and admin pass; refused callers change nothing |
| GradeRoutes.StudentsCannotGrade | routes/grades.js:62 | an authenticated caller with another role gets 403 and the table is unchanged |
| GradeRoutes.AgreesWithServer | routes/grades.js:82-126 | for a complete in-range request the route module's write equals the server.js upsert |
| GradeRoutes.WithTeacherNames | routes/grades.js:26 | each roster row keeps its data and gains its grade's teacher name when that teacher exists |
| GradeRoutes.Gradebook | routes/grades.js:8-49 | gated to teacher and admin; admitted callers get the group roster with names from the first row |
| GradebookRoute.Get | routes/gradebook.js:8-51 | refused exactly when the token or the gate fails; otherwise the group/subject book |
| GradebookRoute.ListsExactlyTheGroup | routes/gradebook.js:26-31 | for an existing group and subject, the rows describe exactly the group's students |
| GradebookRoute.EmptyGroupHasNoNames | routes/gradebook.js:48-49 | for a group without students, group and subject are undefined and the list is empty |
| ServerAttendance.Keep | server.js:797-802 | the DELETE removes exactly the rows for that date and subject whose student is in the group |
| ServerAttendance.KeepAppend | server.js:797-802 | the DELETE works row by row, so it distributes over concatenation |
| ServerAttendance.KeepIdempotent | server.js:797-802 | deleting twice is deleting once |
| ServerAttendance.KeepNoneCleared | server.js:797-802 | rows that all match the DELETE are all removed |
| ServerAttendance.Contents | server.js:805-810 | contents ignore the assigned ids and keep the length |
| ServerAttendance.ContentsAppend | server.js:805-810 | contents distribute over concatenation |
| ServerAttendance.InsertMarks | server.js:805-810 | records are inserted in order with notes defaulting to ''; the loop stops at the first refused INSERT; success iff every record is accepted |
| ServerAttendance.InsertedRowsAccepted | server.js:805-810 | inserted rows satisfy the table's constraints |
| ServerAttendance.ReplaceDay | server.js:785-824 | 400 iff date, subject, group or records is falsy, and then nothing changes; only the attendance table changes; validity is kept |
| ServerAttendance.ReplaceDayRows | server.js:796-815 | the spared rows stay first, in order; then one row per accepted record; 200 iff every record is accepted |
| ServerAttendance.MigratedTableLosesTheDay | server.js:796-810 | on the migrated table the INSERT lacks teacher_id, so the day's rows are deleted and nothing is inserted |
| ServerAttendance.KeepPreservesValid | server.js:797-802 | the DELETE keeps the table valid |
| ServerAttendance.KeepIsSubsequence | server.js:797-802 | the DELETE keeps primary keys unique |
| ServerAttendance.SavedContents | server.js:796-815 | after a 200, the table holds the spared rows followed by exactly the records' contents |
| ServerAttendance.MarkContents | server.js:805-810 | one stored row per record |
| ServerAttendance.TailContents | server.js:805-810 | the inserted tail's contents are the records' rows |
| ServerAttendance.ResubmitSparesSame | server.js:796-810 | when every mark names a student of the group, the next DELETE for that date, subject and group removes everything the submission inserted and leaves what its own DELETE left |
| ServerAttendance.LastSubmissionWins | server.js:796-815 | submitting A and then B for the same date, subject and group gives the reply, the other tables and the attendance contents (every column but the id) that B alone would, even when A stopped at a refused INSERT; with A == B resubmission is idempotent |
| ServerAttendance.SplitContents | server.js:805-810 | a table made of the spared rows followed by one row per record has exactly the spared contents followed by the records' rows |
| ServerRoutes.Dispatch | server.js:497-756 | the first registered route that matches answers, and no earlier route matches |
| ServerRoutes.ShadowedNeverDispatched | server.js:627-756 | a later route with the same verb and pattern as an earlier one is never dispatched |
| ServerRoutes.HandlerLine | server.js:42-859 | the answering handler is a registered route that matches; None iff none matches |
| ServerRoutes.ShadowedLines | server.js:627-708 | the duplicate registrations sit at their own table positions |
| ServerRoutes.SecondCopiesAreDead | server.js:627-756 | the handlers at lines 627, 678 and 708 never answer any request |
| ServerRoutes.NoEarlierHandler | server.js:497-756 | a matching route with no earlier match is the one dispatched |
| ServerRoutes.EarlyRoutesMiss | server.js:42-492 | no route before line 497 answers a four-segment schedule or attendance path |
| ServerRoutes.StudentScheduleAnswered | server.js:497 | the student schedule is answered by the first copy |
| ServerRoutes.TeacherScheduleAnswered | server.js:548 | the teacher schedule is answered by the first copy |
| ServerRoutes.StudentAttendanceAnswered | server.js:578 | the student attendance read is answered by the first copy |
| AttendanceRoutes.Attempted | routes/attendance.js:183 | only records with a truthy status are attempted |
| AttendanceRoutes.AcceptedCount | routes/attendance.js:181-211 | accepted records are among the attempted ones |
| AttendanceRoutes.AcceptedRows | routes/attendance.js:181-194 | one row per accepted record, each passing the table's checks |
| AttendanceRoutes.Advance | routes/attendance.js:181-210 | one pass of the loop keeps the saved and error counts and the appended rows equal to those of the records seen so far |
| AttendanceRoutes.AcceptStep | routes/attendance.js:181-205 | an accepted record appends its row, in order, and counts as saved |
| AttendanceRoutes.RefuseStep | routes/attendance.js:181-209 | a refused record with a status only counts as an error; one without a status counts as nothing |
| AttendanceRoutes.NothingAcceptedInitially | routes/attendance.js:185 | the initial table has no teacher_id column, so no bulk INSERT succeeds on it |
| AttendanceRoutes.Bulk | routes/attendance.js:158-222 | 400 iff subject, group, date or data is falsy; saved + errors equals the number of records with a status; saved equals the accepted count; the table is only appended to; the appended rows, ids aside, are exactly the accepted records' rows in order (student, subject, the `teacher` argument, date, status, `notes \|\| ''`); validity is kept |
| AttendanceRoutes.AppendOne | routes/attendance.js:185-204 | appending a fresh-id row keeps ids unique |
| AttendanceRoutes.AddedKeepsValid | routes/attendance.js:185-204 | appending accepted rows keeps the table valid |
| AttendanceRoutes.PostBulk | routes/attendance.js:158-222 | refused iff token or gate fails, and then nothing changes; only the attendance table changes, and it is only appended to; for an admitted caller 400 iff subject, group, date or data is falsy (nothing changes), otherwise a 200 whose saved + errors is the number of records with a status and whose saved is the accepted count; the appended rows, ids aside, are the accepted records' rows with teacher `teacher_id \|\| id`; validity is kept; on the initial table a 200 still saves nothing |
| AttendanceRoutes.Occurrences | routes/attendance.js:105-112 | a status occurs at most as often as there are rows |
| AttendanceRoutes.Bump | routes/attendance.js:111 | adding one row raises exactly its status's count by one, or adds a new group with count 1 |
| AttendanceRoutes.GroupByStatus | routes/attendance.js:105-112 | the groups have distinct statuses, every row's status has a group, each count is that status's occurrences, and the counts sum to the row count |
| AttendanceRoutes.OccurrencesSnoc | routes/attendance.js:111 | counting extends by the last row |
| AttendanceRoutes.OccurrenceWitness | routes/attendance.js:111 | a positive count has a row with that status |
| AttendanceRoutes.GroupStepCounts | routes/attendance.js:111 | one grouping step keeps each count equal to its occurrences |
| AttendanceRoutes.GroupStepCovers | routes/attendance.js:111 | one grouping step keeps every seen status grouped |
| AttendanceRoutes.Percent | routes/attendance.js:128-129 | `Math.round(c / total * 100)` with total 0 giving 0: between 0 and 100, 100 for all, 0 for none |
| AttendanceRoutes.PercentBounds | routes/attendance.js:128-129 | the rounded percentage stays in 0..100 and hits both ends exactly |
| AttendanceRoutes.CountOf | routes/attendance.js:128 | `find(...)?.count \|\| 0` returns the group's count, or 0 without one |
| AttendanceRoutes.StatusesOf | routes/attendance.js:109-110 | the statuses are taken from the student's rows only |
| AttendanceRoutes.CountOfGroups | routes/attendance.js:128 | looking a status up in the groups gives its occurrences |
| AttendanceRoutes.CountOfFirst | routes/attendance.js:128 | with distinct statuses, find returns that group's count |
| AttendanceRoutes.StudentStatistics | routes/attendance.js:101-130 | total is the sum of the per-status counts and the student's row count; percentages are 0 when total is 0, at most 100, and are the rounded shares of present and absent |
| AttendanceRoutes.AllPresentIsHundred | routes/attendance.js:128 | a student present at every recorded lesson gets 100 |
| AttendanceRoutes.AllOneStatus | routes/attendance.js:128 | when every row has one status, its count is the total |
| SessionRoutes.Create | routes/session-schedule.js:155-206 | 400 iff a required field is falsy; 400 iff the type is not exam/test/credit/consultation; otherwise one event is appended with a fresh id, the request's subject, group, type, date, start and end times, classroom and notes, and the caller's teacher id, never the body's |
| SessionRoutes.FreshEventKeepsIdsDistinct | routes/session-schedule.js:178-186 | creating keeps event ids unique |
| SessionRoutes.Updated | routes/session-schedule.js:241-247 | the UPDATE keeps id and teacher and is refused exactly when a NOT NULL column is missing or the type fails the CHECK |
| SessionRoutes.ReplaceWhereId | routes/session-schedule.js:241-247 | rows with the id get the new fields, and no other row changes |
| SessionRoutes.Update | routes/session-schedule.js:209-270 | 404 iff no event has the id; 403 iff the caller is neither admin nor owner; 500 iff the UPDATE's row fails NOT NULL or the type CHECK; refusals change nothing; on success the event takes the request's subject, group, type, date, start and end times, classroom and notes, keeps its id and teacher, and no other event changes |
| SessionRoutes.DeleteWhereId | routes/session-schedule.js:304-306 | the DELETE removes exactly the rows with that id |
| SessionRoutes.DeleteOne | routes/session-schedule.js:304-306 | with unique ids, exactly one row goes |
| SessionRoutes.NoneDeleted | routes/session-schedule.js:304-306 | deleting an absent id changes nothing |
| SessionRoutes.Delete | routes/session-schedule.js:273-329 | 404 iff no event has the id; 403 iff neither admin nor owner; refusals change nothing; otherwise exactly the event with the id is removed |
| SessionRoutes.DeleteOneIfDistinct | routes/session-schedule.js:304-306 | a successful delete shrinks a table with unique ids by one |
| SessionRoutes.Gated | routes/session-schedule.js:155 | the writes run only behind the token and the teacher-or-admin gate; a refusal changes nothing |
| SessionRoutes.OthersCannotTouch | routes/session-schedule.js:234-239 | a non-admin who does not own the event gets 403 on update and delete, and nothing changes |
| SessionRoutes.EventLeTotal | routes/session-schedule.js:43 | ordering by (event_date, start_time) is total |
| SessionRoutes.GroupEvents | routes/session-schedule.js:37-42 | exactly the group's events whose subject, group and teacher exist |
| SessionRoutes.StudentGroup | routes/session-schedule.js:12-28 | the group of a student with that id; None means no such student |
| SessionRoutes.ForStudent | routes/session-schedule.js:8-69 | 404 iff the student is unknown; otherwise exactly the joinable events of the student's group, ordered by date then start time |
| SessionRoutes.DeleteAppend | routes/session-schedule.js:304-306 | the DELETE works row by row |
| SessionRoutes.RemoveNewest | routes/session-schedule.js:304-306 | the newest event is found at the end and deleting it restores the rest |
| SessionRoutes.CreateThenDelete | routes/session-schedule.js:155-306 | deleting the event just created, as the same caller, restores the calendar |
| AuthRoutes.FindActive | routes/auth.js:23-29 | the row found has the username and is active; None means no active row has the username |
| AuthRoutes.DisplayName | routes/auth.js:77 | the student's name, else the teacher's name, else 'Администратор'; never empty |
| AuthRoutes.Login | routes/auth.js:11-87 | 400 iff a credential is falsy; 'Пользователь не найден' iff no active user has the name; 'Неверный пароль' iff the password fails; success signs the users row's five claims and returns its profile |
| AuthRoutes.InactiveCannotLogin | routes/auth.js:28 | a deactivated account never logs in |
| AuthRoutes.Current | routes/auth.js:99-138 | 404 iff no user has the token's id; otherwise that user's profile with its student and teacher ids |
| AuthRoutes.LoginThenMe | routes/auth.js:60-128 | with unique user ids, the claims signed at login lead `/me` to the same profile |
| AuthRoutes.SetWhereId | routes/auth.js:185-206 | the UPDATE sets email (and the password if given) on rows with the id and changes no other row |
| AuthRoutes.UpdateProfile | routes/auth.js:150-221 | a new password without the current one is a 400; a wrong current password is a 400; both change nothing; a password change stores hash(newPassword) and the email; without a new password only the email changes; the caller's row keeps id, username, role and its student/teacher links |
| AuthRoutes.OmittedEmailIsCleared | routes/auth.js:186-206 | the email column is always written, so leaving it out clears the stored address |
| AuthRoutes.NewPasswordLogsIn | routes/auth.js:182-187 | after a password change the new password logs in, given that compare accepts what hash produced |
| GroupStatistics.Students | routes/statistics.js:102 | the rows' total_students values, in order |
| GroupStatistics.Excellent | routes/statistics.js:101 | the rows' excellent_count values, in order |
| GroupStatistics.SumGradesSnoc | routes/statistics.js:98 | the reference sum extends by the last row |
| GroupStatistics.MaxSnoc | routes/statistics.js:101-102 | `Math.max` with one more row stays the maximum |
| GroupStatistics.FoldIsSummary | routes/statistics.js:96-110 | totalSubjects is the row count; totalGrades equals the sum of total_grades and equals totalWeight; totalStudents and excellentStudents are the maxima, 0 for no rows |
| GroupStatistics.OverallAverage | routes/statistics.js:112-114 | 0 when totalWeight is 0; otherwise the weighted sum divided by the weight |
| GroupStatistics.WeightBounds | routes/statistics.js:99 | a subject's weighted contribution lies between 0 and 5 times its grade count, and is at least 2 times it unless all its rows lack a grade |
| GroupStatistics.FoldWeightBounds | routes/statistics.js:99-100 | the accumulated weighted sum lies between 0 and 5 times the weight, and is at least 2 times it when no subject's rows all lack a grade |
| GroupStatistics.MeanBetween | routes/statistics.js:113 | a weighted sum bounded by lo·t and hi·t has its mean in lo..hi |
| GroupStatistics.ScaleBelow | routes/statistics.js:113 | scaling by a positive weight keeps strict order |
| GroupStatistics.AverageInRange | routes/statistics.js:112-114 | with each subject's average NULL or in 2..5, the overall average is 0 without grade rows and otherwise in 0..5; it is in 2..5 when no subject's rows all lack a grade |
| GroupStatistics.UngradedRowsDragAverage | routes/statistics.js:70-71 | COUNT(g.id) counts rows with a NULL grade while AVG skips them: one grade of 5 beside ten ungraded rows gives an overall average of 5/11 |
| Seed.InsertOrIgnore | database.js:188-193 | a row clashing on a UNIQUE column is skipped; any other row is appended |
| Seed.SeedOnlyAppends | database.js:178-260 | seeding never removes or changes a stored row |
| Seed.KeyKeptByPrefix | database.js:178-260 | a stored key stays stored when rows are appended |
| Seed.SeedStoresKeys | database.js:178-260 | after seeding, every seed row's key is stored |
| Seed.SeedStoredIsIdentity | database.js:178-260 | seeding rows whose keys are stored already changes nothing |
| Seed.ReseedIsIdempotent | database.js:178-260 | on a table with a UNIQUE column every seed row fills, running the seed twice equals running it once |
| Seed.UnkeyedSeedAppends | database.js:235-240 | without a UNIQUE column every seed row is appended |
| Seed.RestartKeepsKeyedTables | database.js:70 | a restart adds no duplicate groups, teachers, students or users (unique name, email, card, username) |
| Seed.RestartDuplicatesSubjects | database.js:99-107 | subjects have no unique column, so every restart appends the four subjects again |
| SpaClient.GradeBadge | public/js/app.js:1588-1593 | success from 4.5, primary from 3.5, warning from 2.5, danger below |
| SpaClient.BadgeMonotone | public/js/app.js:1588-1593 | a higher grade never gets a worse badge |
| SpaClient.WholeGradesDistinguished | public/js/app.js:1588-1593 | grades 5, 4, 3 and 2 get four different badges |
| SpaClient.GradeTypeText | public/js/app.js:1595-1603 | exam/test/coursework/practice get their labels; other ordinary strings are returned unchanged |
| SpaClient.CreditShownRaw | public/js/app.js:1595-1603 | 'credit' is a stored type without a label and is shown raw |
| SpaClient.AttendanceBadge | public/js/app.js:1627-1635 | the four initial statuses get their badge; other ordinary strings get bg-secondary |
| SpaClient.AttendanceText | public/js/app.js:1637-1645 | the four initial statuses get their label; other ordinary strings pass through |
| SpaClient.ExcusedFallsThrough | public/js/app.js:1627-1645 | the migrated status 'excused' has no badge or label |
| SpaClient.CountStatus | public/js/app.js:1650-1653 | each count is the number of records with that status |
| SpaClient.Pct | public/js/app.js:1661-1664 | percentages are 0 for an empty list and lie in 0..100 |
| SpaClient.AttendanceSummary | public/js/app.js:1648-1666 | total is the list length, the four counts are per-status occurrences, percentages are 0 when total is 0 |
| SpaClient.FourCountsBound | public/js/app.js:1649-1653 | the four counts sum to at most the total, with equality iff every status is one of the four |
| SpaClient.CountsCoverTotal | public/js/app.js:1648-1666 | the summary's counts sum to the total exactly when every status is known |
| SpaClient.BuildMap | public/js/app.js:1475-1478 | the map's keys are exactly the records' student ids |
| SpaClient.LaterRecordWins | public/js/app.js:1475-1478 | a student's entry is that student's last record |
| SpaClient.At | public/js/app.js:1557-1558 | indexing past the end is undefined |
| SpaClient.ZipRecords | public/js/app.js:1555-1559 | one record per student input, pairing the i-th id, status and note |
| SpaClient.FormRowsReachTable | public/js/app.js:1555-1559 | posted to the replace-day endpoint, the i-th form row is stored with the i-th student, status and note |
| SpaClient.Numbers | public/js/app.js:858 | exactly the entries whose grade is a number |
| SpaClient.ShownAverage | public/js/app.js:858-861 | 0 when no grade is a number; otherwise the mean of the numeric grades |
| SpaClient.TotalBounds | public/js/app.js:860 | a sum of values in lo..hi lies in count·lo..count·hi |
| SpaClient.AverageOfValidGrades | public/js/app.js:858-861 | numeric grades in 2..5 give an average in 2..5 |
| SpaClient.NaNGradeRefused | public/js/app.js:797 | a NaN or zero grade is refused like an empty field |
| SpaClient.ContactsOptional | public/js/app.js:519 | email and phone are not required to add a student |
| SpaClient.HiddenFor | public/js/app.js:113-131 | students lose the students item; teacher, admin and unknown roles hide nothing |
| SpaClient.OnlyStudentsLoseItems | public/js/app.js:117-124 | of the three roles only student hides an item |
| LegacyClient.GradeTypeText | public/app.js:584-592 | the four types get their labels; an unknown non-empty type is returned; a falsy type reads 'Не указан' |
| LegacyClient.NeverBlank | public/app.js:591 | the label is never empty, and is 'Не указан' exactly for a falsy type or that literal text |
| LegacyClient.GradeColor | public/app.js:594-598 | success for 4 and above, warning for exactly 3, danger otherwise |
| LegacyClient.GradeStatus | public/app.js:623-627 | Сдано, Удовлетворительно or Не сдано on the same thresholds |
| LegacyClient.StatusMatchesColor | public/app.js:594-627 | the status badge always carries getGradeColor's colour |
| LegacyClient.ThreeAndAHalfIsDanger | public/app.js:596 | strict equality with 3 leaves 3.5 in the danger colour |
| LegacyClient.FormatDate | public/app.js:616-619 | '' for a falsy date; otherwise the locale rendering |
| LegacyClient.CountGrade | public/app.js:393-401 | the tile counts are the number of grades equal to 5 and to 4 |
| LegacyClient.ExcellentAndGoodFit | public/app.js:393-401 | the two counts together never exceed the number of grades |
| StatusMigration.NormalizeStatusAsWritten | fix-attendance-table-complete.js:28-40 | mapped keys give their status; other ordinary strings give 'absent'; a key inherited from Object.prototype is returned as that inherited value |
| StatusMigration.ConstructorEscapes | fix-attendance-table-complete.js:39 | 'constructor' falls outside the target set instead of becoming 'absent' |
| StatusMigration.NormalizeStatus | fix-attendance-table-complete.js:18-40 | the output is always present/absent/late/excused; canonical statuses map to themselves; anything unmapped becomes 'absent' |
| StatusMigration.NormalizeIdempotent | fix-attendance-table-complete.js:28-40 | normalising twice equals normalising once |
| StatusMigration.SickBecomesAbsent | fix-attendance-table-complete.js:39 | the initial schema's 'sick' becomes 'absent' |
| StatusMigration.CorrectionAgreesOutsidePrototypeKeys | fix-attendance-table-complete.js:28-40 | outside the inherited keys, the corrected and written mappings agree |
| StatusMigration.LabelsTranslate | fix-attendance-table-complete.js:34-37 | the Russian labels map to present, absent, late and excused |
| Js.OrNum | routes/session-schedule.js:158 | `a \|\| b` on numbers: a when truthy, otherwise b |
| Js.OrStr | server.js:809 | `a \|\| b` on text: a when truthy, otherwise b |

## Left out

- SQL text, driver errors and callback order. Tables are sequences and each statement is atomic. A 500 from a failing query other than a constraint is not modelled.
- Foreign keys are never enforced: the connection does not turn them on. Dangling ids are representable, and the inner joins drop them.
- bcrypt, JWT secrets, token expiry time and the hash's salt randomness. They are the parameters `hash`, `compare`, `sign` and `verify`.
- The `last_login` and `updated_at` timestamp writes in routes/auth.js. Clocks are outside the model.
- Express path matching details: case-insensitivity, trailing slashes, URL decoding and the final 404 catch-all. Routes match on literal segments and non-empty parameters.
- Read-only routes whose only logic is their query: the other GET handlers in server.js, routes/attendance.js and routes/session-schedule.js, the `/api/statistics/*` aggregates in server.js, server.js `/api/auth/me`, and the thin student/group/subject/teacher routes.
- The SQL aggregate of routes/statistics.js, which reads a `curriculum` table that no script creates. Its per-subject rows are the input of the fold.
- ServerLogin.Login: the reply's user object is the projection the model needs (id, username, role, linked ids, group), not every users column.
- GradeRoutes.Gradebook: routes/grades.js does not select `is_pass`; the model's roster rows carry it anyway.
- ServerGrades.Gradebook: the server.js SELECT (server.js:272-274) projects neither `is_pass` nor `teacher_id`; the shared roster rows carry both, and no contract of that handler reads them.
- FreshId: AUTOINCREMENT never hands out an id a DELETE freed, while the model takes one more than the largest live id. Contracts therefore state ids only as positive and above every live id, and LastSubmissionWins compares contents rather than ids.
- AuthRoutes.Login, AuthRoutes.Current and AuthRoutes.UpdateProfile model a users table that has `is_active` and `email` (and `updated_at`) columns. The table database.js:127-137 creates has none of them, so on that table the login query and both profile UPDATEs fail with a 500.
- ServerGrades.PostGrade and GradeRoutes.Save: the grade is a whole number. A fractional grade such as 4.5 passes the handlers' checks and the `BETWEEN 2 AND 5` CHECK and is stored, which the model cannot express.
- ServerGrades.PostGrade, GradeRoutes.Save, ServerAttendance.ReplaceDay and AttendanceRoutes.Bulk: body fields have their intended JavaScript type. Numeric strings for ids or grades, and string/number coercions in comparisons, are not modelled.
- ServerAttendance.ReplaceDay and AttendanceRoutes.Bulk: the records field is a list or missing. A truthy non-list passes the 400 check (server.js:789); in replace-day the DELETE then runs and the `for ... of` throws (server.js:805), giving a 500 with the day's rows gone. That path is not modelled.
- AttendanceRoutes.Percent: `Math.round` on a float is modelled as exact rational rounding; binary floating-point error is not.
- GroupStatistics.OverallAverage: the `Math.round(... * 100) / 100` and SQL `ROUND(..., 2)` steps are left out; the model states the unrounded mean.
- SpaClient.Pct: `toFixed(1)` formatting is left out; the model states the unrounded share.
- SpaClient.ShownAverage: `toFixed(2)` formatting is left out; the model states the unrounded mean.
- SpaClient.GradeBadge: grades are numbers; string or null grades and their coercion are not modelled.
- LegacyClient.GradeColor: a string grade coerces under `>=` but not under `===`; only numbers and null are modelled.
- Seed: seed rows are compared by content; the ids AUTOINCREMENT assigns and the schedule and attendance seeds (their tables are dropped and recreated at every start) are not modelled.
- Rendering, DOM, fetch, localStorage, PDF/Excel export, backups and the other migration and inspection scripts.
- Concurrency: the check-then-insert of the grade upsert and the delete-then-insert of replace-day are modelled as if no other request interleaves.

## Findings

| source | as written | input that shows it | evidently intended | confidence | as-written member | corrected member |
|---|---|---|---|---|---|---|
| fix-attendance-table-complete.js:39 | `statusMap[status] \|\| 'absent'` looks the status up on an object literal, which also finds the properties every object inherits | a stored status of `constructor` (or `toString`, `valueOf`, ...) yields a function instead of 'absent', so the copied row fails the target CHECK | any status outside the map becomes 'absent', so the output always lies in present/absent/late/excused | low: reachable only when the old table holds such a status; not executed | StatusMigration.NormalizeStatusAsWritten | StatusMigration.NormalizeStatus |
