# LMS attendance, grades and class-session core in Dafny

This project models the part of the LMS (a learning-management system with an Express/MySQL
server and a React client) that tracks who attended which class session and how far each
attendance claim has been confirmed. It covers:

- the attendance table and its status machine. There is at most one row per
  (enrolment, session) pair. The statuses run Not attended -> Pending -> Verified.
  The instructor-scoped routes write and verify statuses only for sessions of class
  offerings the instructor is assigned to, and the student-scoped route can only ask for
  Pending. The generic routes (POST /, PUT /:id, PATCH /:id/pending, PATCH
  /verify-all/:session_id) check no assignment at all.
- the denormalised `grades_and_attendance` table. It has the same status operations,
  plus field-wise partial updates.
- class sessions. Creating a session gives every Active enrolment of its class offering a
  placeholder grade/attendance record, through one multi-row INSERT. A loop builds that
  INSERT's VALUES list and parameter array.
- the teaching-assignment and enrolment tables that these guards and that provisioning read.
- the client's helpers:
  - the date-time text converters, written twice in two pages;
  - the error-message picker.

## How it is modelled

The database is one `Store.Database` class with a map field per table.

- **Route handlers** are methods that name the fields they change (`modifies db`attendance`).
  Each states its new table as a function of the old one, and states its HTTP outcome
  (`Schema.Outcome`).
- **Writes to a table** are functions from the old table to the new one. Their contracts
  say what the write means:
  - for the attendance table, through the (enrolment, session) -> status view `StatusOf`;
  - which rows change, and which do not;
  - how the row count changes.
- **The GET lists** are ghost functions. Each states which rows appear (each exactly once)
  and their ORDER BY order, as a lexicographic order on `Ordering.SortKey` sequences.
- **The client helpers** are pure functions over strings and JavaScript values.

Things the model treats as inputs or leaves out:

- Auto-increment counters are fields of the database, and the ids they hand out are
  parameters of the table functions.
- Tables the core only reads are constant fields: student names, and class offerings
  with their course.
- SQL errors raised by the database, HTTP parsing and the network are not modelled.

## Model

| member | source | states |
|---|---|---|
| AttendanceRoutes.StudentTransition | server/routes/attendance.js:214-225 | A student's request never yields Not attended. It raises the status by at most one step and never lowers it. Pending and Verified are kept. |
| AttendanceRoutes.UpsertRows | server/routes/attendance.js:113-121 | INSERT ... ON DUPLICATE KEY UPDATE. The pair ends with the given status, or Not attended when none is given, even over a Pending or Verified row. Every other pair keeps its status, and rows keep their pair. The table grows by one exactly when the pair had no row. |
| AttendanceRoutes.UpsertIdempotent | server/routes/attendance.js:252-260 | Repeating an upsert gives the same table. |
| AttendanceRoutes.StudentPendingRows | server/routes/attendance.js:214-225 | The pair's status becomes StudentTransition of its old status. A missing row is added as Pending, growing the table by one. Every other pair is unchanged. |
| AttendanceRoutes.StudentPendingIdempotent | server/routes/attendance.js:214-225 | Asking for Pending twice is the same as asking once. |
| AttendanceRoutes.StudentPendingNeverDowngrades | server/routes/attendance.js:214-225 | A Pending or Verified pair keeps its status when the student asks again. |
| AttendanceRoutes.PutStatusRows | server/routes/attendance.js:375-382 | COALESCE(status, old status) on row id. Only that row's pair can change. An absent status or an unknown id leaves the table unchanged. |
| AttendanceRoutes.ForcePendingRows | server/routes/attendance.js:402-409 | Row id becomes Pending from any status, Verified included. Nothing else changes, and an unknown id changes nothing. |
| AttendanceRoutes.DeleteRows | server/routes/attendance.js:451-454 | Exactly row id goes. Its pair then has no status, and every other pair keeps its status. |
| AttendanceRoutes.VerifyAllRows | server/routes/attendance.js:429-437 | Exactly the Pending pairs of session s become Verified. The rows that change are exactly the Pending rows of s. |
| AttendanceRoutes.VerifyAllIdempotent | server/routes/attendance.js:429-437 | After verify-all, nothing in the session is Pending, and a second verify-all changes nothing. |
| AttendanceRoutes.VerifyOfferingRowsAsWritten | server/routes/attendance.js:163-175 | The UPDATE as written verifies every Pending row whose enrolment is in the offering, whatever the row's session. |
| AttendanceRoutes.VerifySessionRows | server/routes/attendance.js:163-175 | Corrected: only the Pending rows of session s in the offering become Verified. Rows of other sessions are untouched. |
| AttendanceRoutes.SiblingSessionVerified | server/routes/attendance.js:163-175 | A Pending row of a sibling session is verified by the UPDATE as written but left Pending by the corrected one. |
| AttendanceRoutes.SiblingSessionExample | server/routes/attendance.js:163-175 | A concrete instance: verifying session 10 of offering 1 as written verifies a Pending row of session 11. |
| AttendanceRoutes.InstructorRoster | server/routes/attendance.js:33-85 | 404 with no rows unless an assignment links the instructor to the session's offering. Otherwise every enrolment of the offering appears exactly once, with its status or Not attended, sorted by student name. |
| AttendanceRoutes.ListAttendance | server/routes/attendance.js:277-326 | Exactly the rows that pass the joins and the given filters, each once, ordered by session_no, student name, attendance_id. |
| AttendanceRoutes.Upsert | server/routes/attendance.js:113-131 | Applies the upsert and returns the pair's row. A new row gets the next attendance_id. The attendance_id counter advances by one on every call, also when the pair already had a row. |
| AttendanceRoutes.UpsertedRow | server/routes/attendance.js:113-131 | After the upsert the SELECT finds the pair's row; when the pair had none it is the new row under the counter's value, and every key stays below the advanced counter. |
| AttendanceRoutes.PostAttendance | server/routes/attendance.js:248-273 | Applies the upsert and answers with the pair's row. 201 when the pair had no row; when it had one, 201 or 200 depending on the id the driver reports for an update. The attendance_id counter advances by one either way. |
| AttendanceRoutes.InstructorUpsert | server/routes/attendance.js:91-137 | 403 and no change, counter included, without an assignment to the session's offering. Then 400 and no change for an enrolment outside that offering. Otherwise the upsert, with the attendance_id counter advanced by one. |
| AttendanceRoutes.InstructorVerifyPending | server/routes/attendance.js:140-184 | 403 and no change without an assignment. Otherwise the corrected verify of the session, returning the number of rows changed. |
| AttendanceRoutes.StudentSetPending | server/routes/attendance.js:188-243 | 404 and no change, counter included, exactly when the student has no enrolment in the session's offering. Otherwise the student transition on one such enrolment's pair, with the attendance_id counter advanced by one. |
| AttendanceRoutes.PutAttendance | server/routes/attendance.js:370-394 | 404 and no change for an unknown id. Otherwise the COALESCE update, answering with the row. |
| AttendanceRoutes.PatchPending | server/routes/attendance.js:398-421 | 404 and no change for an unknown id. Otherwise forces the row to Pending. |
| AttendanceRoutes.VerifyAll | server/routes/attendance.js:425-443 | Verifies the session's Pending rows and returns how many there were. |
| AttendanceRoutes.DeleteAttendance | server/routes/attendance.js:447-461 | 204 and the row gone, or 404 and no change. |
| GradesAttendanceRoutes.PatchFields | server/routes/grades_attendance.js:131-138 | Each supplied field replaces the stored one and each absent field keeps it. The enrolment and session never change. |
| GradesAttendanceRoutes.EmptyPatchKeepsRecord | server/routes/grades_attendance.js:131-138 | A PUT with no fields leaves the record as it was. |
| GradesAttendanceRoutes.PatchFieldsIdempotent | server/routes/grades_attendance.js:131-138 | Applying the same PUT twice is the same as once. |
| GradesAttendanceRoutes.PutRecordRows | server/routes/grades_attendance.js:127-144 | Only record id changes, to the patched record. An unknown id changes nothing. |
| GradesAttendanceRoutes.PendingRecordRows | server/routes/grades_attendance.js:152-158 | Record id becomes Pending from any status. No other field and no other record changes. |
| GradesAttendanceRoutes.DeleteRecordRows | server/routes/grades_attendance.js:202 | Exactly record id goes. The count drops by one exactly when it existed. |
| GradesAttendanceRoutes.VerifyRecordRows | server/routes/grades_attendance.js:180-186 | Exactly the Pending records of session s become Verified, with no other field changed. The changed ids are exactly those records. |
| GradesAttendanceRoutes.VerifyRecordRowsIdempotent | server/routes/grades_attendance.js:180-186 | Nothing in the session stays Pending, and a second verify-all changes nothing. |
| GradesAttendanceRoutes.VerifyRecordRowsMonotone | server/routes/grades_attendance.js:180-186 | Verify-all never lowers a status: each record keeps its status or goes from Pending to Verified. |
| GradesAttendanceRoutes.ListRecords | server/routes/grades_attendance.js:20-60 | Exactly the records that pass the joins and the given filters, each once, ordered by student name then record_id. |
| GradesAttendanceRoutes.PostRecord | server/routes/grades_attendance.js:5-17 | Always adds a record under a fresh id, even for a pair that already has one, and advances the record_id counter by one. The status defaults to Not attended. 201. |
| GradesAttendanceRoutes.PutRecord | server/routes/grades_attendance.js:127-144 | 404 and no change for an unknown id. Otherwise the patch, answering with the record. |
| GradesAttendanceRoutes.PatchRecordPending | server/routes/grades_attendance.js:148-172 | 404 and no change for an unknown id. Otherwise the record becomes Pending. |
| GradesAttendanceRoutes.VerifyAllRecords | server/routes/grades_attendance.js:176-195 | Verifies the session's Pending records and returns how many there were. |
| GradesAttendanceRoutes.DeleteRecord | server/routes/grades_attendance.js:199-206 | 204 and the record gone, or 404 and no change. |
| ClassSessionRoutes.EncodeRecord | server/routes/class_session.js:63-70 | A record is sent as exactly six parameters, in column order. |
| ClassSessionRoutes.DecodeRecord | server/routes/class_session.js:73-79 | Any six parameters the INSERT accepts are the encoding of the record it stores. |
| ClassSessionRoutes.DecodeEncodeRecord | server/routes/class_session.js:63-79 | Round trip: one record's six parameters are read back as that record. |
| ClassSessionRoutes.EncodeRows | server/routes/class_session.js:61-71 | The flat parameter array holds six values per row. |
| ClassSessionRoutes.EncodeRowsAppend | server/routes/class_session.js:61-71 | Pushing one more row appends its six parameters. |
| ClassSessionRoutes.DecodeRows | server/routes/class_session.js:73-79 | The rows read from a parameter array re-encode to exactly that array. |
| ClassSessionRoutes.DecodeEncodeRows | server/routes/class_session.js:58-79 | Round trip: the database reads back exactly the rows whose parameters were sent. |
| ClassSessionRoutes.InsertAll | server/routes/class_session.js:73-79 | The multi-row INSERT keeps the old records and stores row j under id next + j. The table grows by the number of rows. |
| ClassSessionRoutes.BulkInsert | server/routes/class_session.js:57-79 | An empty VALUES list fails. A successful INSERT stores exactly the rows the parameters encode, one per placeholder. |
| ClassSessionRoutes.BulkInsertOfPlaceholders | server/routes/class_session.js:57-79 | With one row tuple per record and the records' parameters, the INSERT succeeds and stores those records. |
| ClassSessionRoutes.Placeholders | server/routes/class_session.js:61-71 | One record per listed enrolment, in order: that enrolment's 'Session' record for the new session, with score 0, weight 0 and status Not attended. |
| ClassSessionRoutes.Provision | server/routes/class_session.js:44-80 | Provisioning a session grows the records table by exactly the number of Active enrolments of its offering. |
| ClassSessionRoutes.ProvisionSpec | server/routes/class_session.js:44-80 | Old records are untouched. Each Active enrolment of the offering (status Active and the session's class_offering_id, as ActiveEnrolmentIds selects them) gets exactly one new record, its placeholder for the session, and no other enrolment gets one. |
| ClassSessionRoutes.ProvisionRecords | server/routes/class_session.js:44-80 | Listing the Active enrolments and, only when there is at least one, running the built multi-row INSERT yields the provisioned table. The record_id counter advances by the number of Active enrolments, and every key stays below it. |
| ClassSessionRoutes.PlaceholdersAreNew | server/routes/class_session.js:57-80 | Every record the INSERT adds is the placeholder of a listed enrolment. |
| ClassSessionRoutes.EveryPlaceholderInserted | server/routes/class_session.js:57-80 | Every listed enrolment gets a new record from the INSERT. |
| ClassSessionRoutes.PlaceholdersOnce | server/routes/class_session.js:57-80 | When no enrolment is listed twice, no enrolment gets two new records. |
| ClassSessionRoutes.NewRecordOf | server/routes/class_session.js:58-71 | The record the INSERT adds under id k is the placeholder of the (k - next)-th listed enrolment. |
| ClassSessionRoutes.CreateSession | server/routes/class_session.js:13-106 | Adds the session under a fresh id and provisions it. With no Active enrolment, no records are added. The session_id counter advances by one and the record_id counter by the number of Active enrolments. 201. |
| ClassSessionRoutes.BuildInsertValues | server/routes/class_session.js:58-71 | The loop yields one row tuple per enrolment, and a parameter array that is the encoding of the enrolments' placeholder records. |
| ClassSessionRoutes.PutSessionRows | server/routes/class_session.js:177-196 | Session id's six columns are overwritten. An absent title or room becomes NULL. An unknown id changes nothing. |
| ClassSessionRoutes.UpdateSession | server/routes/class_session.js:164-226 | 404 and no change for an unknown id. Otherwise the overwrite, answering with the new row. |
| ClassSessionRoutes.DeleteSession | server/routes/class_session.js:230-251 | 204 and only that session gone, or 404 and no change. |
| ClassSessionRoutes.EmptySearchIsNoFilter | server/routes/class_session.js:137-146 | An empty search term matches every session, so skipping it as falsy changes no listing. |
| ClassSessionRoutes.ListSessions | server/routes/class_session.js:111-160 | Exactly the sessions that pass the join and the given filters, each once, ordered by start date then session_no. |
| ClassSessionRoutes.JoinRows | server/routes/class_session.js:275-287 | The LEFT JOIN yields each record of a (session, enrolment) pair, and one NULL row for each pair with no record. |
| ClassSessionRoutes.SessionsByStudent | server/routes/class_session.js:255-297 | Every record of each of the student's (session, enrolment) pairs appears once. A pair without records appears once with NULL record fields, exactly when it has no record. Ordered by start date then session_no. |
| ClassSessionRoutes.JoinRowsListed | server/routes/class_session.js:259-289 | A listing holding exactly the join's rows contains the rows SessionsByStudent promises. |
| TeachingAssignmentRoutes.CreateAssignmentRows | server/routes/teaching_assignment.js:14-47 | 400 exactly when either id is falsy. Then 409 exactly when the pair exists. Otherwise the pair is added with the given role, or 'Lecturer'. Only a 201 changes the table. |
| TeachingAssignmentRoutes.GetAssignment | server/routes/teaching_assignment.js:90-110 | 200 with the role exactly when the pair exists, otherwise 404. |
| TeachingAssignmentRoutes.UpdateRoleRows | server/routes/teaching_assignment.js:115-152 | 400 exactly when the role is falsy. Then 404 exactly when the pair is absent. Otherwise only that pair's role changes. |
| TeachingAssignmentRoutes.DeleteAssignmentRows | server/routes/teaching_assignment.js:156-178 | Exactly that pair goes: 204, or 404 when it was absent. |
| TeachingAssignmentRoutes.CreateThenGet | server/routes/teaching_assignment.js:27-31 | A created assignment reads back with its role or 'Lecturer'. |
| TeachingAssignmentRoutes.CreateTwiceConflicts | server/routes/teaching_assignment.js:27-31 | Creating the same pair again is a 409 and changes nothing. |
| TeachingAssignmentRoutes.CreateThenDelete | server/routes/teaching_assignment.js:156-178 | Deleting a freshly created pair gives back the original table. |
| TeachingAssignmentRoutes.ListAssignments | server/routes/teaching_assignment.js:52-86 | Exactly the assignments that pass the given filters, each once, ordered by instructor_id then class_offering_id. |
| TeachingAssignmentRoutes.CreateAssignment | server/routes/teaching_assignment.js:14-47 | Applies the create, answering with the new row on 201. |
| TeachingAssignmentRoutes.UpdateRole | server/routes/teaching_assignment.js:115-152 | Applies the role update, answering with the row on 200. |
| TeachingAssignmentRoutes.DeleteAssignment | server/routes/teaching_assignment.js:156-178 | Applies the delete. |
| EnrolmentRoutes.CreateEnrolmentRows | server/routes/enrolments.js:8-12 | Adds the enrolment under a fresh id, Active when no status is given. Nothing else changes. |
| EnrolmentRoutes.SetStatusRows | server/routes/enrolments.js:56-60 | Only that enrolment's status changes. An unknown id changes nothing. |
| EnrolmentRoutes.DeleteEnrolmentRows | server/routes/enrolments.js:70-71 | Exactly that enrolment goes. |
| EnrolmentRoutes.CreatedEnrolmentIsProvisioned | server/routes/enrolments.js:8-11 | An enrolment created without a status is one that later sessions of its offering provision. |
| EnrolmentRoutes.StatusDecidesProvisioning | server/routes/enrolments.js:56-59 | An enrolment is provisioned exactly when its status was set Active. No other enrolment's provisioning changes. |
| EnrolmentRoutes.NewestFirst | server/routes/enrolments.js:44 | A listing sorted by the descending-id key has strictly falling ids. |
| EnrolmentRoutes.ListEnrolments | server/routes/enrolments.js:29-49 | Exactly the enrolments that pass the joins and the given filters, newest (highest id) first. |
| EnrolmentRoutes.CreateEnrolment | server/routes/enrolments.js:4-26 | Applies the create under the next id and advances the enrolment_id counter by one. 201. |
| EnrolmentRoutes.UpdateEnrolmentStatus | server/routes/enrolments.js:52-64 | 404 and no change for an unknown id. Otherwise the status update. |
| EnrolmentRoutes.DeleteEnrolment | server/routes/enrolments.js:67-74 | 204 and the enrolment gone, or 404 and no change. |
| JsString.IndexOf | client/src/pages/ClassSessionsPage.jsx:11 | The first position of the character, or the length when it does not occur. |
| JsString.ReplaceFirst | client/src/pages/ClassSessionsPage.jsx:11 | Only the first occurrence is replaced, and the length is kept. |
| JsString.Slice | client/src/pages/ClassSessionsPage.jsx:13 | The prefix of length min(n, length). |
| ClassSessionsPage.ToInputDateTime | client/src/pages/ClassSessionsPage.jsx:8-14 | '' for a falsy value. Otherwise at most 16 characters: the input's prefix with its first space turned into 'T'. |
| ClassSessionsPage.FromInputDateTime | client/src/pages/ClassSessionsPage.jsx:16-20 | null exactly for a falsy value. Otherwise the input with its first 'T' turned into a space, followed by ":00", three characters longer. |
| ClassSessionsPage.RoundTrip | client/src/pages/ClassSessionsPage.jsx:8-20 | Any 16-character value without a space survives a save followed by an edit. |
| ClassSessionsPage.InputRoundTrip | client/src/pages/ClassSessionsPage.jsx:8-20 | Every "YYYY-MM-DDTHH:MM" value survives a save followed by an edit. |
| ClassSessionsPage.ShownForEdit | client/src/pages/ClassSessionsPage.jsx:8-14 | A stored "YYYY-MM-DD HH:MM:SS" is shown as "YYYY-MM-DDTHH:MM". |
| ClassSessionsPage.SecondsReset | client/src/pages/ClassSessionsPage.jsx:8-20 | Saving an edit form left untouched keeps the date, hours and minutes of a stored DATETIME and sets its seconds to 00. |
| InstructorClassSessions.ToInputDateTime | client/src/pages/InstructorClassSessions.jsx:10-16 | This copy computes the same function as the administrator page's copy. |
| InstructorClassSessions.FromInputDateTime | client/src/pages/InstructorClassSessions.jsx:18-22 | This copy computes the same function as the administrator page's copy. |
| InstructorClassSessions.InputRoundTrip | client/src/pages/InstructorClassSessions.jsx:10-22 | Every "YYYY-MM-DDTHH:MM" value survives a save followed by an edit on this page too. |
| InstructorClassSessions.SecondsReset | client/src/pages/InstructorClassSessions.jsx:10-22 | On this page too, an untouched edit resets the seconds to 00. |
| Api.GetErrorMessage | client/src/api.js:8-12 | The server's error if truthy. Otherwise its message if truthy. Otherwise, for a nullish err, a throw. Otherwise err.message if truthy, else 'Request failed'. A returned value is always truthy. The fields are read with optional chaining, defined by Get: a missing property or a non-object reads as undefined. |
| Api.MessageNeverFalsy | client/src/api.js:8-12 | For any non-nullish error, a truthy message is returned. |
| Api.NoResponseFallsBack | client/src/api.js:11 | An error with no response shows its own message, or 'Request failed'. |

## Left out

- Data the SQL returns that is only joined in for display is left out of the rows: e-mail, cohort, class group, class type and term label. The model keeps the joins' effect of dropping a row whose joined row is missing.
- Foreign-key, CHECK and NOT NULL constraints of the schema are not part of this model. Inputs that would violate them (an unknown offering, a score over 100, a missing required field) would make the database raise an error, which is not modelled.
- LIKE in the session search is modelled as plain substring containment. The collation's case folding and the wildcard meaning of '%' and '_' inside the search term are left out.
- AttendanceRoutes.PostAttendance: whether the driver reports an insertId for a row that was only updated is outside the code, so it is a parameter of the handler.
- ClassSessionRoutes.Provision: the enrolment SELECT has no ORDER BY, so the source does not say which record_id each enrolment's placeholder gets. The model inserts them in ascending enrolment_id, so CreateSession's new table is one of the tables the source may produce. ClassSessionRoutes.ProvisionSpec states only what holds whatever the order.
- JsString.Slice, JsString.IndexOf, JsString.ReplaceFirst: a Dafny `char` is a Unicode scalar value, while JavaScript strings count UTF-16 code units. Positions and lengths therefore differ from the source for text with characters outside the Basic Multilingual Plane; date-time text has none.
- ClassSessionRoutes.SessionsByStudent: the SQL joins class_offering only, but the model checks the offering against its offering view, which also joins the course. An offering without a course row would drop out of the model's listing but not out of the source's; the schema's foreign keys, which are not part of this model, are what rule that out.
- ClassSessionRoutes.CreateSession: the source runs the session INSERT, the enrolment SELECT and the bulk INSERT without a transaction, so a failure part-way leaves the session without records. The model has no failures and treats the three as one step.
- GradesAttendanceRoutes: the router's file is modelled, but server/index.js does not mount it, so none of its routes is reachable as the code stands.
- Auto-increment ids are modelled as InnoDB hands them out: every upsert consumes one attendance_id even when it only updates, and a multi-row INSERT consumes one id per row. The handlers' contracts state each counter's new value.
- AttendanceRoutes.StudentSetPending: `LIMIT 1` picks an unspecified enrolment when a student has several in the offering. The model promises only that one such enrolment is used.
- Ids are numbers. A body id sent as the string "0" would be truthy in JavaScript, and that case is not modelled. Query filters are strings, and there only an absent or empty parameter is skipped.
- Date-time columns are text. The driver turns a DATETIME into a Date, which `res.json` sends as ISO-8601 text ("YYYY-MM-DDTHH:MM:SS.sssZ", in UTC); that form and time zones are left out. ClassSessionsPage.ShownForEdit and ClassSessionsPage.SecondsReset cover only "YYYY-MM-DD HH:MM:SS" text. So are Unicode normalisation and collation of names: names sort by code point.
- Score and weight are integers. Fractional values and JavaScript numbers other than integers (NaN, floating point) are left out, and so is number truthiness beyond "0 is falsy".
- Provisioning writes placeholders to `grades_and_attendance`, as the code does, not to the attendance table.
- The by-class-offering GET routes of the attendance and grades routers are not part of this model. They are plain filtered selects of the same shape as the lists above.
- HTTP response bodies beyond the row or count are not modelled. Nor are the error handler's messages, apart from the 409 for a duplicate teaching assignment (server/index.js:45).

## Findings

| source | as written | input that shows it | evidently intended | confidence | as-written member | corrected member |
|---|---|---|---|---|---|---|
| server/routes/attendance.js:163-175 | The instructor verify-pending UPDATE joins attendance to the session's class offering, but never requires `a.session_id` to equal the requested session. Every Pending row of every session of the offering becomes Verified. | Offering 1 has sessions 10 and 11. Enrolment 5 is Pending in session 11. Verify-pending for session 10 verifies that row too. | Only the Pending rows of the requested session are verified, as the route's path and the generic verify-all (attendance.js:429-437) do. | not executed | AttendanceRoutes.VerifyOfferingRowsAsWritten (exhibited by AttendanceRoutes.SiblingSessionVerified, AttendanceRoutes.SiblingSessionExample) | AttendanceRoutes.VerifySessionRows (used by AttendanceRoutes.InstructorVerifyPending) |
