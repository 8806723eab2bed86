# Campus event backend — a Dafny model

The backend keeps six tables: colleges, students, events, registrations,
attendance and feedback. It exposes these HTTP routes:

- public routes to register for an event, check in and submit feedback;
- public routes to read an event's figures and whether a registration has feedback;
- admin routes, behind an `x-admin-token` header, to create, edit and cancel events, list an event's roster and mark attendance;
- report routes: popularity, attendance, feedback, student participation, top active students and registrations per event.

This project models that core as pure functions over an immutable store.

- **Tables.** Each table is a sequence of rows in insertion order. A query's `.first()` is the first matching row, and a count is a count over the sequence.
- **Requests.** Every handler takes the store and returns the new store together with the answer: a value, or a `Failure` that maps to the handler's HTTP status.
- **Outside inputs.** The clock, the uuids a handler generates, the configured admin token and the two Joi predicates (`email()` and date parsing) are parameters.
- **Reports.** Each report applies its SQL's filters, and its `COUNT`, `SUM` and `AVG` figures are the ones the SQL joins compute, duplicated rows included. Each list has one entry per row of the table it is drawn from. Two things are not kept: a list entry repeated by extra joined rows, and the roster's order by name (see "## Left out"). Lemmas relate the report's figures to the plain table counts under the store invariants.

Files, one module each:

| file | module | content |
|---|---|---|
| `tables.dfy` | `Tables` | first match, count, sum, filter, in-place update, stable descending sort, top-k |
| `schema.dfy` | `Schema` | rows, store, failures, lookups, the store invariant `Valid` and `WithinCapacity` |
| `validators.dfy` | `Validators` | the admin token check and the three Joi schemas as decoders |
| `registration.dfy` | `Registrations` | `POST /events/:eventId/register` |
| `attendance.dfy` | `Attendances` | check-in, admin attendance marking, the three-state status, the admin roster |
| `feedback.dfy` | `Feedbacks` | feedback submission and feedback status |
| `event_admin.dfy` | `EventAdmin` | admin create, update and cancel |
| `event_stats.dfy` | `EventStats` | `registrations_count`, `available_spots`, `is_full`, `attendance_count` |
| `reports.dfy` | `Reports` | the six reports |
| `machine.dfy` | `Machine` | the write routes dispatched over one store, with the admin token in front |

Some modelling choices:

- **Database.** The default database client is SQLite.
  - The unique columns hold: student email, and the (event, student) pair of a registration.
  - Foreign keys are not enforced. A registration may therefore name a student id that has no row.
- **Event updates.** knex leaves `undefined` values out of an UPDATE.
  - An edit that omits `description`, `capacity` or `status` keeps the stored value.
  - `title`, `type`, `start_time` and `end_time` are required by the schema, so they are always replaced.
  - The `college_name` of an edit is validated but never written.
- **Status values.** `present` is the integer column: 1 is present, 0 is absent. "Attended" in the reports counts attendance rows whether present or absent. `attendance_count` on an event counts present rows only.

## Model

| member | source | states |
|---|---|---|
| Validators.CheckAdminToken | src/controllers/validators.js:4-22 | a missing or empty header is refused as 401; a header equal to neither the configured token nor `admin123456` is refused as 403; the request passes exactly when the header is non-empty and equals one of the two |
| Validators.ValidateEvent | src/controllers/validators.js:25-60 | an accepted body yields an input that is well formed (college 2-255 chars, title 3-200, type in the six kinds, description at most 1000, end not before start, capacity 1-1000, status in the three statuses) and that the body encodes; a refused body encodes no well-formed input |
| Validators.ValidateRegistration | src/controllers/validators.js:88-113 | an accepted body yields a well-formed input that it encodes: name and email are required when `student_id` is `new`, while with no id the schema accepts the body and the handler answers 400 (`Registrations.ResolveStudent`); lengths and email and phone rules hold; a refused body encodes no well-formed input |
| Validators.ValidateFeedback | src/controllers/validators.js:132-143 | accepted exactly when the rating is a whole number from 1 to 5 and the comment, if given, is a non-empty string of at most 500 characters; the result is that rating and comment |
| Validators.RatingBoundaries | src/controllers/validators.js:133 | ratings 0 and 6 are refused, ratings 1 and 5 accepted, whatever valid comment comes with them |
| Registrations.Admit | src/routes/events.js:136-172 | the first failing check decides: unknown event is 404, then cancelled, then started (start at or before now), then full (limited and `registered` count at or above capacity); the event is admitted exactly when it is open |
| Registrations.ResolveStudent | src/routes/events.js:174-207 | a request without a usable student id or with `new` needs a name and an email, refuses an email already on file as 409, and otherwise adds one student row with the event's college; any other student id is used as given, unchecked |
| Registrations.Register | src/routes/events.js:130-250 | success only for an open event; a closed event, a missing name or email, or a taken email leaves the store unchanged; success appends exactly one `registered` row for the resolved student and touches no other table except the new student; once the event is open and the student resolves, the request succeeds exactly when no registration of that (event, student) pair exists, and is otherwise refused as already registered with the first such row |
| Registrations.RegisterRequest | src/routes/events.js:130 | a body the registration schema refuses is a 400 with the store unchanged; an accepted body is handled by the handler with the decoded input |
| Registrations.RegisterRefusalLeavesStore | src/routes/events.js:196-221 | with a fresh student id every refusal leaves the store exactly as it was: a new student never meets an existing registration |
| Registrations.RegisterRespectsCapacity | src/routes/events.js:158-172 | a successful registration adds exactly one to the event's `registered` count and the count stays within a limited capacity |
| Registrations.RegisterKeepsWithinCapacity | src/routes/events.js:158-172 | no registration request takes any limited event past its capacity |
| Registrations.RegisterLeavesOtherCounts | src/routes/events.js:223-233 | registering for one event leaves every other event's `registered` count unchanged |
| Registrations.RegisterTwice | src/routes/events.js:209-221 | repeating a successful registration of an existing student changes nothing and is refused as full or as already registered, with the first registration returned |
| Registrations.NameRequiredOnlyForNewStudents | src/routes/events.js:177-183 | the name-and-email refusal only happens when no usable student id was given |
| Registrations.DuplicateEmailRefused | src/routes/events.js:196-206 | a new student whose email is already on file is refused as 409 and nothing is written |
| Registrations.RegisterPreservesValid | src/routes/events.js:130-250 | registration keeps every key unique, the email and (event, student) unique columns, and every reference resolved |
| Attendances.CheckIn | src/routes/events.js:253-305 | unknown registration is 404 with the store unchanged; an existing attendance row is returned unchanged; otherwise exactly one present row stamped now is appended, and it is the row a later lookup finds |
| Attendances.CheckInIdempotent | src/routes/events.js:269-280 | checking in twice writes once: the second call leaves the store alone and returns the first row as already checked in |
| Attendances.CheckInStatus | src/routes/events.js:269-291 | after a check-in the three-state status is present unless a row already existed, in which case it is unchanged |
| Attendances.CheckInPreservesValid | src/routes/events.js:283-291 | check-in keeps one attendance row per registration and every invariant of the store |
| Attendances.MarkAttendance | src/routes/admin.js:305-377 | a non-boolean `present` is refused first, then an unknown registration; otherwise the registration's row holds the new flag and time, keeping its id when it existed or taking the new id when inserted, no other table changes; an insert appends one row to the attendance table as it was, and an update rewrites exactly the registration's rows in place, leaving every other attendance row as it was; every row of the registration is updated in place, so the number of its rows is kept when some existed and is 1 after an insert, and it is exactly 1 afterwards whenever there was at most one before (which `Valid` guarantees) |
| Attendances.MarkedStatus | src/routes/admin.js:335-363 | after marking, the three-state status is present or absent as marked |
| Attendances.MarkTwiceLastWins | src/routes/admin.js:342-363 | marking twice keeps one row with the first row's id and the second call's flag and time |
| Attendances.MarkAttendancePreservesValid | src/routes/admin.js:330-363 | marking keeps one attendance row per registration and every invariant of the store |
| Attendances.Roster | src/routes/admin.js:241-302 | unknown event is 404; otherwise one entry per `registered` registration of the event whose student exists, each entry carrying that registration, its student, the status of its attendance row and that row's `checked_in_at` (null without a row) |
| Feedbacks.StoredComment | src/routes/events.js:343 | an empty or missing comment is stored as null, any other comment as given |
| Feedbacks.SubmitFeedback | src/routes/events.js:308-361 | unknown registration is 404, existing feedback is 409 with that feedback; both leave the store unchanged; otherwise exactly one feedback row is appended and is the one a later lookup finds |
| Feedbacks.SubmitFeedbackRequest | src/routes/events.js:308 | a body the feedback schema refuses is a 400 with the store unchanged; an accepted body is handled by the handler with the decoded input; stored ratings are those of the body and lie from 1 to 5 |
| Feedbacks.FeedbackStatusOf | src/routes/events.js:461-481 | `has_feedback` holds exactly when some feedback row names the registration, and then the row returned is one of them |
| Feedbacks.SubmitTwice | src/routes/events.js:324-335 | a second submission for the same registration is refused with the first feedback and writes nothing |
| Feedbacks.SubmittedIsReported | src/routes/events.js:337-347 | right after a submission, the feedback status reports it with that row |
| Feedbacks.AtMostOneFeedback | src/routes/events.js:324-347 | a registration never holds more than one feedback row |
| Feedbacks.SubmitFeedbackPreservesValid | src/routes/events.js:337-347 | submission keeps every invariant of the store, including ratings from 1 to 5 |
| EventAdmin.CapacityOrDefault | src/routes/admin.js:42 | a missing or zero capacity becomes 100, any other value is kept |
| EventAdmin.FindOrCreateCollege | src/routes/admin.js:17-31 | a college with the name is reused without a write; otherwise one college with the new id and the name is appended |
| EventAdmin.CreateEvent | src/routes/admin.js:12-71 | the new event is scheduled, has the new id, the input's fields and the defaulted capacity, and belongs to the named college; exactly one event row and at most one college row are added; nothing else changes |
| EventAdmin.CreateTwiceSharesCollege | src/routes/admin.js:17-31 | two events created with the same college name share one college row |
| EventAdmin.CreateEventPreservesValid | src/routes/admin.js:12-71 | creation keeps unique event ids, unique college names and resolved college references |
| EventAdmin.CreateEventKeepsWithinCapacity | src/routes/admin.js:33-48 | a new event has no registrations, so every event stays within capacity |
| EventAdmin.UpdateEvent | src/routes/admin.js:74-114 | unknown event is 404; otherwise title, type, start and end are replaced, description, capacity and status only when supplied, id and college never, and the returned row is the stored one; other events are unchanged |
| EventAdmin.UpdateEventPreservesValid | src/routes/admin.js:87-98 | editing keeps every invariant of the store |
| EventAdmin.UpdateCanBreakCapacity | src/routes/admin.js:87-98 | an edit can lower the capacity of an event below its `registered` count: nothing checks it |
| EventAdmin.CancelEvent | src/routes/admin.js:117-142 | unknown event is 404; otherwise only the status of the event's row becomes cancelled |
| EventAdmin.CancelEventPreservesValid | src/routes/admin.js:129 | cancelling keeps every invariant of the store |
| EventAdmin.CancelEventKeepsWithinCapacity | src/routes/admin.js:129 | cancelling keeps every event within capacity |
| EventAdmin.CancelIdempotent | src/routes/admin.js:117-142 | cancelling twice leaves the store as cancelling once |
| EventStats.AvailabilityOf | src/routes/events.js:111-114 | spots are null exactly for an unlimited event, otherwise between 0 and the capacity and equal to capacity minus `registered` when positive; full exactly when limited and `registered` reaches capacity, and then no spots remain |
| EventStats.Details | src/routes/events.js:78-127 | unknown event is 404; otherwise the event with the id, its `registered` count, its `attendance_count` of present rows joined to its registrations, and the availability derived from them |
| EventStats.OpenIffNotFull | src/routes/events.js:158-172 | for an existing event that is not cancelled and has not started, registration is open exactly when `is_full` is false |
| EventStats.CheckInCounts | src/routes/events.js:102-107 | a first check-in adds one to the attendance count of its registration's event and leaves every other event's count alone |
| Reports.PercentageOf | src/routes/reports.js:74 | the percentage is 0 without registrations and otherwise exactly attended over registrations times 100 |
| Reports.Popularity | src/routes/reports.js:7-53 | exactly the smaller of `limit` (default 10) and the number of selected events, drawn without repetition from the ranked rows, each an event of the college and type filters with its `registered` count, ranked by that count descending; no event left out ranks above one shown; all selected events appear when they fit |
| Reports.RankedRows | src/routes/reports.js:11-33 | before ranking: every row is a selected event with its `registered` count, every selected event has its row, and there are as many rows as selected events |
| Reports.AttendanceReport | src/routes/reports.js:56-108 | one row per event of the college filter, latest start first, and exactly the figures of each selected event |
| Reports.EventAttendanceReport | src/routes/reports.js:111-152 | unknown event is 404; otherwise that event's figures |
| Reports.AttendanceFiguresBounded | src/routes/reports.js:72-81 | with one attendance row per registration, the report's registrations are the `registered` count, the attended count is at most that, and the percentage is from 0 to 100 |
| Reports.AbsentCountsAsAttended | src/routes/reports.js:73 | a sole registrant marked absent makes the attendance 100 percent: the report counts attendance rows, not presence |
| Reports.FeedbackReport | src/routes/reports.js:155-202 | one row per event of the college filter, latest start first, and exactly the figures of each selected event |
| Reports.Details | src/routes/reports.js:230-235 | as many details as feedback rows whose registration is of the event and whose student exists, latest submission first; every detail is such a row's rating, comment and time with its student's name, and every such row has its detail |
| Reports.EventFeedbackReport | src/routes/reports.js:205-250 | unknown event is 404; otherwise the event, its rating count over registrations of any status, its `avg_rating` (null without ratings, see `Reports.AverageRatingInRange`), and exactly the details `Reports.Details` gives, latest first |
| Reports.AverageRatingInRange | src/routes/reports.js:171-191 | with ratings from 1 to 5, the average is null exactly when there are no ratings and otherwise lies from 1 to 5 |
| Reports.StudentParticipation | src/routes/reports.js:253-319 | unknown student, or one outside the college filter, is 404; otherwise the distinct events registered, `events_attended` as the attendance rows of the student's registrations (the score the top-active report ranks by), and the event list, latest start first: each entry is a registration of the student with its event, attended exactly when an attendance row exists, and every registration of the student whose event exists has an entry |
| Reports.DistinctEventsCount | src/routes/reports.js:275 | with unique (event, student) pairs, the distinct events registered equal the student's registrations |
| Reports.AttendedAtMostRegistered | src/routes/reports.js:270-282 | with one attendance row per registration and unique (event, student) pairs, `events_attended` lies between 0 and `events_registered` |
| Reports.TopActive | src/routes/reports.js:322-360 | exactly the smaller of `limit` (default 3) and the number of students the joins keep, drawn without repetition from them, all with an attendance row (present or absent) and a college and inside the college filter, ranked by attendance rows; no student left out ranks above one shown; all such students appear when they fit |
| Reports.AbsentStudentRanksActive | src/routes/reports.js:333-336 | a student whose only attendance row marks them absent is listed as active with one event attended |
| Reports.TopPresent | src/routes/reports.js:322-360 | the ranking counting present rows only, truncated to exactly the smaller of `limit` (default 3) and the number of such students: every student listed was marked present at least once and is one the joins keep, no student left out has more present rows than one shown, and when they fit under the limit every such student is listed |
| Reports.AbsentStudentNotPresent | src/routes/reports.js:333-336 | the present-only ranking leaves the absent student out |
| Reports.ActiveRows | src/routes/reports.js:326-341 | exactly one row per student the inner joins keep: each row's student is on file, inside the college filter, with a positive score, and every such student has its row |
| Reports.RegistrationsPerEvent | src/routes/reports.js:363-403 | every event of the college and status filters (status defaults to scheduled), each with its `registered` count, ranked by it, none missing |
| Reports.CancelledNotShownByDefault | src/routes/reports.js:365 | without a status filter no cancelled event is listed |
| Machine.Apply | src/routes/admin.js:9-12 | an admin request with a missing or wrong token is refused before anything else and writes nothing; only admin routes touch colleges and events, only registration touches students and registrations, only feedback submission touches feedback, and only check-in and marking touch attendance; a request that passes the token check (or needs none) gets exactly its handler's store and answer |
| Machine.ApplyPreservesValid | src/app.js:22-24 | every write route keeps the store invariant, given fresh uuids |
| Machine.ApplyKeepsWithinCapacity | src/routes/events.js:158-172 | every write route except the event edit keeps every limited event within capacity |
| Machine.RefusalLeavesStore | src/routes/events.js:130-250 | given a fresh uuid for a new student, a refused request leaves the store exactly as it was |
| Machine.CancelledEventRefusesRegistration | src/routes/events.js:144-149 | after an event is cancelled, every well-formed registration for it is refused as cancelled |

## Findings

| source | as written | input that shows it | evidently intended | confidence | as-written member | corrected member |
|---|---|---|---|---|---|---|
| src/routes/reports.js:333-336 | the top-active ranking counts every attendance row, so an absent mark makes a student "active" | one student with one registration whose only attendance row has `present` 0 is listed with `events_attended` 1 | count only rows with `present` 1 | medium, not executed | Reports.AbsentStudentRanksActive | Reports.TopPresent |

`Reports.TopActive` models the route as written. `Reports.TopPresent` is the corrected ranking, and `Reports.AbsentStudentNotPresent` shows that it drops the absent student.

## Left out

- The events listing (`GET /events`), registration search, registration details, the colleges list, the admin event listing and the admin single-event view are left out. They are paging, `LIKE` search and joins for display. The availability figures the listing computes are modelled in `EventStats.AvailabilityOf`.
- The report filter route (`GET /reports/filter`) is left out. It has no counterpart among the modelled reports.
- Timestamps are integers. The conversion to `YYYY-MM-DD HH:MM:SS` strings and their re-reading in local time are not modelled.
- Floating point is not modelled. Percentages and averages are exact ratios; `toFixed(2)` formatting is left out.
- Joi's conversion of numeric strings to numbers is not modelled: a rating or capacity sent as a string is refused. Joi's e-mail check and date parsing are parameters. Unknown body keys are not modelled.
- String lengths count characters, not UTF-16 code units.
- A `limit` query value is a natural number or absent. An empty or non-numeric `limit` is not modelled.
- The `college_name` columns the reports join for display are not modelled, except in the top-active report, where the join also filters.
- Attendances.Roster: the roster's ordering by student name is not modelled; entries come in table order.
- List entries repeated by the joins are not modelled. A registration with several attendance rows appears once in the participation list, where the left join would repeat it. The figures, by contrast, are stated as the join computes them, and related to table counts only under one attendance row per registration.
- Concurrency is not modelled. Two simultaneous check-ins or registrations could both pass their read-before-write checks; each request is modelled as atomic.
- Failures of the database itself (500 answers) are not modelled.
- A registration may name a student id with no student row. Foreign keys are off, and the handler does not check. The model allows it rather than excluding it.
- Machine.ApplyKeepsWithinCapacity: does not cover the event edit, because the edit can lower a capacity below the `registered` count (`EventAdmin.UpdateCanBreakCapacity`).
