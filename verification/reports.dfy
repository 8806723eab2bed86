/** The read-only reports (`/reports/...`), as filters, counts and orderings
    over the tables. Each count is the count the report's SQL join produces;
    lemmas relate them to the plain table counts under the store invariants. */
module Reports {
  import opened Tables
  import opened Schema

  /** A query-string filter: absent or empty selects everything. */
  predicate Selects(filter: Option<string>, value: string)
  {
    !Truthy(filter) || filter.value == value
  }

  /** The `limit` query parameter, or the report's default when absent. */
  function LimitOr(limit: Option<nat>, default: nat): nat
  {
    if limit.Some? then limit.value else default
  }

  /** A percentage or an average, as the exact ratio `num / den`. */
  datatype Ratio = Ratio(num: int, den: int)

  /** The attendance percentage: 0 when nobody registered, otherwise
      `attended / registered * 100`. */
  function PercentageOf(attended: int, registered: int): (p: Ratio)
    ensures p.den > 0
    ensures registered <= 0 ==> p.num == 0
    ensures registered > 0 ==> p.num * registered == 100 * attended * p.den
  {
    if registered <= 0 then Ratio(0, 1) else Ratio(100 * attended, registered)
  }

  /** Attendance rows of one registration. */
  function AttendanceRows(s: Store, registrationId: Id): nat
  {
    Count(s.attendance, AttendanceOf(registrationId))
  }

  function ByStudent(studentId: Id): Registration -> bool
  {
    (r: Registration) => r.studentId == studentId
  }

  /** Registrations of the event, whatever their status. */
  function OfEvent(eventId: Id): Registration -> bool
  {
    (r: Registration) => r.eventId == eventId
  }

  // ---------------------------------------------------------------------
  // Popularity (GET /reports/popularity)
  // ---------------------------------------------------------------------

  datatype PopularityRow = PopularityRow(event: Event, registrations: nat)

  function PopularityRowOf(s: Store): Event -> PopularityRow
  {
    (e: Event) => PopularityRow(e, RegisteredCount(s, e.id))
  }

  function Chosen(collegeFilter: Option<string>, typeFilter: Option<string>): Event -> bool
  {
    (e: Event) => Selects(collegeFilter, e.collegeId) && Selects(typeFilter, e.kind)
  }

  function PopularityCount(row: PopularityRow): int { row.registrations }

  /** Events after the college and type filters, ranked by `registered`
      registrations, at most `limit` (default 10) of them. */
  function Popularity(s: Store, collegeFilter: Option<string>, typeFilter: Option<string>, limit: Option<nat>)
    : (r: seq<PopularityRow>)
    ensures |r| == if LimitOr(limit, 10) < Count(s.events, Chosen(collegeFilter, typeFilter))
                   then LimitOr(limit, 10) else Count(s.events, Chosen(collegeFilter, typeFilter))
    ensures multiset(r) <= multiset(RankedRows(s, Chosen(collegeFilter, typeFilter)))
    ensures SortedDesc(r, PopularityCount)
    ensures forall y | y in r :: Counted(s, Chosen(collegeFilter, typeFilter))(y)
    ensures forall x, y | x in RankedRows(s, Chosen(collegeFilter, typeFilter)) && x !in r && y in r ::
      PopularityCount(y) >= PopularityCount(x)
    ensures Count(s.events, Chosen(collegeFilter, typeFilter)) <= LimitOr(limit, 10) ==>
      forall e | e in s.events && Chosen(collegeFilter, typeFilter)(e) :: PopularityRowOf(s)(e) in r
  {
    var rows := RankedRows(s, Chosen(collegeFilter, typeFilter));
    TopBy(rows, PopularityCount, LimitOr(limit, 10))
  }

  /** The rows the report ranks: one per selected event, in table order. */
  function RankedRows(s: Store, chosen: Event -> bool): (rows: seq<PopularityRow>)
    ensures |rows| == Count(s.events, chosen)
    ensures forall y | y in rows :: Counted(s, chosen)(y)
    ensures forall e | e in s.events && chosen(e) :: PopularityRowOf(s)(e) in rows
  {
    ProjectionMembers(s.events, chosen, PopularityRowOf(s), Counted(s, chosen));
    Map(Filter(s.events, chosen), PopularityRowOf(s))
  }

  /** A row of an event the filter selects, with its `registered` count. */
  function Counted(s: Store, chosen: Event -> bool): PopularityRow -> bool
  {
    (y: PopularityRow) => y.event in s.events && chosen(y.event) && y.registrations == RegisteredCount(s, y.event.id)
  }

  // ---------------------------------------------------------------------
  // Attendance (GET /reports/attendance)
  // ---------------------------------------------------------------------

  /** The attendance rows a registration joins. */
  function RowsOf(s: Store): Registration -> int
  {
    (r: Registration) => AttendanceRows(s, r.id)
  }

  /** The rows a registration contributes to the left join: its attendance
      rows, or one row of nulls when it has none. */
  function JoinedRows(s: Store): Registration -> int
  {
    (r: Registration) => if AttendanceRows(s, r.id) == 0 then 1 else AttendanceRows(s, r.id)
  }

  /** `COUNT(registrations.id)` over the join of the event's `registered`
      registrations with their attendance rows: a registration with k rows
      appears k times, one with none once. */
  function JoinedRegistrations(s: Store, eventId: Id): int
  {
    SumOver(s.registrations, ActiveFor(eventId),
            JoinedRows(s))
  }

  /** `COUNT(attendance.id)` over the same join: every attendance row of a
      `registered` registration, marked present or absent. */
  function Attended(s: Store, eventId: Id): int
  {
    SumOver(s.registrations, ActiveFor(eventId), RowsOf(s))
  }

  datatype AttendanceFigures = AttendanceFigures(event: Event, registrations: int, attended: int, percentage: Ratio)

  function AttendanceFiguresOf(s: Store): Event -> AttendanceFigures
  {
    (e: Event) =>
      var n := JoinedRegistrations(s, e.id);
      var a := Attended(s, e.id);
      AttendanceFigures(e, n, a, PercentageOf(a, n))
  }

  function FiguresStart(f: AttendanceFigures): int { f.event.startTime }

  /** The aggregate form: every event of the college filter, latest start first. */
  function AttendanceReport(s: Store, collegeFilter: Option<string>): (r: seq<AttendanceFigures>)
    ensures |r| == Count(s.events, Chosen(collegeFilter, None))
    ensures SortedDesc(r, FiguresStart)
    ensures multiset(r) == multiset(Map(Filter(s.events, Chosen(collegeFilter, None)), AttendanceFiguresOf(s)))
  {
    SortDesc(Map(Filter(s.events, Chosen(collegeFilter, None)), AttendanceFiguresOf(s)), FiguresStart)
  }

  /** The single-event form: 404 for an unknown event. */
  function EventAttendanceReport(s: Store, eventId: Id): (r: Result<AttendanceFigures>)
    ensures r.Err? <==> FindEvent(s, eventId).None?
    ensures r.Err? ==> r.failure == NotFound
    ensures r.Ok? ==> r.value.event in s.events && r.value.event.id == eventId
    ensures r.Ok? ==> r.value == AttendanceFiguresOf(s)(r.value.event)
  {
    match FindEvent(s, eventId)
    case None => Err(NotFound)
    case Some(e) => Ok(AttendanceFiguresOf(s)(e))
  }

  /** With one attendance row per registration the join does not duplicate
      registrations: the report's registrations are the `registered` count,
      the attended count is at most that, and the percentage at most 100. */
  lemma {:induction false} AttendanceFiguresBounded(s: Store, eventId: Id)
    requires UniqueBy(s.attendance, AttendanceRegistration)
    ensures JoinedRegistrations(s, eventId) == RegisteredCount(s, eventId)
    ensures 0 <= Attended(s, eventId) <= RegisteredCount(s, eventId)
    ensures var p := PercentageOf(Attended(s, eventId), JoinedRegistrations(s, eventId));
      0 <= p.num <= 100 * p.den
  {
    var join := JoinedRows(s);
    var rows := RowsOf(s);
    forall i | 0 <= i < |s.registrations| && ActiveFor(eventId)(s.registrations[i])
      ensures 1 <= join(s.registrations[i]) <= 1 && 0 <= rows(s.registrations[i]) <= 1
    {
      var id := s.registrations[i].id;
      CountAtMostOneUnique(s.attendance, AttendanceRegistration, id, AttendanceOf(id));
    }
    SumOverBounds(s.registrations, ActiveFor(eventId), join, 1, 1);
    SumOverBounds(s.registrations, ActiveFor(eventId), rows, 0, 1);
  }

  /** "Attended" counts attendance rows, not presence: the only registrant
      of an event, marked absent, makes its attendance 100 percent. */
  lemma AbsentCountsAsAttended()
    ensures var e := Event("e", "c", "Talk", "Seminar", None, 10, 20, 10, StatusScheduled);
      var s := Store([College("c", "College")], [], [e],
                     [Registration("r", "e", "s", 0, StatusRegistered)],
                     [Attendance("a", "r", 15, 0)], []);
      && Valid(s)
      && EventAttendanceReport(s, "e") == Ok(AttendanceFigures(e, 1, 1, Ratio(100, 1)))
  {
    var e := Event("e", "c", "Talk", "Seminar", None, 10, 20, 10, StatusScheduled);
    var r := Registration("r", "e", "s", 0, StatusRegistered);
    var a := Attendance("a", "r", 15, 0);
    var s := Store([College("c", "College")], [], [e], [r], [a], []);
    assert [a][..0] == [] && AttendanceOf("r")(a);
    assert AttendanceRows(s, "r") == 1;
    SumOverOne(r, ActiveFor("e"), RowsOf(s));
    SumOverOne(r, ActiveFor("e"), JoinedRows(s));
  }

  // ---------------------------------------------------------------------
  // Feedback (GET /reports/feedback)
  // ---------------------------------------------------------------------

  function FeedbackRows(s: Store, registrationId: Id): nat
  {
    Count(s.feedback, FeedbackOf(registrationId))
  }

  function RatingTotal(s: Store, registrationId: Id): int
  {
    SumOver(s.feedback, FeedbackOf(registrationId), (f: Feedback) => f.rating)
  }

  /** `COUNT(feedback.id)` over the event's registrations of any status. */
  function RatingCount(s: Store, eventId: Id): int
  {
    SumOver(s.registrations, OfEvent(eventId), (r: Registration) => FeedbackRows(s, r.id))
  }

  /** The sum `AVG(feedback.rating)` divides by `RatingCount`. */
  function RatingSum(s: Store, eventId: Id): int
  {
    SumOver(s.registrations, OfEvent(eventId), (r: Registration) => RatingTotal(s, r.id))
  }

  /** `avg_rating`: null without ratings (and, as written, for an average of 0). */
  function AverageRating(s: Store, eventId: Id): Option<Ratio>
  {
    var n := RatingCount(s, eventId);
    var total := RatingSum(s, eventId);
    if n == 0 || total == 0 then None else Some(Ratio(total, n))
  }

  datatype FeedbackFigures = FeedbackFigures(event: Event, averageRating: Option<Ratio>, ratingCount: int)

  function FeedbackFiguresOf(s: Store): Event -> FeedbackFigures
  {
    (e: Event) => FeedbackFigures(e, AverageRating(s, e.id), RatingCount(s, e.id))
  }

  function FeedbackStart(f: FeedbackFigures): int { f.event.startTime }

  /** The aggregate form: every event of the college filter, latest start first. */
  function FeedbackReport(s: Store, collegeFilter: Option<string>): (r: seq<FeedbackFigures>)
    ensures |r| == Count(s.events, Chosen(collegeFilter, None))
    ensures SortedDesc(r, FeedbackStart)
    ensures multiset(r) == multiset(Map(Filter(s.events, Chosen(collegeFilter, None)), FeedbackFiguresOf(s)))
  {
    SortDesc(Map(Filter(s.events, Chosen(collegeFilter, None)), FeedbackFiguresOf(s)), FeedbackStart)
  }

  /** One submitted feedback with the name of the student who gave it. */
  datatype FeedbackDetail = FeedbackDetail(rating: int, comment: Option<string>, submittedAt: Time, studentName: string)

  /** A feedback row the details list shows: its registration is of the
      event and its student exists (two inner joins). */
  function Detailed(s: Store, eventId: Id): Feedback -> bool
  {
    (f: Feedback) =>
      && FindRegistration(s, f.registrationId).Some?
      && FindRegistration(s, f.registrationId).value.eventId == eventId
      && FindStudent(s, FindRegistration(s, f.registrationId).value.studentId).Some?
  }

  function DetailOf(s: Store, f: Feedback): FeedbackDetail
    requires FindRegistration(s, f.registrationId).Some?
    requires FindStudent(s, FindRegistration(s, f.registrationId).value.studentId).Some?
  {
    var r := FindRegistration(s, f.registrationId).value;
    FeedbackDetail(f.rating, f.comment, f.submittedAt, FindStudent(s, r.studentId).value.name)
  }

  function DetailSubmitted(d: FeedbackDetail): int { d.submittedAt }

  /** The details, latest submission first: one per feedback row whose
      registration is of the event and whose student exists, each carrying
      that row's rating, comment and time and its student's name. */
  function Details(s: Store, eventId: Id): (r: seq<FeedbackDetail>)
    ensures |r| == Count(s.feedback, Detailed(s, eventId))
    ensures SortedDesc(r, DetailSubmitted)
    ensures forall d | d in r :: exists f | f in s.feedback && Detailed(s, eventId)(f) :: d == DetailOf(s, f)
    ensures forall f | f in s.feedback && Detailed(s, eventId)(f) :: DetailOf(s, f) in r
  {
    var shown := Filter(s.feedback, Detailed(s, eventId));
    var details := seq(|shown|, i requires 0 <= i < |shown| => DetailOf(s, shown[i]));
    var r := SortDesc(details, DetailSubmitted);
    PermutationMembers(r, details);
    DetailsFromRows(s, eventId, shown, details);
    r
  }

  lemma DetailsFromRows(s: Store, eventId: Id, shown: seq<Feedback>, details: seq<FeedbackDetail>)
    requires shown == Filter(s.feedback, Detailed(s, eventId))
    requires |details| == |shown|
    requires forall i | 0 <= i < |shown| :: details[i] == DetailOf(s, shown[i])
    ensures forall d | d in details :: exists f | f in s.feedback && Detailed(s, eventId)(f) :: d == DetailOf(s, f)
    ensures forall f | f in s.feedback && Detailed(s, eventId)(f) :: DetailOf(s, f) in details
  {
    forall d | d in details
      ensures exists f | f in s.feedback && Detailed(s, eventId)(f) :: d == DetailOf(s, f)
    {
      var i :| 0 <= i < |details| && details[i] == d;
      assert shown[i] in s.feedback && Detailed(s, eventId)(shown[i]);
    }
    forall f | f in s.feedback && Detailed(s, eventId)(f) ensures DetailOf(s, f) in details {
      var k :| 0 <= k < |s.feedback| && s.feedback[k] == f;
      var i :| 0 <= i < |shown| && shown[i] == f;
      assert details[i] == DetailOf(s, f);
    }
  }

  /** The single-event form: 404 for an unknown event; otherwise its
      figures and the details of its feedback, latest first. */
  function EventFeedbackReport(s: Store, eventId: Id): (r: Result<(FeedbackFigures, seq<FeedbackDetail>)>)
    ensures r.Err? <==> FindEvent(s, eventId).None?
    ensures r.Err? ==> r.failure == NotFound
    ensures r.Ok? ==>
      && r.value.0.event in s.events && r.value.0.event.id == eventId
      && r.value.0.ratingCount == RatingCount(s, eventId)
      && r.value.0.averageRating == AverageRating(s, eventId)
      && r.value.1 == Details(s, eventId)
      && |r.value.1| == Count(s.feedback, Detailed(s, eventId))
      && SortedDesc(r.value.1, DetailSubmitted)
  {
    match FindEvent(s, eventId)
    case None => Err(NotFound)
    case Some(e) => Ok((FeedbackFiguresOf(s)(e), Details(s, eventId)))
  }

  /** With ratings from 1 to 5, the average is null exactly when there is no
      feedback, and otherwise lies between 1 and 5. */
  lemma {:induction false} AverageRatingInRange(s: Store, eventId: Id)
    requires forall f | f in s.feedback :: 1 <= f.rating <= 5
    ensures AverageRating(s, eventId).None? <==> RatingCount(s, eventId) == 0
    ensures AverageRating(s, eventId).Some? ==>
      var a := AverageRating(s, eventId).value;
      0 < a.den <= a.num <= 5 * a.den
  {
    var count := (r: Registration) => FeedbackRows(s, r.id);
    var total := (r: Registration) => RatingTotal(s, r.id);
    forall i | 0 <= i < |s.registrations| && OfEvent(eventId)(s.registrations[i])
      ensures 1 * count(s.registrations[i]) <= total(s.registrations[i]) <= 5 * count(s.registrations[i])
    {
      var id := s.registrations[i].id;
      forall j | 0 <= j < |s.feedback| && FeedbackOf(id)(s.feedback[j]) ensures 1 <= s.feedback[j].rating <= 5 {
        assert s.feedback[j] in s.feedback;
      }
      SumOverBounds(s.feedback, FeedbackOf(id), (f: Feedback) => f.rating, 1, 5);
    }
    SumOverSandwich(s.registrations, OfEvent(eventId), count, total, 1, 5);
    forall i | 0 <= i < |s.registrations| && OfEvent(eventId)(s.registrations[i])
      ensures 0 <= count(s.registrations[i])
    {
    }
    SumOverBounds(s.registrations, OfEvent(eventId), count, 0, |s.feedback|);
  }

  // ---------------------------------------------------------------------
  // Student participation (GET /reports/student/:id/participation)
  // ---------------------------------------------------------------------

  /** Distinct events the student registered for, in any status. */
  function StudentEventIds(registrations: seq<Registration>, studentId: Id): set<Id>
  {
    set r | r in registrations && r.studentId == studentId :: r.eventId
  }

  /** One event of the student's list; `attended` is whether an attendance
      row exists, present or absent. */
  datatype ParticipationEvent = ParticipationEvent(event: Event, registration: Registration, attended: bool)

  datatype Participation = Participation(
    student: Student, eventsRegistered: nat, eventsAttended: int, events: seq<ParticipationEvent>)

  /** The student's registrations whose event exists (an inner join). */
  function ParticipationListed(s: Store, studentId: Id): Registration -> bool
  {
    (r: Registration) => r.studentId == studentId && FindEvent(s, r.eventId).Some?
  }

  function ParticipationEventOf(s: Store, r: Registration): ParticipationEvent
    requires FindEvent(s, r.eventId).Some?
  {
    ParticipationEvent(FindEvent(s, r.eventId).value, r, FindAttendance(s, r.id).Some?)
  }

  function EventStart(p: ParticipationEvent): int { p.event.startTime }

  function StudentIn(studentId: Id, collegeFilter: Option<string>): Student -> bool
  {
    (st: Student) => st.id == studentId && Selects(collegeFilter, st.collegeId)
  }

  /** 404 for an unknown student or one outside the college filter;
      otherwise the distinct events registered, the attendance rows of the
      student's registrations, and the event list, latest start first. */
  function StudentParticipation(s: Store, studentId: Id, collegeFilter: Option<string>): (r: Result<Participation>)
    ensures r.Err? <==> forall i | 0 <= i < |s.students| :: !StudentIn(studentId, collegeFilter)(s.students[i])
    ensures r.Err? ==> r.failure == NotFound
    ensures r.Ok? ==>
      && r.value.student in s.students && r.value.student.id == studentId
      && r.value.eventsRegistered == |StudentEventIds(s.registrations, studentId)|
      && r.value.eventsAttended == Activity(s)(studentId)
      && |r.value.events| == Count(s.registrations, ParticipationListed(s, studentId))
      && SortedDesc(r.value.events, EventStart)
    ensures r.Ok? ==> forall i | 0 <= i < |s.registrations| && ParticipationListed(s, studentId)(s.registrations[i]) ::
      exists k | 0 <= k < |r.value.events| :: r.value.events[k].registration == s.registrations[i]
    ensures r.Ok? ==> forall i | 0 <= i < |r.value.events| ::
      var p := r.value.events[i];
      && p.registration in s.registrations && p.registration.studentId == studentId
      && FindEvent(s, p.registration.eventId) == Some(p.event)
      && (p.attended <==> exists j | 0 <= j < |s.attendance| :: s.attendance[j].registrationId == p.registration.id)
  {
    match First(s.students, StudentIn(studentId, collegeFilter))
    case None => Err(NotFound)
    case Some(st) =>
      var listed := Filter(s.registrations, ParticipationListed(s, studentId));
      var events := seq(|listed|, i requires 0 <= i < |listed| => ParticipationEventOf(s, listed[i]));
      var sorted := SortDesc(events, EventStart);
      ParticipationRows(s, studentId, listed, events, sorted);
      ParticipationComplete(s, studentId, listed, events, sorted);
      Ok(Participation(
        st,
        |StudentEventIds(s.registrations, studentId)|,
        Activity(s)(studentId),
        sorted))
  }

  lemma ParticipationRows(s: Store, studentId: Id, listed: seq<Registration>,
                          events: seq<ParticipationEvent>, sorted: seq<ParticipationEvent>)
    requires listed == Filter(s.registrations, ParticipationListed(s, studentId))
    requires |events| == |listed|
    requires forall i | 0 <= i < |listed| :: FindEvent(s, listed[i].eventId).Some? && events[i] == ParticipationEventOf(s, listed[i])
    requires multiset(sorted) == multiset(events)
    ensures forall i | 0 <= i < |sorted| ::
      var p := sorted[i];
      && p.registration in s.registrations && p.registration.studentId == studentId
      && FindEvent(s, p.registration.eventId) == Some(p.event)
      && (p.attended <==> exists j | 0 <= j < |s.attendance| :: s.attendance[j].registrationId == p.registration.id)
  {
    forall i | 0 <= i < |sorted|
      ensures sorted[i].registration in s.registrations && sorted[i].registration.studentId == studentId
      ensures FindEvent(s, sorted[i].registration.eventId) == Some(sorted[i].event)
      ensures sorted[i].attended <==>
        exists j | 0 <= j < |s.attendance| :: s.attendance[j].registrationId == sorted[i].registration.id
    {
      assert sorted[i] in multiset(events);
      var k :| 0 <= k < |events| && events[k] == sorted[i];
      assert listed[k] in s.registrations && ParticipationListed(s, studentId)(listed[k]);
    }
  }

  /** Every listed registration has an entry in the student's event list. */
  lemma ParticipationComplete(s: Store, studentId: Id, listed: seq<Registration>,
                              events: seq<ParticipationEvent>, sorted: seq<ParticipationEvent>)
    requires listed == Filter(s.registrations, ParticipationListed(s, studentId))
    requires |events| == |listed|
    requires forall i | 0 <= i < |listed| :: events[i].registration == listed[i]
    requires multiset(sorted) == multiset(events)
    ensures forall i | 0 <= i < |s.registrations| && ParticipationListed(s, studentId)(s.registrations[i]) ::
      exists k | 0 <= k < |sorted| :: sorted[k].registration == s.registrations[i]
  {
    forall i | 0 <= i < |s.registrations| && ParticipationListed(s, studentId)(s.registrations[i])
      ensures exists k | 0 <= k < |sorted| :: sorted[k].registration == s.registrations[i]
    {
      var j :| 0 <= j < |listed| && listed[j] == s.registrations[i];
      assert events[j] in multiset(sorted);
      var k :| 0 <= k < |sorted| && sorted[k] == events[j];
    }
  }

  /** With one registration per (event, student), the distinct events a
      student registered for number exactly the student's registrations. */
  lemma {:induction false} DistinctEventsCount(registrations: seq<Registration>, studentId: Id)
    requires UniqueBy(registrations, EnrolmentKey)
    ensures |StudentEventIds(registrations, studentId)| == Count(registrations, ByStudent(studentId))
  {
    if |registrations| > 0 {
      var init := registrations[..|registrations| - 1];
      var last := registrations[|registrations| - 1];
      assert registrations == init + [last];
      assert UniqueBy(init, EnrolmentKey);
      DistinctEventsCount(init, studentId);
      StudentEventIdsAppend(init, last, studentId);
      if last.studentId == studentId {
        forall j | 0 <= j < |init| && init[j].studentId == studentId ensures init[j].eventId != last.eventId {
          assert EnrolmentKey(registrations[j]) != EnrolmentKey(last);
        }
        assert last.eventId !in StudentEventIds(init, studentId);
      }
    }
  }

  /** With one attendance row per registration and one registration per
      (event, student), `events_attended` never exceeds `events_registered`. */
  lemma {:induction false} AttendedAtMostRegistered(s: Store, studentId: Id, collegeFilter: Option<string>)
    requires UniqueBy(s.attendance, AttendanceRegistration)
    requires UniqueBy(s.registrations, EnrolmentKey)
    ensures var r := StudentParticipation(s, studentId, collegeFilter);
      r.Ok? ==> 0 <= r.value.eventsAttended <= r.value.eventsRegistered
  {
    forall i | 0 <= i < |s.registrations| && ByStudent(studentId)(s.registrations[i])
      ensures 0 <= RowsOf(s)(s.registrations[i]) <= 1
    {
      var id := s.registrations[i].id;
      CountAtMostOneUnique(s.attendance, AttendanceRegistration, id, AttendanceOf(id));
    }
    SumOverBounds(s.registrations, ByStudent(studentId), RowsOf(s), 0, 1);
    DistinctEventsCount(s.registrations, studentId);
  }

  lemma StudentEventIdsAppend(init: seq<Registration>, last: Registration, studentId: Id)
    ensures StudentEventIds(init + [last], studentId)
         == StudentEventIds(init, studentId) + (if last.studentId == studentId then {last.eventId} else {})
  {
    var all := init + [last];
    forall id | id in StudentEventIds(all, studentId)
      ensures id in StudentEventIds(init, studentId) || (last.studentId == studentId && id == last.eventId)
    {
      var r :| r in all && r.studentId == studentId && r.eventId == id;
      if r != last {
        assert r in init;
      }
    }
    forall id | id in StudentEventIds(init, studentId) ensures id in StudentEventIds(all, studentId) {
      var r :| r in init && r.studentId == studentId && r.eventId == id;
      assert r in all;
    }
    if last.studentId == studentId {
      assert last in all;
    }
  }

  // ---------------------------------------------------------------------
  // Top active students (GET /reports/top-active)
  // ---------------------------------------------------------------------

  datatype ActiveRow = ActiveRow(student: Student, collegeName: string, eventsAttended: int)

  /** Attendance rows over all of the student's registrations, present or
      absent: what `COUNT(attendance.id)` ranks by. */
  function Activity(s: Store): Id -> int
  {
    (studentId: Id) => SumOver(s.registrations, ByStudent(studentId), RowsOf(s))
  }

  /** Present attendance rows of one registration. */
  function PresentRowsOf(s: Store): Registration -> int
  {
    (r: Registration) => Count(s.attendance, PresentFor(r.id))
  }

  function PresentFor(registrationId: Id): Attendance -> bool
  {
    (a: Attendance) => a.registrationId == registrationId && a.present == 1
  }

  /** Present attendance rows over all of the student's registrations. */
  function PresentActivity(s: Store): Id -> int
  {
    (studentId: Id) => SumOver(s.registrations, ByStudent(studentId), PresentRowsOf(s))
  }

  function FindCollege(s: Store, collegeId: Id): Option<College>
  {
    First(s.colleges, (c: College) => c.id == collegeId)
  }

  /** A student the inner joins keep, with a positive `activity`, a college,
      and inside the college filter. */
  function Active(s: Store, collegeFilter: Option<string>, activity: Id -> int): Student -> bool
  {
    (st: Student) =>
      && activity(st.id) > 0
      && FindCollege(s, st.collegeId).Some?
      && Selects(collegeFilter, st.collegeId)
  }

  function ActiveRowOf(s: Store, st: Student, activity: Id -> int): ActiveRow
    requires FindCollege(s, st.collegeId).Some?
  {
    ActiveRow(st, FindCollege(s, st.collegeId).value.name, activity(st.id))
  }

  function ActiveCount(row: ActiveRow): int { row.eventsAttended }

  /** Every student the joins keep, before ranking, scored by `activity`. */
  function ActiveRows(s: Store, collegeFilter: Option<string>, activity: Id -> int): (rows: seq<ActiveRow>)
    ensures forall x | x in rows ::
      && x.student in s.students
      && Selects(collegeFilter, x.student.collegeId)
      && x.eventsAttended == activity(x.student.id) > 0
    ensures forall st | st in s.students && Active(s, collegeFilter, activity)(st) ::
      ActiveRowOf(s, st, activity) in rows
    ensures |rows| == Count(s.students, Active(s, collegeFilter, activity))
  {
    var kept := Filter(s.students, Active(s, collegeFilter, activity));
    var rows := seq(|kept|, i requires 0 <= i < |kept| => ActiveRowOf(s, kept[i], activity));
    assert forall i | 0 <= i < |kept| :: kept[i] in s.students && Active(s, collegeFilter, activity)(kept[i]);
    forall st | st in s.students && Active(s, collegeFilter, activity)(st)
      ensures ActiveRowOf(s, st, activity) in rows
    {
      var k :| 0 <= k < |s.students| && s.students[k] == st;
      var j :| 0 <= j < |kept| && kept[j] == st;
      assert rows[j] == ActiveRowOf(s, st, activity);
    }
    rows
  }

  /** Students with at least one attendance row (present or absent),
      ranked by their attendance rows, at most `limit` (default 3). */
  function TopActive(s: Store, collegeFilter: Option<string>, limit: Option<nat>): (r: seq<ActiveRow>)
    ensures |r| == if LimitOr(limit, 3) < |ActiveRows(s, collegeFilter, Activity(s))|
                   then LimitOr(limit, 3) else |ActiveRows(s, collegeFilter, Activity(s))|
    ensures multiset(r) <= multiset(ActiveRows(s, collegeFilter, Activity(s)))
    ensures SortedDesc(r, ActiveCount)
    ensures forall y | y in r :: y in ActiveRows(s, collegeFilter, Activity(s))
    ensures forall x, y | x in ActiveRows(s, collegeFilter, Activity(s)) && x !in r && y in r ::
      ActiveCount(y) >= ActiveCount(x)
    ensures |ActiveRows(s, collegeFilter, Activity(s))| <= LimitOr(limit, 3) ==>
      forall x | x in ActiveRows(s, collegeFilter, Activity(s)) :: x in r
  {
    TopBy(ActiveRows(s, collegeFilter, Activity(s)), ActiveCount, LimitOr(limit, 3))
  }

  /** The ranking as evidently intended: only present attendance rows make
      a student active. Every student listed was marked present at least
      once, and no student left out has more present rows than one shown. */
  function TopPresent(s: Store, collegeFilter: Option<string>, limit: Option<nat>): (r: seq<ActiveRow>)
    ensures |r| == if LimitOr(limit, 3) < |ActiveRows(s, collegeFilter, PresentActivity(s))|
                   then LimitOr(limit, 3) else |ActiveRows(s, collegeFilter, PresentActivity(s))|
    ensures multiset(r) <= multiset(ActiveRows(s, collegeFilter, PresentActivity(s)))
    ensures SortedDesc(r, ActiveCount)
    ensures forall y | y in r ::
      && y.student in s.students
      && exists i, j | 0 <= i < |s.registrations| && 0 <= j < |s.attendance| ::
           && s.registrations[i].studentId == y.student.id
           && s.attendance[j].registrationId == s.registrations[i].id
           && s.attendance[j].present == 1
    ensures forall y | y in r :: y in ActiveRows(s, collegeFilter, PresentActivity(s))
    ensures forall x, y | x in ActiveRows(s, collegeFilter, PresentActivity(s)) && x !in r && y in r ::
      ActiveCount(y) >= ActiveCount(x)
    ensures |ActiveRows(s, collegeFilter, PresentActivity(s))| <= LimitOr(limit, 3) ==>
      forall x | x in ActiveRows(s, collegeFilter, PresentActivity(s)) :: x in r
  {
    var rows := ActiveRows(s, collegeFilter, PresentActivity(s));
    var r := TopBy(rows, ActiveCount, LimitOr(limit, 3));
    forall y | y in r
      ensures exists i, j | 0 <= i < |s.registrations| && 0 <= j < |s.attendance| ::
           && s.registrations[i].studentId == y.student.id
           && s.attendance[j].registrationId == s.registrations[i].id
           && s.attendance[j].present == 1
    {
      PresentRowExists(s, y.student.id);
    }
    r
  }

  /** A positive present count names a present row of one of the student's
      registrations. */
  lemma PresentRowExists(s: Store, studentId: Id)
    requires PresentActivity(s)(studentId) > 0
    ensures exists i, j | 0 <= i < |s.registrations| && 0 <= j < |s.attendance| ::
      && s.registrations[i].studentId == studentId
      && s.attendance[j].registrationId == s.registrations[i].id
      && s.attendance[j].present == 1
  {
    var i := SumOverWitness(s.registrations, ByStudent(studentId), PresentRowsOf(s));
    var id := s.registrations[i].id;
    var j :| 0 <= j < |s.attendance| && PresentFor(id)(s.attendance[j]);
  }

  /** One student, registered for one event and marked absent there. */
  const LoneAbsentee := Store(
    [College("c", "College")],
    [Student("s", "c", None, "Sam", None, None)],
    [Event("e", "c", "Talk", "Seminar", None, 10, 20, 10, StatusScheduled)],
    [Registration("r", "e", "s", 0, StatusRegistered)],
    [Attendance("a", "r", 15, 0)],
    [])

  /** That store is one the handlers can reach: its keys are unique and
      its references resolve. */
  lemma LoneAbsenteeValid()
    ensures Valid(LoneAbsentee)
  {
  }

  /** A student whose only attendance row marks them absent is listed by
      the top-active report with one event attended. */
  lemma AbsentStudentRanksActive()
    ensures forall a | a in LoneAbsentee.attendance :: a.present == 0
    ensures ActiveRow(LoneAbsentee.students[0], "College", 1) in TopActive(LoneAbsentee, None, None)
  {
    var s := LoneAbsentee;
    var st := s.students[0];
    var r := s.registrations[0];
    var a := s.attendance[0];
    assert [a][..0] == [] && AttendanceOf("r")(a);
    assert AttendanceRows(s, "r") == 1;
    SumOverOne(r, ByStudent("s"), RowsOf(s));
    assert ByStudent("s")(r) && RowsOf(s)(r) == 1;
    assert Activity(s)("s") == 1;
    assert FindCollege(s, "c") == Some(College("c", "College"));
    assert Active(s, None, Activity(s))(st);
    assert ActiveRowOf(s, st, Activity(s)) == ActiveRow(st, "College", 1);
    assert |ActiveRows(s, None, Activity(s))| <= 1;
  }

  /** The intended ranking leaves that student out. */
  lemma AbsentStudentNotPresent()
    ensures TopPresent(LoneAbsentee, None, None) == []
  {
    var s := LoneAbsentee;
    var st := s.students[0];
    var r := s.registrations[0];
    var a := s.attendance[0];
    assert [a][..0] == [] && !PresentFor("r")(a);
    assert Count(s.attendance, PresentFor("r")) == 0;
    SumOverOne(r, ByStudent("s"), PresentRowsOf(s));
    assert ByStudent("s")(r) && PresentRowsOf(s)(r) == 0;
    assert PresentActivity(s)("s") == 0;
    assert [st][..0] == [] && !Active(s, None, PresentActivity(s))(st);
    assert |ActiveRows(s, None, PresentActivity(s))| == 0;
  }

  // ---------------------------------------------------------------------
  // Registrations per event (GET /reports/registrations-per-event)
  // ---------------------------------------------------------------------

  /** The status filter defaults to `scheduled`; an empty one selects all. */
  function StatusFilter(status: Option<string>): Option<string>
  {
    if status.None? then Some(StatusScheduled) else status
  }

  function InStatus(collegeFilter: Option<string>, status: Option<string>): Event -> bool
  {
    (e: Event) => Selects(collegeFilter, e.collegeId) && Selects(StatusFilter(status), e.status)
  }

  /** Events of the college and status filters, ranked by `registered`
      registrations, all of them. */
  function RegistrationsPerEvent(s: Store, collegeFilter: Option<string>, status: Option<string>)
    : (r: seq<PopularityRow>)
    ensures |r| == Count(s.events, InStatus(collegeFilter, status))
    ensures SortedDesc(r, PopularityCount)
    ensures forall y | y in r :: Counted(s, InStatus(collegeFilter, status))(y)
    ensures forall e | e in s.events && InStatus(collegeFilter, status)(e) :: PopularityRowOf(s)(e) in r
  {
    var rows := RankedRows(s, InStatus(collegeFilter, status));
    var r := SortDesc(rows, PopularityCount);
    PermutationMembers(r, rows);
    r
  }

  /** Without a status the report shows scheduled events only; a cancelled
      event appears only when asked for by status. */
  lemma CancelledNotShownByDefault(s: Store, collegeFilter: Option<string>, e: Event)
    requires e.status == StatusCancelled
    ensures forall y | y in RegistrationsPerEvent(s, collegeFilter, None) :: y.event != e
  {
  }
}
