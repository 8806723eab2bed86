/** Attendance: the self-service check-in (`POST /registrations/:id/checkin`),
    the admin's present/absent marking (`POST /admin/registrations/:id/attendance`),
    the three-state status derived from a registration's attendance row and
    the admin roster of an event that shows it. */
module Attendances {
  import opened Tables
  import opened Schema
  import opened Validators

  /** What the admin views show instead of the raw `present` column. */
  datatype AttendanceStatus = NotMarked | Present | Absent

  /** `not_marked` without a row; otherwise `present` when the integer
      column is truthy and `absent` when it is 0. */
  function StatusOf(a: Option<Attendance>): AttendanceStatus
  {
    match a
    case None => NotMarked
    case Some(row) => if row.present != 0 then Present else Absent
  }

  /** The column value for a boolean mark. */
  function PresentFlag(present: bool): int
  {
    if present then 1 else 0
  }

  // ---------------------------------------------------------------------
  // Self-service check-in
  // ---------------------------------------------------------------------

  /** A fresh check-in answers 201 with the new row; a repeated one answers
      200 with the row already there. */
  datatype CheckInOutcome = CheckedIn(attendance: Attendance) | AlreadyCheckedIn(attendance: Attendance)

  /** Checks a registration in. The registration's status and its event are
      not consulted; the body's `method` is ignored. */
  function CheckIn(s: Store, registrationId: Id, now: Time, attendanceId: Id): (st: Step<CheckInOutcome>)
    ensures st.result.Err? <==> FindRegistration(s, registrationId).None?
    ensures st.result.Err? ==> st.result.failure == NotFound && st.store == s
    ensures st.result.Ok? && st.result.value.AlreadyCheckedIn? ==>
      && st.store == s
      && st.result.value.attendance in s.attendance
      && st.result.value.attendance.registrationId == registrationId
    ensures st.result.Ok? && st.result.value.CheckedIn? ==>
      && FindAttendance(s, registrationId).None?
      && st.result.value.attendance == Attendance(attendanceId, registrationId, now, 1)
      && st.store == s.(attendance := s.attendance + [st.result.value.attendance])
    ensures st.result.Ok? ==> FindAttendance(st.store, registrationId) == Some(st.result.value.attendance)
  {
    match FindRegistration(s, registrationId)
    case None => Step(s, Err(NotFound))
    case Some(_) =>
      match FindAttendance(s, registrationId)
      case Some(existing) => Step(s, Ok(AlreadyCheckedIn(existing)))
      case None =>
        var a := Attendance(attendanceId, registrationId, now, 1);
        FirstAppend(s.attendance, a, AttendanceOf(registrationId));
        Step(s.(attendance := s.attendance + [a]), Ok(CheckedIn(a)))
  }

  /** Checking in twice writes one row: the second call changes nothing and
      hands back the row the first one wrote, whatever id and clock it gets. */
  lemma CheckInIdempotent(s: Store, registrationId: Id, now1: Time, id1: Id, now2: Time, id2: Id)
    requires CheckIn(s, registrationId, now1, id1).result.Ok?
    ensures var st1 := CheckIn(s, registrationId, now1, id1);
      var st2 := CheckIn(st1.store, registrationId, now2, id2);
      && st2.store == st1.store
      && st2.result == Ok(AlreadyCheckedIn(st1.result.value.attendance))
  {
    var st1 := CheckIn(s, registrationId, now1, id1);
    assert FindRegistration(st1.store, registrationId) == FindRegistration(s, registrationId);
  }

  /** After a check-in the registration reads as attended, unless an admin
      had already marked it absent: a check-in never overwrites a mark. */
  lemma CheckInStatus(s: Store, registrationId: Id, now: Time, attendanceId: Id)
    requires CheckIn(s, registrationId, now, attendanceId).result.Ok?
    ensures var st := CheckIn(s, registrationId, now, attendanceId);
      StatusOf(FindAttendance(st.store, registrationId)) ==
        if FindAttendance(s, registrationId).None? then Present
        else StatusOf(FindAttendance(s, registrationId))
  {
  }

  lemma CheckInPreservesValid(s: Store, registrationId: Id, now: Time, attendanceId: Id)
    requires Valid(s) && Fresh(s, attendanceId)
    ensures Valid(CheckIn(s, registrationId, now, attendanceId).store)
  {
    var st := CheckIn(s, registrationId, now, attendanceId);
    if st.result.Ok? && st.result.value.CheckedIn? {
      var r := FindRegistration(s, registrationId).value;
      assert r.id in RegistrationIds(s.registrations);
      AddAttendanceKeepsValid(s, st.result.value.attendance);
    }
  }

  // ---------------------------------------------------------------------
  // Admin marking
  // ---------------------------------------------------------------------

  /** The `present` body field is a JSON boolean. */
  predicate IsBoolean(present: Field)
  {
    present.Some? && present.value.JBool?
  }

  /** The row `existing` refreshed by a mark. */
  function Remark(present: int, now: Time): Attendance -> Attendance
  {
    (a: Attendance) => a.(present := present, checkedInAt := now)
  }

  /** Marks a registration present or absent: refuses a non-boolean mark,
      then an unknown registration; updates every row of the registration
      in place when one exists (keeping the first row's id), and inserts
      one otherwise. */
  function MarkAttendance(s: Store, registrationId: Id, present: Field, now: Time, attendanceId: Id)
    : (st: Step<Attendance>)
    ensures st.result == Err(PresentNotBoolean) <==> !IsBoolean(present)
    ensures st.result == Err(NotFound) <==> IsBoolean(present) && FindRegistration(s, registrationId).None?
    ensures st.result.Err? ==> st.store == s
    ensures st.result.Ok? ==>
      var a := st.result.value;
      && a.registrationId == registrationId
      && a.present == PresentFlag(present.value.b)
      && a.checkedInAt == now
      && a.id == (if FindAttendance(s, registrationId).Some? then FindAttendance(s, registrationId).value.id
                  else attendanceId)
      && FindAttendance(st.store, registrationId) == Some(a)
      && st.store == s.(attendance := st.store.attendance)
    ensures st.result.Ok? ==>
      Count(st.store.attendance, AttendanceOf(registrationId)) ==
        if FindAttendance(s, registrationId).None? then 1 else Count(s.attendance, AttendanceOf(registrationId))
    ensures st.result.Ok? && Count(s.attendance, AttendanceOf(registrationId)) <= 1 ==>
      Count(st.store.attendance, AttendanceOf(registrationId)) == 1
    ensures st.result.Ok? && FindAttendance(s, registrationId).None? ==>
      st.store.attendance == s.attendance + [st.result.value]
    ensures st.result.Ok? && FindAttendance(s, registrationId).Some? ==>
      && |st.store.attendance| == |s.attendance|
      && forall i | 0 <= i < |s.attendance| ::
           st.store.attendance[i] ==
             if s.attendance[i].registrationId == registrationId
             then Remark(st.result.value.present, now)(s.attendance[i]) else s.attendance[i]
  {
    if !IsBoolean(present) then Step(s, Err(PresentNotBoolean))
    else match FindRegistration(s, registrationId)
      case None => Step(s, Err(NotFound))
      case Some(_) =>
        var v := PresentFlag(present.value.b);
        match FindAttendance(s, registrationId)
        case Some(existing) =>
          var rows := UpdateWhere(s.attendance, AttendanceOf(registrationId), Remark(v, now));
          RemarkRows(s.attendance, registrationId, v, now);
          Step(s.(attendance := rows), Ok(Attendance(existing.id, registrationId, now, v)))
        case None =>
          var a := Attendance(attendanceId, registrationId, now, v);
          CountAppend(s.attendance, a, AttendanceOf(registrationId));
          FirstAppend(s.attendance, a, AttendanceOf(registrationId));
          Step(s.(attendance := s.attendance + [a]), Ok(a))
  }

  /** Refreshing a registration's rows keeps their ids, their registration
      and their number, and the first of them is still found first. */
  lemma RemarkRows(xs: seq<Attendance>, registrationId: Id, v: int, now: Time)
    requires First(xs, AttendanceOf(registrationId)).Some?
    ensures var rows := UpdateWhere(xs, AttendanceOf(registrationId), Remark(v, now));
      && First(rows, AttendanceOf(registrationId)) ==
           Some(Remark(v, now)(First(xs, AttendanceOf(registrationId)).value))
      && Count(rows, AttendanceOf(registrationId)) == Count(xs, AttendanceOf(registrationId))
      && forall i | 0 <= i < |rows| :: rows[i].id == xs[i].id && rows[i].registrationId == xs[i].registrationId
  {
    var rows := UpdateWhere(xs, AttendanceOf(registrationId), Remark(v, now));
    FirstUpdateWhere(xs, AttendanceOf(registrationId), Remark(v, now));
    CountPointwise(rows, xs, AttendanceOf(registrationId), AttendanceOf(registrationId));
  }

  /** After a mark the registration reads as the mark says. */
  lemma MarkedStatus(s: Store, registrationId: Id, present: bool, now: Time, attendanceId: Id)
    requires FindRegistration(s, registrationId).Some?
    ensures var st := MarkAttendance(s, registrationId, Some(JBool(present)), now, attendanceId);
      StatusOf(FindAttendance(st.store, registrationId)) == if present then Present else Absent
  {
  }

  /** Marking twice keeps a single row, with the first mark's id and the
      second mark's value and time. */
  lemma MarkTwiceLastWins(s: Store, registrationId: Id, first: bool, second: bool,
                          now1: Time, now2: Time, id1: Id, id2: Id)
    requires Count(s.attendance, AttendanceOf(registrationId)) <= 1
    requires FindRegistration(s, registrationId).Some?
    ensures var st1 := MarkAttendance(s, registrationId, Some(JBool(first)), now1, id1);
      var st2 := MarkAttendance(st1.store, registrationId, Some(JBool(second)), now2, id2);
      && st2.result.Ok?
      && st2.result.value.id == st1.result.value.id
      && st2.result.value.present == PresentFlag(second)
      && st2.result.value.checkedInAt == now2
      && Count(st2.store.attendance, AttendanceOf(registrationId)) == 1
  {
    var st1 := MarkAttendance(s, registrationId, Some(JBool(first)), now1, id1);
    assert FindRegistration(st1.store, registrationId) == FindRegistration(s, registrationId);
    if FindAttendance(s, registrationId).Some? {
      assert Count(s.attendance, AttendanceOf(registrationId)) != 0;
    }
  }

  lemma MarkAttendancePreservesValid(s: Store, registrationId: Id, present: Field, now: Time, attendanceId: Id)
    requires Valid(s) && Fresh(s, attendanceId)
    ensures Valid(MarkAttendance(s, registrationId, present, now, attendanceId).store)
  {
    var st := MarkAttendance(s, registrationId, present, now, attendanceId);
    if st.result.Ok? {
      var r := FindRegistration(s, registrationId).value;
      assert r.id in RegistrationIds(s.registrations);
      var v := PresentFlag(present.value.b);
      if FindAttendance(s, registrationId).Some? {
        RemarkKeepsValid(s, registrationId, v, now);
      } else {
        AddAttendanceKeepsValid(s, st.result.value);
      }
    }
  }

  /** Refreshing a registration's rows in place keeps the store valid. */
  lemma RemarkKeepsValid(s: Store, registrationId: Id, v: int, now: Time)
    requires Valid(s) && FindAttendance(s, registrationId).Some?
    ensures Valid(s.(attendance := UpdateWhere(s.attendance, AttendanceOf(registrationId), Remark(v, now))))
  {
    RemarkKeepsRows(s.attendance, registrationId, v, now, RegistrationIds(s.registrations));
  }

  lemma RemarkKeepsRows(attendance: seq<Attendance>, registrationId: Id, v: int, now: Time, registrationIds: set<Id>)
    requires AttendanceValid(attendance, registrationIds)
    requires First(attendance, AttendanceOf(registrationId)).Some?
    ensures AttendanceValid(UpdateWhere(attendance, AttendanceOf(registrationId), Remark(v, now)), registrationIds)
  {
    var rows := UpdateWhere(attendance, AttendanceOf(registrationId), Remark(v, now));
    RemarkRows(attendance, registrationId, v, now);
    UpdateWhereKeepsKeys(attendance, AttendanceOf(registrationId), Remark(v, now), AttendanceKey);
    UpdateWhereKeepsKeys(attendance, AttendanceOf(registrationId), Remark(v, now), AttendanceRegistration);
    forall a | a in rows ensures a.registrationId in registrationIds {
      var i :| 0 <= i < |rows| && rows[i] == a;
      assert attendance[i] in attendance;
    }
  }

  // ---------------------------------------------------------------------
  // The admin roster
  // ---------------------------------------------------------------------

  /** One line of the roster an admin marks attendance from. */
  datatype RosterEntry = RosterEntry(
    registration: Registration,
    student: Student,
    status: AttendanceStatus,
    checkedInAt: Option<Time>)

  /** The roster lists `registered` registrations whose student exists
      (an inner join on students). */
  function RosterListed(s: Store, eventId: Id): Registration -> bool
  {
    (r: Registration) => ActiveFor(eventId)(r) && FindStudent(s, r.studentId).Some?
  }

  function EntryFor(s: Store, r: Registration): RosterEntry
    requires FindStudent(s, r.studentId).Some?
  {
    var a := FindAttendance(s, r.id);
    RosterEntry(r, FindStudent(s, r.studentId).value, StatusOf(a),
                if a.Some? then Some(a.value.checkedInAt) else None)
  }

  function RegistrationsOf(rows: seq<RosterEntry>): seq<Registration>
  {
    seq(|rows|, j requires 0 <= j < |rows| => rows[j].registration)
  }

  /** `GET /admin/events/:eventId/registrations`: 404 for an unknown event;
      otherwise one entry per listed registration, with its student and its
      attendance status. */
  function Roster(s: Store, eventId: Id): (r: Result<seq<RosterEntry>>)
    ensures r.Err? <==> FindEvent(s, eventId).None?
    ensures r.Err? ==> r.failure == NotFound
    ensures r.Ok? ==> |r.value| == Count(s.registrations, RosterListed(s, eventId))
    ensures r.Ok? ==> forall j | 0 <= j < |r.value| :: ListsFaithfully(s, eventId, r.value[j])
    ensures r.Ok? ==> forall i | 0 <= i < |s.registrations| && RosterListed(s, eventId)(s.registrations[i]) ::
      s.registrations[i] in RegistrationsOf(r.value)
  {
    if FindEvent(s, eventId).None? then Err(NotFound)
    else
      var listed := Filter(s.registrations, RosterListed(s, eventId));
      var rows := seq(|listed|, j requires 0 <= j < |listed| => EntryFor(s, listed[j]));
      RosterRows(s, eventId, listed, rows);
      Ok(rows)
  }

  /** A roster entry shows a `registered` registration of the event, its
      student and the status its attendance row gives. */
  ghost predicate ListsFaithfully(s: Store, eventId: Id, e: RosterEntry)
  {
    && e.registration in s.registrations
    && e.registration.eventId == eventId
    && e.registration.status == StatusRegistered
    && e.student in s.students
    && e.student.id == e.registration.studentId
    && e.status == StatusOf(FindAttendance(s, e.registration.id))
    && e.checkedInAt == (if FindAttendance(s, e.registration.id).Some?
                         then Some(FindAttendance(s, e.registration.id).value.checkedInAt) else None)
  }

  lemma RosterRows(s: Store, eventId: Id, listed: seq<Registration>, rows: seq<RosterEntry>)
    requires listed == Filter(s.registrations, RosterListed(s, eventId))
    requires |rows| == |listed|
    requires forall j | 0 <= j < |listed| :: FindStudent(s, listed[j].studentId).Some? && rows[j] == EntryFor(s, listed[j])
    ensures RegistrationsOf(rows) == listed
    ensures forall j | 0 <= j < |rows| :: ListsFaithfully(s, eventId, rows[j])
  {
    forall j | 0 <= j < |rows| ensures ListsFaithfully(s, eventId, rows[j]) {
      EntryFaithful(s, eventId, listed[j]);
    }
  }

  lemma EntryFaithful(s: Store, eventId: Id, r: Registration)
    requires r in s.registrations && RosterListed(s, eventId)(r)
    ensures FindStudent(s, r.studentId).Some? && ListsFaithfully(s, eventId, EntryFor(s, r))
  {
    assert ActiveFor(eventId)(r);
    var st := FindStudent(s, r.studentId).value;
    assert st in s.students && st.id == r.studentId;
  }
}
