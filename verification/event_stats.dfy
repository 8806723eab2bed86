/** The figures the public event endpoints derive for an event
    (`GET /events`, `GET /events/:id`): the `registered` count,
    `available_spots`, `is_full` and `attendance_count`. */
module EventStats {
  import opened Tables
  import opened Schema
  import Registrations
  import Attendances

  /** `available_spots` (null when the event is unlimited) and `is_full`. */
  datatype Availability = Availability(availableSpots: Option<int>, isFull: bool)

  function AvailabilityOf(capacity: int, registered: nat): (a: Availability)
    ensures a.availableSpots.None? <==> capacity <= 0
    ensures a.availableSpots.Some? ==> 0 <= a.availableSpots.value <= capacity
    ensures a.availableSpots.Some? ==>
      (a.availableSpots.value == 0 <==> registered >= capacity)
      && (a.availableSpots.value > 0 ==> a.availableSpots.value + registered == capacity)
    ensures a.isFull <==> capacity > 0 && registered >= capacity
    ensures a.isFull ==> a.availableSpots == Some(0)
    ensures capacity > 0 ==> (a.isFull <==> a.availableSpots == Some(0))
  {
    Availability(
      if capacity > 0 then Some(if capacity - registered > 0 then capacity - registered else 0) else None,
      capacity > 0 && registered >= capacity)
  }

  /** An attendance row marked present. */
  function IsPresent(a: Attendance): bool { a.present == 1 }

  /** Registrations of the event with the given id: the rows an attendance
      row meets in the join on `registration_id`. */
  function JoinedTo(registrationId: Id, eventId: Id): Registration -> bool
  {
    (r: Registration) => r.id == registrationId && r.eventId == eventId
  }

  /** `attendance_count`: present attendance rows joined to the event's
      registrations, whatever the registration's status. */
  function AttendanceCount(s: Store, eventId: Id): int
  {
    SumOver(s.attendance, IsPresent, (a: Attendance) => Count(s.registrations, JoinedTo(a.registrationId, eventId)))
  }

  datatype EventDetails = EventDetails(
    event: Event, registrationsCount: nat, attendanceCount: int, availability: Availability)

  /** `GET /events/:id`: 404 for an unknown id, otherwise the first event
      with the id and its figures. */
  function Details(s: Store, id: Id): (r: Result<EventDetails>)
    ensures r.Err? <==> FindEvent(s, id).None?
    ensures r.Err? ==> r.failure == NotFound
    ensures r.Ok? ==>
      && r.value.event in s.events && r.value.event.id == id
      && r.value.registrationsCount == RegisteredCount(s, id)
      && r.value.attendanceCount == AttendanceCount(s, id)
      && r.value.availability == AvailabilityOf(r.value.event.capacity, r.value.registrationsCount)
  {
    match FindEvent(s, id)
    case None => Err(NotFound)
    case Some(e) =>
      var n := RegisteredCount(s, id);
      Ok(EventDetails(e, n, AttendanceCount(s, id), AvailabilityOf(e.capacity, n)))
  }

  // ---------------------------------------------------------------------
  // Properties
  // ---------------------------------------------------------------------

  /** An event that exists, is not cancelled and has not started accepts a
      registration exactly when the listing does not show it full. */
  lemma OpenIffNotFull(s: Store, eventId: Id, now: Time)
    requires FindEvent(s, eventId).Some?
    requires FindEvent(s, eventId).value.status != StatusCancelled
    requires now < FindEvent(s, eventId).value.startTime
    ensures Registrations.RegistrationOpen(s, eventId, now) <==>
      !AvailabilityOf(FindEvent(s, eventId).value.capacity, RegisteredCount(s, eventId)).isFull
  {
    var e := FindEvent(s, eventId).value;
    assert e in s.events;
    var i :| 0 <= i < |s.events| && s.events[i] == e;
  }

  /** A first check-in for a registration of the event adds one to its
      attendance count and leaves every other event's count alone. */
  lemma {:induction false} CheckInCounts(s: Store, registrationId: Id, now: Time, attendanceId: Id, eventId: Id)
    requires UniqueBy(s.registrations, RegistrationKey)
    requires Attendances.CheckIn(s, registrationId, now, attendanceId).result == Ok(Attendances.CheckedIn(Attendance(attendanceId, registrationId, now, 1)))
    ensures var s' := Attendances.CheckIn(s, registrationId, now, attendanceId).store;
      AttendanceCount(s', eventId) ==
        AttendanceCount(s, eventId) + (if FindRegistration(s, registrationId).value.eventId == eventId then 1 else 0)
  {
    var a := Attendance(attendanceId, registrationId, now, 1);
    var s' := Attendances.CheckIn(s, registrationId, now, attendanceId).store;
    assert s' == s.(attendance := s.attendance + [a]);
    var f := (a: Attendance) => Count(s.registrations, JoinedTo(a.registrationId, eventId));
    SumOverAppend(s.attendance, a, IsPresent, f);
    var r := FindRegistration(s, registrationId).value;
    CountAtMostOneUnique(s.registrations, RegistrationKey, registrationId, JoinedTo(registrationId, eventId));
    if r.eventId == eventId {
      var k :| 0 <= k < |s.registrations| && s.registrations[k] == r;
      assert JoinedTo(registrationId, eventId)(s.registrations[k]);
    } else {
      forall i | 0 <= i < |s.registrations| ensures !JoinedTo(registrationId, eventId)(s.registrations[i]) {
        if s.registrations[i].id == registrationId {
          assert s.registrations[i] == r by {
            var k :| 0 <= k < |s.registrations| && s.registrations[k] == r;
            assert !(i < k) && !(k < i);
          }
        }
      }
    }
  }
}
