/** The relational store of the campus-event backend: six tables of rows,
    the error kinds its request handlers answer with, the lookups the
    handlers share, and the invariants every request preserves. */
module Schema {
  import opened Tables

  /** A uuid string; ids are generated outside the model and passed in. */
  type Id = string

  /** Timestamps are milliseconds since the epoch. */
  type Time = int

  /** The only registration status the backend writes. */
  const StatusRegistered := "registered"

  /** The event statuses the event schema admits. */
  const StatusScheduled := "scheduled"
  const StatusCancelled := "cancelled"
  const StatusCompleted := "completed"

  datatype College = College(id: Id, name: string)

  datatype Student = Student(
    id: Id,
    collegeId: Id,
    rollNo: Option<string>,
    name: string,
    email: Option<string>,
    phone: Option<string>)

  datatype Event = Event(
    id: Id,
    collegeId: Id,
    title: string,
    kind: string,
    description: Option<string>,
    startTime: Time,
    endTime: Time,
    capacity: int,   // 0 means unlimited
    status: string)

  datatype Registration = Registration(
    id: Id,
    eventId: Id,
    studentId: Id,
    registeredAt: Time,
    status: string)

  /** `present` is the integer column: 1 when present, 0 when marked absent. */
  datatype Attendance = Attendance(
    id: Id,
    registrationId: Id,
    checkedInAt: Time,
    present: int)

  datatype Feedback = Feedback(
    id: Id,
    registrationId: Id,
    rating: int,
    comment: Option<string>,
    submittedAt: Time)

  /** Each table is a sequence of rows in insertion order. */
  datatype Store = Store(
    colleges: seq<College>,
    students: seq<Student>,
    events: seq<Event>,
    registrations: seq<Registration>,
    attendance: seq<Attendance>,
    feedback: seq<Feedback>)

  const EmptyStore := Store([], [], [], [], [], [])

  /** Why a request was refused; each maps to one HTTP status. */
  datatype Failure =
    | MissingToken                          // 401
    | InvalidToken                          // 403
    | ValidationFailed                      // 400, a schema rejected the body
    | NotFound                              // 404
    | EventCancelled                        // 400
    | RegistrationClosed                    // 400, the event has started
    | EventFull                             // 409
    | NameAndEmailRequired                  // 400
    | EmailExists                           // 409
    | AlreadyRegistered(registration: Registration)// 409
    | FeedbackExists(feedback: Feedback)// 409
    | PresentNotBoolean                     // 400

  function HttpStatus(f: Failure): int
  {
    match f
    case MissingToken => 401
    case InvalidToken => 403
    case NotFound => 404
    case EventFull => 409
    case EmailExists => 409
    case AlreadyRegistered(_) => 409
    case FeedbackExists(_) => 409
    case _ => 400
  }

  datatype Result<+T> = Ok(value: T) | Err(failure: Failure)

  /** The store after a request together with the request's answer. */
  datatype Step<+T> = Step(store: Store, result: Result<T>)

  /** JavaScript truthiness of an optional string field. */
  predicate Truthy(v: Option<string>)
  {
    v.Some? && v.value != ""
  }

  // ---------------------------------------------------------------------
  // Row predicates and lookups shared by the handlers
  // ---------------------------------------------------------------------

  function EventWithId(id: Id): Event -> bool { (e: Event) => e.id == id }
  function StudentWithId(id: Id): Student -> bool { (st: Student) => st.id == id }
  function StudentWithEmail(email: string): Student -> bool { (st: Student) => st.email == Some(email) }
  function CollegeNamed(name: string): College -> bool { (c: College) => c.name == name }
  function RegistrationWithId(id: Id): Registration -> bool { (r: Registration) => r.id == id }
  function AttendanceOf(registrationId: Id): Attendance -> bool { (a: Attendance) => a.registrationId == registrationId }
  function FeedbackOf(registrationId: Id): Feedback -> bool { (f: Feedback) => f.registrationId == registrationId }

  /** A registration of `studentId` for `eventId`, whatever its status. */
  function Enrolment(eventId: Id, studentId: Id): Registration -> bool
  {
    (r: Registration) => r.eventId == eventId && r.studentId == studentId
  }

  /** A registration of `eventId` with status `registered`. */
  function ActiveFor(eventId: Id): Registration -> bool
  {
    (r: Registration) => r.eventId == eventId && r.status == StatusRegistered
  }

  function FindEvent(s: Store, id: Id): Option<Event> { First(s.events, EventWithId(id)) }
  function FindStudent(s: Store, id: Id): Option<Student> { First(s.students, StudentWithId(id)) }
  function FindRegistration(s: Store, id: Id): Option<Registration> { First(s.registrations, RegistrationWithId(id)) }
  function FindAttendance(s: Store, registrationId: Id): Option<Attendance> { First(s.attendance, AttendanceOf(registrationId)) }
  function FindFeedback(s: Store, registrationId: Id): Option<Feedback> { First(s.feedback, FeedbackOf(registrationId)) }

  /** The number of `registered` registrations of an event. */
  function RegisteredCount(s: Store, eventId: Id): nat
  {
    Count(s.registrations, ActiveFor(eventId))
  }

  // ---------------------------------------------------------------------
  // Keys and invariants
  // ---------------------------------------------------------------------

  function CollegeKey(c: College): Id { c.id }
  function CollegeName(c: College): string { c.name }
  function StudentKey(st: Student): Id { st.id }
  function EventKey(e: Event): Id { e.id }
  function RegistrationKey(r: Registration): Id { r.id }
  function EnrolmentKey(r: Registration): (Id, Id) { (r.eventId, r.studentId) }
  function AttendanceKey(a: Attendance): Id { a.id }
  function AttendanceRegistration(a: Attendance): Id { a.registrationId }
  function FeedbackKey(f: Feedback): Id { f.id }
  function FeedbackRegistration(f: Feedback): Id { f.registrationId }

  function CollegeIds(colleges: seq<College>): set<Id> { set c | c in colleges :: c.id }
  function EventIds(events: seq<Event>): set<Id> { set e | e in events :: e.id }
  function RegistrationIds(registrations: seq<Registration>): set<Id> { set r | r in registrations :: r.id }

  /** Every id that appears anywhere in the store, as a key or as a reference. */
  function UsedIds(s: Store): set<Id>
  {
    CollegeIds(s.colleges) + EventIds(s.events) + RegistrationIds(s.registrations)
    + (set st | st in s.students :: st.id)
    + (set st | st in s.students :: st.collegeId)
    + (set e | e in s.events :: e.collegeId)
    + (set r | r in s.registrations :: r.eventId)
    + (set r | r in s.registrations :: r.studentId)
    + (set a | a in s.attendance :: a.id)
    + (set a | a in s.attendance :: a.registrationId)
    + (set f | f in s.feedback :: f.id)
    + (set f | f in s.feedback :: f.registrationId)
  }

  /** What a freshly generated uuid guarantees: it occurs nowhere yet. */
  predicate Fresh(s: Store, id: Id)
  {
    id !in UsedIds(s)
  }

  /** The unique email column; students without an email never clash. */
  ghost predicate EmailsUnique(students: seq<Student>)
  {
    forall i, j | 0 <= i < j < |students| :: students[i].email.Some? ==> students[i].email != students[j].email
  }

  /** Each table's invariant, stated over the table and the keys of the
      table it references. Primary keys and the DDL's unique columns hold;
      so do the one-row-per-registration rules the handlers' read-then-write
      logic maintains, and the references every handler checks before it
      writes. Registrations may name a student that does not exist: no
      handler checks it and the default store does not enforce foreign keys. */
  ghost predicate CollegesValid(colleges: seq<College>)
  {
    UniqueBy(colleges, CollegeKey) && UniqueBy(colleges, CollegeName)
  }

  ghost predicate StudentsValid(students: seq<Student>, collegeIds: set<Id>)
  {
    && UniqueBy(students, StudentKey)
    && EmailsUnique(students)
    && (forall st | st in students :: st.collegeId in collegeIds)
  }

  ghost predicate EventsValid(events: seq<Event>, collegeIds: set<Id>)
  {
    UniqueBy(events, EventKey) && (forall e | e in events :: e.collegeId in collegeIds)
  }

  ghost predicate RegistrationsValid(registrations: seq<Registration>, eventIds: set<Id>)
  {
    && UniqueBy(registrations, RegistrationKey)
    && UniqueBy(registrations, EnrolmentKey)
    && (forall r | r in registrations :: r.eventId in eventIds)
  }

  ghost predicate AttendanceValid(attendance: seq<Attendance>, registrationIds: set<Id>)
  {
    && UniqueBy(attendance, AttendanceKey)
    && UniqueBy(attendance, AttendanceRegistration)
    && (forall a | a in attendance :: a.registrationId in registrationIds)
  }

  /** Also the rating column's CHECK constraint. */
  ghost predicate FeedbackValid(feedback: seq<Feedback>, registrationIds: set<Id>)
  {
    && UniqueBy(feedback, FeedbackKey)
    && UniqueBy(feedback, FeedbackRegistration)
    && (forall f | f in feedback :: f.registrationId in registrationIds)
    && (forall f | f in feedback :: 1 <= f.rating <= 5)
  }

  ghost predicate Valid(s: Store)
  {
    && CollegesValid(s.colleges)
    && StudentsValid(s.students, CollegeIds(s.colleges))
    && EventsValid(s.events, CollegeIds(s.colleges))
    && RegistrationsValid(s.registrations, EventIds(s.events))
    && AttendanceValid(s.attendance, RegistrationIds(s.registrations))
    && FeedbackValid(s.feedback, RegistrationIds(s.registrations))
  }

  /** No limited event holds more `registered` registrations than its capacity. */
  ghost predicate WithinCapacity(s: Store)
  {
    forall i | 0 <= i < |s.events| && s.events[i].capacity > 0 ::
      RegisteredCount(s, s.events[i].id) <= s.events[i].capacity
  }

  /** With unique event ids, looking an event up by its own id finds it. */
  lemma FindEventAt(s: Store, i: nat)
    requires UniqueBy(s.events, EventKey) && i < |s.events|
    ensures FindEvent(s, s.events[i].id) == Some(s.events[i])
  {
    var k := Find(s.events, EventWithId(s.events[i].id)).value;
    assert EventKey(s.events[k]) == EventKey(s.events[i]);
  }

  lemma EmptyStoreValid()
    ensures Valid(EmptyStore)
  {
  }

  /** With one attendance row per registration, the lookup finds the only row. */
  lemma {:induction false} AttendanceLookupUnique(s: Store, registrationId: Id)
    requires UniqueBy(s.attendance, AttendanceRegistration)
    ensures Count(s.attendance, AttendanceOf(registrationId)) <= 1
  {
    CountAtMostOneUnique(s.attendance, AttendanceRegistration, registrationId, AttendanceOf(registrationId));
  }

  // ---------------------------------------------------------------------
  // Inserting a row keeps the store valid when the handler's checks passed
  // ---------------------------------------------------------------------

  /** A student with a fresh id, an existing college and an unused email. */
  lemma AddStudentKeepsValid(s: Store, st: Student)
    requires Valid(s)
    requires Fresh(s, st.id)
    requires st.collegeId in CollegeIds(s.colleges)
    requires st.email.Some?
    requires forall i | 0 <= i < |s.students| :: !StudentWithEmail(st.email.value)(s.students[i])
    ensures Valid(s.(students := s.students + [st]))
  {
    assert st.id !in (set x | x in s.students :: x.id);
    StudentsAppend(s.students, st, CollegeIds(s.colleges));
  }

  lemma StudentsAppend(students: seq<Student>, st: Student, collegeIds: set<Id>)
    requires StudentsValid(students, collegeIds)
    requires st.id !in (set x | x in students :: x.id)
    requires st.collegeId in collegeIds
    requires st.email.Some?
    requires forall i | 0 <= i < |students| :: !StudentWithEmail(st.email.value)(students[i])
    ensures StudentsValid(students + [st], collegeIds)
  {
    var ss := students + [st];
    forall i | 0 <= i < |students| ensures students[i].id != st.id {
      assert students[i] in students;
    }
    UniqueByAppend(students, st, StudentKey);
    forall i, j | 0 <= i < j < |ss| && ss[i].email.Some?
      ensures ss[i].email != ss[j].email
    {
      if j == |students| {
        assert !StudentWithEmail(st.email.value)(students[i]);
      }
    }
  }

  /** A registration with a fresh id, of an existing event, for a student
      not yet registered for it. */
  lemma AddRegistrationKeepsValid(s: Store, r: Registration)
    requires Valid(s)
    requires r.id !in RegistrationIds(s.registrations)
    requires FindEvent(s, r.eventId).Some?
    requires forall i | 0 <= i < |s.registrations| :: !Enrolment(r.eventId, r.studentId)(s.registrations[i])
    ensures Valid(s.(registrations := s.registrations + [r]))
  {
    var rs := s.registrations + [r];
    assert r.eventId in EventIds(s.events);
    RegistrationsAppend(s.registrations, r, EventIds(s.events));
    assert RegistrationIds(rs) == RegistrationIds(s.registrations) + {r.id};
    AttendanceWiderReferences(s.attendance, RegistrationIds(s.registrations), RegistrationIds(rs));
    FeedbackWiderReferences(s.feedback, RegistrationIds(s.registrations), RegistrationIds(rs));
  }

  lemma RegistrationsAppend(registrations: seq<Registration>, r: Registration, eventIds: set<Id>)
    requires RegistrationsValid(registrations, eventIds)
    requires r.id !in RegistrationIds(registrations)
    requires r.eventId in eventIds
    requires forall i | 0 <= i < |registrations| :: !Enrolment(r.eventId, r.studentId)(registrations[i])
    ensures RegistrationsValid(registrations + [r], eventIds)
  {
    forall i | 0 <= i < |registrations| ensures EnrolmentKey(registrations[i]) != EnrolmentKey(r) {
      assert !Enrolment(r.eventId, r.studentId)(registrations[i]);
    }
    UniqueByAppend(registrations, r, EnrolmentKey);
    forall i | 0 <= i < |registrations| ensures registrations[i].id != r.id {
      assert registrations[i] in registrations;
    }
    UniqueByAppend(registrations, r, RegistrationKey);
  }

  lemma AttendanceWiderReferences(attendance: seq<Attendance>, ids: set<Id>, ids': set<Id>)
    requires AttendanceValid(attendance, ids) && ids <= ids'
    ensures AttendanceValid(attendance, ids')
  {
  }

  lemma FeedbackWiderReferences(feedback: seq<Feedback>, ids: set<Id>, ids': set<Id>)
    requires FeedbackValid(feedback, ids) && ids <= ids'
    ensures FeedbackValid(feedback, ids')
  {
  }

  /** An attendance row with a fresh id, for an existing registration that
      has none yet. */
  lemma AddAttendanceKeepsValid(s: Store, a: Attendance)
    requires Valid(s)
    requires Fresh(s, a.id)
    requires a.registrationId in RegistrationIds(s.registrations)
    requires FindAttendance(s, a.registrationId).None?
    ensures Valid(s.(attendance := s.attendance + [a]))
  {
    assert a.id !in (set x | x in s.attendance :: x.id);
    AttendanceAppend(s.attendance, a, RegistrationIds(s.registrations));
  }

  lemma AttendanceAppend(attendance: seq<Attendance>, a: Attendance, registrationIds: set<Id>)
    requires AttendanceValid(attendance, registrationIds)
    requires a.id !in (set x | x in attendance :: x.id)
    requires a.registrationId in registrationIds
    requires forall i | 0 <= i < |attendance| :: !AttendanceOf(a.registrationId)(attendance[i])
    ensures AttendanceValid(attendance + [a], registrationIds)
  {
    forall i | 0 <= i < |attendance| ensures attendance[i].id != a.id {
      assert attendance[i] in attendance;
    }
    UniqueByAppend(attendance, a, AttendanceKey);
    UniqueByAppend(attendance, a, AttendanceRegistration);
  }

  /** A feedback row with a fresh id and an allowed rating, for an existing
      registration that has none yet. */
  lemma AddFeedbackKeepsValid(s: Store, f: Feedback)
    requires Valid(s)
    requires Fresh(s, f.id)
    requires f.registrationId in RegistrationIds(s.registrations)
    requires FindFeedback(s, f.registrationId).None?
    requires 1 <= f.rating <= 5
    ensures Valid(s.(feedback := s.feedback + [f]))
  {
    assert f.id !in (set x | x in s.feedback :: x.id);
    FeedbackAppend(s.feedback, f, RegistrationIds(s.registrations));
  }

  lemma FeedbackAppend(feedback: seq<Feedback>, f: Feedback, registrationIds: set<Id>)
    requires FeedbackValid(feedback, registrationIds)
    requires f.id !in (set x | x in feedback :: x.id)
    requires f.registrationId in registrationIds
    requires forall i | 0 <= i < |feedback| :: !FeedbackOf(f.registrationId)(feedback[i])
    requires 1 <= f.rating <= 5
    ensures FeedbackValid(feedback + [f], registrationIds)
  {
    forall i | 0 <= i < |feedback| ensures feedback[i].id != f.id {
      assert feedback[i] in feedback;
    }
    UniqueByAppend(feedback, f, FeedbackKey);
    UniqueByAppend(feedback, f, FeedbackRegistration);
  }

  lemma StudentsWiderReferences(students: seq<Student>, ids: set<Id>, ids': set<Id>)
    requires StudentsValid(students, ids) && ids <= ids'
    ensures StudentsValid(students, ids')
  {
  }

  lemma EventsWiderReferences(events: seq<Event>, ids: set<Id>, ids': set<Id>)
    requires EventsValid(events, ids) && ids <= ids'
    ensures EventsValid(events, ids')
  {
  }

  lemma RegistrationsWiderReferences(registrations: seq<Registration>, ids: set<Id>, ids': set<Id>)
    requires RegistrationsValid(registrations, ids) && ids <= ids'
    ensures RegistrationsValid(registrations, ids')
  {
  }

  /** A college with a fresh id and a name no college has yet. */
  lemma CollegesAppend(colleges: seq<College>, c: College)
    requires CollegesValid(colleges)
    requires c.id !in CollegeIds(colleges)
    requires forall i | 0 <= i < |colleges| :: !CollegeNamed(c.name)(colleges[i])
    ensures CollegesValid(colleges + [c])
    ensures CollegeIds(colleges + [c]) == CollegeIds(colleges) + {c.id}
  {
    forall i | 0 <= i < |colleges| ensures colleges[i].id != c.id {
      assert colleges[i] in colleges;
    }
    UniqueByAppend(colleges, c, CollegeKey);
    UniqueByAppend(colleges, c, CollegeName);
  }

  /** An event with a fresh id, under an existing college. */
  lemma EventsAppend(events: seq<Event>, e: Event, collegeIds: set<Id>)
    requires EventsValid(events, collegeIds)
    requires e.id !in EventIds(events)
    requires e.collegeId in collegeIds
    ensures EventsValid(events + [e], collegeIds)
    ensures EventIds(events + [e]) == EventIds(events) + {e.id}
  {
    forall i | 0 <= i < |events| ensures events[i].id != e.id {
      assert events[i] in events;
    }
    UniqueByAppend(events, e, EventKey);
  }

  /** Rewriting events in place without touching ids or colleges keeps the
      event table valid and its key set. */
  lemma EventsPointwise(events: seq<Event>, events': seq<Event>, collegeIds: set<Id>)
    requires EventsValid(events, collegeIds)
    requires |events'| == |events|
    requires forall i | 0 <= i < |events| :: events'[i].id == events[i].id && events'[i].collegeId == events[i].collegeId
    ensures EventsValid(events', collegeIds)
    ensures EventIds(events') == EventIds(events)
  {
    assert forall i | 0 <= i < |events| :: EventKey(events'[i]) == EventKey(events[i]);
    forall e | e in events' ensures e.collegeId in collegeIds && e.id in EventIds(events) {
      var i :| 0 <= i < |events'| && events'[i] == e;
      assert events[i] in events;
    }
    forall e | e in events ensures e.id in EventIds(events') {
      var i :| 0 <= i < |events| && events[i] == e;
      assert events'[i] in events';
    }
  }
}
