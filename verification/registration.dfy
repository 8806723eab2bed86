/** `POST /events/:eventId/register`: the ordered checks that decide whether
    a student may register for an event, the optional creation of a new
    student, and the insertion of the registration. */
module Registrations {
  import opened Tables
  import opened Schema
  import opened Validators

  /** `!student_id || student_id === 'new'`: the request registers a new student. */
  predicate AsksForNewStudent(inp: RegistrationInput)
  {
    !Truthy(inp.studentId) || inp.studentId == Some("new")
  }

  /** The event accepts registrations at time `now`: it exists, is not
      cancelled, has not started, and is unlimited or below capacity in
      `registered` registrations. */
  predicate RegistrationOpen(s: Store, eventId: Id, now: Time)
  {
    FindEvent(s, eventId).Some? &&
    var e := FindEvent(s, eventId).value;
    && e.status != StatusCancelled
    && now < e.startTime
    && (e.capacity > 0 ==> RegisteredCount(s, eventId) < e.capacity)
  }

  /** The handler's first four checks. The first one that fails decides the
      answer: not found, then cancelled, then started, then full. */
  function Admit(s: Store, eventId: Id, now: Time): (r: Result<Event>)
    ensures r.Ok? <==> RegistrationOpen(s, eventId, now)
    ensures r.Ok? ==> r.value in s.events && r.value.id == eventId
    ensures r == Err(NotFound) <==> FindEvent(s, eventId).None?
    ensures r == Err(EventCancelled) <==>
      FindEvent(s, eventId).Some? && FindEvent(s, eventId).value.status == StatusCancelled
    ensures r == Err(RegistrationClosed) <==>
      FindEvent(s, eventId).Some? && FindEvent(s, eventId).value.status != StatusCancelled
      && FindEvent(s, eventId).value.startTime <= now
    ensures r == Err(EventFull) <==>
      FindEvent(s, eventId).Some? && FindEvent(s, eventId).value.status != StatusCancelled
      && now < FindEvent(s, eventId).value.startTime
      && FindEvent(s, eventId).value.capacity > 0
      && RegisteredCount(s, eventId) >= FindEvent(s, eventId).value.capacity
  {
    match FindEvent(s, eventId)
    case None => Err(NotFound)
    case Some(e) =>
      if e.status == StatusCancelled then Err(EventCancelled)
      else if e.startTime <= now then Err(RegistrationClosed)
      else if e.capacity > 0 && RegisteredCount(s, eventId) >= e.capacity then Err(EventFull)
      else Ok(e)
  }

  /** The row a new-student registration inserts, tied to the event's college. */
  function NewStudent(e: Event, inp: RegistrationInput, studentId: Id): Student
    requires Truthy(inp.name)
  {
    Student(studentId, e.collegeId, inp.rollNo, inp.name.value, inp.email, inp.phone)
  }

  /** The email is already held by some student (the unique email column). */
  predicate EmailTaken(s: Store, email: string)
  {
    exists i | 0 <= i < |s.students| :: s.students[i].email == Some(email)
  }

  /** Step 5: the student the registration is for. An existing id is taken
      as given; a new student needs a name and an email, and is inserted
      unless the email is taken. Returns the store with the student and
      the student's id. */
  function ResolveStudent(s: Store, e: Event, inp: RegistrationInput, studentId: Id): (r: Result<(Store, Id)>)
    ensures r == Err(NameAndEmailRequired) <==>
      AsksForNewStudent(inp) && (!Truthy(inp.name) || !Truthy(inp.email))
    ensures r == Err(EmailExists) <==>
      AsksForNewStudent(inp) && Truthy(inp.name) && Truthy(inp.email) && EmailTaken(s, inp.email.value)
    ensures r.Err? ==> r.failure == NameAndEmailRequired || r.failure == EmailExists
    ensures r.Ok? && !AsksForNewStudent(inp) ==> r.value == (s, inp.studentId.value)
    ensures r.Ok? && AsksForNewStudent(inp) ==>
      && r.value.1 == studentId
      && r.value.0 == s.(students := s.students + [NewStudent(e, inp, studentId)])
  {
    if AsksForNewStudent(inp) then
      if !Truthy(inp.name) || !Truthy(inp.email) then Err(NameAndEmailRequired)
      else match First(s.students, StudentWithEmail(inp.email.value))
        case Some(_) => Err(EmailExists)
        case None => Ok((s.(students := s.students + [NewStudent(e, inp, studentId)]), studentId))
    else Ok((s, inp.studentId.value))
  }

  /** The student the request names or creates, regardless of the outcome. */
  function TargetStudent(inp: RegistrationInput, studentId: Id): Id
  {
    if AsksForNewStudent(inp) then studentId else inp.studentId.value
  }

  /** The handler gets past its first five steps: the event is open and
      the student resolves (an existing id, or a new student with a name
      and an untaken email). */
  predicate Proceeds(s: Store, eventId: Id, inp: RegistrationInput, now: Time, studentId: Id)
  {
    RegistrationOpen(s, eventId, now) && ResolveStudent(s, FindEvent(s, eventId).value, inp, studentId).Ok?
  }

  /** The first registration of the target student for the event, the row
      the duplicate check finds. */
  function PriorEnrolment(s: Store, eventId: Id, inp: RegistrationInput, studentId: Id): Option<Registration>
  {
    First(s.registrations, Enrolment(eventId, TargetStudent(inp, studentId)))
  }

  /** The registration a successful request inserts. */
  function NewRegistration(registrationId: Id, eventId: Id, studentId: Id, now: Time): Registration
  {
    Registration(registrationId, eventId, studentId, now, StatusRegistered)
  }

  /** The whole handler. `studentId` and `registrationId` are the uuids
      it would generate; `now` is the clock. */
  function Register(s: Store, eventId: Id, inp: RegistrationInput, now: Time, studentId: Id, registrationId: Id)
    : (st: Step<Registration>)
    ensures st.result.Ok? ==> RegistrationOpen(s, eventId, now)
    ensures !RegistrationOpen(s, eventId, now) ==> st.store == s && st.result == Err(Admit(s, eventId, now).failure)
    ensures st.result == Err(NameAndEmailRequired) <==>
      RegistrationOpen(s, eventId, now) && AsksForNewStudent(inp) && (!Truthy(inp.name) || !Truthy(inp.email))
    ensures st.result == Err(NameAndEmailRequired) || st.result == Err(EmailExists) ==> st.store == s
    ensures st.result.Ok? ==>
      && st.result.value == NewRegistration(registrationId, eventId, TargetStudent(inp, studentId), now)
      && st.store.registrations == s.registrations + [st.result.value]
      && st.store.colleges == s.colleges && st.store.events == s.events
      && st.store.attendance == s.attendance && st.store.feedback == s.feedback
    ensures st.result.Ok? && !AsksForNewStudent(inp) ==> st.store.students == s.students
    ensures st.result.Ok? && AsksForNewStudent(inp) ==>
      st.store.students == s.students + [NewStudent(FindEvent(s, eventId).value, inp, studentId)]
    ensures st.result.Err? && st.result.failure.AlreadyRegistered? ==>
      && st.result.failure.registration in st.store.registrations
      && st.result.failure.registration.eventId == eventId
      && st.result.failure.registration.studentId == TargetStudent(inp, studentId)
      && st.store.registrations == s.registrations && st.store.events == s.events
    ensures Proceeds(s, eventId, inp, now, studentId) ==>
      (st.result.Ok? <==> PriorEnrolment(s, eventId, inp, studentId).None?)
    ensures st.result.Err? && st.result.failure.AlreadyRegistered? <==>
      Proceeds(s, eventId, inp, now, studentId) && PriorEnrolment(s, eventId, inp, studentId).Some?
    ensures Proceeds(s, eventId, inp, now, studentId) && PriorEnrolment(s, eventId, inp, studentId).Some? ==>
      st.result == Err(AlreadyRegistered(PriorEnrolment(s, eventId, inp, studentId).value))
  {
    match Admit(s, eventId, now)
    case Err(f) => Step(s, Err(f))
    case Ok(e) =>
      match ResolveStudent(s, e, inp, studentId)
      case Err(f) => Step(s, Err(f))
      case Ok((s1, sid)) =>
        match First(s1.registrations, Enrolment(eventId, sid))
        case Some(existing) => Step(s1, Err(AlreadyRegistered(existing)))
        case None =>
          var reg := NewRegistration(registrationId, eventId, sid, now);
          Step(s1.(registrations := s1.registrations + [reg]), Ok(reg))
  }

  /** `validateRegistration` followed by the handler. */
  function RegisterRequest(s: Store, eventId: Id, body: RegistrationBody, isEmail: string -> bool,
                           now: Time, studentId: Id, registrationId: Id): (st: Step<Registration>)
    ensures st.result.Ok? ==> RegistrationOpen(s, eventId, now)
    ensures ValidateRegistration(body, isEmail).Err? ==> st == Step(s, Err(ValidationFailed))
    ensures ValidateRegistration(body, isEmail).Ok? ==>
      st == Register(s, eventId, ValidateRegistration(body, isEmail).value, now, studentId, registrationId)
  {
    match ValidateRegistration(body, isEmail)
    case Err(f) => Step(s, Err(f))
    case Ok(inp) => Register(s, eventId, inp, now, studentId, registrationId)
  }

  // ---------------------------------------------------------------------
  // Properties
  // ---------------------------------------------------------------------

  /** A fresh student id has no registrations, so the new-student path never
      meets an existing registration, and every refusal leaves the store as
      it was: the student row is only kept when the registration is made. */
  lemma RegisterRefusalLeavesStore(s: Store, eventId: Id, inp: RegistrationInput, now: Time,
                                   studentId: Id, registrationId: Id)
    requires Fresh(s, studentId)
    ensures var st := Register(s, eventId, inp, now, studentId, registrationId);
      st.result.Err? ==> st.store == s
  {
    if AsksForNewStudent(inp) {
      assert forall i | 0 <= i < |s.registrations| :: s.registrations[i].studentId != studentId by {
        forall i | 0 <= i < |s.registrations| ensures s.registrations[i].studentId != studentId {
          assert s.registrations[i] in s.registrations;
        }
      }
    }
  }

  /** A successful registration keeps a limited event within its capacity:
      the `registered` count grows by one and stays at most the capacity. */
  lemma {:induction false} RegisterRespectsCapacity(s: Store, eventId: Id, inp: RegistrationInput, now: Time,
                                                    studentId: Id, registrationId: Id)
    requires Register(s, eventId, inp, now, studentId, registrationId).result.Ok?
    ensures var s' := Register(s, eventId, inp, now, studentId, registrationId).store;
      && RegisteredCount(s', eventId) == RegisteredCount(s, eventId) + 1
      && (FindEvent(s', eventId).value.capacity > 0 ==>
            RegisteredCount(s', eventId) <= FindEvent(s', eventId).value.capacity)
  {
    var st := Register(s, eventId, inp, now, studentId, registrationId);
    CountAppend(s.registrations, st.result.value, ActiveFor(eventId));
  }

  /** A registration never takes any event past its capacity: every
      limited event stays within it, whatever the request. */
  lemma RegisterKeepsWithinCapacity(s: Store, eventId: Id, inp: RegistrationInput, now: Time,
                                    studentId: Id, registrationId: Id)
    requires UniqueBy(s.events, EventKey) && WithinCapacity(s)
    ensures WithinCapacity(Register(s, eventId, inp, now, studentId, registrationId).store)
  {
    var st := Register(s, eventId, inp, now, studentId, registrationId);
    if st.result.Ok? {
      RegisterRespectsCapacity(s, eventId, inp, now, studentId, registrationId);
      forall i | 0 <= i < |st.store.events| && st.store.events[i].capacity > 0
        ensures RegisteredCount(st.store, st.store.events[i].id) <= st.store.events[i].capacity
      {
        if s.events[i].id == eventId {
          FindEventAt(s, i);
        } else {
          RegisterLeavesOtherCounts(s, eventId, s.events[i].id, inp, now, studentId, registrationId);
        }
      }
    } else {
      assert st.store.registrations == s.registrations && st.store.events == s.events;
      forall i | 0 <= i < |st.store.events| && st.store.events[i].capacity > 0
        ensures RegisteredCount(st.store, st.store.events[i].id) <= st.store.events[i].capacity
      {
        assert RegisteredCount(st.store, s.events[i].id) == RegisteredCount(s, s.events[i].id);
      }
    }
  }

  /** Registrations of other events are not counted against this one. */
  lemma {:induction false} RegisterLeavesOtherCounts(s: Store, eventId: Id, other: Id, inp: RegistrationInput,
                                                     now: Time, studentId: Id, registrationId: Id)
    requires other != eventId
    ensures var s' := Register(s, eventId, inp, now, studentId, registrationId).store;
      RegisteredCount(s', other) == RegisteredCount(s, other)
  {
    var st := Register(s, eventId, inp, now, studentId, registrationId);
    if st.result.Ok? {
      CountAppend(s.registrations, st.result.value, ActiveFor(other));
    }
  }

  /** Registering the same existing student twice adds one row only: the
      second request is refused, either because the first filled the event
      (capacity is checked before duplicates) or as a duplicate that hands
      back the first registration. Its status plays no part. */
  lemma RegisterTwice(s: Store, eventId: Id, inp: RegistrationInput, now: Time,
                      regId1: Id, regId2: Id, studentId1: Id, studentId2: Id)
    requires !AsksForNewStudent(inp)
    requires Valid(s)
    requires Register(s, eventId, inp, now, studentId1, regId1).result.Ok?
    ensures var st1 := Register(s, eventId, inp, now, studentId1, regId1);
      var st2 := Register(st1.store, eventId, inp, now, studentId2, regId2);
      && st2.store == st1.store
      && (st2.result == Err(EventFull) || st2.result == Err(AlreadyRegistered(st1.result.value)))
  {
    var st1 := Register(s, eventId, inp, now, studentId1, regId1);
    var s1 := st1.store;
    var reg := st1.result.value;
    var sid := inp.studentId.value;
    assert FindEvent(s1, eventId) == FindEvent(s, eventId);
    var st2 := Register(s1, eventId, inp, now, studentId2, regId2);
    if Admit(s1, eventId, now).Ok? {
      var found := First(s1.registrations, Enrolment(eventId, sid));
      assert s1.registrations[|s.registrations|] == reg;
      assert found.Some?;
      var k := Find(s1.registrations, Enrolment(eventId, sid)).value;
      assert forall i | 0 <= i < |s.registrations| :: !Enrolment(eventId, sid)(s.registrations[i]);
      assert k == |s.registrations|;
    }
  }

  /** The name-and-email refusal belongs to the new-student path alone. */
  lemma NameRequiredOnlyForNewStudents(s: Store, eventId: Id, inp: RegistrationInput, now: Time,
                                       studentId: Id, registrationId: Id)
    requires Register(s, eventId, inp, now, studentId, registrationId).result == Err(NameAndEmailRequired)
    ensures inp.studentId.None? || inp.studentId == Some("") || inp.studentId == Some("new")
  {
  }

  /** Creating a new student with an email some student already holds is
      refused with 409 and writes nothing. */
  lemma DuplicateEmailRefused(s: Store, eventId: Id, inp: RegistrationInput, now: Time,
                              studentId: Id, registrationId: Id)
    requires RegistrationOpen(s, eventId, now) && AsksForNewStudent(inp)
    requires Truthy(inp.name) && Truthy(inp.email) && EmailTaken(s, inp.email.value)
    ensures Register(s, eventId, inp, now, studentId, registrationId) == Step(s, Err(EmailExists))
  {
  }

  // ---------------------------------------------------------------------
  // The store invariants
  // ---------------------------------------------------------------------

  lemma RegisterPreservesValid(s: Store, eventId: Id, inp: RegistrationInput, now: Time,
                               studentId: Id, registrationId: Id)
    requires Valid(s) && Fresh(s, studentId) && Fresh(s, registrationId)
    ensures Valid(Register(s, eventId, inp, now, studentId, registrationId).store)
  {
    var st := Register(s, eventId, inp, now, studentId, registrationId);
    RegisterRefusalLeavesStore(s, eventId, inp, now, studentId, registrationId);
    if st.result.Ok? {
      var e := FindEvent(s, eventId).value;
      var reg := st.result.value;
      var s1 := s;
      if AsksForNewStudent(inp) {
        var ns := NewStudent(e, inp, studentId);
        assert First(s.students, StudentWithEmail(inp.email.value)).None?;
        assert e in s.events;
        AddStudentKeepsValid(s, ns);
        s1 := s.(students := s.students + [ns]);
      }
      assert st.store == s1.(registrations := s1.registrations + [reg]);
      assert First(s1.registrations, Enrolment(eventId, reg.studentId)).None?;
      assert FindEvent(s, eventId).Some?;
      AddRegistrationKeepsValid(s1, reg);
    }
  }
}
