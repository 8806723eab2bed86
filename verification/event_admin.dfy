/** The admin event lifecycle: create with find-or-create college
    (`POST /admin/events`), update (`PUT /admin/events/:id`) and soft cancel
    (`DELETE /admin/events/:id`). The admin token is checked in front of
    these by the request dispatcher. */
module EventAdmin {
  import opened Tables
  import opened Schema
  import opened Validators

  /** The capacity an event gets when none (or 0) is given. */
  const DefaultCapacity := 100

  /** `capacity || 100`. */
  function CapacityOrDefault(capacity: Option<int>): (c: int)
    ensures capacity.None? || capacity == Some(0) ==> c == DefaultCapacity
    ensures capacity.Some? && capacity.value != 0 ==> c == capacity.value
  {
    if capacity.None? || capacity.value == 0 then DefaultCapacity else capacity.value
  }

  /** The college an event is created under: the first one with the given
      name, or a new one with the fresh id. Returns the college table
      afterwards and the college. */
  function FindOrCreateCollege(colleges: seq<College>, name: string, collegeId: Id): (r: (seq<College>, College))
    ensures r.1.name == name && r.1 in r.0
    ensures First(colleges, CollegeNamed(name)).Some? ==> r == (colleges, First(colleges, CollegeNamed(name)).value)
    ensures First(colleges, CollegeNamed(name)).None? ==> r == (colleges + [College(collegeId, name)], College(collegeId, name))
  {
    match First(colleges, CollegeNamed(name))
    case Some(c) => (colleges, c)
    case None => (colleges + [College(collegeId, name)], College(collegeId, name))
  }

  /** Creates a validated event. A supplied status is ignored: every new
      event is `scheduled`. */
  function CreateEvent(s: Store, inp: EventInput, collegeId: Id, eventId: Id): (st: Step<Event>)
    ensures st.result.Ok?
    ensures var e := st.result.value;
      && e.id == eventId
      && e.status == StatusScheduled
      && e.capacity == CapacityOrDefault(inp.capacity)
      && (e.title, e.kind, e.description, e.startTime, e.endTime)
         == (inp.title, inp.kind, inp.description, inp.startTime, inp.endTime)
      && st.store.events == s.events + [e]
      && st.store.students == s.students && st.store.registrations == s.registrations
      && st.store.attendance == s.attendance && st.store.feedback == s.feedback
    ensures College(st.result.value.collegeId, inp.collegeName) in st.store.colleges
    ensures First(s.colleges, CollegeNamed(inp.collegeName)).Some? ==>
      && st.store.colleges == s.colleges
      && st.result.value.collegeId == First(s.colleges, CollegeNamed(inp.collegeName)).value.id
    ensures First(s.colleges, CollegeNamed(inp.collegeName)).None? ==>
      && st.store.colleges == s.colleges + [College(collegeId, inp.collegeName)]
      && st.result.value.collegeId == collegeId
  {
    var (colleges, college) := FindOrCreateCollege(s.colleges, inp.collegeName, collegeId);
    var e := Event(eventId, college.id, inp.title, inp.kind, inp.description,
                   inp.startTime, inp.endTime, CapacityOrDefault(inp.capacity), StatusScheduled);
    Step(s.(colleges := colleges, events := s.events + [e]), Ok(e))
  }

  /** The stored event after an update: title, type, start and end are
      replaced; description, capacity and status only when supplied (an
      absent field is left out of the SQL update). The college name the
      schema demands is not used. */
  function Revise(inp: EventInput): Event -> Event
  {
    (e: Event) => e.(
      title := inp.title,
      kind := inp.kind,
      description := if inp.description.Some? then inp.description else e.description,
      startTime := inp.startTime,
      endTime := inp.endTime,
      capacity := if inp.capacity.Some? then inp.capacity.value else e.capacity,
      status := if inp.status.Some? then inp.status.value else e.status)
  }

  /** Updates a validated event: 404 for an unknown id, otherwise every row
      with the id is revised and the (first) revised row returned. */
  function UpdateEvent(s: Store, id: Id, inp: EventInput): (st: Step<Event>)
    ensures st.result.Err? <==> FindEvent(s, id).None?
    ensures st.result.Err? ==> st.result.failure == NotFound && st.store == s
    ensures st.result.Ok? ==>
      var prior := FindEvent(s, id).value;
      var e := st.result.value;
      && FindEvent(st.store, id) == Some(e)
      && e.id == id && e.collegeId == prior.collegeId
      && e.title == inp.title && e.kind == inp.kind
      && e.startTime == inp.startTime && e.endTime == inp.endTime
      && e.description == (if inp.description.Some? then inp.description else prior.description)
      && e.capacity == (if inp.capacity.Some? then inp.capacity.value else prior.capacity)
      && e.status == (if inp.status.Some? then inp.status.value else prior.status)
    ensures st.result.Ok? ==> st.store == s.(events := st.store.events)
    ensures st.result.Ok? ==>
      && |st.store.events| == |s.events|
      && forall i | 0 <= i < |s.events| && s.events[i].id != id :: st.store.events[i] == s.events[i]
  {
    match FindEvent(s, id)
    case None => Step(s, Err(NotFound))
    case Some(e) =>
      FirstUpdateWhere(s.events, EventWithId(id), Revise(inp));
      Step(s.(events := UpdateWhere(s.events, EventWithId(id), Revise(inp))), Ok(Revise(inp)(e)))
  }

  function Cancelled(e: Event): Event
  {
    e.(status := StatusCancelled)
  }

  /** Soft-cancels an event: 404 for an unknown id; otherwise only the
      status of the event's row changes. */
  function CancelEvent(s: Store, id: Id): (st: Step<()>)
    ensures st.result.Err? <==> FindEvent(s, id).None?
    ensures st.result.Err? ==> st.result.failure == NotFound && st.store == s
    ensures st.result.Ok? ==>
      && st.store == s.(events := st.store.events)
      && FindEvent(st.store, id) == Some(FindEvent(s, id).value.(status := StatusCancelled))
      && |st.store.events| == |s.events|
      && forall i | 0 <= i < |s.events| ::
           st.store.events[i] == if s.events[i].id == id then s.events[i].(status := StatusCancelled) else s.events[i]
  {
    match FindEvent(s, id)
    case None => Step(s, Err(NotFound))
    case Some(e) =>
      FirstUpdateWhere(s.events, EventWithId(id), Cancelled);
      Step(s.(events := UpdateWhere(s.events, EventWithId(id), Cancelled)), Ok(()))
  }

  // ---------------------------------------------------------------------
  // Properties
  // ---------------------------------------------------------------------

  /** Two events created under the same college name share one college row. */
  lemma CreateTwiceSharesCollege(s: Store, inp1: EventInput, inp2: EventInput,
                                 collegeId1: Id, collegeId2: Id, eventId1: Id, eventId2: Id)
    requires inp1.collegeName == inp2.collegeName
    ensures var st1 := CreateEvent(s, inp1, collegeId1, eventId1);
      var st2 := CreateEvent(st1.store, inp2, collegeId2, eventId2);
      && st2.result.value.collegeId == st1.result.value.collegeId
      && st2.store.colleges == st1.store.colleges
      && |st2.store.colleges| <= |s.colleges| + 1
  {
    var st1 := CreateEvent(s, inp1, collegeId1, eventId1);
    var name := inp1.collegeName;
    FirstAppend(s.colleges, College(collegeId1, name), CollegeNamed(name));
  }

  /** Creating an event keeps the store valid, given fresh ids. */
  lemma CreateEventPreservesValid(s: Store, inp: EventInput, collegeId: Id, eventId: Id)
    requires Valid(s) && Fresh(s, collegeId) && Fresh(s, eventId)
    ensures Valid(CreateEvent(s, inp, collegeId, eventId).store)
  {
    var st := CreateEvent(s, inp, collegeId, eventId);
    var e := st.result.value;
    var cs := st.store.colleges;
    if First(s.colleges, CollegeNamed(inp.collegeName)).None? {
      CollegesAppend(s.colleges, College(collegeId, inp.collegeName));
    }
    assert CollegeIds(s.colleges) <= CollegeIds(cs);
    assert e.collegeId in CollegeIds(cs);
    StudentsWiderReferences(s.students, CollegeIds(s.colleges), CollegeIds(cs));
    EventsWiderReferences(s.events, CollegeIds(s.colleges), CollegeIds(cs));
    EventsAppend(s.events, e, CollegeIds(cs));
    RegistrationsWiderReferences(s.registrations, EventIds(s.events), EventIds(st.store.events));
  }

  /** A new event has no registrations, so it starts within its capacity. */
  lemma CreateEventKeepsWithinCapacity(s: Store, inp: EventInput, collegeId: Id, eventId: Id)
    requires WithinCapacity(s) && Fresh(s, eventId)
    ensures WithinCapacity(CreateEvent(s, inp, collegeId, eventId).store)
  {
    var st := CreateEvent(s, inp, collegeId, eventId);
    forall i | 0 <= i < |s.registrations| ensures !ActiveFor(eventId)(s.registrations[i]) {
      assert s.registrations[i] in s.registrations;
    }
  }

  /** Updating an event keeps the store valid: ids and colleges stay. */
  lemma UpdateEventPreservesValid(s: Store, id: Id, inp: EventInput)
    requires Valid(s)
    ensures Valid(UpdateEvent(s, id, inp).store)
  {
    var st := UpdateEvent(s, id, inp);
    if st.result.Ok? {
      EventsPointwise(s.events, st.store.events, CollegeIds(s.colleges));
    }
  }

  /** Cancelling an event keeps the store valid and every capacity respected. */
  lemma CancelEventPreservesValid(s: Store, id: Id)
    requires Valid(s)
    ensures Valid(CancelEvent(s, id).store)
  {
    var st := CancelEvent(s, id);
    if st.result.Ok? {
      EventsPointwise(s.events, st.store.events, CollegeIds(s.colleges));
    }
  }

  lemma CancelEventKeepsWithinCapacity(s: Store, id: Id)
    requires WithinCapacity(s)
    ensures WithinCapacity(CancelEvent(s, id).store)
  {
  }

  /** Cancelling twice is cancelling once. */
  lemma CancelIdempotent(s: Store, id: Id)
    ensures var st1 := CancelEvent(s, id);
      CancelEvent(st1.store, id).store == st1.store
  {
    var st1 := CancelEvent(s, id);
    if st1.result.Ok? {
      var st2 := CancelEvent(st1.store, id);
      assert st2.store.events == st1.store.events;
    }
  }

  /** An update may lower a capacity below the registrations already made:
      only registration checks capacity, so the update handler does not
      preserve the capacity invariant. */
  lemma UpdateCanBreakCapacity()
    ensures var e := Event("e", "c", "Talk", "Seminar", None, 10, 20, 2, StatusScheduled);
      var s := Store([College("c", "College")], [], [e],
                     [Registration("r1", "e", "s1", 0, StatusRegistered),
                      Registration("r2", "e", "s2", 0, StatusRegistered)], [], []);
      var inp := EventInput("College", "Talk", "Seminar", None, 10, 20, Some(1), None);
      && Valid(s) && WithinCapacity(s)
      && UpdateEvent(s, "e", inp).result.Ok?
      && !WithinCapacity(UpdateEvent(s, "e", inp).store)
  {
    var e := Event("e", "c", "Talk", "Seminar", None, 10, 20, 2, StatusScheduled);
    var r1 := Registration("r1", "e", "s1", 0, StatusRegistered);
    var r2 := Registration("r2", "e", "s2", 0, StatusRegistered);
    var s := Store([College("c", "College")], [], [e], [r1, r2], [], []);
    var inp := EventInput("College", "Talk", "Seminar", None, 10, 20, Some(1), None);
    assert [r1, r2][..1] == [r1];
    assert ActiveFor("e")(r1) && ActiveFor("e")(r2);
    assert Count([r1], ActiveFor("e")) == 1;
    assert RegisteredCount(s, "e") == 2;
    var st := UpdateEvent(s, "e", inp);
    assert st.store.events[0].capacity == 1;
    assert st.store.registrations == s.registrations;
  }
}
