/** The write routes of the API, dispatched over one store. Admin routes
    pass the token check before their body is validated; every other route
    is open. Reads (event details, rosters, reports) never change the store
    and are modelled as functions of their own. */
module Machine {
  import opened Tables
  import opened Schema
  import opened Validators
  import Registrations
  import Attendances
  import Feedbacks
  import EventAdmin

  /** One request to a route that may write. `token` is the `x-admin-token` header. */
  datatype Request =
    | PostEvent(token: Option<string>, event: EventBody)
    | PutEvent(token: Option<string>, id: Id, event: EventBody)
    | DeleteEvent(token: Option<string>, id: Id)
    | PostAttendance(token: Option<string>, registrationId: Id, present: Field)
    | PostRegister(eventId: Id, registration: RegistrationBody)
    | PostCheckIn(registrationId: Id)
    | PostFeedback(registrationId: Id, feedback: FeedbackBody)

  /** What a request depends on besides the store: the configured admin
      token, the clock, the two uuids a handler may generate (the first for
      a new college, student, attendance or feedback row, the second for a
      new event or registration), and the two Joi predicates. */
  datatype Env = Env(
    adminToken: Option<string>,
    now: Time,
    uuid1: Id,
    uuid2: Id,
    parseDate: string -> Option<Time>,
    isEmail: string -> bool)

  /** The store after a request and the failure it answered with, if any. */
  datatype Response = Response(store: Store, failure: Option<Failure>)

  predicate AdminRoute(req: Request)
  {
    req.PostEvent? || req.PutEvent? || req.DeleteEvent? || req.PostAttendance?
  }

  function Answer<T>(st: Step<T>): (r: Response)
    ensures r.store == st.store
    ensures r.failure.None? <==> st.result.Ok?
    ensures st.result.Err? ==> r.failure == Some(st.result.failure)
  {
    Response(st.store, if st.result.Ok? then None else Some(st.result.failure))
  }

  /** The admin routes after the token check. */
  function ApplyAdmin(s: Store, req: Request, env: Env): (r: Response)
    requires AdminRoute(req)
    ensures req.PostEvent? || req.PutEvent? ==> ValidateEvent(req.event, env.parseDate).Err? ==>
      r == Response(s, Some(ValidateEvent(req.event, env.parseDate).failure))
    ensures req.PostEvent? && ValidateEvent(req.event, env.parseDate).Ok? ==>
      r == Answer(EventAdmin.CreateEvent(s, ValidateEvent(req.event, env.parseDate).value, env.uuid1, env.uuid2))
    ensures req.PutEvent? && ValidateEvent(req.event, env.parseDate).Ok? ==>
      r == Answer(EventAdmin.UpdateEvent(s, req.id, ValidateEvent(req.event, env.parseDate).value))
    ensures req.DeleteEvent? ==> r == Answer(EventAdmin.CancelEvent(s, req.id))
    ensures req.PostAttendance? ==>
      r == Answer(Attendances.MarkAttendance(s, req.registrationId, req.present, env.now, env.uuid1))
  {
    match req
    case PostEvent(_, body) =>
      (match ValidateEvent(body, env.parseDate)
       case Err(f) => Response(s, Some(f))
       case Ok(inp) => Answer(EventAdmin.CreateEvent(s, inp, env.uuid1, env.uuid2)))
    case PutEvent(_, id, body) =>
      (match ValidateEvent(body, env.parseDate)
       case Err(f) => Response(s, Some(f))
       case Ok(inp) => Answer(EventAdmin.UpdateEvent(s, id, inp)))
    case DeleteEvent(_, id) => Answer(EventAdmin.CancelEvent(s, id))
    case PostAttendance(_, registrationId, present) =>
      Answer(Attendances.MarkAttendance(s, registrationId, present, env.now, env.uuid1))
  }

  /** One request against the store. */
  function Apply(s: Store, req: Request, env: Env): (r: Response)
    ensures AdminRoute(req) && CheckAdminToken(req.token, env.adminToken).Err? ==>
      r == Response(s, Some(CheckAdminToken(req.token, env.adminToken).failure))
    ensures !AdminRoute(req) ==> r.store.colleges == s.colleges && r.store.events == s.events
    ensures !req.PostRegister? ==> r.store.students == s.students && r.store.registrations == s.registrations
    ensures req.PostRegister? || req.PostFeedback? || req.PostEvent? || req.PutEvent? || req.DeleteEvent? ==>
      r.store.attendance == s.attendance
    ensures AdminRoute(req) && CheckAdminToken(req.token, env.adminToken).Ok? ==> r == ApplyAdmin(s, req, env)
    ensures req.PostRegister? ==>
      r == Answer(Registrations.RegisterRequest(s, req.eventId, req.registration, env.isEmail, env.now, env.uuid1, env.uuid2))
    ensures req.PostCheckIn? ==> r == Answer(Attendances.CheckIn(s, req.registrationId, env.now, env.uuid1))
    ensures req.PostFeedback? ==>
      r == Answer(Feedbacks.SubmitFeedbackRequest(s, req.registrationId, req.feedback, env.now, env.uuid1))
    ensures !req.PostFeedback? ==> r.store.feedback == s.feedback
  {
    if AdminRoute(req) then
      match CheckAdminToken(req.token, env.adminToken)
      case Err(f) => Response(s, Some(f))
      case Ok(_) => ApplyAdmin(s, req, env)
    else
      match req
      case PostRegister(eventId, body) =>
        Answer(Registrations.RegisterRequest(s, eventId, body, env.isEmail, env.now, env.uuid1, env.uuid2))
      case PostCheckIn(registrationId) =>
        Answer(Attendances.CheckIn(s, registrationId, env.now, env.uuid1))
      case PostFeedback(registrationId, body) =>
        Answer(Feedbacks.SubmitFeedbackRequest(s, registrationId, body, env.now, env.uuid1))
  }

  // ---------------------------------------------------------------------
  // Properties
  // ---------------------------------------------------------------------

  /** Every request keeps the store's keys unique and its references
      resolved, given uuids no row uses yet. */
  lemma ApplyPreservesValid(s: Store, req: Request, env: Env)
    requires Valid(s) && Fresh(s, env.uuid1) && Fresh(s, env.uuid2)
    ensures Valid(Apply(s, req, env).store)
  {
    if AdminRoute(req) {
      if CheckAdminToken(req.token, env.adminToken).Ok? {
        AdminPreservesValid(s, req, env);
      }
    } else {
      PublicPreservesValid(s, req, env);
    }
  }

  lemma AdminPreservesValid(s: Store, req: Request, env: Env)
    requires Valid(s) && Fresh(s, env.uuid1) && Fresh(s, env.uuid2)
    requires AdminRoute(req)
    ensures Valid(ApplyAdmin(s, req, env).store)
  {
    match req
    case PostEvent(_, body) =>
      if ValidateEvent(body, env.parseDate).Ok? {
        EventAdmin.CreateEventPreservesValid(s, ValidateEvent(body, env.parseDate).value, env.uuid1, env.uuid2);
      }
    case PutEvent(_, id, body) =>
      if ValidateEvent(body, env.parseDate).Ok? {
        EventAdmin.UpdateEventPreservesValid(s, id, ValidateEvent(body, env.parseDate).value);
      }
    case DeleteEvent(_, id) =>
      EventAdmin.CancelEventPreservesValid(s, id);
    case PostAttendance(_, registrationId, present) =>
      Attendances.MarkAttendancePreservesValid(s, registrationId, present, env.now, env.uuid1);
  }

  lemma PublicPreservesValid(s: Store, req: Request, env: Env)
    requires Valid(s) && Fresh(s, env.uuid1) && Fresh(s, env.uuid2)
    requires !AdminRoute(req)
    ensures Valid(Apply(s, req, env).store)
  {
    match req
    case PostRegister(eventId, body) =>
      RegisterRequestPreservesValid(s, eventId, body, env);
    case PostCheckIn(registrationId) =>
      Attendances.CheckInPreservesValid(s, registrationId, env.now, env.uuid1);
    case PostFeedback(registrationId, body) =>
      FeedbackRequestPreservesValid(s, registrationId, body, env);
  }

  lemma RegisterRequestPreservesValid(s: Store, eventId: Id, body: RegistrationBody, env: Env)
    requires Valid(s) && Fresh(s, env.uuid1) && Fresh(s, env.uuid2)
    ensures Valid(Registrations.RegisterRequest(s, eventId, body, env.isEmail, env.now, env.uuid1, env.uuid2).store)
  {
    if ValidateRegistration(body, env.isEmail).Ok? {
      Registrations.RegisterPreservesValid(s, eventId, ValidateRegistration(body, env.isEmail).value,
                                           env.now, env.uuid1, env.uuid2);
    }
  }

  lemma FeedbackRequestPreservesValid(s: Store, registrationId: Id, body: FeedbackBody, env: Env)
    requires Valid(s) && Fresh(s, env.uuid1)
    ensures Valid(Feedbacks.SubmitFeedbackRequest(s, registrationId, body, env.now, env.uuid1).store)
  {
    if ValidateFeedback(body).Ok? {
      Feedbacks.SubmitFeedbackPreservesValid(s, registrationId, ValidateFeedback(body).value, env.now, env.uuid1);
    }
  }

  /** No request but an event edit can take a limited event past its
      capacity; `EventAdmin.UpdateCanBreakCapacity` shows that the edit can. */
  lemma ApplyKeepsWithinCapacity(s: Store, req: Request, env: Env)
    requires Valid(s) && WithinCapacity(s) && Fresh(s, env.uuid2)
    requires !req.PutEvent?
    ensures WithinCapacity(Apply(s, req, env).store)
  {
    var r := Apply(s, req, env);
    if AdminRoute(req) && CheckAdminToken(req.token, env.adminToken).Ok? {
      match req
      case PostEvent(_, body) =>
        if ValidateEvent(body, env.parseDate).Ok? {
          EventAdmin.CreateEventKeepsWithinCapacity(s, ValidateEvent(body, env.parseDate).value, env.uuid1, env.uuid2);
        }
      case DeleteEvent(_, id) =>
        EventAdmin.CancelEventKeepsWithinCapacity(s, id);
      case PostAttendance(_, _, _) =>
        SameEnrolmentKeepsCapacity(s, r.store);
    } else if req.PostRegister? {
      if ValidateRegistration(req.registration, env.isEmail).Ok? {
        Registrations.RegisterKeepsWithinCapacity(s, req.eventId, ValidateRegistration(req.registration, env.isEmail).value,
                                                  env.now, env.uuid1, env.uuid2);
      }
    } else {
      SameEnrolmentKeepsCapacity(s, r.store);
    }
  }

  /** Capacity only involves the events and the registrations. */
  lemma SameEnrolmentKeepsCapacity(s: Store, s': Store)
    requires WithinCapacity(s)
    requires s'.events == s.events && s'.registrations == s.registrations
    ensures WithinCapacity(s')
  {
    forall i | 0 <= i < |s'.events| && s'.events[i].capacity > 0
      ensures RegisteredCount(s', s'.events[i].id) <= s'.events[i].capacity
    {
      assert RegisteredCount(s', s.events[i].id) == RegisteredCount(s, s.events[i].id);
    }
  }

  /** A refused request leaves the store exactly as it was, given a fresh
      uuid for the student a registration may create. */
  lemma RefusalLeavesStore(s: Store, req: Request, env: Env)
    requires Fresh(s, env.uuid1)
    ensures Apply(s, req, env).failure.Some? ==> Apply(s, req, env).store == s
  {
    if !AdminRoute(req) && req.PostRegister? {
      if ValidateRegistration(req.registration, env.isEmail).Ok? {
        Registrations.RegisterRefusalLeavesStore(s, req.eventId, ValidateRegistration(req.registration, env.isEmail).value,
                                                 env.now, env.uuid1, env.uuid2);
      }
    }
  }

  /** Once an admin has cancelled an event, every well-formed registration
      for it is refused as cancelled, whoever registers and whenever. */
  lemma CancelledEventRefusesRegistration(s: Store, token: Option<string>, id: Id, body: RegistrationBody,
                                          env: Env, env': Env)
    requires Apply(s, DeleteEvent(token, id), env).failure.None?
    requires ValidateRegistration(body, env'.isEmail).Ok?
    ensures var s' := Apply(s, DeleteEvent(token, id), env).store;
      Apply(s', PostRegister(id, body), env').failure == Some(EventCancelled)
  {
    var s' := Apply(s, DeleteEvent(token, id), env).store;
    assert FindEvent(s', id).Some?;
  }
}
