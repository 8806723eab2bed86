/** The request checks that run before the handlers: the shared-secret
    admin token and the three body schemas (event, registration, feedback).
    Each schema is modelled as a decoder from a JSON body to a typed input,
    specified by a well-formedness predicate on the typed input: the decoder
    accepts exactly the bodies that encode a well-formed input. */
module Validators {
  import opened Tables
  import opened Schema

  /** A JSON value as the schemas see it. `JInt` is an integral number;
      `JOther` is anything else (a fractional number, an array, an object). */
  datatype Json = JNull | JBool(b: bool) | JInt(n: int) | JStr(s: string) | JOther

  /** A body field; `None` when the key is absent. */
  type Field = Option<Json>

  /** The built-in token accepted next to the configured one. */
  const DefaultAdminToken := "admin123456"

  const EventKinds := ["Workshop", "Hackathon", "Seminar", "Fest", "Conference", "Competition"]
  const EventStatuses := [StatusScheduled, StatusCancelled, StatusCompleted]

  // ---------------------------------------------------------------------
  // Admin token
  // ---------------------------------------------------------------------

  /** The `x-admin-token` check: an absent or empty header is 401, a header
      equal to neither the configured token nor the built-in one is 403. */
  function CheckAdminToken(header: Option<string>, configured: Option<string>): (r: Result<()>)
    ensures r == Err(MissingToken) <==> header.None? || header.value == ""
    ensures r == Err(InvalidToken) <==>
      header.Some? && header.value != "" && configured != Some(header.value) && header.value != DefaultAdminToken
    ensures r.Ok? <==>
      header.Some? && header.value != "" && (configured == Some(header.value) || header.value == DefaultAdminToken)
  {
    if header.None? || header.value == "" then Err(MissingToken)
    else if Some(header.value) != configured && header.value != DefaultAdminToken then Err(InvalidToken)
    else Ok(())
  }

  // ---------------------------------------------------------------------
  // Field rules
  // ---------------------------------------------------------------------

  /** `Joi.string()` on a present value: Joi refuses the empty string
      unless told otherwise. */
  predicate NonEmptyString(j: Json)
  {
    j.JStr? && j.s != ""
  }

  /** `Joi.string().min(lo).max(hi)` on a present value. */
  predicate StringRule(j: Json, lo: nat, hi: nat)
  {
    NonEmptyString(j) && lo <= |j.s| <= hi
  }

  predicate OptionalString(f: Field, lo: nat, hi: nat)
  {
    f.None? || StringRule(f.value, lo, hi)
  }

  predicate RequiredString(f: Field, lo: nat, hi: nat)
  {
    f.Some? && StringRule(f.value, lo, hi)
  }

  /** `Joi.string().valid(...)`: one of the listed strings. */
  predicate OneOf(j: Json, allowed: seq<string>)
  {
    j.JStr? && j.s in allowed
  }

  /** `Joi.date()`: a number is a millisecond timestamp, a string goes
      through the date parser. */
  function DateValue(j: Json, parseDate: string -> Option<Time>): Option<Time>
  {
    match j
    case JInt(n) => Some(n)
    case JStr(s) => parseDate(s)
    case _ => None
  }

  /** The characters of the class `[0-9+\-\s()]`; `\s` is JavaScript's
      white-space class. */
  predicate IsPhoneChar(c: char)
  {
    ('0' <= c <= '9') || c == '+' || c == '-' || c == '(' || c == ')' || IsJsSpace(c)
  }

  predicate IsJsSpace(c: char)
  {
    c == ' ' || c == '\t' || c == '\n' || c == '\U{000B}' || c == '\U{000C}' || c == '\r'
    || c == '\U{00A0}' || c == '\U{1680}' || ('\U{2000}' <= c <= '\U{200A}')
    || c == '\U{2028}' || c == '\U{2029}' || c == '\U{202F}' || c == '\U{205F}'
    || c == '\U{3000}' || c == '\U{FEFF}'
  }

  /** `/^[0-9+\-\s()]{10,15}$/` */
  predicate PhonePattern(p: string)
  {
    10 <= |p| <= 15 && forall i | 0 <= i < |p| :: IsPhoneChar(p[i])
  }

  /** A present optional string field as the handler receives it. */
  function Text(f: Field): Option<string>
  {
    if f.Some? && f.value.JStr? then Some(f.value.s) else None
  }

  /** A body field carries exactly the optional string `v`. */
  predicate EncodesText(f: Field, v: Option<string>)
  {
    match v
    case None => f.None?
    case Some(x) => f == Some(JStr(x))
  }

  // ---------------------------------------------------------------------
  // Event schema
  // ---------------------------------------------------------------------

  datatype EventBody = EventBody(
    collegeName: Field, title: Field, kind: Field, description: Field,
    startTime: Field, endTime: Field, capacity: Field, status: Field)

  /** The validated event body, dates converted. */
  datatype EventInput = EventInput(
    collegeName: string, title: string, kind: string, description: Option<string>,
    startTime: Time, endTime: Time, capacity: Option<int>, status: Option<string>)

  /** What the event schema promises about an accepted event. `date().min`
      is inclusive, so an event may end when it starts. */
  predicate WellFormedEvent(e: EventInput)
  {
    && 2 <= |e.collegeName| <= 255
    && 3 <= |e.title| <= 200
    && e.kind in EventKinds
    && (e.description.Some? ==> 1 <= |e.description.value| <= 1000)
    && e.startTime <= e.endTime
    && (e.capacity.Some? ==> 1 <= e.capacity.value <= 1000)
    && (e.status.Some? ==> e.status.value in EventStatuses)
  }

  predicate EncodesEvent(b: EventBody, e: EventInput, parseDate: string -> Option<Time>)
  {
    && b.collegeName == Some(JStr(e.collegeName))
    && b.title == Some(JStr(e.title))
    && b.kind == Some(JStr(e.kind))
    && EncodesText(b.description, e.description)
    && b.startTime.Some? && DateValue(b.startTime.value, parseDate) == Some(e.startTime)
    && b.endTime.Some? && DateValue(b.endTime.value, parseDate) == Some(e.endTime)
    && (match e.capacity
        case None => b.capacity.None?
        case Some(c) => b.capacity == Some(JInt(c)))
    && EncodesText(b.status, e.status)
  }

  predicate EventRulesHold(b: EventBody, parseDate: string -> Option<Time>)
  {
    && RequiredString(b.collegeName, 2, 255)
    && RequiredString(b.title, 3, 200)
    && b.kind.Some? && OneOf(b.kind.value, EventKinds)
    && OptionalString(b.description, 0, 1000)
    && b.startTime.Some? && DateValue(b.startTime.value, parseDate).Some?
    && b.endTime.Some? && DateValue(b.endTime.value, parseDate).Some?
    && DateValue(b.startTime.value, parseDate).value <= DateValue(b.endTime.value, parseDate).value
    && (b.capacity.None? || (b.capacity.value.JInt? && 1 <= b.capacity.value.n <= 1000))
    && (b.status.None? || OneOf(b.status.value, EventStatuses))
  }

  /** `validateEvent`: accepts exactly the bodies that encode a well-formed event. */
  function ValidateEvent(b: EventBody, parseDate: string -> Option<Time>): (r: Result<EventInput>)
    ensures r.Ok? ==> WellFormedEvent(r.value) && EncodesEvent(b, r.value, parseDate)
    ensures r.Err? ==> r.failure == ValidationFailed
    ensures r.Err? ==> forall e :: EncodesEvent(b, e, parseDate) ==> !WellFormedEvent(e)
  {
    if EventRulesHold(b, parseDate) then
      Ok(EventInput(
        b.collegeName.value.s, b.title.value.s, b.kind.value.s, Text(b.description),
        DateValue(b.startTime.value, parseDate).value, DateValue(b.endTime.value, parseDate).value,
        if b.capacity.Some? then Some(b.capacity.value.n) else None,
        Text(b.status)))
    else Err(ValidationFailed)
  }

  // ---------------------------------------------------------------------
  // Registration schema
  // ---------------------------------------------------------------------

  datatype RegistrationBody = RegistrationBody(
    studentId: Field, rollNo: Field, name: Field, email: Field, phone: Field)

  datatype RegistrationInput = RegistrationInput(
    studentId: Option<string>, rollNo: Option<string>, name: Option<string>,
    email: Option<string>, phone: Option<string>)

  /** The `when` condition `Joi.exist().valid(null, '', 'new')` on `student_id`. */
  predicate MarksNewStudent(f: Field)
  {
    f == Some(JNull) || f == Some(JStr("")) || f == Some(JStr("new"))
  }

  /** What the registration schema promises: a new-student registration
      names the student and gives an email; every present field is
      non-empty and within its bounds. */
  predicate WellFormedRegistration(r: RegistrationInput, isEmail: string -> bool)
  {
    && (r.studentId.Some? ==> r.studentId.value != "")
    && (r.rollNo.Some? ==> 1 <= |r.rollNo.value| <= 50)
    && (r.name.Some? ==> 2 <= |r.name.value| <= 100)
    && (r.email.Some? ==> r.email.value != "" && isEmail(r.email.value))
    && (r.phone.Some? ==> PhonePattern(r.phone.value))
    && (r.studentId == Some("new") ==> r.name.Some? && r.email.Some?)
  }

  predicate EncodesRegistration(b: RegistrationBody, r: RegistrationInput)
  {
    && EncodesText(b.studentId, r.studentId)
    && EncodesText(b.rollNo, r.rollNo)
    && EncodesText(b.name, r.name)
    && EncodesText(b.email, r.email)
    && EncodesText(b.phone, r.phone)
  }

  predicate RegistrationRulesHold(b: RegistrationBody, isEmail: string -> bool)
  {
    var required := MarksNewStudent(b.studentId);
    && (b.studentId.None? || NonEmptyString(b.studentId.value))
    && OptionalString(b.rollNo, 0, 50)
    && (if required then RequiredString(b.name, 2, 100) else OptionalString(b.name, 2, 100))
    && (required ==> b.email.Some?)
    && (b.email.None? || (NonEmptyString(b.email.value) && isEmail(b.email.value.s)))
    && (b.phone.None? || (NonEmptyString(b.phone.value) && PhonePattern(b.phone.value.s)))
  }

  /** `validateRegistration`: accepts exactly the bodies that encode a
      well-formed registration. */
  function ValidateRegistration(b: RegistrationBody, isEmail: string -> bool): (r: Result<RegistrationInput>)
    ensures r.Ok? ==> WellFormedRegistration(r.value, isEmail) && EncodesRegistration(b, r.value)
    ensures r.Err? ==> r.failure == ValidationFailed
    ensures r.Err? ==> forall i :: EncodesRegistration(b, i) ==> !WellFormedRegistration(i, isEmail)
  {
    if RegistrationRulesHold(b, isEmail) then
      Ok(RegistrationInput(Text(b.studentId), Text(b.rollNo), Text(b.name), Text(b.email), Text(b.phone)))
    else Err(ValidationFailed)
  }

  // ---------------------------------------------------------------------
  // Feedback schema
  // ---------------------------------------------------------------------

  datatype FeedbackBody = FeedbackBody(rating: Field, comment: Field)

  datatype FeedbackInput = FeedbackInput(rating: int, comment: Option<string>)

  /** A whole-number rating from 1 to 5 and a comment of at most 500 characters. */
  predicate WellFormedFeedback(f: FeedbackInput)
  {
    1 <= f.rating <= 5 && (f.comment.Some? ==> 1 <= |f.comment.value| <= 500)
  }

  predicate EncodesFeedback(b: FeedbackBody, f: FeedbackInput)
  {
    b.rating == Some(JInt(f.rating)) && EncodesText(b.comment, f.comment)
  }

  /** `validateFeedback`: accepts exactly the bodies that encode a
      well-formed feedback. */
  function ValidateFeedback(b: FeedbackBody): (r: Result<FeedbackInput>)
    ensures r.Ok? ==> WellFormedFeedback(r.value) && EncodesFeedback(b, r.value)
    ensures r.Err? ==> r.failure == ValidationFailed
    ensures r.Err? ==> forall f :: EncodesFeedback(b, f) ==> !WellFormedFeedback(f)
  {
    if b.rating.Some? && b.rating.value.JInt? && 1 <= b.rating.value.n <= 5 && OptionalString(b.comment, 0, 500) then
      Ok(FeedbackInput(b.rating.value.n, Text(b.comment)))
    else Err(ValidationFailed)
  }

  // ---------------------------------------------------------------------
  // Boundaries the schemas promise
  // ---------------------------------------------------------------------

  /** Ratings 0 and 6 are refused, 1 and 5 accepted, whatever the comment. */
  lemma RatingBoundaries(comment: Field)
    requires OptionalString(comment, 0, 500)
    ensures ValidateFeedback(FeedbackBody(Some(JInt(0)), comment)).Err?
    ensures ValidateFeedback(FeedbackBody(Some(JInt(6)), comment)).Err?
    ensures ValidateFeedback(FeedbackBody(Some(JInt(1)), comment)).Ok?
    ensures ValidateFeedback(FeedbackBody(Some(JInt(5)), comment)).Ok?
  {
  }
}
