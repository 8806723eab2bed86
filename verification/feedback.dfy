/** Feedback: exactly-once submission per registration
    (`POST /registrations/:id/feedback`) and the status lookup
    (`GET /registrations/:id/feedback-status`). */
module Feedbacks {
  import opened Tables
  import opened Schema
  import opened Validators

  /** `comment || null`: an empty or absent comment is stored as null. */
  function StoredComment(comment: Option<string>): (c: Option<string>)
    ensures c.Some? <==> comment.Some? && comment.value != ""
    ensures c.Some? ==> c == comment
  {
    if comment.Some? && comment.value != "" then comment else None
  }

  /** Submits a validated feedback: 404 for an unknown registration, 409
      with the stored row when one exists, otherwise one new row. Neither
      the registration's status nor its attendance is consulted. */
  function SubmitFeedback(s: Store, registrationId: Id, inp: FeedbackInput, now: Time, feedbackId: Id)
    : (st: Step<Feedback>)
    ensures st.result == Err(NotFound) <==> FindRegistration(s, registrationId).None?
    ensures st.result.Err? ==> st.store == s
    ensures st.result.Err? && st.result.failure.FeedbackExists? ==>
      && FindFeedback(s, registrationId) == Some(st.result.failure.feedback)
      && st.result.failure.feedback in s.feedback
    ensures st.result.Err? ==> st.result.failure == NotFound || st.result.failure.FeedbackExists?
    ensures st.result.Ok? ==>
      && FindFeedback(s, registrationId).None?
      && st.result.value == Feedback(feedbackId, registrationId, inp.rating, StoredComment(inp.comment), now)
      && st.store == s.(feedback := s.feedback + [st.result.value])
      && FindFeedback(st.store, registrationId) == Some(st.result.value)
  {
    match FindRegistration(s, registrationId)
    case None => Step(s, Err(NotFound))
    case Some(_) =>
      match FindFeedback(s, registrationId)
      case Some(existing) => Step(s, Err(FeedbackExists(existing)))
      case None =>
        var f := Feedback(feedbackId, registrationId, inp.rating, StoredComment(inp.comment), now);
        FirstAppend(s.feedback, f, FeedbackOf(registrationId));
        Step(s.(feedback := s.feedback + [f]), Ok(f))
  }

  /** `validateFeedback` followed by the handler. */
  function SubmitFeedbackRequest(s: Store, registrationId: Id, body: FeedbackBody, now: Time, feedbackId: Id)
    : (st: Step<Feedback>)
    ensures ValidateFeedback(body).Err? ==> st == Step(s, Err(ValidationFailed))
    ensures ValidateFeedback(body).Ok? ==> st == SubmitFeedback(s, registrationId, ValidateFeedback(body).value, now, feedbackId)
    ensures st.result.Ok? ==> 1 <= st.result.value.rating <= 5 && body.rating == Some(JInt(st.result.value.rating))
  {
    match ValidateFeedback(body)
    case Err(f) => Step(s, Err(f))
    case Ok(inp) => SubmitFeedback(s, registrationId, inp, now, feedbackId)
  }

  /** Whether a registration has feedback, and the row when it does. The
      registration itself is not looked up. */
  datatype FeedbackStatus = FeedbackStatus(hasFeedback: bool, feedback: Option<Feedback>)

  function FeedbackStatusOf(s: Store, registrationId: Id): (r: FeedbackStatus)
    ensures r.hasFeedback <==> r.feedback.Some?
    ensures r.hasFeedback <==> exists i | 0 <= i < |s.feedback| :: s.feedback[i].registrationId == registrationId
    ensures r.feedback.Some? ==> r.feedback.value in s.feedback && r.feedback.value.registrationId == registrationId
  {
    var f := FindFeedback(s, registrationId);
    FeedbackStatus(f.Some?, f)
  }

  // ---------------------------------------------------------------------
  // Properties
  // ---------------------------------------------------------------------

  /** A second submission for a registration is refused with the first
      one's row, and the store keeps only the first. */
  lemma SubmitTwice(s: Store, registrationId: Id, first: FeedbackInput, second: FeedbackInput,
                    now1: Time, now2: Time, id1: Id, id2: Id)
    requires SubmitFeedback(s, registrationId, first, now1, id1).result.Ok?
    ensures var st1 := SubmitFeedback(s, registrationId, first, now1, id1);
      var st2 := SubmitFeedback(st1.store, registrationId, second, now2, id2);
      && st2.store == st1.store
      && st2.result == Err(FeedbackExists(st1.result.value))
  {
    var st1 := SubmitFeedback(s, registrationId, first, now1, id1);
    assert FindRegistration(st1.store, registrationId) == FindRegistration(s, registrationId);
  }

  /** Once submitted, the status lookup reports the submitted row. */
  lemma SubmittedIsReported(s: Store, registrationId: Id, inp: FeedbackInput, now: Time, feedbackId: Id)
    requires SubmitFeedback(s, registrationId, inp, now, feedbackId).result.Ok?
    ensures var st := SubmitFeedback(s, registrationId, inp, now, feedbackId);
      FeedbackStatusOf(st.store, registrationId) == FeedbackStatus(true, Some(st.result.value))
  {
  }

  /** Feedback is stored at most once per registration: with a valid
      store, a registration's feedback rows number at most one before and
      after any submission. */
  lemma {:induction false} AtMostOneFeedback(s: Store, registrationId: Id, inp: FeedbackInput, now: Time, feedbackId: Id)
    requires Valid(s) && Fresh(s, feedbackId) && WellFormedFeedback(inp)
    ensures var st := SubmitFeedback(s, registrationId, inp, now, feedbackId);
      Count(st.store.feedback, FeedbackOf(registrationId)) <= 1
  {
    SubmitFeedbackPreservesValid(s, registrationId, inp, now, feedbackId);
    var st := SubmitFeedback(s, registrationId, inp, now, feedbackId);
    CountAtMostOneUnique(st.store.feedback, FeedbackRegistration, registrationId, FeedbackOf(registrationId));
  }

  lemma SubmitFeedbackPreservesValid(s: Store, registrationId: Id, inp: FeedbackInput, now: Time, feedbackId: Id)
    requires Valid(s) && Fresh(s, feedbackId) && WellFormedFeedback(inp)
    ensures Valid(SubmitFeedback(s, registrationId, inp, now, feedbackId).store)
  {
    var st := SubmitFeedback(s, registrationId, inp, now, feedbackId);
    if st.result.Ok? {
      var r := FindRegistration(s, registrationId).value;
      assert r.id in RegistrationIds(s.registrations);
      AddFeedbackKeepsValid(s, st.result.value);
    }
  }
}
