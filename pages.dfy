/** The two workflow actions of the pages of `app.py`: shortlisting a match
    on the Match Review page, and scheduling an interview there or on the
    Interview Scheduling page. Each action is a function from the matches
    table, the match the page shows and the user's input to the new table and
    the message the page shows; the methods carry them out on a store.

    Both scheduling forms call `scheduler.generate_interview_email`, which
    the `InterviewScheduler` class does not have: the function of that name
    is defined at module level. The forms as written are modelled by
    `ReviewScheduleAsWritten` and `PlannerScheduleAsWritten`; the rest of the
    model calls the module-level function instead. */
module Pages {
  import opened Wrappers
  import opened Json
  import opened EmailSender
  import opened Database
  import opened Helpers
  import opened Agents

  /** The message a page shows after an action. `Raised` is an exception the
      page does not catch, with its message. */
  datatype Notice =
    | NoNotice
    | Succeeded(text: string)
    | Warned(text: string)
    | Failed(text: string)
    | Raised(error: string)

  /** The scheduling form: whether it was submitted, and the date and time
      inputs (None for an empty input). */
  datatype ScheduleForm = ScheduleForm(submitted: bool, date: Option<string>, time: Option<string>)

  const ShortlistedNow: string := "Candidate shortlisted!"
  const AlreadyShortlisted: string := "This candidate has been shortlisted!"
  const MissingDateTime: string := "Please select both date and time"
  /** The message of the `AttributeError` raised by `scheduler.generate_interview_email`. */
  const NoEmailMethod: string := "'InterviewScheduler' object has no attribute 'generate_interview_email'"
  const ScheduleFailedPrefix: string := "Failed to schedule interview: "
  const ReviewSent: string := "Interview scheduled and email sent successfully!"
  const ReviewNotSentPrefix: string := "Interview scheduled but email failed: "
  const PlannerSent: string := "Interview scheduled and invitation sent!"
  const PlannerNotSentPrefix: string := "Failed to send email: "
  const UnknownError: string := "Unknown error"
  /** The message of the `AttributeError` raised by `None.get(...)`. */
  const NoneHasNoGet: string := "'NoneType' object has no attribute 'get'"

  /** `email_result.get('error', 'Unknown error')`. */
  function ErrorText(r: EmailResult): string
  {
    if r.error.Some? then r.error.value else UnknownError
  }

  /** `f"Interview scheduled for {interview_datetime}. Email sent: {subject}"`,
      where `subject` is the text Python gives the subject value. */
  function ReviewFeedback(dt: string, subject: string): string
  {
    "Interview scheduled for " + dt + ". Email sent: " + subject
  }

  /** `f"Interview scheduled for {interview_datetime}. Email sent to candidate."`. */
  function PlannerFeedback(dt: string): string
  {
    "Interview scheduled for " + dt + ". Email sent to candidate."
  }

  /** The row of `ms` with the id of `m` is `m` itself. */
  predicate RowIs(ms: seq<Match>, m: Match)
  {
    forall i :: 0 <= i < |ms| && ms[i].id == m.id ==> ms[i] == m
  }

  /** Ids tell the rows of a table with ascending ids apart. */
  lemma RowOfListedMatch(ms: seq<Match>, m: Match)
    requires MatchesAscending(ms) && m in ms
    ensures RowIs(ms, m)
  {
    var k :| 0 <= k < |ms| && ms[k] == m;
    assert forall i :: 0 <= i < |ms| && i != k ==> ms[i].id != ms[k].id;
  }

  // ---------------------------------------------------------------- shortlist

  /** The shortlist action of the Match Review page (app.py:443-449): the button
      is offered only for a match not yet shortlisted, and pressing it sets the
      flag. */
  function ShortlistOutcome(ms: seq<Match>, selected: Match, pressed: bool): (r: (seq<Match>, Notice))
  {
    if !OffersShortlist(selected) then (ms, Succeeded(AlreadyShortlisted))
    else if pressed then (WithShortlist(ms, selected.id, true), Succeeded(ShortlistedNow))
    else (ms, NoNotice)
  }

  /** Shortlisting changes the table only through an offered, pressed button,
      then only the flag of the shown match, and keeps both workflow
      invariants. */
  lemma ShortlistKeepsWorkflow(ms: seq<Match>, selected: Match, pressed: bool)
    ensures var r := ShortlistOutcome(ms, selected, pressed);
      r.0 != ms ==> OffersShortlist(selected) && pressed && r.0 == WithShortlist(ms, selected.id, true)
    ensures var r := ShortlistOutcome(ms, selected, pressed);
      r.1 == Succeeded(ShortlistedNow) <==> OffersShortlist(selected) && pressed
    ensures var r := ShortlistOutcome(ms, selected, pressed);
      ScheduledOnlyIfShortlisted(ms) ==> ScheduledOnlyIfShortlisted(r.0)
    ensures var r := ShortlistOutcome(ms, selected, pressed);
      DatesMatchSchedule(ms) ==> DatesMatchSchedule(r.0)
  {
    assert ShortlistedNow[0] != AlreadyShortlisted[0];
    UpdatesKeepWorkflow(ms, selected.id, "");
  }

  // ------------------------------------------------------ review page schedule

  /** The scheduling form of the Match Review page (app.py:450-513), as written:
      it is shown only for a shortlisted, unscheduled match; on submit the
      schedule is stored, and then the call on the scheduler raises, which the
      form's `except` turns into an error message. */
  function ReviewScheduleAsWritten(ms: seq<Match>, selected: Match, form: ScheduleForm): (r: (seq<Match>, Notice))
  {
    if !OffersScheduling(selected) || !form.submitted then (ms, NoNotice)
    else if form.date.None? || form.time.None? then (ms, Failed(MissingDateTime))
    else
      var dt := InterviewDateTime(form.date.value, form.time.value);
      (WithInterview(ms, selected.id, dt), Failed(ScheduleFailedPrefix + NoEmailMethod))
  }

  /** The same form with the module-level `generate_interview_email` called:
      the schedule is stored first; on success the page records the
      invitation as the match's feedback, otherwise it warns that the email
      failed. `show` is the text Python gives a JSON value. */
  function ReviewSchedule(ms: seq<Match>, selected: Match, form: ScheduleForm, reply: ModelReply,
                          candidateEmail: Option<string>, delivered: SendRequest -> bool, show: Value -> string): (r: (seq<Match>, Notice))
  {
    if !OffersScheduling(selected) || !form.submitted then (ms, NoNotice)
    else if form.date.None? || form.time.None? then (ms, Failed(MissingDateTime))
    else
      var dt := InterviewDateTime(form.date.value, form.time.value);
      var scheduled := WithInterview(ms, selected.id, dt);
      var email := GenerateInterviewEmail(reply, candidateEmail, delivered);
      if email.success then
        (WithFeedback(scheduled, selected.id, ReviewFeedback(dt, show(reply.value.fields["subject"]))), Succeeded(ReviewSent))
      else (scheduled, Warned(ReviewNotSentPrefix + ErrorText(email)))
  }

  /** For a listed match the form as written keeps both workflow invariants:
      the schedule it stores is that of a shortlisted match. */
  lemma ReviewAsWrittenKeepsWorkflow(ms: seq<Match>, selected: Match, form: ScheduleForm)
    requires MatchesAscending(ms) && selected in ms
    ensures var r := ReviewScheduleAsWritten(ms, selected, form);
      ScheduledOnlyIfShortlisted(ms) ==> ScheduledOnlyIfShortlisted(r.0)
    ensures var r := ReviewScheduleAsWritten(ms, selected, form);
      DatesMatchSchedule(ms) ==> DatesMatchSchedule(r.0)
  {
    if OffersScheduling(selected) && form.submitted && form.date.Some? && form.time.Some? {
      var dt := InterviewDateTime(form.date.value, form.time.value);
      RowOfListedMatch(ms, selected);
      if ScheduledOnlyIfShortlisted(ms) {
        ScheduleShortlistedKeepsWorkflow(ms, selected.id, dt);
      }
      UpdatesKeepWorkflow(ms, selected.id, dt);
    }
  }

  /** As written, a submitted form with both inputs stores the schedule and
      never records an invitation: the only message is the error. */
  lemma ReviewAsWrittenNeverInvites(ms: seq<Match>, selected: Match, form: ScheduleForm)
    requires OffersScheduling(selected) && form.submitted && form.date.Some? && form.time.Some?
    ensures var r := ReviewScheduleAsWritten(ms, selected, form);
      && r.0 == WithInterview(ms, selected.id, InterviewDateTime(form.date.value, form.time.value))
      && r.1 == Failed(ScheduleFailedPrefix + NoEmailMethod)
      && forall i :: 0 <= i < |ms| ==> r.0[i].feedback == ms[i].feedback
  {
  }

  /** The two versions differ exactly in what happens after the schedule is
      stored: for a valid reply, a recipient and a delivered send, the
      corrected form records the invitation where the form as written fails. */
  lemma ReviewInvitationLost(ms: seq<Match>, selected: Match, form: ScheduleForm, reply: ModelReply,
                             candidateEmail: Option<string>, delivered: SendRequest -> bool, show: Value -> string)
    requires OffersScheduling(selected) && form.submitted && form.date.Some? && form.time.Some?
    requires reply.Decoded? && ValidContent(reply.value) && HasRecipient(candidateEmail)
    requires InvitationRequest(candidateEmail.value, reply.value.fields).body.JString?
    requires delivered(InvitationRequest(candidateEmail.value, reply.value.fields))
    ensures ReviewSchedule(ms, selected, form, reply, candidateEmail, delivered, show).1 == Succeeded(ReviewSent)
    ensures ReviewScheduleAsWritten(ms, selected, form).1.Failed?
  {
  }

  /** Whatever the email outcome, the corrected form stores the schedule of
      the shown match once it is submitted with both inputs. It changes the
      feedback only when the email step succeeds, and then records the
      invitation; a failure is shown as a warning with the email error. It
      changes no other row, and nothing when the form is not offered or not
      submitted. */
  lemma ReviewScheduleFirst(ms: seq<Match>, selected: Match, form: ScheduleForm, reply: ModelReply,
                            candidateEmail: Option<string>, delivered: SendRequest -> bool, show: Value -> string)
    ensures var r := ReviewSchedule(ms, selected, form, reply, candidateEmail, delivered, show);
      !OffersScheduling(selected) || !form.submitted || form.date.None? || form.time.None? ==> r.0 == ms
    ensures var r := ReviewSchedule(ms, selected, form, reply, candidateEmail, delivered, show);
      |r.0| == |ms| && forall i :: 0 <= i < |ms| && ms[i].id != selected.id ==> r.0[i] == ms[i]
    ensures var r := ReviewSchedule(ms, selected, form, reply, candidateEmail, delivered, show);
      OffersScheduling(selected) && form.submitted && form.date.Some? && form.time.Some? ==>
        forall i :: 0 <= i < |ms| && ms[i].id == selected.id ==>
          && r.0[i].interviewScheduled
          && r.0[i].interviewDate == Some(InterviewDateTime(form.date.value, form.time.value))
          && (r.0[i].feedback != ms[i].feedback ==> GenerateInterviewEmail(reply, candidateEmail, delivered).success)
          && (GenerateInterviewEmail(reply, candidateEmail, delivered).success <==> r.1 == Succeeded(ReviewSent))
    // On success the invitation is recorded as the match's feedback; on a
    // failure the page warns with the email error.
    ensures var email := GenerateInterviewEmail(reply, candidateEmail, delivered);
      var r := ReviewSchedule(ms, selected, form, reply, candidateEmail, delivered, show);
      OffersScheduling(selected) && form.submitted && form.date.Some? && form.time.Some? ==>
        && (email.success ==>
              && reply.Decoded? && ValidContent(reply.value)
              && forall i :: 0 <= i < |ms| && ms[i].id == selected.id ==>
                   r.0[i].feedback == Some(ReviewFeedback(InterviewDateTime(form.date.value, form.time.value), show(reply.value.fields["subject"]))))
        && (!email.success ==> r.1 == Warned(ReviewNotSentPrefix + ErrorText(email)))
  {
  }

  /** Offered only for a shortlisted, unscheduled match, the form keeps both
      workflow invariants of the table the match was listed from. */
  lemma ReviewKeepsWorkflow(ms: seq<Match>, selected: Match, form: ScheduleForm, reply: ModelReply,
                            candidateEmail: Option<string>, delivered: SendRequest -> bool, show: Value -> string)
    requires MatchesAscending(ms) && selected in ms
    ensures var r := ReviewSchedule(ms, selected, form, reply, candidateEmail, delivered, show);
      ScheduledOnlyIfShortlisted(ms) ==> ScheduledOnlyIfShortlisted(r.0)
    ensures var r := ReviewSchedule(ms, selected, form, reply, candidateEmail, delivered, show);
      DatesMatchSchedule(ms) ==> DatesMatchSchedule(r.0)
  {
    if OffersScheduling(selected) && form.submitted && form.date.Some? && form.time.Some? {
      var dt := InterviewDateTime(form.date.value, form.time.value);
      RowOfListedMatch(ms, selected);
      if ScheduledOnlyIfShortlisted(ms) {
        ScheduleShortlistedKeepsWorkflow(ms, selected.id, dt);
      }
      UpdatesKeepWorkflow(WithInterview(ms, selected.id, dt), selected.id, "");
      UpdatesKeepWorkflow(ms, selected.id, dt);
      var text := if reply.Decoded? && ValidContent(reply.value) then ReviewFeedback(dt, show(reply.value.fields["subject"])) else "";
      UpdatesKeepWorkflow(WithInterview(ms, selected.id, dt), selected.id, text);
    }
  }

  // ------------------------------------------------- scheduling page schedule

  /** The form of the Interview Scheduling page (app.py:523-619), as written:
      the page offers it for a shortlisted match not yet scheduled (the list
      holds only shortlisted matches, and the button only unscheduled ones); on
      submit the schedule is stored, and the call on the scheduler then raises
      an exception the page does not catch. */
  function PlannerScheduleAsWritten(ms: seq<Match>, selected: Match, submitted: bool, date: string, time: string): (r: (seq<Match>, Notice))
  {
    if !OffersScheduling(selected) || !submitted then (ms, NoNotice)
    else (WithInterview(ms, selected.id, InterviewDateTime(date, time)), Raised(NoEmailMethod))
  }

  /** The same form with the module-level `generate_interview_email` called:
      on success the page records the invitation as the match's feedback.
      Otherwise it shows that the email failed and then shows the content that
      was not sent, with `email_result.get('email_content', {}).get('body', ...)`;
      the key is always present, holding None when no content was kept, and
      `None.get` raises an exception the page does not catch. */
  function PlannerSchedule(ms: seq<Match>, selected: Match, submitted: bool, date: string, time: string, reply: ModelReply,
                           candidateEmail: Option<string>, delivered: SendRequest -> bool): (r: (seq<Match>, Notice))
  {
    if !OffersScheduling(selected) || !submitted then (ms, NoNotice)
    else
      var dt := InterviewDateTime(date, time);
      var scheduled := WithInterview(ms, selected.id, dt);
      var email := GenerateInterviewEmail(reply, candidateEmail, delivered);
      if email.success then (WithFeedback(scheduled, selected.id, PlannerFeedback(dt)), Succeeded(PlannerSent))
      else if email.emailContent.None? then (scheduled, Raised(NoneHasNoGet))
      else (scheduled, Failed(PlannerNotSentPrefix + ErrorText(email)))
  }

  /** The planner form with the unsent-content display also guarded, so that a
      failure without content shows the error as a failure with content does. */
  function PlannerScheduleReported(ms: seq<Match>, selected: Match, submitted: bool, date: string, time: string, reply: ModelReply,
                                   candidateEmail: Option<string>, delivered: SendRequest -> bool): (r: (seq<Match>, Notice))
  {
    if !OffersScheduling(selected) || !submitted then (ms, NoNotice)
    else
      var dt := InterviewDateTime(date, time);
      var scheduled := WithInterview(ms, selected.id, dt);
      var email := GenerateInterviewEmail(reply, candidateEmail, delivered);
      if email.success then (WithFeedback(scheduled, selected.id, PlannerFeedback(dt)), Succeeded(PlannerSent))
      else (scheduled, Failed(PlannerNotSentPrefix + ErrorText(email)))
  }

  /** Every failure before the transport's verdict (a raised call, an
      undecodable reply, an invalid structure, a body that is not a string)
      ends the planner form in the uncaught `None.get` error; only a refused
      send is reported. */
  lemma PlannerLostContentRaises(ms: seq<Match>, selected: Match, date: string, time: string, reply: ModelReply,
                                 candidateEmail: Option<string>, delivered: SendRequest -> bool)
    requires OffersScheduling(selected)
    ensures var email := GenerateInterviewEmail(reply, candidateEmail, delivered);
      var r := PlannerSchedule(ms, selected, true, date, time, reply, candidateEmail, delivered);
      && (r.1 == Raised(NoneHasNoGet) <==> !email.success && email.emailContent.None?)
      && (r.1.Failed? <==> !email.success && email.emailContent.Some?)
    ensures reply.CallRaised? || reply.Undecodable? || (reply.Decoded? && !ValidContent(reply.value)) ==>
      PlannerSchedule(ms, selected, true, date, time, reply, candidateEmail, delivered).1 == Raised(NoneHasNoGet)
  {
  }

  /** The guarded form changes the table exactly as the form as written does,
      reports every email failure with its error text, and raises nothing. */
  lemma PlannerReportedFailures(ms: seq<Match>, selected: Match, submitted: bool, date: string, time: string, reply: ModelReply,
                                candidateEmail: Option<string>, delivered: SendRequest -> bool)
    ensures var r := PlannerScheduleReported(ms, selected, submitted, date, time, reply, candidateEmail, delivered);
      r.0 == PlannerSchedule(ms, selected, submitted, date, time, reply, candidateEmail, delivered).0
    ensures var r := PlannerScheduleReported(ms, selected, submitted, date, time, reply, candidateEmail, delivered);
      !r.1.Raised?
    ensures var email := GenerateInterviewEmail(reply, candidateEmail, delivered);
      var r := PlannerScheduleReported(ms, selected, submitted, date, time, reply, candidateEmail, delivered);
      OffersScheduling(selected) && submitted && !email.success ==> r.1 == Failed(PlannerNotSentPrefix + ErrorText(email))
  {
  }

  /** As written, every submitted form stores the schedule, records nothing
      and ends in the uncaught exception. */
  lemma PlannerAsWrittenNeverInvites(ms: seq<Match>, selected: Match, date: string, time: string)
    requires OffersScheduling(selected)
    ensures var r := PlannerScheduleAsWritten(ms, selected, true, date, time);
      && r.0 == WithInterview(ms, selected.id, InterviewDateTime(date, time))
      && r.1 == Raised(NoEmailMethod)
      && forall i :: 0 <= i < |ms| ==> r.0[i].feedback == ms[i].feedback
  {
  }

  /** For a listed match the planner form as written keeps both workflow
      invariants. */
  lemma PlannerAsWrittenKeepsWorkflow(ms: seq<Match>, selected: Match, submitted: bool, date: string, time: string)
    requires MatchesAscending(ms) && selected in ms
    ensures var r := PlannerScheduleAsWritten(ms, selected, submitted, date, time);
      ScheduledOnlyIfShortlisted(ms) ==> ScheduledOnlyIfShortlisted(r.0)
    ensures var r := PlannerScheduleAsWritten(ms, selected, submitted, date, time);
      DatesMatchSchedule(ms) ==> DatesMatchSchedule(r.0)
  {
    if OffersScheduling(selected) && submitted {
      var dt := InterviewDateTime(date, time);
      RowOfListedMatch(ms, selected);
      if ScheduledOnlyIfShortlisted(ms) {
        ScheduleShortlistedKeepsWorkflow(ms, selected.id, dt);
      }
      UpdatesKeepWorkflow(ms, selected.id, dt);
    }
  }

  /** For a valid reply, a recipient and a delivered send, the corrected form
      records the invitation where the form as written raises. */
  lemma PlannerInvitationLost(ms: seq<Match>, selected: Match, date: string, time: string, reply: ModelReply,
                              candidateEmail: Option<string>, delivered: SendRequest -> bool)
    requires OffersScheduling(selected)
    requires reply.Decoded? && ValidContent(reply.value) && HasRecipient(candidateEmail)
    requires InvitationRequest(candidateEmail.value, reply.value.fields).body.JString?
    requires delivered(InvitationRequest(candidateEmail.value, reply.value.fields))
    ensures var r := PlannerSchedule(ms, selected, true, date, time, reply, candidateEmail, delivered);
      r.1 == Succeeded(PlannerSent) &&
      forall i :: 0 <= i < |ms| && ms[i].id == selected.id ==> r.0[i].feedback == Some(PlannerFeedback(InterviewDateTime(date, time)))
    ensures PlannerScheduleAsWritten(ms, selected, true, date, time).1.Raised?
  {
  }

  /** Whatever the email outcome, the corrected form stores the schedule once
      it is submitted; it records feedback exactly when the email step
      succeeds and leaves it as it was otherwise; and it changes no other
      row. */
  lemma PlannerScheduleFirst(ms: seq<Match>, selected: Match, submitted: bool, date: string, time: string, reply: ModelReply,
                             candidateEmail: Option<string>, delivered: SendRequest -> bool)
    ensures var r := PlannerSchedule(ms, selected, submitted, date, time, reply, candidateEmail, delivered);
      !OffersScheduling(selected) || !submitted ==> r.0 == ms
    ensures var r := PlannerSchedule(ms, selected, submitted, date, time, reply, candidateEmail, delivered);
      |r.0| == |ms| && forall i :: 0 <= i < |ms| && ms[i].id != selected.id ==> r.0[i] == ms[i]
    ensures var r := PlannerSchedule(ms, selected, submitted, date, time, reply, candidateEmail, delivered);
      OffersScheduling(selected) && submitted ==>
        forall i :: 0 <= i < |ms| && ms[i].id == selected.id ==>
          && r.0[i].interviewScheduled
          && r.0[i].interviewDate == Some(InterviewDateTime(date, time))
          && (r.0[i].feedback == Some(PlannerFeedback(InterviewDateTime(date, time))) <==>
                GenerateInterviewEmail(reply, candidateEmail, delivered).success || ms[i].feedback == Some(PlannerFeedback(InterviewDateTime(date, time))))
          && (GenerateInterviewEmail(reply, candidateEmail, delivered).success <==> r.1 == Succeeded(PlannerSent))
    // A failed email step records nothing, and a refused send is reported
    // with its error text.
    ensures var email := GenerateInterviewEmail(reply, candidateEmail, delivered);
      var r := PlannerSchedule(ms, selected, submitted, date, time, reply, candidateEmail, delivered);
      OffersScheduling(selected) && submitted && !email.success ==>
        && (forall i :: 0 <= i < |ms| && ms[i].id == selected.id ==> r.0[i].feedback == ms[i].feedback)
        && (email.emailContent.Some? ==> r.1 == Failed(PlannerNotSentPrefix + ErrorText(email)))
  {
  }

  /** Offered only for a shortlisted, unscheduled match, the form keeps both
      workflow invariants of the table the match was listed from. */
  lemma PlannerKeepsWorkflow(ms: seq<Match>, selected: Match, submitted: bool, date: string, time: string, reply: ModelReply,
                             candidateEmail: Option<string>, delivered: SendRequest -> bool)
    requires MatchesAscending(ms) && selected in ms
    ensures var r := PlannerSchedule(ms, selected, submitted, date, time, reply, candidateEmail, delivered);
      ScheduledOnlyIfShortlisted(ms) ==> ScheduledOnlyIfShortlisted(r.0)
    ensures var r := PlannerSchedule(ms, selected, submitted, date, time, reply, candidateEmail, delivered);
      DatesMatchSchedule(ms) ==> DatesMatchSchedule(r.0)
  {
    if OffersScheduling(selected) && submitted {
      var dt := InterviewDateTime(date, time);
      RowOfListedMatch(ms, selected);
      if ScheduledOnlyIfShortlisted(ms) {
        ScheduleShortlistedKeepsWorkflow(ms, selected.id, dt);
      }
      UpdatesKeepWorkflow(ms, selected.id, dt);
      UpdatesKeepWorkflow(WithInterview(ms, selected.id, dt), selected.id, PlannerFeedback(dt));
    }
  }

  // ------------------------------------------------------------------ actions

  /** The shortlist button on a store. */
  method ShortlistCandidate(store: RecordStore, selected: Match, pressed: bool) returns (notice: Notice)
    requires store.Valid()
    modifies store
    ensures store.Valid()
    ensures (store.matches, notice) == ShortlistOutcome(old(store.matches), selected, pressed)
    ensures store.jobs == old(store.jobs) && store.candidates == old(store.candidates) && store.clock == old(store.clock)
    ensures store.nextJobId == old(store.nextJobId) && store.nextCandidateId == old(store.nextCandidateId)
    ensures store.nextMatchId == old(store.nextMatchId)
  {
    if !OffersShortlist(selected) {
      return Succeeded(AlreadyShortlisted);
    }
    if !pressed {
      return NoNotice;
    }
    store.UpdateShortlistStatus(selected.id, true);
    return Succeeded(ShortlistedNow);
  }

  /** The Match Review page's scheduling form on a store, calling the
      module-level `generate_interview_email`. */
  method ScheduleFromReview(store: RecordStore, selected: Match, form: ScheduleForm, reply: ModelReply,
                            candidateEmail: Option<string>, delivered: SendRequest -> bool, show: Value -> string)
    returns (notice: Notice)
    requires store.Valid()
    modifies store
    ensures store.Valid()
    ensures (store.matches, notice) == ReviewSchedule(old(store.matches), selected, form, reply, candidateEmail, delivered, show)
    ensures store.jobs == old(store.jobs) && store.candidates == old(store.candidates) && store.clock == old(store.clock)
    ensures store.nextJobId == old(store.nextJobId) && store.nextCandidateId == old(store.nextCandidateId)
    ensures store.nextMatchId == old(store.nextMatchId)
  {
    if !OffersScheduling(selected) || !form.submitted {
      return NoNotice;
    }
    if form.date.None? || form.time.None? {
      return Failed(MissingDateTime);
    }
    var dt := InterviewDateTime(form.date.value, form.time.value);
    store.ScheduleInterview(selected.id, dt);
    var email := GenerateInterviewEmail(reply, candidateEmail, delivered);
    if email.success {
      store.AddFeedback(selected.id, ReviewFeedback(dt, show(reply.value.fields["subject"])));
      notice := Succeeded(ReviewSent);
    } else {
      notice := Warned(ReviewNotSentPrefix + ErrorText(email));
    }
  }

  /** The Interview Scheduling page's form on a store, calling the
      module-level `generate_interview_email`. */
  method ScheduleFromPlanner(store: RecordStore, selected: Match, submitted: bool, date: string, time: string,
                             reply: ModelReply, candidateEmail: Option<string>, delivered: SendRequest -> bool)
    returns (notice: Notice)
    requires store.Valid()
    modifies store
    ensures store.Valid()
    ensures (store.matches, notice) == PlannerSchedule(old(store.matches), selected, submitted, date, time, reply, candidateEmail, delivered)
    ensures store.jobs == old(store.jobs) && store.candidates == old(store.candidates) && store.clock == old(store.clock)
    ensures store.nextJobId == old(store.nextJobId) && store.nextCandidateId == old(store.nextCandidateId)
    ensures store.nextMatchId == old(store.nextMatchId)
  {
    if !OffersScheduling(selected) || !submitted {
      return NoNotice;
    }
    var dt := InterviewDateTime(date, time);
    store.ScheduleInterview(selected.id, dt);
    var email := GenerateInterviewEmail(reply, candidateEmail, delivered);
    if email.success {
      store.AddFeedback(selected.id, PlannerFeedback(dt));
      notice := Succeeded(PlannerSent);
    } else if email.emailContent.None? {
      notice := Raised(NoneHasNoGet);
    } else {
      notice := Failed(PlannerNotSentPrefix + ErrorText(email));
    }
  }
}
