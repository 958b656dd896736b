/** The result shaping around the language-model client and the mailer. The
    client's answer to one request is a `ModelReply`: the call raised, the
    reply text did not decode as JSON, or it decoded to a value. */
module Agents {
  import opened Wrappers
  import opened Json
  import opened EmailSender

  datatype ModelReply =
    | CallRaised(message: string)
    | Undecodable(message: string)
    | Decoded(value: Value)

  /** `summarize_job_description` and `extract_candidate_data`: the decoded
      reply, or None (JSON null) when the call raised or the reply did not
      decode. */
  function ReplyOrNone(reply: ModelReply): (v: Value)
    ensures reply.Decoded? ==> v == reply.value
    ensures !reply.Decoded? ==> v == JNull
    ensures Truthy(v) ==> reply.Decoded?
  {
    if reply.Decoded? then reply.value else JNull
  }

  /** What `calculate_match_score` answers on any failure. */
  const ZeroScore: Value := JObject(map["match_score" := JNumber(0.0)])

  /** `calculate_match_score`: the decoded reply exactly as the model sent it
      (nothing clamps it to 0..100), or a zero score on any failure. */
  function CalculateMatchScore(reply: ModelReply): (result: Value)
    ensures reply.Decoded? ==> result == reply.value
    ensures !reply.Decoded? ==>
      result.JObject? && result.fields.Keys == {"match_score"} && result.fields["match_score"] == JNumber(0.0)
  {
    if reply.Decoded? then reply.value else ZeroScore
  }

  /** The dict `generate_interview_email` returns: `success`, `email_content`
      (None where the source puts None or leaves the key out), `error` (None
      when the key is absent), and the send that was attempted, if any. */
  datatype EmailResult = EmailResult(
    success: bool,
    emailContent: Option<map<string, Value>>,
    error: Option<string>,
    sent: Option<SendRequest>)

  /** A decoded reply the function accepts: a dict holding `subject` and `body`. */
  predicate ValidContent(v: Value)
  {
    v.JObject? && "subject" in v.fields && "body" in v.fields
  }

  /** `if candidate_email:` for a column that may be NULL. */
  predicate HasRecipient(email: Option<string>)
  {
    email.Some? && email.value != ""
  }

  /** The send for valid content: the HTML body when there is one, else the
      plain body, flagged as HTML exactly when `html_body` is present. */
  function InvitationRequest(recipient: string, content: map<string, Value>): (request: SendRequest)
    requires "subject" in content && "body" in content
    ensures request.recipient == recipient && request.subject == content["subject"]
    ensures request.isHtml <==> "html_body" in content
    ensures request.body == if "html_body" in content then content["html_body"] else content["body"]
  {
    var html := "html_body" in content;
    SendRequest(recipient, content["subject"], if html then content["html_body"] else content["body"], html)
  }

  const InvalidStructure: string := "Invalid email content structure"
  const ParseFailedPrefix: string := "Failed to parse email content: "
  const SendFailed: string := "Email sending failed"

  /** The module-level `generate_interview_email`, with the client's reply and
      the transport's verdict on each send given. */
  function GenerateInterviewEmail(reply: ModelReply, candidateEmail: Option<string>, delivered: SendRequest -> bool): (r: EmailResult)
    // A send is attempted exactly when the content is valid and there is a recipient.
    ensures r.sent.Some? <==> reply.Decoded? && ValidContent(reply.value) && HasRecipient(candidateEmail)
    ensures r.sent.Some? ==>
      && reply.Decoded? && ValidContent(reply.value) && candidateEmail.Some?
      && r.sent.value == InvitationRequest(candidateEmail.value, reply.value.fields)
    // Success means the content was valid and any send went through.
    ensures r.success ==>
      && reply.Decoded? && ValidContent(reply.value)
      && r.emailContent == Some(reply.value.fields) && r.error.None?
      && (r.sent.Some? ==> r.sent.value.body.JString? && delivered(r.sent.value))
    ensures reply.Decoded? && ValidContent(reply.value) && !HasRecipient(candidateEmail) ==> r.success
    // Failures before a send keep no content and carry an error text.
    ensures reply.CallRaised? ==> !r.success && r.emailContent.None? && r.error == Some(reply.message)
    ensures reply.Undecodable? ==> !r.success && r.emailContent.None? && r.error == Some(ParseFailedPrefix + reply.message)
    ensures reply.Decoded? && !ValidContent(reply.value) ==> !r.success && r.emailContent.None? && r.error == Some(InvalidStructure)
    // A body that is not a string raises inside `send_email`, and the outer
    // handler drops the content.
    ensures r.sent.Some? && !r.sent.value.body.JString? ==>
      !r.success && r.emailContent.None? && r.error == Some(NoEncode(r.sent.value.body))
    // A refused send keeps the generated content.
    ensures r.sent.Some? && r.sent.value.body.JString? ==> (r.success <==> delivered(r.sent.value))
    ensures r.sent.Some? && r.sent.value.body.JString? && !delivered(r.sent.value) ==>
      r.emailContent == Some(reply.value.fields) && r.error == Some(SendFailed)
  {
    match reply
    case CallRaised(message) => EmailResult(false, None, Some(message), None)
    case Undecodable(message) => EmailResult(false, None, Some(ParseFailedPrefix + message), None)
    case Decoded(v) =>
      if !ValidContent(v) then EmailResult(false, None, Some(InvalidStructure), None)
      else if HasRecipient(candidateEmail) then
        var request := InvitationRequest(candidateEmail.value, v.fields);
        match SendEmail(request, delivered(request))
        case Failure(e) => EmailResult(false, None, Some(e), Some(request))
        case Success(ok) =>
          if ok then EmailResult(true, Some(v.fields), None, Some(request))
          else EmailResult(false, Some(v.fields), Some(SendFailed), Some(request))
      else EmailResult(true, Some(v.fields), None, None)
  }

  /** The `ValueError` guard of `send_email` never fires from here: every send
      this function attempts has a non-empty recipient, so `send_email` raises
      only for a body that is not a string. */
  lemma RecipientGuardNeverFires(reply: ModelReply, candidateEmail: Option<string>, delivered: SendRequest -> bool)
    ensures var r := GenerateInterviewEmail(reply, candidateEmail, delivered);
      r.sent.Some? ==>
        && r.sent.value.recipient != ""
        && (SendEmail(r.sent.value, delivered(r.sent.value)).Failure? <==> !r.sent.value.body.JString?)
  {
  }
}
