/** The guard of `EmailSender.send_email` and the MIME part built before its
    `try`; the SMTP session itself is a parameter reporting whether delivery
    succeeded. */
module EmailSender {
  import opened Wrappers
  import opened Json

  /** One call of `send_email`: recipient, subject, body and whether the body
      is HTML. Subject and body are whatever values the model produced. */
  datatype SendRequest = SendRequest(recipient: string, subject: Value, body: Value, isHtml: bool)

  const RecipientRequired: string := "Recipient email is required"

  /** The `AttributeError` message of `MIMEText(body, ...)` for a body that is
      not a string: the constructor calls `body.encode(...)`. */
  function NoEncode(body: Value): string
  {
    "'" + PyTypeName(body) + "' object has no attribute 'encode'"
  }

  /** `send_email`: an empty recipient raises `ValueError`, and a body that is
      not a string makes the MIME constructor raise, both before the SMTP
      `try`; otherwise the result is what the transport reports (`False` when
      the SMTP exchange raised). */
  function SendEmail(request: SendRequest, delivered: bool): (r: Result<bool, string>)
    ensures r.Failure? <==> request.recipient == "" || !request.body.JString?
    ensures request.recipient == "" ==> r == Failure(RecipientRequired)
    ensures request.recipient != "" && !request.body.JString? ==> r == Failure(NoEncode(request.body))
    ensures r.Success? ==> r.value == delivered
  {
    if request.recipient == "" then Failure(RecipientRequired)
    else if !request.body.JString? then Failure(NoEncode(request.body))
    else Success(delivered)
  }
}
