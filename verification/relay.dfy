/**
 * The `POST /api/contact` handler after validation: compose the e-mail, hand
 * it to the provider, and map the provider's reply to the HTTP response.
 * The provider is a parameter: the model sees only what it answers.
 */
module Relay {
  import opened Wrappers
  import opened Render
  import opened Validation
  import Email
  import Text

  const Sender: string := "Contact Form <onboarding@aihridoy.com>"

  const SentOk: string := "Message sent successfully!"
  const SendFailed: string := "Failed to send email. Please try again later."
  const ServerError: string := "Server error. Please try again later."

  /** The fields one rendering of the body embeds, and the message text it shows. */
  datatype Body = Body(name: string, email: string, subject: string, message: string)

  /** What is handed to the provider. */
  datatype Outgoing = Outgoing(from: string, to: seq<string>, subject: string, html: Body, text: Body)

  /** What `await resend.emails.send(...)` can come to. */
  datatype ProviderReply =
    | Returned(dataId: Option<string>, error: Option<string>)  // `{ data, error }`; `None` for a null part
    | Threw                                                  // the call rejected

  datatype Response = Response(status: int, success: bool, message: string, emailId: Option<string>)

  /** The e-mail for a submission; `recipient` is the configured RECIPIENT_EMAIL. */
  function Compose(name: string, email: string, subject: string, message: string, recipient: string): (o: Outgoing)
    ensures o.from == Sender && o.to == [recipient]
    ensures o.subject == SubjectPrefix + subject
    ensures o.html.name == o.text.name == name && o.html.email == o.text.email == email
    ensures o.html.subject == o.text.subject == subject
    ensures o.html.message == BreakLines(message) && o.text.message == message
    ensures NoNewline(o.html.message)
  {
    Outgoing(Sender, [recipient], SubjectLine(subject),
      Body(name, email, subject, BreakLines(message)),
      Body(name, email, subject, message))
  }

  /**
   * The provider's reply as a response. A reported error wins over any data;
   * with neither an error nor data, reading `data.id` throws and the handler's
   * catch answers as for a thrown call.
   */
  function Respond(reply: ProviderReply): (r: Response)
    ensures r.success <==> r.status == 200
    ensures r.success <==> reply.Returned? && reply.error.None? && reply.dataId.Some?
    ensures r.success ==> r.emailId == reply.dataId && r.message == SentOk
    ensures !r.success ==> r.status == 500 && r.emailId.None?
    ensures reply.Returned? && reply.error.Some? ==> r.message == SendFailed
    ensures reply.Threw? || reply == Returned(None, None) ==> r.message == ServerError
  {
    match reply
    case Threw => Response(500, false, ServerError, None)
    case Returned(data, error) =>
      if error.Some? then Response(500, false, SendFailed, None)
      else if data.None? then Response(500, false, ServerError, None)
      else Response(200, true, SentOk, data)
  }

  /** The whole endpoint: validate, and only if that passes, send and report. */
  function Handle(sub: Submission, recipient: string, provider: Outgoing -> ProviderReply): (r: Response)
    ensures r.status in {200, 400, 500}
    ensures r.success <==> r.status == 200
    ensures r.status == 400 <==> Validate(sub).Reject?
    ensures r.status == 400 ==> r.message == Validate(sub).reason && r.emailId.None?
  {
    match Validate(sub)
    case Reject(reason) => Response(400, false, reason, None)
    case Accept =>
      Respond(provider(Compose(sub.name.value, sub.email.value, sub.subject.value, sub.message.value, recipient)))
  }

  /** A rejected submission never reaches the provider: any two providers give the same answer. */
  lemma RejectedNeverSent(sub: Submission, recipient: string, p: Outgoing -> ProviderReply, q: Outgoing -> ProviderReply)
    requires Validate(sub).Reject?
    ensures Handle(sub, recipient, p) == Handle(sub, recipient, q) == Response(400, false, Validate(sub).reason, None)
  {
  }

  /**
   * An accepted submission is sent once, with subject "Contact Form: " and the
   * subject as submitted, and the answer is the provider's reply to that e-mail.
   */
  lemma AcceptedIsSent(sub: Submission, recipient: string, provider: Outgoing -> ProviderReply)
    requires Validate(sub) == Accept
    ensures var o := Compose(sub.name.value, sub.email.value, sub.subject.value, sub.message.value, recipient);
      && o.subject == SubjectPrefix + sub.subject.value
      && Handle(sub, recipient, provider) == Respond(provider(o))
  {
  }

  /** An accepted submission with a provider that returns an id is answered 200 with that id. */
  lemma AcceptedAndDelivered(sub: Submission, recipient: string, provider: Outgoing -> ProviderReply, id: string)
    requires Validate(sub) == Accept
    requires forall o :: provider(o) == Returned(Some(id), None)
    ensures Handle(sub, recipient, provider) == Response(200, true, SentOk, Some(id))
  {
  }

  /** An accepted submission with a provider that reports an error is answered 500; nothing escapes. */
  lemma AcceptedButProviderFails(sub: Submission, recipient: string, provider: Outgoing -> ProviderReply, e: string)
    requires Validate(sub) == Accept
    requires forall o :: provider(o).Returned? && provider(o).error == Some(e)
    ensures Handle(sub, recipient, provider) == Response(500, false, SendFailed, None)
  {
  }

  /**
   * Some submission is accepted (for instance with c == 'a': name "aa", address
   * "a@a.a", subject "aaaaa", message "aaaaaaaaaa"), so the lemmas above that
   * assume acceptance are not vacuous.
   */
  lemma SomeSubmissionAccepted(c: char)
    requires Email.PatternChar(c) && c as int <= 0xFFFF
    ensures Validate(Submission(Some(Repeat(c, 2)), Some([c] + "@" + [c] + "." + [c]),
                                Some(Repeat(c, 5)), Some(Repeat(c, 10)))) == Accept
  {
    var sub := Submission(Some(Repeat(c, 2)), Some([c] + "@" + [c] + "." + [c]), Some(Repeat(c, 5)), Some(Repeat(c, 10)));
    assert Email.Segment([c]);
    assert sub.email.value == Email.Assemble([c], [c], [c]);
    RepeatLength(c, 2);
    RepeatLength(c, 5);
    RepeatLength(c, 10);
    AcceptIff(sub);
  }

  function Repeat(c: char, n: nat): (r: string)
    ensures |r| == n && forall k :: 0 <= k < n ==> r[k] == c
  {
    seq(n, _ => c)
  }

  lemma RepeatLength(c: char, n: nat)
    requires Email.PatternChar(c) && c as int <= 0xFFFF
    ensures TrimmedLength(Repeat(c, n)) == n
  {
    Text.TrimKeepsTrimmed(Repeat(c, n));
    Text.Utf16LengthBmp(Repeat(c, n));
  }
}
