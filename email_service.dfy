/**
 * The notification dispatcher: `getBirthdayEmailHTML` fills the username into a fixed HTML
 * template and `sendBirthdayEmail` hands one message to the mail transport and maps what the
 * transport reports to an outcome value, never throwing. The transport's answer for the
 * message is an input: `Success(messageId)` or `Failure(errorMessage)`.
 */
module EmailService {
  import opened Wrappers

  /** What `transporter.sendMail` reports: the message id, or the thrown error's `message`. */
  type TransportResult = Result<string, string>

  /** The `mailOptions` object handed to the transport. */
  datatype MailOptions = MailOptions(from: string, to: string, subject: string, html: string)

  /** `{ success: true, messageId }` or `{ success: false, error }`. */
  datatype SendOutcome = Sent(messageId: string) | Failed(error: string)
  {
    /** The `success` field. */
    predicate Success() { Sent? }
  }

  /** One call of `sendBirthdayEmail`: the messages it gave the transport, and the outcome it resolved to. */
  datatype Dispatch = Dispatch(transportCalls: seq<MailOptions>, outcome: SendOutcome)

  /** The `x` that `s == head + x + tail`, if `s` has that shape. */
  function Unslot(head: string, tail: string, s: string): (r: Option<string>)
    ensures r.Some? ==> s == head + r.value + tail
  {
    if |s| >= |head| + |tail| && s[..|head|] == head && s[|s| - |tail|..] == tail then
      assert s == s[..|head|] + s[|head|..|s| - |tail|] + s[|s| - |tail|..];
      Some(s[|head|..|s| - |tail|])
    else None
  }

  lemma UnslotRoundTrip(head: string, x: string, tail: string)
    ensures Unslot(head, tail, head + x + tail) == Some(x)
  {
    var s := head + x + tail;
    assert s[..|head|] == head && s[|s| - |tail|..] == tail;
    assert s[|head|..|s| - |tail|] == x;
  }

  const SubjectHead: string := "\U{1F389} Happy Birthday "
  const SubjectTail: string := "! \U{1F382}"

  /** The subject line: the fixed greeting around the username. */
  function Subject(username: string): (r: string)
    ensures |r| == |SubjectHead| + |username| + |SubjectTail|
    ensures r[..|SubjectHead|] == SubjectHead && r[|r| - |SubjectTail|..] == SubjectTail
    ensures r[|SubjectHead|..|r| - |SubjectTail|] == username
  {
    SubjectHead + username + SubjectTail
  }

  /**
   * The fixed markup of the template before and after the salutation line. The styling and
   * the rest of the page are abbreviated here: the model only relies on both being constants.
   */
  const HtmlHead: string :=
    "<!DOCTYPE html><html lang=\"en\"><head><meta charset=\"UTF-8\"><style>…</style></head>"
    + "<body><div class=\"container\"><div class=\"header\"><h1>\U{1F389} Happy Birthday! \U{1F389}</h1></div>"
    + "<div class=\"content\"><h2>"
  const HtmlTail: string :=
    "</h2><div class=\"cake-emoji\">\U{1F382}</div><p>…</p></div>"
    + "<div class=\"footer\"><p>With warm wishes,<br>The Birthday Reminder Team</p></div></div></body></html>"
  const Salutation: string := "Dear "

  /** `getBirthdayEmailHTML(username)`: the template with `Dear <username>,` as its heading. */
  function BirthdayEmailHtml(username: string): (html: string)
    ensures |html| == |HtmlHead| + |Salutation| + |username| + 1 + |HtmlTail|
    ensures html[..|HtmlHead| + |Salutation|] == HtmlHead + Salutation
    ensures html[|html| - 1 - |HtmlTail|..] == "," + HtmlTail
    ensures html[|HtmlHead| + |Salutation|..|html| - 1 - |HtmlTail|] == username
  {
    var html := HtmlHead + Salutation + username + "," + HtmlTail;
    assert html == (HtmlHead + Salutation) + username + ("," + HtmlTail);
    html
  }

  /** The username a subject line was made for. */
  function SubjectName(subject: string): Option<string>
  {
    Unslot(SubjectHead, SubjectTail, subject)
  }

  /** The username an email body was made for. */
  function HtmlName(html: string): Option<string>
  {
    Unslot(HtmlHead + Salutation, "," + HtmlTail, html)
  }

  /** The subject carries the username verbatim and it can be read back from it. */
  lemma SubjectRoundTrip(username: string)
    ensures SubjectName(Subject(username)) == Some(username)
  {
    UnslotRoundTrip(SubjectHead, username, SubjectTail);
  }

  /** The body carries the username verbatim (no escaping) and it can be read back from it. */
  lemma HtmlRoundTrip(username: string)
    ensures HtmlName(BirthdayEmailHtml(username)) == Some(username)
  {
    var html := BirthdayEmailHtml(username);
    assert html == (HtmlHead + Salutation) + username + ("," + HtmlTail);
    UnslotRoundTrip(HtmlHead + Salutation, username, "," + HtmlTail);
  }

  /** The body depends on the username alone, and different usernames give different bodies and subjects. */
  lemma MessageInjective(u: string, v: string)
    ensures BirthdayEmailHtml(u) == BirthdayEmailHtml(v) <==> u == v
    ensures Subject(u) == Subject(v) <==> u == v
  {
    if BirthdayEmailHtml(u) == BirthdayEmailHtml(v) {
      HtmlRoundTrip(u);
      HtmlRoundTrip(v);
    }
    if Subject(u) == Subject(v) {
      SubjectRoundTrip(u);
      SubjectRoundTrip(v);
    }
  }

  /**
   * `sendBirthdayEmail(email, username)`, where `sender` is the configured `EMAIL_USER` and
   * `transport` is what the single `sendMail` call reports. Exactly one message is sent, to
   * `email` unchanged; a delivery gives `Sent(messageId)`, any error `Failed(message)`.
   */
  function SendBirthdayEmail(sender: string, email: string, username: string, transport: TransportResult): (d: Dispatch)
    ensures |d.transportCalls| == 1
    ensures d.transportCalls[0] == MailOptions(sender, email, Subject(username), BirthdayEmailHtml(username))
    ensures d.outcome.Success() <==> transport.Success?
    ensures transport.Success? ==> d.outcome.messageId == transport.value
    ensures transport.Failure? ==> d.outcome.error == transport.error
  {
    var mail := MailOptions(sender, email, Subject(username), BirthdayEmailHtml(username));
    match transport
    case Success(messageId) => Dispatch([mail], Sent(messageId))
    case Failure(message) => Dispatch([mail], Failed(message))
  }
}
