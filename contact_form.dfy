/** The client-side contact form of js/contact-form.js: the validator, the
    submit handler's guard, and the mailto link it prepares (before URI
    encoding). The verdict type and the mailto body are shared with the
    copy of the same form logic in js/main.js. */
module ContactForm {
  import opened Common
  import opened Email

  /** What a validator call ends in: accepted, one of the two refusals
      (each shows its notification), or a thrown TypeError. */
  datatype Verdict = Accepted | EmailRejected | MessageTooShort | Threw

  const EmailNotice: string := "Please enter a valid email address"
  const LengthNotice: string := "Message must be at least 10 characters long"
  const MinMessageLength: nat := 10

  /** The notification a verdict shows, if any. */
  function Notice(v: Verdict): (n: Option<string>)
    ensures n.Some? <==> v == EmailRejected || v == MessageTooShort
    ensures v == EmailRejected ==> n == Some(EmailNotice)
    ensures v == MessageTooShort ==> n == Some(LengthNotice)
  {
    match v
    case EmailRejected => Some(EmailNotice)
    case MessageTooShort => Some(LengthNotice)
    case _ => None
  }

  /** The two checks both client validators make once they hold strings:
      the email pattern first, then the message length. */
  function Judge(email: string, message: string): (v: Verdict)
    ensures v == Accepted <==> MatchesPattern(email) && |message| >= MinMessageLength
    ensures v == EmailRejected <==> !MatchesPattern(email)
    ensures v == MessageTooShort <==> MatchesPattern(email) && |message| < MinMessageLength
  {
    EmailRuleMatchesPattern(email);
    if !IsValidEmail(email) then EmailRejected
    else if |message| < MinMessageLength then MessageTooShort
    else Accepted
  }

  /** `validateForm(form)`: each field is the `.value` of the element found
      by `querySelector`, `None` when the element is missing (reading
      `.value` of null throws, before any check). */
  function Validate(emailField: Option<string>, messageField: Option<string>): (v: Verdict)
    ensures v == Threw <==> emailField.None? || messageField.None?
    ensures v == Accepted <==>
      emailField.Some? && messageField.Some?
      && MatchesPattern(emailField.value) && |messageField.value| >= MinMessageLength
    ensures v == EmailRejected <==> emailField.Some? && messageField.Some? && !MatchesPattern(emailField.value)
  {
    if emailField.None? || messageField.None? then Threw
    else Judge(emailField.value, messageField.value)
  }

  /** An invalid address with a short message reports only the email error. */
  lemma EmailCheckedFirst(email: string, message: string)
    requires !MatchesPattern(email) && |message| < MinMessageLength
    ensures Validate(Some(email), Some(message)) == EmailRejected
    ensures Notice(Validate(Some(email), Some(message))) == Some(EmailNotice)
  {
  }

  const Recipient: string := "annanshrestha1@gmail.com"

  /** The body of the mailto link before `encodeURIComponent`: labelled
      lines for the name and the email, a blank line, the "Message:" label,
      then the message as typed. */
  function MailtoBody(name: string, email: string, message: string): (r: string)
    ensures |r| == 25 + |name| + |email| + |message|
    ensures r[..6] == "Name: " && r[6..6 + |name|] == name
    ensures r[|r| - |message|..] == message
  {
    "Name: " + name + "\nEmail: " + email + "\n\nMessage:\n" + message
  }

  datatype MailtoFields = MailtoFields(name: string, email: string, message: string)

  function StripPrefix(s: string, p: string): (r: Option<string>)
    ensures r.Some? ==> s == p + r.value
  {
    if |p| <= |s| && s[..|p|] == p then Some(s[|p|..]) else None
  }

  lemma StripPrefixOf(p: string, x: string)
    ensures StripPrefix(p + x, p) == Some(x)
  {
    assert (p + x)[..|p|] == p;
    assert (p + x)[|p|..] == x;
  }

  /** Splits at the first line break. */
  function SplitLine(s: string): (r: Option<(string, string)>)
    ensures r.Some? ==> '\n' !in r.value.0 && s == r.value.0 + "\n" + r.value.1
  {
    if '\n' !in s then None
    else
      var i := IndexOf(s, '\n');
      assert s == s[..i] + "\n" + s[i + 1..];
      Some((s[..i], s[i + 1..]))
  }

  /** Reads the message part: the blank line, the header, then the text. */
  function ParseMessage(rest: string): Option<string> {
    StripPrefix(rest, "\nMessage:\n")
  }

  /** Reads the address line and what follows it. */
  function ParseFromEmail(rest: string, name: string): Option<MailtoFields> {
    match StripPrefix(rest, "Email: ")
    case None => None
    case Some(r) =>
      match SplitLine(r)
      case None => None
      case Some(line) =>
        match ParseMessage(line.1)
        case None => None
        case Some(m) => Some(MailtoFields(name, line.0, m))
  }

  /** Reads the three fields back out of a mailto body. */
  function ParseMailtoBody(b: string): Option<MailtoFields> {
    match StripPrefix(b, "Name: ")
    case None => None
    case Some(r) =>
      match SplitLine(r)
      case None => None
      case Some(line) => ParseFromEmail(line.1, line.0)
  }

  lemma SplitLineOf(a: string, b: string)
    requires '\n' !in a
    ensures SplitLine(a + "\n" + b) == Some((a, b))
  {
    var s := a + "\n" + b;
    var i := IndexOf(s, '\n');
    assert s[|a|] == '\n';
    assert forall k :: 0 <= k < |a| ==> s[k] == a[k];
    assert i == |a|;
    assert s[..i] == a;
    assert s[i + 1..] == b;
  }

  /** The body, cut where the parser cuts it. */
  lemma MailtoBodyParts(name: string, email: string, message: string)
    ensures MailtoBody(name, email, message)
         == "Name: " + (name + "\n" + ("Email: " + (email + "\n" + ("\nMessage:\n" + message))))
  {
    assert "\nEmail: " == "\n" + "Email: ";
    assert "\n\nMessage:\n" == "\n" + "\nMessage:\n";
  }

  lemma ParseFromEmailOf(name: string, email: string, message: string)
    requires '\n' !in email
    ensures ParseFromEmail("Email: " + (email + "\n" + ("\nMessage:\n" + message)), name)
         == Some(MailtoFields(name, email, message))
  {
    StripPrefixOf("Email: ", email + "\n" + ("\nMessage:\n" + message));
    SplitLineOf(email, "\nMessage:\n" + message);
    StripPrefixOf("\nMessage:\n", message);
  }

  /** Round trip: when name and address hold no line break, the body
      determines the three fields. */
  lemma MailtoRoundTrip(name: string, email: string, message: string)
    requires '\n' !in name && '\n' !in email
    ensures ParseMailtoBody(MailtoBody(name, email, message)) == Some(MailtoFields(name, email, message))
  {
    MailtoBodyParts(name, email, message);
    var rest := "Email: " + (email + "\n" + ("\nMessage:\n" + message));
    StripPrefixOf("Name: ", name + "\n" + rest);
    SplitLineOf(name, rest);
    ParseFromEmailOf(name, email, message);
  }

  /** A validated email never holds a line break. */
  lemma PatternHasNoNewline(email: string)
    requires MatchesPattern(email)
    ensures '\n' !in email
  {
    EmailRuleMatchesPattern(email);
    assert IsWhitespace('\n');
  }

  /** The navigation the handler schedules: recipient, subject and body of
      the mailto link, before encoding. */
  datatype Mailto = Mailto(to: string, subject: string, body: string)

  /** What one submit event does: refuses with the verdict's notification,
      throws, or schedules the mailto navigation. */
  datatype SubmitOutcome = Refused(verdict: Verdict) | Failed | Navigate(link: Mailto)

  /** The form's name, email, subject and message values (`None` where the
      form has no such element or entry), and whether it has a submit
      button. */
  datatype FormFields = FormFields(name: Option<string>, email: Option<string>, subject: Option<string>, message: Option<string>, hasSubmitButton: bool)

  /** The submit handler of js/contact-form.js. */
  function Submit(f: FormFields): (r: SubmitOutcome)
    ensures r.Navigate? ==> Validate(f.email, f.message) == Accepted
    ensures Validate(f.email, f.message) == EmailRejected ==> r == Refused(EmailRejected)
    ensures Validate(f.email, f.message) == MessageTooShort ==> r == Refused(MessageTooShort)
    ensures Validate(f.email, f.message) == Threw ==> r == Failed
    ensures Validate(f.email, f.message) == Accepted ==>
      (r.Navigate? <==> f.hasSubmitButton && f.name.Some? && f.subject.Some?)
    ensures Validate(f.email, f.message) == Accepted && !r.Navigate? ==> r == Failed
    ensures r.Navigate? ==>
      && f.name.Some? && f.email.Some? && f.subject.Some? && f.message.Some?
      && r.link == Mailto(Recipient, f.subject.value, MailtoBody(f.name.value, f.email.value, f.message.value))
  {
    var v := Validate(f.email, f.message);
    if v == Threw then Failed
    else if v != Accepted then Refused(v)
    else if !f.hasSubmitButton || f.name.None? || f.subject.None? then Failed
    else Navigate(Mailto(Recipient, f.subject.value, MailtoBody(f.name.value, f.email.value, f.message.value)))
  }

  /** The link a submission prepares carries the form's fields, which can be
      read back from its body when the name is a single line (as a text
      input's value is). */
  lemma SubmitBodyRoundTrip(f: FormFields)
    requires Validate(f.email, f.message) == Accepted && f.hasSubmitButton
    requires f.name.Some? && f.subject.Some? && '\n' !in f.name.value
    ensures ParseMailtoBody(Submit(f).link.body) == Some(MailtoFields(f.name.value, f.email.value, f.message.value))
    ensures Submit(f).link.subject == f.subject.value
  {
    PatternHasNoNewline(f.email.value);
    MailtoRoundTrip(f.name.value, f.email.value, f.message.value);
  }
}
