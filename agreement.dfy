/** How the three contact checks relate: the server route, the standalone
    form script and the page script all test the address with the same
    rule, and only the two client copies demand ten characters of message. */
module Agreement {
  import opened Common
  import opened Email
  import opened Server
  import opened ContactForm
  import opened MainPage

  /** With every field filled in, the server refuses the address exactly
      when each client validator does. */
  lemma EmailChecksAgree(b: ContactBody, emailUser: Option<string>, sendOk: bool)
    requires AllFieldsPresent(b)
    ensures var refusedByServer := HandleContact(b, emailUser, sendOk).response == HttpResponse(400, ErrorJson(InvalidEmailError));
      && (refusedByServer <==> Validate(b.email, b.message) == EmailRejected)
      && (refusedByServer <==> ValidateFormData(b.email, b.message) == EmailRejected)
  {
    ContactRefusesAddressIff(b, emailUser, sendOk);
    assert ValidateFormData(b.email, b.message) == Validate(b.email, b.message);
  }

  lemma PatternNonEmpty(s: string)
    requires MatchesPattern(s)
    ensures s != ""
  {
    EmailRuleMatchesPattern(s);
  }

  /** A submission either client accepts, with a name and a subject, passes
      both server checks and is handed to the mailer. */
  lemma ClientAcceptanceImpliesDelivery(f: FormFields, emailUser: Option<string>, sendOk: bool)
    requires Validate(f.email, f.message) == Accepted
    requires !Falsy(f.name) && !Falsy(f.subject)
    ensures HandleContact(ContactBody(f.name, f.email, f.subject, f.message), emailUser, sendOk).delivery.Some?
    ensures ValidateFormData(f.email, f.message) == Accepted
  {
    PatternNonEmpty(f.email.value);
  }

  /** The converse fails: the server has no length rule, so a message of
      one to nine characters that both clients refuse is mailed. */
  lemma ServerAcceptsShortMessage(name: string, email: string, subject: string, message: string, emailUser: Option<string>)
    requires name != "" && subject != "" && MatchesPattern(email)
    requires 0 < |message| < MinMessageLength
    ensures HandleContact(ContactBody(Some(name), Some(email), Some(subject), Some(message)), emailUser, true).delivery.Some?
    ensures Validate(Some(email), Some(message)) == MessageTooShort
    ensures ValidateFormData(Some(email), Some(message)) == MessageTooShort
  {
    PatternNonEmpty(email);
  }
}
