/** The request handling of the Express server (backend/server.js) that
    decides something: the contact route's validation and mail shaping, the
    upload file filter, the GeoJSON type lookup and the error middleware.
    Each is a pure function from the request to the response. */
module Server {
  import opened Common
  import opened Email

  /** The JSON bodies the modelled routes send. */
  datatype Json =
    | ErrorJson(error: string)
    | ErrorDetailJson(error: string, message: string)
    | SuccessJson(message: string)

  datatype HttpResponse = HttpResponse(status: int, body: Json)

  // ----- POST /api/contact -----

  /** A body field: absent (`undefined`) or a string. */
  type Field = Option<string>

  /** JavaScript's `!field` on an absent or string field. */
  predicate Falsy(f: Field) {
    f.None? || f.value == ""
  }

  datatype ContactBody = ContactBody(name: Field, email: Field, subject: Field, message: Field)

  predicate AllFieldsPresent(b: ContactBody) {
    !Falsy(b.name) && !Falsy(b.email) && !Falsy(b.subject) && !Falsy(b.message)
  }

  datatype MailOptions = MailOptions(from: Option<string>, to: string, subject: string, html: string, replyTo: string)

  /** The outcome of one contact request: the response, and the options
      `sendMail` was called with, if it was called. */
  datatype ContactOutcome = ContactOutcome(response: HttpResponse, delivery: Option<MailOptions>)

  const OwnerAddress: string := "annanshrestha1@gmail.com"
  const SubjectPrefix: string := "Portfolio Contact: "
  const AllFieldsRequired: string := "All fields are required"
  const InvalidEmailError: string := "Please provide a valid email address"
  const SentMessage: string := "Message sent successfully! I will get back to you soon."
  const SendFailedError: string := "Failed to send message. Please try again later."

  /** `message.replace(/\n/g, '<br>')`. */
  function ReplaceNewlines(m: string): (r: string)
    ensures '\n' !in r
  {
    if m == [] then []
    else (if m[0] == '\n' then "<br>" else [m[0]]) + ReplaceNewlines(m[1..])
  }

  /** Reads "<br>" back as a line break: the inverse of `ReplaceNewlines` on
      messages that do not already contain "<br>". */
  function RestoreNewlines(s: string): string {
    if |s| >= 4 && s[..4] == "<br>" then "\n" + RestoreNewlines(s[4..])
    else if s == [] then []
    else [s[0]] + RestoreNewlines(s[1..])
  }

  /** The first character that the replacement writes for `c`: the '<' of
      "<br>" for a line break, else `c` itself. */
  function ReplacementHead(c: char): char {
    if c == '\n' then '<' else c
  }

  /** Up to the first line break the replacement copies the message, and at
      position k it shows the character or the '<' of "<br>". */
  lemma {:induction false} ReplaceKeepsPrefix(m: string, k: nat)
    requires k < |m| && forall j :: 0 <= j < k ==> m[j] != '\n'
    ensures |ReplaceNewlines(m)| > k && ReplaceNewlines(m)[k] == ReplacementHead(m[k])
  {
    if k > 0 {
      ReplaceKeepsPrefix(m[1..], k - 1);
    }
  }

  /** A message without line breaks is kept as it is. */
  lemma ReplaceWithoutNewlines(m: string)
    requires forall j :: 0 <= j < |m| ==> m[j] != '\n'
    ensures ReplaceNewlines(m) == m
  {
  }

  /** A message that does not start a line break cannot make the result
      start with "<br>" unless it starts with "<br>" itself. */
  lemma NoBrAtStart(m: string)
    requires |m| > 0 && m[0] != '\n' && !OccursAt(m, "<br>", 0)
    ensures var r := ReplaceNewlines(m); !(|r| >= 4 && r[..4] == "<br>")
  {
    var r := ReplaceNewlines(m);
    ReplaceKeepsPrefix(m, 0);
    if |m| >= 2 { ReplaceKeepsPrefix(m, 1); }
    if |m| >= 3 && m[1] != '\n' { ReplaceKeepsPrefix(m, 2); }
    if |m| >= 4 && m[1] != '\n' && m[2] != '\n' {
      ReplaceKeepsPrefix(m, 3);
      assert m[..4] == [m[0], m[1], m[2], m[3]];
    }
    if |m| <= 3 && forall j :: 0 <= j < |m| ==> m[j] != '\n' {
      ReplaceWithoutNewlines(m);
    }
  }

  /** Round trip: restoring the line breaks gives back the message, for
      every message without a literal "<br>". */
  lemma {:induction false} ReplaceRoundTrip(m: string)
    requires !Contains(m, "<br>")
    ensures RestoreNewlines(ReplaceNewlines(m)) == m
  {
    if m != [] {
      assert !Contains(m[1..], "<br>") by {
        forall i: nat | OccursAt(m[1..], "<br>", i) ensures OccursAt(m, "<br>", i + 1) {
          assert m[1..][i..i + 4] == m[i + 1..i + 5];
        }
      }
      ReplaceRoundTrip(m[1..]);
      var r := ReplaceNewlines(m);
      if m[0] == '\n' {
        assert r == "<br>" + ReplaceNewlines(m[1..]);
        assert r[..4] == "<br>" && r[4..] == ReplaceNewlines(m[1..]);
      } else {
        assert !OccursAt(m, "<br>", 0);
        NoBrAtStart(m);
        assert r == [m[0]] + ReplaceNewlines(m[1..]);
        assert r[1..] == ReplaceNewlines(m[1..]);
      }
    }
  }

  /** The template up to the message paragraph's text. */
  function MailHead(name: string, email: string, subject: string): string {
    "\n"
    + "                <h2>New Contact Form Submission</h2>\n"
    + "                <p><strong>Name:</strong> " + name + "</p>\n"
    + "                <p><strong>Email:</strong> " + email + "</p>\n"
    + "                <p><strong>Subject:</strong> " + subject + "</p>\n"
    + "                <h3>Message:</h3>\n"
    + "                <p>"
  }

  /** The template after the message paragraph's text. */
  const MailTail: string :=
    "</p>\n"
    + "                \n"
    + "                <hr>\n"
    + "                <p><small>This message was sent from your portfolio contact form.</small></p>\n"
    + "            "

  /** The HTML body of the notification mail (the template literal, whose
      line breaks are "\n"). Name, email and subject are inserted as they
      are; the message paragraph holds the message with each line break
      written as "<br>", and nothing else in the mail depends on the message. */
  function MailHtml(name: string, email: string, subject: string, message: string): (h: string)
    ensures var k := |MailHead(name, email, subject)|;
      var text := ReplaceNewlines(message);
      && k + |text| <= |h|
      && h[..k] == MailHead(name, email, subject)
      && h[k..k + |text|] == text && '\n' !in text
      && h[k + |text|..] == MailTail
  {
    var head := MailHead(name, email, subject);
    var text := ReplaceNewlines(message);
    var h := head + text + MailTail;
    assert h[..|head|] == head;
    assert h[|head|..|head| + |text|] == text;
    assert h[|head| + |text|..] == MailTail;
    h
  }

  /** `mailOptions`; `emailUser` is `process.env.EMAIL_USER`. */
  function BuildMailOptions(emailUser: Option<string>, name: string, email: string, subject: string, message: string): (o: MailOptions)
    ensures o.from == emailUser && o.to == OwnerAddress && o.replyTo == email
    ensures |SubjectPrefix| <= |o.subject| && o.subject[..|SubjectPrefix|] == SubjectPrefix && o.subject[|SubjectPrefix|..] == subject
    ensures o.html == MailHtml(name, email, subject, message)
  {
    var o := MailOptions(emailUser, OwnerAddress, SubjectPrefix + subject, MailHtml(name, email, subject, message), email);
    assert o.subject[..|SubjectPrefix|] == SubjectPrefix;
    assert o.subject[|SubjectPrefix|..] == subject;
    o
  }

  /** The contact route. `sendOk` is whether `transporter.sendMail` resolves
      (it is called only once both checks pass). */
  function HandleContact(b: ContactBody, emailUser: Option<string>, sendOk: bool): (r: ContactOutcome)
    ensures !AllFieldsPresent(b) ==>
      r == ContactOutcome(HttpResponse(400, ErrorJson(AllFieldsRequired)), None)
    ensures AllFieldsPresent(b) && !MatchesPattern(b.email.value) ==>
      r == ContactOutcome(HttpResponse(400, ErrorJson(InvalidEmailError)), None)
    ensures r.delivery.Some? <==> AllFieldsPresent(b) && MatchesPattern(b.email.value)
    ensures r.delivery.Some? ==>
      && r.delivery.value.to == OwnerAddress
      && r.delivery.value.subject == SubjectPrefix + b.subject.value
      && r.delivery.value.replyTo == b.email.value
      && r.delivery.value.from == emailUser
      && r.delivery.value.html == MailHtml(b.name.value, b.email.value, b.subject.value, b.message.value)
      && r.response == (if sendOk then HttpResponse(200, SuccessJson(SentMessage))
                        else HttpResponse(500, ErrorJson(SendFailedError)))
  {
    if Falsy(b.name) || Falsy(b.email) || Falsy(b.subject) || Falsy(b.message) then
      ContactOutcome(HttpResponse(400, ErrorJson(AllFieldsRequired)), None)
    else
      EmailRuleMatchesPattern(b.email.value);
      if !IsValidEmail(b.email.value) then
        ContactOutcome(HttpResponse(400, ErrorJson(InvalidEmailError)), None)
      else
        var opts := BuildMailOptions(emailUser, b.name.value, b.email.value, b.subject.value, b.message.value);
        if sendOk then ContactOutcome(HttpResponse(200, SuccessJson(SentMessage)), Some(opts))
        else ContactOutcome(HttpResponse(500, ErrorJson(SendFailedError)), Some(opts))
  }

  /** With every field filled in, the route answers 400 "Invalid email
      format" exactly for the addresses the pattern refuses. */
  lemma ContactRefusesAddressIff(b: ContactBody, emailUser: Option<string>, sendOk: bool)
    requires AllFieldsPresent(b)
    ensures HandleContact(b, emailUser, sendOk).response == HttpResponse(400, ErrorJson(InvalidEmailError))
      <==> !MatchesPattern(b.email.value)
  {
    var r := HandleContact(b, emailUser, sendOk);
    if MatchesPattern(b.email.value) {
      assert r.response.status != 400;
    }
  }

  /** The mail's HTML shows the message with every line break as "<br>",
      and the message can be read back from it. */
  lemma MailCarriesMessage(b: ContactBody, emailUser: Option<string>, sendOk: bool)
    requires AllFieldsPresent(b) && MatchesPattern(b.email.value)
    requires !Contains(b.message.value, "<br>")
    ensures var d := HandleContact(b, emailUser, sendOk).delivery.value;
      var k := |MailHead(b.name.value, b.email.value, b.subject.value)|;
      && d.html == MailHtml(b.name.value, b.email.value, b.subject.value, b.message.value)
      && k + |ReplaceNewlines(b.message.value)| <= |d.html|
      && RestoreNewlines(d.html[k..k + |ReplaceNewlines(b.message.value)|]) == b.message.value
  {
    EmailRuleMatchesPattern(b.email.value);
    MessageReadsBack(b.name.value, b.email.value, b.subject.value, b.message.value);
  }

  /** The message paragraph of the mail, with "<br>" read back as line
      breaks, is the message. */
  lemma MessageReadsBack(name: string, email: string, subject: string, message: string)
    requires !Contains(message, "<br>")
    ensures var h := MailHtml(name, email, subject, message);
      var k := |MailHead(name, email, subject)|;
      && k + |ReplaceNewlines(message)| <= |h|
      && RestoreNewlines(h[k..k + |ReplaceNewlines(message)|]) == message
  {
    ReplaceRoundTrip(message);
  }

  /** A malformed address is refused with 400 and no mail. */
  lemma ContactRejectsMalformedAddress(emailUser: Option<string>, sendOk: bool)
    ensures HandleContact(ContactBody(Some("A"), Some("not-an-email"), Some("Hi"), Some("Hello there")), emailUser, sendOk)
         == ContactOutcome(HttpResponse(400, ErrorJson(InvalidEmailError)), None)
  {
    var b := ContactBody(Some("A"), Some("not-an-email"), Some("Hi"), Some("Hello there"));
    assert AllFieldsPresent(b);
    RejectsNotAnEmail();
  }

  /** A well-formed submission is mailed once and answered with success. */
  lemma ContactSendsWellFormed(emailUser: Option<string>)
    ensures var r := HandleContact(ContactBody(Some("A"), Some("a@b.com"), Some("Hi"), Some("Hello there")), emailUser, true);
      r.response == HttpResponse(200, SuccessJson(SentMessage)) && r.delivery.Some?
  {
    var b := ContactBody(Some("A"), Some("a@b.com"), Some("Hi"), Some("Hello there"));
    assert AllFieldsPresent(b);
    AcceptsSimpleAddress();
  }

  // ----- upload filter -----

  /** The alternatives of `/jpeg|jpg|png|gif|pdf|doc|docx|shp|kml|geojson/`. */
  const AllowedTokens: seq<string> := ["jpeg", "jpg", "png", "gif", "pdf", "doc", "docx", "shp", "kml", "geojson"]

  /** The unanchored test of the pattern: some alternative occurs somewhere. */
  ghost predicate MatchesAllowedTypes(s: string) {
    exists t :: t in AllowedTokens && Contains(s, t)
  }

  function AnyTokenIn(s: string, tokens: seq<string>): (r: bool)
    ensures r <==> exists t :: t in tokens && Contains(s, t)
  {
    if tokens == [] then false
    else Find(s, tokens[0]) || AnyTokenIn(s, tokens[1..])
  }

  /** The executable `allowedTypes.test(s)`. */
  function AllowedTypesTest(s: string): (r: bool)
    ensures r <==> MatchesAllowedTypes(s)
  {
    AnyTokenIn(s, AllowedTokens)
  }

  /** Index of the last `c` in `s`, if any. */
  function LastIndexOf(s: string, c: char): (r: Option<nat>)
    ensures r.None? <==> c !in s
    ensures r.Some? ==> r.value < |s| && s[r.value] == c && forall k :: r.value < k < |s| ==> s[k] != c
  {
    if s == [] then None
    else if s[|s| - 1] == c then Some(|s| - 1)
    else
      var r := LastIndexOf(s[..|s| - 1], c);
      assert forall k :: 0 <= k < |s| - 1 ==> s[..|s| - 1][k] == s[k];
      assert s == s[..|s| - 1] + [s[|s| - 1]];
      r
  }

  function StripTrailingSlashes(p: string): (r: string)
    ensures r <= p && (r == [] || r[|r| - 1] != '/')
  {
    if p != [] && p[|p| - 1] == '/' then StripTrailingSlashes(p[..|p| - 1]) else p
  }

  /** The last path component, trailing separators ignored. */
  function Basename(p: string): (r: string)
    ensures '/' !in r
  {
    var q := StripTrailingSlashes(p);
    match LastIndexOf(q, '/')
    case None => q
    case Some(i) => q[i + 1..]
  }

  /** Node's POSIX `path.extname`: from the last '.' of the last component to
      its end; empty when that component has no '.', when its only '.' is
      its first character, and for the component "..". */
  function Extname(p: string): (r: string)
    ensures r == [] || (r[0] == '.' && '.' !in r[1..] && '/' !in r)
  {
    var base := Basename(p);
    match LastIndexOf(base, '.')
    case None => ""
    case Some(d) =>
      if d == 0 || base == ".." then ""
      else
        var r := base[d..];
        assert forall k :: 1 <= k < |r| ==> r[k] == base[d + k];
        assert forall k :: 0 <= k < |r| ==> r[k] in base;
        r
  }

  /** Which extension a path gets: a non-empty one is the suffix of the last
      component starting at its last '.', and there is one exactly when that
      component has a '.' after its first character and is not "..". */
  lemma ExtnameIsLastDotSuffix(p: string)
    ensures var b := Basename(p); var r := Extname(p);
      && (r != [] ==> |r| < |b| && b[|b| - |r|..] == r && b != "..")
      && (r != [] <==> (exists k :: 0 < k < |b| && b[k] == '.') && b != "..")
  {
    var b := Basename(p);
    match LastIndexOf(b, '.')
    case None =>
    case Some(d) =>
      if d > 0 && b != ".." {
        assert b[d] == '.';
      } else if d == 0 {
        forall k | 0 < k < |b| ensures b[k] != '.' { }
      }
  }

  datatype FilterDecision = AcceptFile | RejectFile(error: ServerError)

  const InvalidFileTypeMessage: string := "Invalid file type. Only images, documents, and GIS files are allowed."

  /** multer's `fileFilter`: both the lowered extension and the mimetype must
      pass the unanchored test; otherwise an Error goes to the callback. */
  function FileFilter(originalname: string, mimetype: string): (r: FilterDecision)
    ensures r == AcceptFile <==>
      MatchesAllowedTypes(ToLower(Extname(originalname))) && MatchesAllowedTypes(mimetype)
    ensures r != AcceptFile ==> r == RejectFile(PlainError(InvalidFileTypeMessage))
  {
    var extname := AllowedTypesTest(ToLower(Extname(originalname)));
    var mimeOk := AllowedTypesTest(mimetype);
    if mimeOk && extname then AcceptFile
    else RejectFile(PlainError(InvalidFileTypeMessage))
  }

  /** The match is unanchored: an extension and a mimetype that merely
      contain a listed token pass, such as "notes.PDFX" with "text/x-pdfx". */
  lemma FilterIsUnanchored(stem: string, mimeHead: string)
    requires stem != [] && '.' !in stem && '/' !in stem
    ensures FileFilter(stem + ".PDFX", mimeHead + "pdfx") == AcceptFile
  {
    var ext := ".PDFX";
    assert ext[0] == '.' && ext[1] == 'P' && ext[2] == 'D' && ext[3] == 'F' && ext[4] == 'X';
    assert AsciiLower('P') == 'p' && AsciiLower('D') == 'd' && AsciiLower('F') == 'f';
    var m := mimeHead + "pdfx";
    assert m[|mimeHead|] == 'p' && m[|mimeHead| + 1] == 'd' && m[|mimeHead| + 2] == 'f';
    PdfOccurs(m, |mimeHead|);
    ExtensionContainingPdf(stem, ext, m);
  }

  /** An extension whose lowered characters 1..3 read "pdf" passes the
      extension test. */
  lemma ExtensionContainingPdf(stem: string, ext: string, mimetype: string)
    requires stem != [] && '.' !in stem && '/' !in stem
    requires |ext| >= 4 && ext[0] == '.' && '.' !in ext[1..] && '/' !in ext
    requires AsciiLower(ext[1]) == 'p' && AsciiLower(ext[2]) == 'd' && AsciiLower(ext[3]) == 'f'
    requires MatchesAllowedTypes(mimetype)
    ensures FileFilter(stem + ext, mimetype) == AcceptFile
  {
    ExtnameOfStem(stem, ext);
    var lowered := ToLower(ext);
    PdfOccurs(lowered, 1);
    FilterAccepts(stem + ext, mimetype);
  }

  lemma FilterAccepts(originalname: string, mimetype: string)
    requires MatchesAllowedTypes(ToLower(Extname(originalname))) && MatchesAllowedTypes(mimetype)
    ensures FileFilter(originalname, mimetype) == AcceptFile
  {
  }

  /** A path that does not end in '/' has no trailing separators to strip. */
  lemma NoTrailingSlash(p: string)
    requires p == [] || p[|p| - 1] != '/'
    ensures StripTrailingSlashes(p) == p
  {
  }

  /** A path without '/' is its own last component. */
  lemma BasenameOfPlainName(p: string)
    requires '/' !in p
    ensures Basename(p) == p
  {
    if p != [] {
      assert p[|p| - 1] in p;
    }
    NoTrailingSlash(p);
  }

  /** A '.' followed by no other '.' is the last one. */
  lemma LastDotAt(p: string, i: nat)
    requires i < |p| && p[i] == '.'
    requires forall k :: i < k < |p| ==> p[k] != '.'
    ensures LastIndexOf(p, '.') == Some(i)
  {
    assert p[i] in p;
    var d := LastIndexOf(p, '.');
    assert d.Some? && d.value == i;
  }

  /** A file name made of a stem without '.' or '/' and an extension
      without '/' that has no further '.' has that extension. */
  lemma ExtnameOfStem(stem: string, ext: string)
    requires stem != [] && '.' !in stem && '/' !in stem
    requires |ext| > 0 && ext[0] == '.' && '.' !in ext[1..] && '/' !in ext
    ensures Extname(stem + ext) == ext
  {
    var p := stem + ext;
    assert forall k :: 0 <= k < |stem| ==> p[k] == stem[k] && p[k] in stem;
    assert forall k :: |stem| <= k < |p| ==> p[k] == ext[k - |stem|] && p[k] in ext;
    assert forall k :: |stem| < k < |p| ==> p[k] == ext[1..][k - |stem| - 1] && p[k] in ext[1..];
    assert '/' !in p;
    BasenameOfPlainName(p);
    LastDotAt(p, |stem|);
    assert p[0] != '.';
    assert p[|stem|..] == ext;
  }

  lemma PdfOccurs(s: string, i: nat)
    requires i + 3 <= |s| && s[i] == 'p' && s[i + 1] == 'd' && s[i + 2] == 'f'
    ensures MatchesAllowedTypes(s)
  {
    assert s[i..i + 3] == "pdf";
    assert OccursAt(s, "pdf", i);
    assert AllowedTokens[4] == "pdf";
    assert Contains(s, AllowedTokens[4]);
  }

  lemma NothingInEmpty(t: string)
    requires |t| > 0
    ensures !Contains("", t)
  {
  }

  /** A name without extension is rejected whatever its mimetype. */
  lemma NoExtensionRejected(originalname: string, mimetype: string)
    requires '.' !in Basename(originalname)
    ensures FileFilter(originalname, mimetype) == RejectFile(PlainError(InvalidFileTypeMessage))
  {
    assert Extname(originalname) == "";
    assert ToLower("") == "";
    forall t | t in AllowedTokens ensures !Contains("", t) {
      NothingInEmpty(t);
    }
  }

  // ----- GET /api/gis/data/:type -----

  /** The two literal GeoJSON feature collections. */
  datatype Collection = Points | Polygons

  /** What `sampleData[type] || sampleData.points` yields: one of the two
      collections, or a truthy member of `Object.prototype` that the plain
      object inherits. */
  datatype GisValue = Sample(c: Collection) | Inherited(member: string)

  /** The members every plain object inherits from `Object.prototype`; each
      is a function or an object, hence truthy. */
  const ObjectPrototypeMembers: seq<string> := [
    "constructor", "hasOwnProperty", "isPrototypeOf", "propertyIsEnumerable",
    "toLocaleString", "toString", "valueOf", "__defineGetter__",
    "__defineSetter__", "__lookupGetter__", "__lookupSetter__", "__proto__"
  ]

  /** The lookup as written: property access also finds inherited members. */
  function GisDataAsWritten(t: string): (v: GisValue)
    ensures v.Inherited? <==> t in ObjectPrototypeMembers
    ensures v.Inherited? ==> v.member == t
    ensures v == Sample(Polygons) <==> t == "polygons"
    ensures v.Sample? && t != "polygons" ==> v == Sample(Points)
  {
    if t == "points" then Sample(Points)
    else if t == "polygons" then Sample(Polygons)
    else if t in ObjectPrototypeMembers then Inherited(t)
    else Sample(Points)
  }

  /** The lookup as intended: own keys only, `points` for every other type. */
  function GisData(t: string): (c: Collection)
    ensures c == Polygons <==> t == "polygons"
    ensures t != "polygons" ==> c == Points
  {
    if t == "polygons" then Polygons else Points
  }

  /** The request `/api/gis/data/__proto__` does not fall back to points. */
  lemma GisLookupReadsPrototype()
    ensures GisDataAsWritten("__proto__") == Inherited("__proto__")
    ensures GisDataAsWritten("__proto__") != Sample(GisData("__proto__"))
  {
  }

  /** On every type that is not an inherited member the written lookup and
      the intended one agree. */
  lemma GisLookupAgreesOffPrototype(t: string)
    requires t !in ObjectPrototypeMembers
    ensures GisDataAsWritten(t) == Sample(GisData(t))
  {
  }

  // ----- error middleware -----

  /** Errors reaching the middleware: multer's own (with a code) or any other. */
  datatype ServerError = MulterError(code: string, message: string) | PlainError(message: string)

  const MaxUploadBytes: nat := 10 * 1024 * 1024
  const FileTooLarge: string := "File too large. Maximum size is 10MB."

  /** The error multer raises for an upload larger than the configured limit. */
  function SizeLimitError(size: nat): (e: Option<ServerError>)
    ensures e.Some? <==> size > 10485760
    ensures e.Some? ==> e.value.MulterError? && e.value.code == "LIMIT_FILE_SIZE"
  {
    if size > MaxUploadBytes then Some(MulterError("LIMIT_FILE_SIZE", "File too large")) else None
  }

  /** The error middleware; `nodeEnv` is `process.env.NODE_ENV`. */
  function ErrorHandler(e: ServerError, nodeEnv: Option<string>): (r: HttpResponse)
    ensures r.status == 400 <==> e.MulterError? && e.code == "LIMIT_FILE_SIZE"
    ensures r.status == 400 || r.status == 500
    ensures r.status == 400 ==> r.body == ErrorJson(FileTooLarge)
    ensures r.status == 500 ==> r.body.ErrorDetailJson? && r.body.error == "Internal server error"
    ensures r.status == 500 && nodeEnv == Some("production") ==> r.body.message == "Something went wrong!"
    ensures r.status == 500 && nodeEnv != Some("production") ==> r.body.message == e.message
  {
    if e.MulterError? && e.code == "LIMIT_FILE_SIZE" then
      HttpResponse(400, ErrorJson(FileTooLarge))
    else
      HttpResponse(500, ErrorDetailJson("Internal server error",
        if nodeEnv == Some("production") then "Something went wrong!" else e.message))
  }

  /** A file refused by the filter reaches the middleware as a plain Error:
      500, with the filter's message shown outside production. An upload
      over the size limit gets 400. */
  lemma UploadErrorsMapped(originalname: string, mimetype: string, size: nat, nodeEnv: Option<string>)
    ensures FileFilter(originalname, mimetype) != AcceptFile && nodeEnv != Some("production") ==>
      ErrorHandler(FileFilter(originalname, mimetype).error, nodeEnv)
        == HttpResponse(500, ErrorDetailJson("Internal server error", InvalidFileTypeMessage))
    ensures size > MaxUploadBytes ==>
      ErrorHandler(SizeLimitError(size).value, nodeEnv) == HttpResponse(400, ErrorJson(FileTooLarge))
  {
  }
}
