# Portfolio site: offline cache worker, request validators and page state

A Dafny model of the parts of the AnnShrestha/Profile portfolio that make
decisions:

- **The offline cache worker** (`sw.js`). A `CacheStorage` class holds a map
  from cache name to cache (a map from request URL to response) and the
  names in creation order. Its methods follow the Cache and CacheStorage
  interfaces of the W3C Service Workers specification (section 5.4, Cache;
  section 5.5, CacheStorage): `match` across caches in name order, `put`,
  all-or-nothing `addAll`, `open`, `keys` and `delete`. The worker's three
  handlers, `Install`, `HandleFetch` and `Activate`, are methods over that
  store. Each is proved equal to a pure effect function, and the lemmas
  state the handlers' rules about those functions:
  - a cache hit short-circuits the network;
  - write-through happens only for 200 `basic` responses;
  - only the current cache is ever written;
  - activate keeps only the whitelisted cache and is idempotent.
- **The Express server's validators** (`backend/server.js`), as pure
  functions:
  - the contact route: required fields, then the email rule, then the mail
    options and the send outcome;
  - the upload file filter, with Node's POSIX `path.extname`;
  - the GeoJSON type lookup;
  - the error middleware.
- **The page scripts** (`js/main.js`, `js/contact-form.js`):
  - the typing animation, a class whose `Tick` and `SwitchToDeleting`
    events keep an invariant;
  - the active-link update, a method with two loops over sections and
    links;
  - the two client validators and submit handlers, with the mailto body and
    a parser that reads it back;
  - the scroll-threshold class toggles and the Alt+digit section map.

The email pattern `/^[^\s@]+@[^\s@]+\.[^\s@]+$/` appears three times in the
source. It is written once (`Email.IsValidEmail`), as an explicit rule:
- no whitespace character;
- exactly one `@`;
- a non-empty local part;
- a domain with a `.` that is neither its first nor its last character.

`Email.EmailRuleMatchesPattern` proves this rule equivalent to a direct
statement of what the pattern matches. The `Agreement` module relates the
three checks to one another.

Inputs the code cannot see are parameters:
- the network's result for each fetch (`NetResult`);
- whether storage accepts a write (`writable`);
- whether `sendMail` resolves (`sendOk`);
- `process.env.EMAIL_USER` and `NODE_ENV`;
- scroll positions and section boxes;
- which form elements exist.

Timers are abstract events. Logging is not modelled.

Three behaviours of the source are easy to misread, and the model follows
the code in each:
- sw.js:35-37: a failed `addAll` is caught and logged, so the promise given
  to `waitUntil` still resolves and the install event does not fail.
  `Install` reports `PrecacheFailedLogged` and ends with the store
  unchanged, except that the current cache may now exist empty.
- backend/server.js:533-536: the error middleware sends `error.message` in
  every environment but `production`, so upstream detail reaches the client
  there (`Server.ErrorHandler`).
- sw.js:61-64: the `put` has no rejection handler, so a failed cache write
  is not handled by the code. The model only records that the reply
  does not depend on the write (`FetchReply` takes no `writable`).

## Model

| member | source | states |
|---|---|---|
| Common.Find | backend/server.js:82-84 | true exactly when the token occurs at some position of the string: the unanchored test of one alternative |
| Common.ToLower | backend/server.js:83 | same length; each character is lowered if it is an ASCII capital, kept otherwise |
| Email.EmailRuleMatchesPattern | backend/server.js:211-212 | the explicit rule holds iff the string is a run of non-whitespace non-`@` characters, `@`, such a run, `.`, such a run |
| Email.WhitespaceRejected | backend/server.js:211-212 | a string with any whitespace character does not match |
| Email.RejectsNotAnEmail | backend/server.js:211-216 | "not-an-email" does not match |
| Email.AcceptsSimpleAddress | backend/server.js:211-212 | "a@b.com" matches |
| CacheApi.FirstHit | sw.js:44 | no response iff no named cache holds the URL; otherwise the entry of the first cache, in name order, that holds it |
| CacheApi.OpenEffect | sw.js:30 | the named cache exists afterwards |
| CacheApi.Keep | sw.js:78-85 | the result holds exactly the listed names that are in the kept set; distinct names stay distinct; nothing kept gives the empty list |
| CacheApi.KeepIdempotent | sw.js:78-85 | filtering the names twice equals filtering once |
| CacheApi.BatchContents | sw.js:33 | after a batch the keys are the old keys plus the URLs; entries for other URLs are unchanged; with distinct URLs each maps to its fetched response |
| CacheApi.HitAfterPut | sw.js:61-64 | once a URL is stored in one cache and in no other, `match` returns that response |
| CacheApi.CacheStorage.constructor | sw.js:30 | the store starts in the given well-formed state |
| CacheApi.CacheStorage.Open | sw.js:30 | the state becomes `OpenEffect`: an existing cache is kept; a new name gets an empty cache and is appended to the names |
| CacheApi.CacheStorage.Match | sw.js:44 | returns `MatchSpec`: nothing for a non-GET request, else the first hit in name order; the store is unchanged |
| CacheApi.CacheStorage.Put | sw.js:63 | succeeds iff the request is GET, the status is not 206 and storage is writable; then the entry is set in the named cache, else nothing changes |
| CacheApi.CacheStorage.AddAll | sw.js:33 | succeeds iff every fetch delivered a non-error, 2xx, non-206 response, the URLs are distinct and storage is writable; only then are all entries added |
| CacheApi.CacheStorage.Keys | sw.js:78 | returns the cache names in creation order, without duplicates |
| CacheApi.CacheStorage.Delete | sw.js:82 | reports whether the name existed; removes that cache and its name, and nothing else |
| CacheApi.BuildBatch | sw.js:33 | the loop computes the batch of responses for the URLs |
| ServiceWorker.Install | sw.js:28-39 | opens the current cache, then runs addAll over the URL list; reports success or the logged failure; the new state is `InstallEffect` |
| ServiceWorker.UrlsToCacheDistinct | sw.js:2-25 | the 22 listed URLs are pairwise distinct |
| CacheApi.AddAllStoresEveryUrl | sw.js:33 | a successful addAll leaves every URL of the batch in the named cache, holding the response fetched for it |
| ServiceWorker.InstallPrecachesEveryUrl | sw.js:28-34 | after a successful install every listed URL is a key of the current cache, holding the response fetched for it |
| ServiceWorker.InstallAllOrNothing | sw.js:33-37 | when addAll fails, no URL is stored: the caches equal the old ones, plus the current cache empty if it was new |
| ServiceWorker.InstallTouchesOnlyCurrentCache | sw.js:30-33 | every other cache is unchanged by install |
| ServiceWorker.HandleFetch | sw.js:42-71 | runs match, then on a miss the network, the 200-and-basic guard, open and put; the reply is `FetchReply` and the new state `FetchStore` |
| ServiceWorker.Cacheable | sw.js:54 | the write-through guard: true iff the status is 200 and the type is `basic`; `WriteThroughThenHit` and `UncacheableResponsePassesThrough` state what each side of it does |
| ServiceWorker.CacheHitShortCircuits | sw.js:44-49 | when any cache holds a GET request's URL, the stored response is returned, the network is not consulted and no cache changes |
| ServiceWorker.WriteThroughThenHit | sw.js:51-66 | on a miss, a 200 `basic` response is returned and stored in the current cache; an identical later request is a hit on it without the network |
| ServiceWorker.UncacheableResponsePassesThrough | sw.js:54-56 | a non-200 or non-basic response is returned unchanged and no cache is modified |
| ServiceWorker.NetworkFailurePropagates | sw.js:51-68 | on a miss a network failure is passed on as the reply and no cache changes |
| ServiceWorker.FetchWritesOnlyCurrentCache | sw.js:61-66 | every cache but the current one keeps its entries, and no other new cache name appears |
| ServiceWorker.NonGetNeverCached | sw.js:44-63 | a non-GET request always goes to the network and nothing is stored; at most the current cache is created empty |
| ServiceWorker.Activate | sw.js:74-88 | the loop over the names snapshot deletes every cache not in the whitelist; the new state is `ActivateEffect` |
| ServiceWorker.ActivateKeepsOnlyCurrent | sw.js:75-87 | afterwards every cache name is the current one, and the current cache's entries are untouched |
| ServiceWorker.ActivateIdempotent | sw.js:75-87 | activating twice equals activating once |
| ServiceWorker.InstallKeepsWellFormed | sw.js:28-34 | whatever the network does, install leaves the store well formed and the current cache in it |
| ServiceWorker.ActivateWithCurrent | sw.js:75-87 | activating a store that holds the current cache leaves exactly that name, with its entries unchanged |
| ServiceWorker.InstallThenActivate | sw.js:28-88 | a successful install followed by activate leaves exactly the current cache, holding every listed URL |
| Server.ReplaceNewlines | backend/server.js:229 | the result contains no line break |
| Server.ReplaceRoundTrip | backend/server.js:229 | reading each "<br>" back as a line break restores any message that had no literal "<br>" |
| Server.HandleContact | backend/server.js:199-254 | a missing or empty field gives 400 "All fields are required" before the email check; then an address off the pattern gives 400 with the email error; mail is attempted iff both pass; it goes to the fixed address with subject "Portfolio Contact: " + subject, replyTo the sender and from `EMAIL_USER`, with the templated HTML; the reply is 200 with the success message or 500 with the generic error |
| Server.MailHtml | backend/server.js:224-233 | the HTML is the fixed head with name, email and subject, then the message with every line break written as "<br>" (no line break left in it), then the fixed tail; only the middle part depends on the message |
| Server.BuildMailOptions | backend/server.js:219-235 | the options come from `EMAIL_USER`, go to the fixed address, reply to the sender's email, carry the subject "Portfolio Contact: " followed by the form subject, and hold the templated HTML |
| Server.MessageReadsBack | backend/server.js:229 | in the mail's HTML, the message paragraph with every "<br>" read back as a line break is the message, for any message without a literal "<br>" |
| Server.MailCarriesMessage | backend/server.js:219-235 | the attempted mail's HTML is the template, and reading the "<br>"s back as line breaks in its message paragraph restores the submitted message, for any message without a literal "<br>" |
| Server.ContactRefusesAddressIff | backend/server.js:204-216 | with every field filled in, the reply is 400 with the email error exactly when the address is off the pattern |
| Server.ContactRejectsMalformedAddress | backend/server.js:211-216 | "not-an-email" with the other fields filled gets 400 with the email error and no mail attempt |
| Server.ContactSendsWellFormed | backend/server.js:204-246 | "a@b.com" with all fields filled and a resolving send gets 200 with the success message and one mail attempt |
| Server.AllowedTypesTest | backend/server.js:82-84 | true iff some listed token occurs anywhere in the string |
| Server.Extname | backend/server.js:83 | the extension is empty, or begins with its only `.` and contains no `/` |
| Server.FileFilter | backend/server.js:81-91 | accepts iff the lowered extension and the mimetype each contain a listed token; otherwise rejects with the invalid-type error |
| Server.ExtnameIsLastDotSuffix | backend/server.js:83 | a non-empty extension is a proper suffix of the last path component, which is not ".."; there is one iff that component has a `.` after its first character and is not ".." |
| Server.ExtnameOfStem | backend/server.js:83 | a name made of a stem without `.` or `/` and an extension that starts with its only `.` and holds no `/` has exactly that extension |
| Server.ExtensionContainingPdf | backend/server.js:82-89 | an extension whose lowered characters after the dot begin with "pdf" passes the extension test, whatever follows, so the file is accepted with any passing mimetype |
| Server.FilterIsUnanchored | backend/server.js:82-86 | any stem without `.` or `/` plus ".PDFX", with any mimetype ending in "pdfx" (such as "text/x-pdfx"), is accepted: a token inside a longer extension and a longer mimetype passes |
| Server.NoExtensionRejected | backend/server.js:83-89 | a name whose last component has no `.` is rejected whatever the mimetype |
| Server.GisDataAsWritten | backend/server.js:388 | as written: an inherited member exactly for the twelve `Object.prototype` names, polygons exactly for "polygons", points for every other type |
| Server.GisData | backend/server.js:388 | corrected lookup: polygons exactly for "polygons", points for every other type |
| Server.GisLookupReadsPrototype | backend/server.js:388 | as written, type "__proto__" yields the inherited prototype, not the points collection |
| Server.GisLookupAgreesOffPrototype | backend/server.js:388 | for every type that names no inherited member, the written lookup equals the corrected one |
| Server.SizeLimitError | backend/server.js:78-79 | an upload over 10485760 bytes raises a multer error with code LIMIT_FILE_SIZE, and no smaller one does |
| Server.ErrorHandler | backend/server.js:524-537 | 400 with "File too large. Maximum size is 10MB." exactly for LIMIT_FILE_SIZE, else 500 "Internal server error"; the detail is "Something went wrong!" in production and the error's message otherwise |
| Server.UploadErrorsMapped | backend/server.js:524-537 | a file refused by the filter ends in 500 carrying the filter's message outside production; an oversized upload ends in 400 |
| Typing.Substring | js/main.js:73-76 | `substring(0, end)` is the prefix up to `end` clamped to the string |
| Typing.StartInv | js/main.js:64-66 | the initial variables satisfy the invariant |
| Typing.TickPreservesInv | js/main.js:69-89 | a tick keeps the invariant: the index stays in range, `charIndex` is never negative, the shown text is the clamped prefix of the current title, and at most one switch is pending |
| Typing.SwitchPreservesInv | js/main.js:81 | the scheduled switch to deleting keeps the invariant |
| Typing.TickSteps | js/main.js:72-88 | a tick raises `charIndex` by one while typing and lowers it by one while deleting; the next delay is 50 when deleting and 100 otherwise |
| Typing.DeletionAdvances | js/main.js:82-85 | deleting down to zero clears the text, stops deleting and moves to the next title, wrapping after the last |
| Typing.HoldWhilePending | js/main.js:76-81 | while the switch is pending, ticks keep raising `charIndex` and the full title stays shown |
| Typing.Ticks | js/main.js:88 | any number of ticks keeps the invariant |
| Typing.TypingCompletes | js/main.js:76-81 | from any point before the end, the remaining number of ticks reaches the state with the whole title shown, `charIndex` at its length, still typing and the switch scheduled |
| Typing.DeletingCompletes | js/main.js:72-85 | deleting from `charIndex` c for c ticks reaches the state with nothing shown, typing the next title from character 0, nothing pending |
| Typing.TypingAnimation.constructor | js/main.js:64-66 | starts at title 0, character 0, typing, nothing pending |
| Typing.TypingAnimation.Tick | js/main.js:69-89 | the new state is `TickSpec` of the old one, the invariant holds, and the returned delay matches the new `isDeleting` |
| Typing.TypingAnimation.SwitchToDeleting | js/main.js:81 | sets deleting and consumes the pending switch, keeping the invariant |
| MainPage.LastCovering | js/main.js:125-132 | no index iff no section covers the position; otherwise a covering section after which none covers |
| MainPage.UpdateActiveNav | js/main.js:121-140 | the chosen id is the last covering section's, or '' when none covers; afterwards exactly the links whose href is "#" + that id are active |
| MainPage.LaterSectionWins | js/main.js:125-132 | of two covering sections the later one is chosen, or one after it |
| MainPage.NullIsNotAnEmail | js/main.js:214-218 | a missing email, tested as "null", fails the pattern |
| MainPage.ValidateFormData | js/main.js:213-229 | a missing or off-pattern email is refused first; a missing message then throws; with both present it decides as the other copy |
| MainPage.SubmitFormData | js/main.js:233-271 | a refused form does nothing beyond the notice; a missing message after a valid email throws; an accepted form prepares the mailto link iff it has a submit button (else the handler throws on the missing button), with the form subject and the shared body, "null" standing for a missing name or subject |
| MainPage.SetClass | js/main.js:313-317 | the class is present iff the condition holds, and no other class changes |
| MainPage.UpdateNavbar | js/main.js:312-318 | `scrolled` is present afterwards iff scrollY > 50; no other class changes |
| MainPage.UpdateBackToTop | js/main.js:500-506 | `show` is present afterwards iff scrollY > 300; no other class changes |
| MainPage.ThresholdsDecide | js/main.js:312-318 | `scrolled` is on iff scrollY > 50, and likewise `show` iff scrollY > 300 (js/main.js:501-505), whatever was set before |
| MainPage.ThresholdsConsistent | js/main.js:312-318 | re-running either listener at the same position changes nothing, and `show` implies `scrolled` |
| MainPage.AltTarget | js/main.js:524-531 | a section is chosen iff Alt is held and the key is one of '1'..'7', and it is the section at index key − 1 |
| MainPage.AltTargetsOneToOne | js/main.js:525-527 | distinct keys lead to distinct sections, and every section has a key |
| MainPage.AltKeyExamples | js/main.js:524-531 | '1' goes to home and '7' to contact; '0', '8' and a key without Alt do nothing |
| ContactForm.Notice | js/contact-form.js:7-15 | a notification is shown exactly for the two refusals: the email notice for a refused address, the length notice for a short message |
| ContactForm.Judge | js/contact-form.js:6-17 | accepted iff the email matches the pattern and the message has at least 10 characters; the email refusal iff it does not match; the length refusal iff it matches and the message is shorter |
| ContactForm.Validate | js/contact-form.js:2-18 | throws iff an element is missing; otherwise accepted iff both checks pass, the email error reported first |
| ContactForm.EmailCheckedFirst | js/contact-form.js:7-15 | an invalid email with a short message reports only the email error |
| ContactForm.MailtoBody | js/contact-form.js:43 | the body starts with "Name: " and the name, ends with the message, and adds 25 characters of labels and line breaks; `MailtoRoundTrip` shows the three fields can be read back |
| ContactForm.MailtoRoundTrip | js/contact-form.js:43 | the body "Name: …\nEmail: …\n\nMessage:\n…" parses back to its three fields when name and email hold no line break |
| ContactForm.PatternHasNoNewline | js/contact-form.js:6-7 | an address that passes holds no line break |
| ContactForm.Submit | js/contact-form.js:23-60 | a refused form returns before building the link; a missing element throws; an accepted form prepares the link iff the submit button and the name and subject inputs exist (else it throws), and the link goes to the fixed address with the form subject and the body of its fields |
| ContactForm.SubmitBodyRoundTrip | js/contact-form.js:37-43 | for an accepted form whose elements exist, the prepared body reads back as the submitted name, email and message when the name is one line, and the subject is the form's |
| Agreement.EmailChecksAgree | backend/server.js:211-216 | with all fields filled, the server refuses the address exactly when each client validator does |
| Agreement.ClientAcceptanceImpliesDelivery | backend/server.js:204-238 | a submission a client accepts, with name and subject, passes both server checks and is mailed |
| Agreement.ServerAcceptsShortMessage | backend/server.js:204-216 | with a name, a subject and an address on the pattern, any message of one to nine characters is mailed by the server though both clients refuse it as too short |

## Left out

- Cache matching options, `Vary` and headers are not modelled. Neither are URL fragments or scheme checks, nor relative-URL resolution: entries are keyed by the URL string as given.
- Response bodies are values. Cloning and stream consumption are not modelled.
- Storage quota and write errors are a `writable` flag.
- ServiceWorker.HandleFetch: the `put` is applied in the same step as the reply. In the source it is neither awaited nor given a handler, so its completion time and an unhandled rejection are not modelled.
- ServiceWorker.HandleFetch: the `!response` arm of the guard is not modelled, because `fetch` resolves only with a response.
- Concurrent fetch handlers and their interleaving with `put` are not modelled. Neither are `waitUntil`/`respondWith` plumbing or the worker's lifecycle phases.
- Server.HandleContact: JSON field values other than strings are not modelled. A numeric `message`, for example, would throw in `replace` and end in 500 without a mail attempt.
- The server's rate limiters, helmet/CORS, multer disk storage, the nodemailer transport, the GitHub fetch, the health endpoint, shutdown and logging are out of scope. They are configuration, I/O or process state.
- The upload route's response (file names from `Date.now()`/`Math.random()`) is out of scope.
- The literal data payloads are constants without behaviour: portfolio, publications, analytics, blog, the GIS analysis result. So are the GeoJSON coordinates.
- Server.GisDataAsWritten: the JSON that Express sends for an inherited member is not modelled.
- Server.Extname: models Node's POSIX `path.extname` only.
- ContactForm.Notice: js/contact-form.js:8 and :13 call `showNotification`, which js/main.js:275 defines only inside its `DOMContentLoaded` callback, not globally. The model assumes the page provides a global `showNotification`; as written, a refusal would throw a `ReferenceError` instead of showing the notice.
- ContactForm.Validate: assumes a global `showNotification`, as for ContactForm.Notice. Without one, the two refusal branches throw after the check instead of returning false.
- ContactForm.EmailCheckedFirst: assumes a global `showNotification`, as for ContactForm.Notice. Without one, the email refusal throws instead of returning false.
- Server.HandleContact: backend/server.js:95 calls `nodemailer.createTransporter`, while nodemailer's factory is named `createTransport`. The call sits at module level, so as written the server would stop with a `TypeError` at start-up. The model assumes the transport is created; the mail outcome is the `sendOk` parameter.
- Common.ToLower: only ASCII letters are lowered.
- Strings are sequences of characters; UTF-16 code units are not modelled.
- Typing.TypingAnimation.constructor: assumes the `.typed-text` element starts empty. Any other initial content is replaced by the first tick.
- The two-second and tick delays are not measured. `Tick` and `SwitchToDeleting` can occur in any order the timers allow.
- The scroll throttle timer, smooth scrolling, the Escape key, AOS, observers, parallax, counters, tooltips, notifications' DOM and print hooks are presentation code.
- The one-second delay before navigation, `encodeURIComponent` and the form reset are left out. The link is modelled before encoding.
- MainPage.AltTarget: only single-character numeric keys are modelled. Named key values such as "Enter" or "F5" are not numbers, so they choose nothing, as in the source.

## Findings

| source | as written | input that shows it | evidently intended | confidence | as-written member | corrected member |
|---|---|---|---|---|---|---|
| backend/server.js:388 | `sampleData[type] \|\| sampleData.points` also finds the members that every plain object inherits from `Object.prototype` | GET `/api/gis/data/__proto__` (or `constructor`, `toString`, …) answers with the inherited object or function instead of the points collection | any type other than `polygons` answers with `points` | high, not executed | Server.GisLookupReadsPrototype | Server.GisData |
