/** The page script js/main.js: active-link selection on scroll, its copy
    of the contact-form validator and submit handler, the two scroll
    thresholds, and Alt+digit navigation. */
module MainPage {
  import opened Common
  import opened Email
  import opened ContactForm

  // ----- active navigation link -----

  /** A `section[id]` element: its id and its layout box. */
  datatype Section = Section(id: string, top: int, height: int)

  /** The scroll position falls inside the section's box. */
  predicate Covers(s: Section, pos: real) {
    s.top as real <= pos < (s.top + s.height) as real
  }

  /** The last section, in document order, that covers `pos`. */
  function LastCovering(sections: seq<Section>, pos: real): (r: Option<nat>)
    ensures r.None? <==> forall i :: 0 <= i < |sections| ==> !Covers(sections[i], pos)
    ensures r.Some? ==> r.value < |sections| && Covers(sections[r.value], pos)
    ensures r.Some? ==> forall j :: r.value < j < |sections| ==> !Covers(sections[j], pos)
  {
    if sections == [] then None
    else if Covers(sections[|sections| - 1], pos) then Some(|sections| - 1)
    else LastCovering(sections[..|sections| - 1], pos)
  }

  /** `currentSection` after the loop: the id of the last covering section,
      or '' when none covers. */
  function CurrentSection(sections: seq<Section>, pos: real): string {
    match LastCovering(sections, pos)
    case None => ""
    case Some(i) => sections[i].id
  }

  /** The offset `updateActiveNav` adds to the scroll position. */
  const NavOffset: real := 100.0

  /** `updateActiveNav`: `active[i]` is whether the i-th `.nav-link`, with
      href `hrefs[i]` (`None` when it has none), carries `active`. */
  method UpdateActiveNav(sections: seq<Section>, scrollY: real, hrefs: seq<Option<string>>, active: array<bool>)
      returns (currentSection: string)
    requires active.Length == |hrefs|
    modifies active
    ensures currentSection == CurrentSection(sections, scrollY + NavOffset)
    ensures forall i :: 0 <= i < active.Length ==> (active[i] <==> hrefs[i] == Some("#" + currentSection))
  {
    currentSection := "";
    var scrollPos := scrollY + NavOffset;
    var k := 0;
    while k < |sections|
      invariant 0 <= k <= |sections|
      invariant currentSection == CurrentSection(sections[..k], scrollPos)
    {
      assert sections[..k + 1][..k] == sections[..k];
      var section := sections[k];
      if scrollPos >= section.top as real && scrollPos < (section.top + section.height) as real {
        currentSection := section.id;
      }
      k := k + 1;
    }
    assert sections[..k] == sections;
    var i := 0;
    while i < active.Length
      invariant 0 <= i <= active.Length
      invariant forall j :: 0 <= j < i ==> (active[j] <==> hrefs[j] == Some("#" + currentSection))
    {
      active[i] := false;
      if hrefs[i] == Some("#" + currentSection) {
        active[i] := true;
      }
      i := i + 1;
    }
  }

  /** When two sections cover the position, the later one is chosen. */
  lemma LaterSectionWins(sections: seq<Section>, pos: real, i: nat, j: nat)
    requires i < j < |sections| && Covers(sections[i], pos) && Covers(sections[j], pos)
    ensures LastCovering(sections, pos).Some? && LastCovering(sections, pos).value >= j
  {
  }

  // ----- the page's copy of the contact validator -----

  /** A `FormData.get` value as a regular expression test and a template
      literal read it: `null` becomes "null". */
  function FieldText(f: Option<string>): string {
    match f
    case None => "null"
    case Some(s) => s
  }

  lemma NullIsNotAnEmail()
    ensures !MatchesPattern("null")
  {
    EmailRuleMatchesPattern("null");
    assert Count("null", '@') == 0;
  }

  /** `validateForm(formData)`: a missing email is tested as "null" and
      refused; a missing message, once the email passed, throws on
      `.length`. With both fields present it decides as the other copy. */
  function ValidateFormData(email: Option<string>, message: Option<string>): (v: Verdict)
    ensures email.None? ==> v == EmailRejected
    ensures email.Some? && !MatchesPattern(email.value) ==> v == EmailRejected
    ensures email.Some? && MatchesPattern(email.value) && message.None? ==> v == Threw
    ensures email.Some? && message.Some? ==> v == Validate(email, message)
    ensures v == Accepted ==> email.Some? && message.Some?
  {
    NullIsNotAnEmail();
    EmailRuleMatchesPattern(FieldText(email));
    if !IsValidEmail(FieldText(email)) then EmailRejected
    else if message.None? then Threw
    else if |message.value| < MinMessageLength then MessageTooShort
    else Accepted
  }

  /** The submit handler of js/main.js; a missing name or subject appears as
      "null" in the link. */
  function SubmitFormData(f: FormFields): (r: SubmitOutcome)
    ensures r.Navigate? ==> ValidateFormData(f.email, f.message) == Accepted
    ensures ValidateFormData(f.email, f.message) in {EmailRejected, MessageTooShort} ==>
      r == Refused(ValidateFormData(f.email, f.message))
    ensures ValidateFormData(f.email, f.message) == Threw ==> r == Failed
    ensures ValidateFormData(f.email, f.message) == Accepted ==> (r.Navigate? <==> f.hasSubmitButton)
    ensures ValidateFormData(f.email, f.message) == Accepted && !f.hasSubmitButton ==> r == Failed
    ensures r.Navigate? ==>
      r.link == Mailto(Recipient, FieldText(f.subject), MailtoBody(FieldText(f.name), f.email.value, f.message.value))
  {
    var v := ValidateFormData(f.email, f.message);
    if v == Threw then Failed
    else if v != Accepted then Refused(v)
    else if !f.hasSubmitButton then Failed
    else Navigate(Mailto(Recipient, FieldText(f.subject), MailtoBody(FieldText(f.name), f.email.value, f.message.value)))
  }

  // ----- scroll thresholds -----

  const ScrolledThreshold: real := 50.0
  const BackToTopThreshold: real := 300.0

  /** `classList.add` when `on`, `classList.remove` otherwise. */
  function SetClass(classes: set<string>, c: string, on: bool): (r: set<string>)
    ensures c in r <==> on
    ensures r - {c} == classes - {c}
  {
    if on then classes + {c} else classes - {c}
  }

  /** `updateNavbar` on the navbar's class list. */
  function UpdateNavbar(classes: set<string>, scrollY: real): (r: set<string>)
    ensures "scrolled" in r <==> scrollY > 50.0
    ensures r - {"scrolled"} == classes - {"scrolled"}
  {
    SetClass(classes, "scrolled", scrollY > ScrolledThreshold)
  }

  /** The scroll listener on the back-to-top button's class list. */
  function UpdateBackToTop(classes: set<string>, scrollY: real): (r: set<string>)
    ensures "show" in r <==> scrollY > 300.0
    ensures r - {"show"} == classes - {"show"}
  {
    SetClass(classes, "show", scrollY > BackToTopThreshold)
  }

  /** `scrolled` is on exactly above 50 and `show` exactly above 300,
      whatever the lists held before, and no other class changes. */
  lemma ThresholdsDecide(nav: set<string>, button: set<string>, scrollY: real)
    ensures "scrolled" in UpdateNavbar(nav, scrollY) <==> scrollY > 50.0
    ensures "show" in UpdateBackToTop(button, scrollY) <==> scrollY > 300.0
    ensures UpdateNavbar(nav, scrollY) - {"scrolled"} == nav - {"scrolled"}
    ensures UpdateBackToTop(button, scrollY) - {"show"} == button - {"show"}
  {
  }

  /** Re-running a listener at the same position changes nothing, and the
      button shows only when the navbar is already in its scrolled style. */
  lemma ThresholdsConsistent(nav: set<string>, button: set<string>, scrollY: real)
    ensures UpdateNavbar(UpdateNavbar(nav, scrollY), scrollY) == UpdateNavbar(nav, scrollY)
    ensures UpdateBackToTop(UpdateBackToTop(button, scrollY), scrollY) == UpdateBackToTop(button, scrollY)
    ensures "show" in UpdateBackToTop(button, scrollY) ==> "scrolled" in UpdateNavbar(nav, scrollY)
  {
    var n := UpdateNavbar(nav, scrollY);
    var n2 := UpdateNavbar(n, scrollY);
    assert n2 - {"scrolled"} == n - {"scrolled"};
    assert n2 == (n2 - {"scrolled"}) + (n2 * {"scrolled"});
    assert n == (n - {"scrolled"}) + (n * {"scrolled"});
    var b := UpdateBackToTop(button, scrollY);
    var b2 := UpdateBackToTop(b, scrollY);
    assert b2 == (b2 - {"show"}) + (b2 * {"show"});
    assert b == (b - {"show"}) + (b * {"show"});
  }

  // ----- Alt + digit -----

  const SectionIds: seq<string> := ["home", "about", "skills", "experience", "projects", "certifications", "contact"]

  /** The section Alt+`key` scrolls to. A single digit is numeric and is
      parsed; the index is one less; an index outside the list reads
      `undefined` and nothing happens. */
  function AltTarget(altKey: bool, key: string): (r: Option<string>)
    ensures r.Some? <==> altKey && |key| == 1 && '1' <= key[0] <= '7'
    ensures r.Some? ==> r.value == SectionIds[key[0] as int - '1' as int]
  {
    if altKey && |key| == 1 && '0' <= key[0] <= '9' then
      var index := (key[0] as int - '0' as int) - 1;
      if 0 <= index < |SectionIds| then Some(SectionIds[index]) else None
    else None
  }

  /** Distinct digits lead to distinct sections, and every section has one. */
  lemma AltTargetsOneToOne(k1: string, k2: string, id: string)
    ensures AltTarget(true, k1).Some? && AltTarget(true, k1) == AltTarget(true, k2) ==> k1 == k2
    ensures id in SectionIds ==> exists c :: '1' <= c <= '7' && AltTarget(true, [c]) == Some(id)
  {
    if AltTarget(true, k1).Some? && AltTarget(true, k1) == AltTarget(true, k2) {
      assert k1 == [k1[0]] && k2 == [k2[0]];
    }
    if id in SectionIds {
      var i :| 0 <= i < |SectionIds| && SectionIds[i] == id;
      var c := ('1' as int + i) as char;
      assert AltTarget(true, [c]) == Some(id);
    }
  }

  lemma AltKeyExamples()
    ensures AltTarget(true, "1") == Some("home")
    ensures AltTarget(true, "7") == Some("contact")
    ensures AltTarget(true, "0") == None && AltTarget(true, "8") == None
    ensures AltTarget(false, "1") == None
  {
  }
}
