/** The e-mail pattern `/^[^\s@]+@[^\s@]+\.[^\s@]+$/`, used verbatim by the
    contact route of the server and by both client-side form validators. */
module Email {
  import opened Common

  /** A run matched by `[^\s@]+`: non-empty, without whitespace or '@'. */
  ghost predicate Run(t: string) {
    |t| > 0 && forall k :: 0 <= k < |t| ==> !IsWhitespace(t[k]) && t[k] != '@'
  }

  /** What the anchored pattern accepts, read off its structure: the whole
      string splits as run '@' run '.' run. */
  ghost predicate MatchesPattern(s: string) {
    exists i, j :: 0 <= i < j < |s| && s[i] == '@' && s[j] == '.'
      && Run(s[..i]) && Run(s[i + 1..j]) && Run(s[j + 1..])
  }

  /** Number of occurrences of `c` in `s`. */
  function Count(s: string, c: char): (n: nat)
    ensures n == 0 <==> c !in s
  {
    if s == [] then 0 else (if s[0] == c then 1 else 0) + Count(s[1..], c)
  }

  /** Index of the first `c` in `s`. */
  function IndexOf(s: string, c: char): (r: nat)
    requires c in s
    ensures r < |s| && s[r] == c
    ensures forall k :: 0 <= k < r ==> s[k] != c
  {
    if s[0] == c then 0 else 1 + IndexOf(s[1..], c)
  }

  /** The domain has a '.' that is neither its first nor its last character. */
  predicate HasInnerDot(d: string) {
    exists k :: 0 < k < |d| - 1 && d[k] == '.'
  }

  /** The explicit e-mail rule: no whitespace, exactly one '@', a non-empty
      local part, and a domain with an inner '.'. */
  predicate IsValidEmail(s: string) {
    && (forall k :: 0 <= k < |s| ==> !IsWhitespace(s[k]))
    && Count(s, '@') == 1
    && var at := IndexOf(s, '@');
       at > 0 && HasInnerDot(s[at + 1..])
  }

  /** With `s[i] == c`, one occurrence means no occurrence elsewhere. */
  lemma {:induction false} CountOne(s: string, c: char, i: nat)
    requires i < |s| && s[i] == c
    ensures Count(s, c) == 1 <==> forall k :: 0 <= k < |s| && k != i ==> s[k] != c
  {
    if i == 0 {
      assert forall k :: 1 <= k < |s| ==> s[k] == s[1..][k - 1];
    } else if s[0] == c {
      assert s[1..][i - 1] == c;
    } else {
      CountOne(s[1..], c, i - 1);
      assert forall k :: 1 <= k < |s| ==> s[k] == s[1..][k - 1];
    }
  }

  lemma RunOfSlice(s: string, lo: nat, hi: nat)
    requires lo < hi <= |s|
    requires forall k :: lo <= k < hi ==> !IsWhitespace(s[k]) && s[k] != '@'
    ensures Run(s[lo..hi])
  {
    forall m | 0 <= m < hi - lo ensures !IsWhitespace(s[lo..hi][m]) && s[lo..hi][m] != '@' {
      assert s[lo..hi][m] == s[lo + m];
    }
  }

  lemma RuleImpliesPattern(s: string)
    requires IsValidEmail(s)
    ensures MatchesPattern(s)
  {
    var i := IndexOf(s, '@');
    CountOne(s, '@', i);
    var d := s[i + 1..];
    var k :| 0 < k < |d| - 1 && d[k] == '.';
    var j := i + 1 + k;
    assert s[j] == '.';
    assert !IsWhitespace('.');
    RunOfSlice(s, 0, i);
    RunOfSlice(s, i + 1, j);
    RunOfSlice(s, j + 1, |s|);
    assert s[j + 1..|s|] == s[j + 1..];
    assert s[0..i] == s[..i];
  }

  /** Every character of a split string is outside `\s`, and only the
      splitting '@' is an '@'. */
  lemma SplitCharacters(s: string, i: nat, j: nat)
    requires i < j < |s| && s[i] == '@' && s[j] == '.'
    requires Run(s[..i]) && Run(s[i + 1..j]) && Run(s[j + 1..])
    ensures forall k :: 0 <= k < |s| ==> !IsWhitespace(s[k])
    ensures forall k :: 0 <= k < |s| && k != i ==> s[k] != '@'
  {
    forall k | 0 <= k < |s| ensures !IsWhitespace(s[k]) && (k != i ==> s[k] != '@') {
      if k < i {
        assert s[k] == s[..i][k];
      } else if i < k < j {
        assert s[k] == s[i + 1..j][k - i - 1];
      } else if j < k {
        assert s[k] == s[j + 1..][k - j - 1];
      }
    }
  }

  lemma PatternImpliesRule(s: string)
    requires MatchesPattern(s)
    ensures IsValidEmail(s)
  {
    var i, j :| 0 <= i < j < |s| && s[i] == '@' && s[j] == '.'
      && Run(s[..i]) && Run(s[i + 1..j]) && Run(s[j + 1..]);
    SplitCharacters(s, i, j);
    CountOne(s, '@', i);
    assert IndexOf(s, '@') == i;
    var d := s[i + 1..];
    assert d[j - (i + 1)] == '.';
    assert 0 < j - (i + 1) < |d| - 1;
  }

  /** The explicit rule decides exactly the strings the pattern accepts. */
  lemma EmailRuleMatchesPattern(s: string)
    ensures IsValidEmail(s) <==> MatchesPattern(s)
  {
    if IsValidEmail(s) { RuleImpliesPattern(s); }
    if MatchesPattern(s) { PatternImpliesRule(s); }
  }

  /** Whitespace anywhere rejects the address. */
  lemma WhitespaceRejected(s: string, k: nat)
    requires k < |s| && IsWhitespace(s[k])
    ensures !MatchesPattern(s)
  {
    EmailRuleMatchesPattern(s);
  }

  /** "not-an-email" has no '@' and is rejected. */
  lemma RejectsNotAnEmail()
    ensures !MatchesPattern("not-an-email")
  {
    var bad := "not-an-email";
    assert '@' !in bad by {
      forall k | 0 <= k < |bad| ensures bad[k] != '@' { }
    }
    NoAtSignNoMatch(bad);
  }

  /** A string without '@' does not match. */
  lemma NoAtSignNoMatch(s: string)
    requires '@' !in s
    ensures !MatchesPattern(s)
  {
    if MatchesPattern(s) { PatternImpliesRule(s); }
  }

  /** "a@b.com" splits as "a" '@' "b" '.' "com" and is accepted. */
  lemma AcceptsSimpleAddress()
    ensures MatchesPattern("a@b.com")
  {
    var good := "a@b.com";
    assert good[1] == '@' && good[3] == '.';
    assert good[..1] == "a";
    assert good[2..3] == "b";
    assert good[4..] == "com";
    assert Run("a");
    assert Run("b");
    assert Run("com");
  }
}
