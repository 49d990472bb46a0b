/**
 * The contact form's e-mail format check, the regular expression
 * `^[^\s@]+@[^\s@]+\.[^\s@]+$` of script.js, applied to the raw field value.
 */
module EmailPattern {
  import opened Wrappers
  import opened JsText
  import opened Search

  /** The character class `[^\s@]`. */
  predicate IsAddressChar(c: char) {
    !IsSpace(c) && c != '@'
  }

  predicate AllAddressChars(s: string) {
    forall i :: 0 <= i < |s| ==> IsAddressChar(s[i])
  }

  /**
   * Reference reading of the regular expression: the `@` at index `at` and the
   * `.` at index `dot` cut `s` into three non-empty runs of `[^\s@]`.
   */
  ghost predicate SplitsAsEmail(s: string, at: int, dot: int) {
    0 < at && at + 1 < dot && dot + 1 < |s| && s[at] == '@' && s[dot] == '.'
    && AllAddressChars(s[..at]) && AllAddressChars(s[at + 1..dot]) && AllAddressChars(s[dot + 1..])
  }

  /** The regular expression accepts `s`: some way of matching it succeeds. */
  ghost predicate RegexAccepts(s: string) {
    exists at, dot :: SplitsAsEmail(s, at, dot)
  }

  predicate IsAt(c: char) {
    c == '@'
  }

  /** The first `@` is the one at `at` when no `@` comes before it. */
  lemma FirstWhereIsFirst(s: string, at: nat)
    requires at < |s| && IsAt(s[at])
    requires forall j :: 0 <= j < at ==> !IsAt(s[j])
    ensures FirstWhere(s, IsAt) == Some(at)
  {
    var r := FirstWhere(s, IsAt);
    assert r.Some? && r.value <= at;
  }

  /**
   * The match as a direct check: a non-empty local part before the only `@`,
   * and after it a run of `[^\s@]` holding a `.` that is neither its first nor
   * its last character (the `+` before `\.` may take other dots with it).
   */
  predicate MatchesEmail(s: string) {
    match FirstWhere(s, IsAt)
    case None => false
    case Some(at) =>
      var domain := s[at + 1..];
      0 < at && AllAddressChars(s[..at]) && AllAddressChars(domain)
      && |domain| >= 3 && '.' in domain[1..|domain| - 1]
  }

  /** Every string the direct check accepts, the regular expression accepts. */
  lemma MatchesEmailSound(s: string)
    requires MatchesEmail(s)
    ensures RegexAccepts(s)
  {
    var at := FirstWhere(s, IsAt).value;
    var domain := s[at + 1..];
    var inner := domain[1..|domain| - 1];
    var k :| 0 <= k < |inner| && inner[k] == '.';
    var dot := at + 2 + k;
    assert s[dot] == '.';
    assert s[at + 1..dot] == domain[..k + 1];
    assert s[dot + 1..] == domain[k + 2..];
    assert SplitsAsEmail(s, at, dot);
  }

  /** Every string the regular expression accepts, the direct check accepts. */
  lemma MatchesEmailComplete(s: string)
    requires RegexAccepts(s)
    ensures MatchesEmail(s)
  {
    var at, dot :| SplitsAsEmail(s, at, dot);
    forall j | 0 <= j < at ensures !IsAt(s[j]) {
      assert s[..at][j] == s[j];
    }
    FirstWhereIsFirst(s, at);
    var domain := s[at + 1..];
    forall j | 0 <= j < |domain| ensures IsAddressChar(domain[j]) {
      var i := at + 1 + j;
      if i < dot {
        assert s[at + 1..dot][j] == s[i];
      } else if i > dot {
        assert s[dot + 1..][i - dot - 1] == s[i];
      }
    }
    var inner := domain[1..|domain| - 1];
    assert inner[dot - at - 2] == '.';
  }

  /** The direct check agrees with the regular expression on every string. */
  lemma MatchesEmailIff(s: string)
    ensures MatchesEmail(s) <==> RegexAccepts(s)
  {
    if MatchesEmail(s) {
      MatchesEmailSound(s);
    }
    if RegexAccepts(s) {
      MatchesEmailComplete(s);
    }
  }

  /** A full address is accepted. */
  lemma AcceptsFullAddress()
    ensures MatchesEmail("a@b.com")
  {
    FirstWhereIsFirst("a@b.com", 1);
    assert "a@b.com"[2..][1..4][0] == '.';
  }

  /** An address without a top-level part is rejected. */
  lemma RejectsMissingTopLevel()
    ensures !MatchesEmail("a@b")
  {
    FirstWhereIsFirst("a@b", 1);
  }

  /** White space alone, or inside the local part, is rejected. */
  lemma RejectsWhiteSpace()
    ensures !MatchesEmail(" ")
    ensures !MatchesEmail("a b@c.d")
  {
    FirstWhereIsFirst("a b@c.d", 3);
    assert "a b@c.d"[..3][1] == ' ';
  }
}
