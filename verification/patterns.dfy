/** The two regular expressions the student form tests: the e-mail shape
    `/^[^\s@]+@[^\s@]+\.[^\s@]+$/` and the phone shape `/^[\+]?[1-9][\d\s\-\(\)]{8,}$/`.
    Each is stated twice: once read off the pattern (a ghost predicate with
    existentially chosen split points) and once as the direct check the model
    evaluates, with a lemma that the two agree on every string. */
module Patterns {
  import opened Wrappers
  import opened Text

  // ---------------------------------------------------------------------------
  // E-mail

  /** `[^\s@]`: neither whitespace nor `@`. */
  predicate IsEmailChar(c: char) {
    !IsWhitespace(c) && c != '@'
  }

  /** Every character of `s` is an `[^\s@]`. */
  predicate AllEmailChars(s: string) {
    forall i :: 0 <= i < |s| ==> IsEmailChar(s[i])
  }

  /** The e-mail regular expression, read off the pattern: a non-empty `[^\s@]` run,
      `@`, a non-empty run, a `.`, a non-empty run, and nothing else. */
  ghost predicate MatchesEmailPattern(s: string) {
    exists a :: 0 < a < |s| && s[a] == '@' && AllEmailChars(s[..a])
      && exists d :: a + 1 < d < |s| - 1 && s[d] == '.'
                     && AllEmailChars(s[a + 1..d]) && AllEmailChars(s[d + 1..])
  }

  /** The position of the first `c` in `s`, if any. */
  function IndexOf(s: string, c: char): (r: Option<nat>)
    ensures r.None? <==> c !in s
    ensures r.Some? ==> r.value < |s| && s[r.value] == c && c !in s[..r.value]
  {
    if |s| == 0 then None
    else if s[0] == c then Some(0)
    else
      match IndexOf(s[1..], c)
      case None => None
      case Some(i) =>
        assert s[..i + 1] == [s[0]] + s[1..][..i];
        Some(i + 1)
  }

  /** `d` has a `.` with at least one character on each side. */
  predicate HasInnerDot(d: string) {
    exists j :: 0 < j < |d| - 1 && d[j] == '.'
  }

  /** The e-mail check as evaluated: no whitespace anywhere, a first `@` with text
      before it, no second `@`, and an inner `.` in the text after it. */
  function IsValidEmail(s: string): (r: bool)
    ensures r ==> NoWhitespace(s)
    ensures r ==> exists a :: 0 < a < |s| && s[a] == '@' && '@' !in s[..a] && '@' !in s[a + 1..]
  {
    && NoWhitespace(s)
    && match IndexOf(s, '@')
       case None => false
       case Some(a) => 0 < a && '@' !in s[a + 1..] && HasInnerDot(s[a + 1..])
  }

  /** A string the direct check accepts has the split points the pattern asks for. */
  lemma EmailCheckSound(s: string)
    requires IsValidEmail(s)
    ensures MatchesEmailPattern(s)
  {
    var a := IndexOf(s, '@').value;
    var dom := s[a + 1..];
    var j :| 0 < j < |dom| - 1 && dom[j] == '.';
    var d := a + 1 + j;
    var local, mid, tail := s[..a], s[a + 1..d], s[d + 1..];
    assert s[d] == '.';
    forall i | 0 <= i < |local| ensures IsEmailChar(local[i]) {
      assert local[i] == s[i];
      assert local[i] in local;
    }
    forall i | 0 <= i < |mid| ensures IsEmailChar(mid[i]) {
      assert mid[i] == s[a + 1 + i];
      assert dom[i] == s[a + 1 + i];
      assert dom[i] in dom;
    }
    forall i | 0 <= i < |tail| ensures IsEmailChar(tail[i]) {
      assert tail[i] == s[d + 1 + i];
      assert dom[j + 1 + i] == s[d + 1 + i];
      assert dom[j + 1 + i] in dom;
    }
    assert AllEmailChars(local) && AllEmailChars(mid) && AllEmailChars(tail);
  }

  /** A string the pattern matches passes the direct check. */
  lemma EmailPatternComplete(s: string)
    requires MatchesEmailPattern(s)
    ensures IsValidEmail(s)
  {
    var a :| 0 < a < |s| && s[a] == '@' && AllEmailChars(s[..a])
      && exists d :: a + 1 < d < |s| - 1 && s[d] == '.'
                     && AllEmailChars(s[a + 1..d]) && AllEmailChars(s[d + 1..]);
    var d :| a + 1 < d < |s| - 1 && s[d] == '.'
             && AllEmailChars(s[a + 1..d]) && AllEmailChars(s[d + 1..]);
    EmailSplitPasses(s, a, d);
  }

  /** The characters of a pattern match are whitespace-free, with `@` only at the split point. */
  lemma EmailSplitChars(s: string, a: int, d: int)
    requires 0 < a && a + 1 < d < |s| - 1 && s[a] == '@' && s[d] == '.'
    requires AllEmailChars(s[..a]) && AllEmailChars(s[a + 1..d]) && AllEmailChars(s[d + 1..])
    ensures forall i :: 0 <= i < |s| ==> !IsWhitespace(s[i]) && (i != a ==> s[i] != '@')
  {
    var local, mid, tail := s[..a], s[a + 1..d], s[d + 1..];
    forall i | 0 <= i < |s|
      ensures !IsWhitespace(s[i]) && (i != a ==> s[i] != '@')
    {
      if i < a {
        assert s[i] == local[i];
      } else if a < i < d {
        assert s[i] == mid[i - a - 1];
      } else if d < i {
        assert s[i] == tail[i - d - 1];
      }
    }
  }

  /** Split points `a` (the `@`) and `d` (the `.`) that meet the pattern make the
      direct check pass. */
  lemma EmailSplitPasses(s: string, a: int, d: int)
    requires 0 < a && a + 1 < d < |s| - 1 && s[a] == '@' && s[d] == '.'
    requires AllEmailChars(s[..a]) && AllEmailChars(s[a + 1..d]) && AllEmailChars(s[d + 1..])
    ensures IsValidEmail(s)
  {
    EmailSplitChars(s, a, d);
    var r := IndexOf(s, '@');
    assert '@' in s by { assert s[a] == '@'; }
    assert r.value == a;
    var dom := s[a + 1..];
    forall i | 0 <= i < |dom| ensures dom[i] != '@' {
      assert dom[i] == s[a + 1 + i];
    }
    assert dom[d - a - 1] == '.';
  }

  /** The direct check accepts exactly the strings the e-mail pattern matches. */
  lemma EmailCheckMatchesPattern(s: string)
    ensures IsValidEmail(s) <==> MatchesEmailPattern(s)
  {
    if IsValidEmail(s) {
      EmailCheckSound(s);
    }
    if MatchesEmailPattern(s) {
      EmailPatternComplete(s);
    }
  }

  // ---------------------------------------------------------------------------
  // Phone

  /** `[\d\s\-\(\)]`: a digit, whitespace, `-`, `(` or `)`. */
  predicate IsPhoneBodyChar(c: char) {
    ('0' <= c <= '9') || IsWhitespace(c) || c == '-' || c == '(' || c == ')'
  }

  /** `[1-9]`. */
  predicate IsNonZeroDigit(c: char) {
    '1' <= c <= '9'
  }

  /** The phone regular expression, read off the pattern: an optional `+`, a
      digit 1-9, then at least eight characters of the body class. */
  ghost predicate MatchesPhonePattern(p: string) {
    exists k :: 0 <= k <= 1 && k + 9 <= |p| && (k == 1 ==> p[0] == '+') && IsNonZeroDigit(p[k])
                && forall m :: k < m < |p| ==> IsPhoneBodyChar(p[m])
  }

  /** A digit, `-`, `(` or `)`: the body class once whitespace has been removed. */
  predicate IsPhoneDigitOrPunct(c: char) {
    ('0' <= c <= '9') || c == '-' || c == '(' || c == ')'
  }

  /** `p` without one leading `+`, if it has one. */
  function StripPlus(p: string): string {
    if |p| > 0 && p[0] == '+' then p[1..] else p
  }

  /** A digit 1-9 followed by at least eight digits, dashes or parentheses. */
  predicate IsPhoneNumberBody(rest: string) {
    && |rest| >= 9
    && IsNonZeroDigit(rest[0])
    && forall m :: 1 <= m < |rest| ==> IsPhoneDigitOrPunct(rest[m])
  }

  /** The phone check as evaluated: remove all whitespace, drop one leading `+`,
      then a digit 1-9 followed by at least eight digits, dashes or parentheses. */
  function IsValidPhone(raw: string): (r: bool)
    ensures r ==> 9 <= |RemoveWhitespace(raw)| <= |raw|
  {
    IsPhoneNumberBody(StripPlus(RemoveWhitespace(raw)))
  }

  /** The direct check accepts exactly the inputs whose whitespace-free form the
      phone pattern matches. */
  lemma PhoneCheckMatchesPattern(raw: string)
    ensures IsValidPhone(raw) <==> MatchesPhonePattern(RemoveWhitespace(raw))
  {
    PhoneBodyMatchesPattern(RemoveWhitespace(raw));
  }

  /** On a whitespace-free string, dropping one `+` and checking the body is the
      phone pattern. */
  lemma PhoneBodyMatchesPattern(p: string)
    requires NoWhitespace(p)
    ensures IsPhoneNumberBody(StripPlus(p)) <==> MatchesPhonePattern(p)
  {
    var k := if |p| > 0 && p[0] == '+' then 1 else 0;
    var rest := p[k..];
    assert rest == StripPlus(p);
    if IsPhoneNumberBody(rest) {
      forall m | k < m < |p| ensures IsPhoneBodyChar(p[m]) {
        assert p[m] == rest[m - k];
        assert IsPhoneDigitOrPunct(rest[m - k]);
      }
      assert rest[0] == p[k];
    }
    if MatchesPhonePattern(p) {
      var k' :| 0 <= k' <= 1 && k' + 9 <= |p| && (k' == 1 ==> p[0] == '+') && IsNonZeroDigit(p[k'])
                && forall m :: k' < m < |p| ==> IsPhoneBodyChar(p[m]);
      assert k' == k;
      forall m | 1 <= m < |rest| ensures IsPhoneDigitOrPunct(rest[m]) {
        assert rest[m] == p[m + k];
        assert !IsWhitespace(p[m + k]);
      }
    }
  }
}
