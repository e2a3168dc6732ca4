/** The two regular expressions of the contact form's field validator, each
    written out as the set of strings it matches, together with the plain-words
    reading of each that the validator's behaviour is described by. */
module Patterns {
  import opened Text

  /** A run of the class `[^\s@]+`: non-empty, no whitespace, no `@`. */
  predicate IsAtom(t: string) {
    |t| > 0 && forall k :: 0 <= k < |t| ==> !IsWhitespace(t[k]) && t[k] != '@'
  }

  /** The email regex `^[^\s@]+@[^\s@]+\.[^\s@]+$`: some way of cutting `s` into
      an atom, `@`, an atom, `.`, and an atom. */
  predicate MatchesEmailPattern(s: string) {
    exists i, j | 0 <= i < j < |s| ::
      s[i] == '@' && s[j] == '.' && IsAtom(s[..i]) && IsAtom(s[i + 1..j]) && IsAtom(s[j + 1..])
  }

  /** The domain part holds a `.` with at least one character on each side. */
  predicate HasInnerDot(d: string) {
    exists k | 0 < k < |d| - 1 :: d[k] == '.'
  }

  /** The email rule in words: no whitespace, exactly one `@`, something before
      it, and after it a `.` that is neither first nor last. */
  predicate IsEmailShaped(s: string) {
    && NoWhitespace(s)
    && multiset(s)['@'] == 1
    && exists i | 0 < i < |s| :: s[i] == '@' && HasInnerDot(s[i + 1..])
  }

  /** Where the `@` of a string with exactly one `@` is, nothing else is `@`. */
  lemma OnlyAt(s: string, i: int)
    requires 0 <= i < |s| && s[i] == '@' && multiset(s)['@'] == 1
    ensures '@' !in s[..i] && '@' !in s[i + 1..]
  {
    assert s == s[..i] + [s[i]] + s[i + 1..];
    assert multiset(s) == multiset(s[..i]) + multiset([s[i]]) + multiset(s[i + 1..]);
  }

  /** The email regex matches exactly the strings the email rule describes. */
  lemma EmailPatternIffShape(s: string)
    ensures MatchesEmailPattern(s) <==> IsEmailShaped(s)
  {
    if MatchesEmailPattern(s) {
      var i, j :| 0 <= i < j < |s| && s[i] == '@' && s[j] == '.'
        && IsAtom(s[..i]) && IsAtom(s[i + 1..j]) && IsAtom(s[j + 1..]);
      SplitIsShaped(s, i, j);
    }
    if IsEmailShaped(s) {
      var i :| 0 < i < |s| && s[i] == '@' && HasInnerDot(s[i + 1..]);
      var d := s[i + 1..];
      var k :| 0 < k < |d| - 1 && d[k] == '.';
      ShapedIsSplit(s, i, i + 1 + k);
    }
  }

  /** One way of matching the email regex shows the email rule holds. */
  lemma SplitIsShaped(s: string, i: int, j: int)
    requires 0 <= i < j < |s| && s[i] == '@' && s[j] == '.'
    requires IsAtom(s[..i]) && IsAtom(s[i + 1..j]) && IsAtom(s[j + 1..])
    ensures IsEmailShaped(s)
  {
    forall k | 0 <= k < |s| ensures !IsWhitespace(s[k]) {
      if k < i {
        assert s[k] == s[..i][k];
      } else if i < k < j {
        assert s[k] == s[i + 1..j][k - i - 1];
      } else if j < k {
        assert s[k] == s[j + 1..][k - j - 1];
      }
    }
    assert s == s[..i] + [s[i]] + (s[i + 1..j] + [s[j]] + s[j + 1..]);
    assert '@' !in s[..i] && '@' !in s[i + 1..j] && '@' !in s[j + 1..];
    assert multiset(s)['@'] == 1;
    var d := s[i + 1..];
    assert d[j - i - 1] == '.';
    assert HasInnerDot(d);
  }

  /** The `@` and inner `.` the email rule speaks of cut the string the way the regex does. */
  lemma ShapedIsSplit(s: string, i: int, j: int)
    requires NoWhitespace(s) && multiset(s)['@'] == 1
    requires 0 < i && i + 1 < j < |s| - 1 && s[i] == '@' && s[j] == '.'
    ensures MatchesEmailPattern(s)
  {
    OnlyAt(s, i);
    forall m | 0 <= m < i ensures !IsWhitespace(s[..i][m]) && s[..i][m] != '@' {
      assert s[..i][m] in s[..i];
    }
    AtomSlice(s, i, i + 1, j);
    AtomSlice(s, i, j + 1, |s|);
    assert IsAtom(s[..i]) && IsAtom(s[i + 1..j]) && IsAtom(s[j + 1..]);
  }

  /** A non-empty slice after the only `@` of a whitespace-free string is an atom. */
  lemma AtomSlice(s: string, i: int, lo: int, hi: int)
    requires NoWhitespace(s) && 0 <= i < |s| && '@' !in s[i + 1..]
    requires i < lo < hi <= |s|
    ensures IsAtom(s[lo..hi])
  {
    forall m | 0 <= m < hi - lo ensures !IsWhitespace(s[lo..hi][m]) && s[lo..hi][m] != '@' {
      assert s[lo..hi][m] == s[i + 1..][lo + m - i - 1];
    }
  }

  predicate IsDigit(c: char) {
    '0' <= c <= '9'
  }

  predicate AllDigits(t: string) {
    forall k :: 0 <= k < |t| ==> IsDigit(t[k])
  }

  /** The phone regex `^(\+47)?[\s]?[0-9]{8}$`: eight ASCII digits, optionally
      preceded by `+47`, optionally followed by one whitespace character before
      the digits. The four disjuncts are the four ways of taking the two
      optional groups. */
  predicate MatchesPhonePattern(s: string) {
    || (|s| == 8 && AllDigits(s))
    || (|s| == 9 && IsWhitespace(s[0]) && AllDigits(s[1..]))
    || (|s| == 11 && s[..3] == "+47" && AllDigits(s[3..]))
    || (|s| == 12 && s[..3] == "+47" && IsWhitespace(s[3]) && AllDigits(s[4..]))
  }

  /** A Norwegian number in words: exactly eight ASCII digits, optionally after `+47`. */
  predicate IsNorwegianNumber(s: string) {
    || (|s| == 8 && AllDigits(s))
    || (|s| == 11 && s[..3] == "+47" && AllDigits(s[3..]))
  }

  /** On a string without whitespace the regex's `[\s]?` can only match nothing,
      so the regex accepts exactly the Norwegian numbers; the validator only
      ever applies it to such strings. */
  lemma PhonePatternOnStripped(s: string)
    ensures MatchesPhonePattern(RemoveWhitespace(s)) <==> IsNorwegianNumber(RemoveWhitespace(s))
  {
    var c := RemoveWhitespace(s);
    assert |c| > 3 ==> !IsWhitespace(c[0]) && !IsWhitespace(c[3]);
  }

  /** The regex does accept one whitespace character after the country code or
      at the start, so stripping decides the outcome for such inputs. */
  lemma PhonePatternAdmitsSpace()
    ensures MatchesPhonePattern("+47 12345678")
    ensures !IsNorwegianNumber("+47 12345678")
  {
    var s := "+47 12345678";
    assert s[..3] == "+47" && s[4..] == "12345678";
  }

  /** Eight digits, bare or after `+47`, match the phone regex. */
  lemma PhonePatternExamples()
    ensures MatchesPhonePattern("12345678")
    ensures MatchesPhonePattern("+4712345678")
  {
    assert "+4712345678"[..3] == "+47";
  }

  /** `a@b.co` is an email address. */
  lemma EmailExampleValid()
    ensures MatchesEmailPattern("a@b.co")
  {
    var good := "a@b.co";
    assert good[..1] == "a" && good[1 + 1..3] == "b" && good[3 + 1..] == "co";
    assert good[1] == '@' && good[3] == '.';
    assert IsAtom(good[..1]) && IsAtom(good[1 + 1..3]) && IsAtom(good[3 + 1..]);
  }

  /** `a@b` (no dot in the domain) and `abc` (no `@`) are not. */
  lemma EmailExamplesInvalid()
    ensures !MatchesEmailPattern("a@b")
    ensures !MatchesEmailPattern("abc")
  {
    EmailPatternIffShape("a@b");
    EmailPatternIffShape("abc");
    assert multiset("abc")['@'] == 0;
    assert "a@b"[2..] == "b";
  }

  /** Whitespace and a second `@` are refused. */
  lemma EmailExamplesRefused()
    ensures !MatchesEmailPattern("a b@c.de")
    ensures !MatchesEmailPattern("a@b@c.de")
  {
    EmailPatternIffShape("a b@c.de");
    EmailPatternIffShape("a@b@c.de");
    assert multiset("a@b@c.de")['@'] == 2;
    assert IsWhitespace("a b@c.de"[1]);
  }
}
