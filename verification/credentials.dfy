/** The two credential checks of the user controller, as predicates on
    strings. Each is stated twice: once as the check a reader would write by
    hand, and once as the language of the regular expression the controller
    uses, and the two are proved to agree.

    E-mail pattern:   ^[^\s@]+@[^\s@]+\.[^\s@]+$
    Password pattern: ^(?=.*[a-z])(?=.*[A-Z])(?=.*\d)(?=.*[@$!%*?&])[A-Za-z\d@$!%*?&]{8,}$ */
module Credentials {
  import Text

  /** A character of the class `[^\s@]`. */
  predicate PlainChar(c: char) {
    !Text.IsSpace(c) && c != '@'
  }

  /** The index of the first `c` in `s`. */
  function IndexOf(s: string, c: char): (k: nat)
    requires c in s
    ensures k < |s| && s[k] == c
    ensures forall j :: 0 <= j < k ==> s[j] != c
  {
    if s[0] == c then 0 else 1 + IndexOf(s[1..], c)
  }

  /** A valid e-mail address: no white space, exactly one `@`, something
      before it, and a `.` in the domain after it that is neither the
      domain's first nor its last character. */
  predicate ValidEmail(s: string) {
    && Text.NoSpace(s)
    && '@' in s
    && var at := IndexOf(s, '@');
       var domain := s[at + 1..];
       && '@' !in domain
       && at > 0
       && |domain| >= 3
       && '.' in domain[1..|domain| - 1]
  }

  /** `s` matches the e-mail pattern with its `@` at index `at` and the
      escaped `.` at index `dot`: three non-empty runs of `[^\s@]` around
      them. */
  predicate EmailSplit(s: string, at: int, dot: int) {
    && 0 < at && at + 1 < dot && dot + 1 < |s|
    && s[at] == '@' && s[dot] == '.'
    && forall i :: 0 <= i < |s| && i != at ==> PlainChar(s[i])
  }

  /** The language of the e-mail pattern. */
  ghost predicate MatchesEmailPattern(s: string) {
    exists at, dot :: EmailSplit(s, at, dot)
  }

  /** The hand-written check accepts exactly the strings the pattern matches. */
  lemma ValidEmailMatchesPattern(s: string)
    ensures ValidEmail(s) <==> MatchesEmailPattern(s)
  {
    if ValidEmail(s) {
      var at := IndexOf(s, '@');
      var domain := s[at + 1..];
      var k :| 1 <= k < |domain| - 1 && domain[k] == '.';
      var dot := at + 1 + k;
      forall i | 0 <= i < |s| && i != at ensures PlainChar(s[i]) {
        if i > at {
          assert s[i] == domain[i - at - 1];
        }
      }
      assert EmailSplit(s, at, dot);
    }
    if MatchesEmailPattern(s) {
      var at, dot :| EmailSplit(s, at, dot);
      assert IndexOf(s, '@') == at;
      var domain := s[at + 1..];
      assert domain[dot - at - 1] == '.';
      assert domain[1..|domain| - 1][dot - at - 2] == '.';
      forall i | 0 <= i < |domain| ensures domain[i] != '@' {
        assert domain[i] == s[at + 1 + i];
      }
      assert !Text.IsSpace(s[at]);
    }
  }

  predicate IsLower(c: char) { 'a' <= c <= 'z' }
  predicate IsUpper(c: char) { 'A' <= c <= 'Z' }
  /** `\d` without the unicode flag: the ASCII digits. */
  predicate IsDigit(c: char) { '0' <= c <= '9' }
  predicate IsSpecial(c: char) {
    c == '@' || c == '$' || c == '!' || c == '%' || c == '*' || c == '?' || c == '&'
  }

  /** A character of the class `[A-Za-z\d@$!%*?&]`. */
  predicate PasswordChar(c: char) {
    IsLower(c) || IsUpper(c) || IsDigit(c) || IsSpecial(c)
  }

  /** A password meeting the policy: at least eight characters, all letters,
      digits or one of `@$!%*?&`, with at least one lower-case letter, one
      upper-case letter, one digit and one of those special characters. */
  predicate ValidPassword(p: string) {
    && |p| >= 8
    && (forall i :: 0 <= i < |p| ==> PasswordChar(p[i]))
    && (exists i :: 0 <= i < |p| && IsLower(p[i]))
    && (exists i :: 0 <= i < |p| && IsUpper(p[i]))
    && (exists i :: 0 <= i < |p| && IsDigit(p[i]))
    && (exists i :: 0 <= i < |p| && IsSpecial(p[i]))
  }

  /** The characters `.` does not match. */
  predicate LineTerminator(c: char) {
    c == '\n' || c == '\r' || c as int == 0x2028 || c as int == 0x2029
  }

  /** The lookahead `(?=.*C)`: a character satisfying `C` is reached from the
      start of the input across characters `.` matches. */
  ghost predicate Lookahead(p: string, cls: char -> bool) {
    exists i :: 0 <= i < |p| && cls(p[i]) && forall j :: 0 <= j < i ==> !LineTerminator(p[j])
  }

  /** The language of the password pattern. */
  ghost predicate MatchesPasswordPattern(p: string) {
    && Lookahead(p, IsLower)
    && Lookahead(p, IsUpper)
    && Lookahead(p, IsDigit)
    && Lookahead(p, IsSpecial)
    && |p| >= 8
    && forall i :: 0 <= i < |p| ==> PasswordChar(p[i])
  }

  /** The hand-written policy accepts exactly the strings the pattern matches. */
  lemma ValidPasswordMatchesPattern(p: string)
    ensures ValidPassword(p) <==> MatchesPasswordPattern(p)
  {
    if |p| >= 8 && forall i :: 0 <= i < |p| ==> PasswordChar(p[i]) {
      assert forall j :: 0 <= j < |p| ==> !LineTerminator(p[j]);
      LookaheadIsContains(p, IsLower);
      LookaheadIsContains(p, IsUpper);
      LookaheadIsContains(p, IsDigit);
      LookaheadIsContains(p, IsSpecial);
    }
  }

  lemma LookaheadIsContains(p: string, cls: char -> bool)
    requires forall j :: 0 <= j < |p| ==> !LineTerminator(p[j])
    ensures Lookahead(p, cls) <==> exists i :: 0 <= i < |p| && cls(p[i])
  {
  }

  /** Valid credentials contain no white space, so trimming them, as the
      sign-in handler does, leaves them as they are. */
  lemma ValidCredentialsAreTrimmed(email: string, password: string)
    ensures ValidEmail(email) ==> Text.Trim(email) == email
    ensures ValidPassword(password) ==> Text.Trim(password) == password
  {
    if ValidEmail(email) {
      Text.TrimNoSpace(email);
    }
    if ValidPassword(password) {
      assert Text.NoSpace(password) by {
        forall i | 0 <= i < |password| ensures !Text.IsSpace(password[i]) {
          assert PasswordChar(password[i]);
        }
      }
      Text.TrimNoSpace(password);
    }
  }
}
