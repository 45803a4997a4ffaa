/** The three field validators of the login and sign-up forms. Each one is a
    whole-string match against a fixed regular expression; here each expression
    is written out by hand as a predicate over the string, in the shape of the
    expression itself, and a lemma gives its closed characterisation. */
module Validators {

  // ---------------------------------------------------------------------------
  // Character classes
  // ---------------------------------------------------------------------------

  /** The line terminators of ECMA-262 (section 12.3, "Line Terminators"):
      LF, CR, LINE SEPARATOR and PARAGRAPH SEPARATOR. The regular-expression
      atom `.` matches every character except these. */
  predicate IsLineTerminator(c: char) {
    c == '\n' || c == '\r' || c == '\U{2028}' || c == '\U{2029}'
  }

  /** The white-space code points of ECMA-262 (section 12.2, "White Space"):
      TAB, VT, FF, ZWNBSP and the space separators (general category Zs). */
  predicate IsWhiteSpace(c: char) {
    c == '\t' || c == '\U{000B}' || c == '\U{000C}' || c == '\U{FEFF}'
    || c == ' ' || c == '\U{00A0}' || c == '\U{1680}'
    || ('\U{2000}' <= c <= '\U{200A}')
    || c == '\U{202F}' || c == '\U{205F}' || c == '\U{3000}'
  }

  /** The regular-expression class `\s`: white space or a line terminator. */
  predicate IsJsSpace(c: char) {
    IsWhiteSpace(c) || IsLineTerminator(c)
  }

  predicate IsUpper(c: char) { 'A' <= c <= 'Z' }

  predicate IsLower(c: char) { 'a' <= c <= 'z' }

  /** The class `\d`, which in JavaScript is exactly `[0-9]`. */
  predicate IsDigit(c: char) { '0' <= c <= '9' }

  /** The class `[A-Za-z]`. */
  predicate IsAsciiLetter(c: char) { IsUpper(c) || IsLower(c) }

  /** The class `[A-Za-z\d]`. */
  predicate IsAsciiAlnum(c: char) { IsAsciiLetter(c) || IsDigit(c) }

  // ---------------------------------------------------------------------------
  // Email: /^[^\s@]+@[^\s@]+\.[^\s@]+$/
  // ---------------------------------------------------------------------------

  /** A string matched by `[^\s@]+`: non-empty, with neither white space nor '@'. */
  predicate EmailSegment(t: string) {
    |t| > 0 && forall k :: 0 <= k < |t| ==> !IsJsSpace(t[k]) && t[k] != '@'
  }

  /** The regular expression matches `s` with its literal '@' at index `i` and
      its literal '.' at index `j`. */
  predicate EmailSplit(s: string, i: int, j: int) {
    0 <= i < j < |s| && s[i] == '@' && s[j] == '.'
    && EmailSegment(s[..i]) && EmailSegment(s[i + 1..j]) && EmailSegment(s[j + 1..])
  }

  /** validateEmail: some choice of split points makes the whole string match. */
  predicate ValidateEmail(s: string) {
    exists i, j | 0 <= i < |s| && 0 <= j < |s| :: EmailSplit(s, i, j)
  }

  /** The part after the '@' has a '.' that is neither its first nor its last character. */
  predicate HasInnerDot(d: string) {
    exists j | 0 < j < |d| - 1 :: d[j] == '.'
  }

  /** The closed description of an accepted email address: no white space, exactly
      one '@', a non-empty part before it, and an inner '.' in the part after it. */
  ghost predicate EmailWellFormed(s: string) {
    (forall k :: 0 <= k < |s| ==> !IsJsSpace(s[k]))
    && exists i :: 0 < i < |s| && s[i] == '@'
                   && (forall k :: 0 <= k < |s| && k != i ==> s[k] != '@')
                   && HasInnerDot(s[i + 1..])
  }

  /** From a match of the regular expression to the closed description. */
  lemma EmailMatchIsWellFormed(s: string, i: int, j: int)
    requires EmailSplit(s, i, j)
    ensures EmailWellFormed(s)
  {
    forall k | 0 <= k < |s|
      ensures !IsJsSpace(s[k]) && (k != i ==> s[k] != '@')
    {
      if k < i {
        assert s[..i][k] == s[k];
      } else if i < k < j {
        assert s[i + 1..j][k - i - 1] == s[k];
      } else if j < k {
        assert s[j + 1..][k - j - 1] == s[k];
      }
    }
    var d := s[i + 1..];
    assert d[j - i - 1] == '.';
    assert HasInnerDot(d);
  }

  /** From the closed description to a match of the regular expression. */
  lemma WellFormedEmailMatches(s: string)
    requires EmailWellFormed(s)
    ensures ValidateEmail(s)
  {
    var i :| 0 < i < |s| && s[i] == '@'
             && (forall k :: 0 <= k < |s| && k != i ==> s[k] != '@')
             && HasInnerDot(s[i + 1..]);
    var d := s[i + 1..];
    var jd :| 0 < jd < |d| - 1 && d[jd] == '.';
    var j := i + 1 + jd;
    assert s[j] == '.';
    forall k | 0 <= k < i ensures !IsJsSpace(s[..i][k]) && s[..i][k] != '@' {
      assert s[..i][k] == s[k];
    }
    var mid, tld := s[i + 1..j], s[j + 1..];
    forall k | 0 <= k < |mid| ensures !IsJsSpace(mid[k]) && mid[k] != '@' {
      assert mid[k] == s[i + 1 + k];
    }
    forall k | 0 <= k < |tld| ensures !IsJsSpace(tld[k]) && tld[k] != '@' {
      assert tld[k] == s[j + 1 + k];
    }
    assert EmailSplit(s, i, j);
  }

  /** validateEmail accepts exactly the well-formed addresses. */
  lemma EmailCharacterisation(s: string)
    ensures ValidateEmail(s) <==> EmailWellFormed(s)
  {
    if ValidateEmail(s) {
      var i, j :| 0 <= i < |s| && 0 <= j < |s| && EmailSplit(s, i, j);
      EmailMatchIsWellFormed(s, i, j);
    }
    if EmailWellFormed(s) {
      WellFormedEmailMatches(s);
    }
  }

  /** No accepted address contains two '@' characters. */
  lemma EmailHasOneAt(s: string, a: int, b: int)
    requires ValidateEmail(s)
    requires 0 <= a < b < |s| && s[a] == '@'
    ensures s[b] != '@'
  {

  }

  /** An address without '@' is rejected. */
  lemma EmailWithoutAtRejected(s: string)
    requires forall k :: 0 <= k < |s| ==> s[k] != '@'
    ensures !ValidateEmail(s)
  {
  }

  /** An address containing white space anywhere is rejected. */
  lemma EmailWithSpaceRejected(s: string, k: int)
    requires 0 <= k < |s| && IsJsSpace(s[k])
    ensures !ValidateEmail(s)
  {

  }

  /** An address with two '@' characters is rejected. */
  lemma EmailWithTwoAtsRejected(s: string, a: int, b: int)
    requires 0 <= a < b < |s| && s[a] == '@' && s[b] == '@'
    ensures !ValidateEmail(s)
  {

  }

  /** An address whose part after its '@' has no inner '.' is rejected. */
  lemma EmailWithoutInnerDotRejected(s: string, a: int)
    requires 0 <= a < |s| && s[a] == '@' && !HasInnerDot(s[a + 1..])
    ensures !ValidateEmail(s)
  {

  }

  /** The addresses the test suite names as accepted. */
  lemma EmailAcceptedExamples()
    ensures ValidateEmail("test@example.com")
    ensures ValidateEmail("user.name+tag@domain.co.uk")
  {
    assert EmailSplit("test@example.com", 4, 12);
    assert EmailSplit("user.name+tag@domain.co.uk", 13, 20);
  }

  /** The addresses the test suite names as rejected. */
  lemma EmailRejectedExamples()
    ensures !ValidateEmail("test@")
    ensures !ValidateEmail("testexample.com")
    ensures !ValidateEmail("test@example")
    ensures !ValidateEmail("test@ example.com")
    ensures !ValidateEmail("test@@example.com")
  {
    EmailWithoutInnerDotRejected("test@", 4);
    EmailWithoutAtRejected("testexample.com");
    EmailWithoutInnerDotRejected("test@example", 4);
    EmailWithSpaceRejected("test@ example.com", 5);
    EmailWithTwoAtsRejected("test@@example.com", 4, 5);
  }

  // ---------------------------------------------------------------------------
  // Username: /^[A-Za-z]{3,}$/
  // ---------------------------------------------------------------------------

  /** validateUsername: three or more characters, all ASCII letters. */
  predicate ValidateUsername(s: string) {
    |s| >= 3 && forall k :: 0 <= k < |s| ==> IsAsciiLetter(s[k])
  }

  /** A username with a character outside `[A-Za-z]` is rejected, whatever its length. */
  lemma UsernameWithNonLetterRejected(s: string, k: int)
    requires 0 <= k < |s| && !IsAsciiLetter(s[k])
    ensures !ValidateUsername(s)
  {
  }

  /** The usernames the test suite names. */
  lemma UsernameExamples()
    ensures ValidateUsername("useruser") && ValidateUsername("USERNAME")
    ensures ValidateUsername("user")
    ensures !ValidateUsername("uz") && !ValidateUsername("us")
    ensures !ValidateUsername("user123") && !ValidateUsername("user_123")
    ensures !ValidateUsername("user@name") && !ValidateUsername("user name")
  {
    UsernameWithNonLetterRejected("user123", 4);
    UsernameWithNonLetterRejected("user_123", 4);
    UsernameWithNonLetterRejected("user@name", 4);
    UsernameWithNonLetterRejected("user name", 4);
  }

  // ---------------------------------------------------------------------------
  // Password: /^(?=.*[A-Z])(?=.*\d)[A-Za-z\d]{8,}$/
  // ---------------------------------------------------------------------------

  /** `.*` can consume the first `k` characters of `s` and stop before index `k`:
      none of them is a line terminator. */
  predicate DotStarUpTo(s: string, k: int) {
    0 <= k < |s| && forall m :: 0 <= m < k ==> !IsLineTerminator(s[m])
  }

  /** The lookahead `(?=.*[A-Z])` at the start of `s`. */
  predicate UpperLookahead(s: string) {
    exists k | 0 <= k < |s| :: DotStarUpTo(s, k) && IsUpper(s[k])
  }

  /** The lookahead `(?=.*[a-z])` at the start of `s`. */
  predicate LowerLookahead(s: string) {
    exists k | 0 <= k < |s| :: DotStarUpTo(s, k) && IsLower(s[k])
  }

  /** The lookahead `(?=.*\d)` at the start of `s`. */
  predicate DigitLookahead(s: string) {
    exists k | 0 <= k < |s| :: DotStarUpTo(s, k) && IsDigit(s[k])
  }

  /** The body `[A-Za-z\d]{8,}$`: eight or more characters, all ASCII letters or digits. */
  predicate AlnumAtLeastEight(s: string) {
    |s| >= 8 && forall k :: 0 <= k < |s| ==> IsAsciiAlnum(s[k])
  }

  /** validatePassword: both lookaheads succeed at the start and the body matches
      the whole string. There is no lookahead for a lower-case letter. */
  predicate ValidatePassword(s: string) {
    UpperLookahead(s) && DigitLookahead(s) && AlnumAtLeastEight(s)
  }

  /** The password rule written without lookaheads. */
  ghost predicate PasswordWellFormed(s: string) {
    |s| >= 8
    && (forall k :: 0 <= k < |s| ==> IsAsciiAlnum(s[k]))
    && (exists k :: 0 <= k < |s| && IsUpper(s[k]))
    && (exists k :: 0 <= k < |s| && IsDigit(s[k]))
  }

  /** In a string of letters and digits `.*` reaches every index. */
  lemma AlnumDotStar(s: string, k: int)
    requires forall m :: 0 <= m < |s| ==> IsAsciiAlnum(s[m])
    requires 0 <= k < |s|
    ensures DotStarUpTo(s, k)
  {

  }

  /** A password of eight or more letters and digits with an upper-case letter at
      `u` and a digit at `d` is accepted, wherever `u` and `d` are. */
  lemma PasswordAccepted(s: string, u: int, d: int)
    requires AlnumAtLeastEight(s)
    requires 0 <= u < |s| && IsUpper(s[u])
    requires 0 <= d < |s| && IsDigit(s[d])
    ensures ValidatePassword(s)
  {

  }

  /** validatePassword accepts exactly: length at least 8, only ASCII letters and
      digits, at least one upper-case letter, at least one digit. */
  lemma PasswordCharacterisation(s: string)
    ensures ValidatePassword(s) <==> PasswordWellFormed(s)
  {

  }

  /** A password with no upper-case letter is rejected. */
  lemma PasswordWithoutUpperRejected(s: string)
    requires forall k :: 0 <= k < |s| ==> !IsUpper(s[k])
    ensures !ValidatePassword(s)
  {
  }

  /** A password with no digit is rejected. */
  lemma PasswordWithoutDigitRejected(s: string)
    requires forall k :: 0 <= k < |s| ==> !IsDigit(s[k])
    ensures !ValidatePassword(s)
  {
  }

  /** A password with a character other than an ASCII letter or digit is rejected. */
  lemma PasswordWithOtherCharRejected(s: string, k: int)
    requires 0 <= k < |s| && !IsAsciiAlnum(s[k])
    ensures !ValidatePassword(s)
  {
  }

  /** The passwords the test suite names as accepted. */
  lemma PasswordAcceptedExamples()
    ensures ValidatePassword("Password1") && ValidatePassword("MyPass123")
  {
    PasswordAccepted("Password1", 0, 8);
    PasswordAccepted("MyPass123", 0, 6);
  }

  /** "PASSWORD1" is accepted: the rule has no lower-case requirement. */
  lemma PasswordAllUpperAccepted()
    ensures ValidatePassword("PASSWORD1")
  {
    PasswordAccepted("PASSWORD1", 0, 8);
  }

  /** The passwords the test suite names as rejected. */
  lemma PasswordRejectedExamples()
    ensures !ValidatePassword("password1")
    ensures !ValidatePassword("Password")
    ensures !ValidatePassword("Pass1") && !ValidatePassword("pass")
    ensures !ValidatePassword("Pass word1")
  {
    PasswordWithoutUpperRejected("password1");
    PasswordWithoutDigitRejected("Password");
    PasswordWithOtherCharRejected("Pass word1", 4);
  }

  /** The stricter rule the test suite's matcher applies: the same expression with
      a lower-case lookahead added, `^(?=.*[A-Z])(?=.*[a-z])(?=.*\d)[A-Za-z\d]{8,}$`. */
  predicate ValidatePasswordStrict(s: string) {
    UpperLookahead(s) && LowerLookahead(s) && DigitLookahead(s) && AlnumAtLeastEight(s)
  }

  /** Every password the stricter rule accepts, validatePassword accepts. */
  lemma StrictPasswordImpliesPassword(s: string)
    requires ValidatePasswordStrict(s)
    ensures ValidatePassword(s)
  {
  }

  /** The converse fails: "PASSWORD1" passes validatePassword but not the stricter rule. */
  lemma StrictPasswordNotConverse()
    ensures ValidatePassword("PASSWORD1") && !ValidatePasswordStrict("PASSWORD1")
  {
    PasswordAllUpperAccepted();
    var s := "PASSWORD1";
    forall k | 0 <= k < |s| ensures !IsLower(s[k]) {
    }
  }
}
