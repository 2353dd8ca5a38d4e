/**
 * `EmailValidationService`: the format check is the regular expression
 * `^[a-zA-Z0-9._%+-]+@[a-zA-Z0-9.-]+\.[A-Z|a-z]{2,}$` applied to the stripped
 * input; the domain check asks an MX-record oracle, and fails closed.
 */
module EmailValidation {
  import opened Text

  predicate IsAsciiLetter(c: char) { 'a' <= c <= 'z' || 'A' <= c <= 'Z' }

  predicate IsAsciiDigit(c: char) { '0' <= c <= '9' }

  /** `[a-zA-Z0-9._%+-]` */
  predicate IsLocalChar(c: char) {
    IsAsciiLetter(c) || IsAsciiDigit(c) || c == '.' || c == '_' || c == '%' || c == '+' || c == '-'
  }

  /** `[a-zA-Z0-9.-]` */
  predicate IsDomainChar(c: char) {
    IsAsciiLetter(c) || IsAsciiDigit(c) || c == '.' || c == '-'
  }

  /** `[A-Z|a-z]`: inside a class `|` is a literal character, not an alternative. */
  predicate IsTldChar(c: char) {
    IsAsciiLetter(c) || c == '|'
  }

  /** `s` reads local `@` domain `.` tld, with its `@` at `at` and the dot before the tld at `dot`. */
  predicate IsEmailSplit(s: string, at: int, dot: int) {
    0 < at && at + 1 < dot && dot + 2 < |s|
    && s[at] == '@' && s[dot] == '.'
    && (forall k :: 0 <= k < at ==> IsLocalChar(s[k]))
    && (forall k :: at < k < dot ==> IsDomainChar(s[k]))
    && (forall k :: dot < k < |s| ==> IsTldChar(s[k]))
  }

  /** The language of the pattern: some way of cutting `s` into its three parts. */
  ghost predicate InEmailLanguage(s: string) {
    exists at, dot :: IsEmailSplit(s, at, dot)
  }

  /** In a split, the `@` at `at` is the only one, and no dot follows `dot`. */
  lemma OnlyOneAt(s: string, at: int, dot: int)
    requires IsEmailSplit(s, at, dot)
    ensures forall k :: 0 <= k < |s| && k != at ==> s[k] != '@'
    ensures forall k :: dot < k < |s| ==> s[k] != '.'
  {
  }

  /** The recogniser: the `@` can only be the first one (no part admits a second), and the
      dot before the tld only the last one (the tld admits no dot). */
  function MatchesEmailPattern(s: string): (r: bool)
    ensures r <==> InEmailLanguage(s)
  {
    var at := IndexOf(s, '@');
    var dot := LastIndexOf(s, '.');
    var r := IsEmailSplit(s, at, dot);
    assert InEmailLanguage(s) ==> r by {
      if InEmailLanguage(s) {
        var at', dot' :| IsEmailSplit(s, at', dot');
        OnlyOneAt(s, at', dot');
      }
    }
    r
  }

  /** `validate_format`: false for blank input, else the pattern on the stripped string. */
  function ValidateFormat(email: string): (ok: bool)
    ensures ok <==> Strip(email) != [] && InEmailLanguage(Strip(email))
  {
    if Strip(email) == [] then false else MatchesEmailPattern(Strip(email))
  }

  /** Python's `s.split(c)`. */
  function Split(s: string, c: char): (parts: seq<string>)
    ensures |parts| >= 1
    decreases |s|
  {
    var i := IndexOf(s, c);
    if i == |s| then [s] else [s[..i]] + Split(s[i + 1..], c)
  }

  /** `validate_domain`: the MX lookup (`hasMx`) is asked about `email.split("@")[1]`
      only when the format holds; a lookup that fails or finds nothing is `false`. */
  function ValidateDomain(email: string, hasMx: string -> bool): bool {
    if !ValidateFormat(email) then false
    else
      var parts := Split(email, '@');
      if |parts| < 2 then false else hasMx(parts[1])
  }

  /** `validate_email(email, check_domain)` */
  function ValidateEmail(email: string, checkDomain: bool, hasMx: string -> bool): bool {
    if !ValidateFormat(email) then false
    else if checkDomain then ValidateDomain(email, hasMx)
    else true
  }

  /** The stripped text sits inside the raw one, so a valid email has exactly one `@`;
      what the MX lookup is asked about is everything after it in the UNSTRIPPED input,
      trailing whitespace included. */
  lemma DomainQueried(email: string) returns (j: nat)
    requires ValidateFormat(email)
    ensures j < |email| && IndexOf(email, '@') == j
    ensures Split(email, '@') == [email[..j], email[j + 1..]]
  {
    j := SingleAt(email);
    SplitAtSingle(email, '@', j);
  }

  /** A valid email has exactly one `@`, whitespace around it included. */
  lemma SingleAt(email: string) returns (j: nat)
    requires ValidateFormat(email)
    ensures j < |email| && email[j] == '@'
    ensures forall k :: 0 <= k < |email| && k != j ==> email[k] != '@'
  {
    var at, dot := StrippedSplit(email);
    j := PaddedSingleAt(email, at, dot);
  }

  lemma StrippedSplit(email: string) returns (at: int, dot: int)
    requires ValidateFormat(email)
    ensures IsEmailSplit(Strip(email), at, dot)
  {
    at, dot :| IsEmailSplit(Strip(email), at, dot);
  }

  /** The `@` of the stripped text is the only one in the raw text. */
  lemma PaddedSingleAt(email: string, at: int, dot: int) returns (j: nat)
    requires IsEmailSplit(Strip(email), at, dot)
    ensures j < |email| && email[j] == '@'
    ensures forall k :: 0 <= k < |email| && k != j ==> email[k] != '@'
  {
    var i := StripOffset(email);
    j := SplitSingleAt(email, Strip(email), i, at, dot);
  }

  lemma SplitSingleAt(s: string, t: string, i: nat, at: int, dot: int) returns (j: nat)
    requires i + |t| <= |s| && t == s[i..i + |t|]
    requires AllSpace(s[..i]) && AllSpace(s[i + |t|..])
    requires IsEmailSplit(t, at, dot)
    ensures j < |s| && s[j] == '@'
    ensures forall k :: 0 <= k < |s| && k != j ==> s[k] != '@'
  {
    OnlyOneAt(t, at, dot);
    j := PaddedSingle(s, t, i, at, '@');
  }

  /** A character occurring once in `t`, and never whitespace, occurs once in `t` padded
      with whitespace. */
  lemma PaddedSingle(s: string, t: string, i: nat, at: nat, c: char) returns (j: nat)
    requires i + |t| <= |s| && t == s[i..i + |t|]
    requires AllSpace(s[..i]) && AllSpace(s[i + |t|..])
    requires !IsSpace(c) && at < |t| && t[at] == c
    requires forall k :: 0 <= k < |t| && k != at ==> t[k] != c
    ensures j == i + at && j < |s| && s[j] == c
    ensures forall k :: 0 <= k < |s| && k != j ==> s[k] != c
  {
    j := i + at;
    assert s[i + at] == t[at];
    forall k | 0 <= k < |s| && k != i + at ensures s[k] != c {
      if k < i {
        assert s[..i][k] == s[k];
      } else if k < i + |t| {
        assert t[k - i] == s[k];
      } else {
        assert s[i + |t|..][k - i - |t|] == s[k];
      }
    }
  }

  /** Splitting on a character that occurs once, at `j`, gives the two sides of `j`. */
  lemma SplitAtSingle(s: string, c: char, j: nat)
    requires j < |s| && s[j] == c
    requires forall k :: 0 <= k < |s| && k != j ==> s[k] != c
    ensures IndexOf(s, c) == j
    ensures Split(s, c) == [s[..j], s[j + 1..]]
  {
    var rest := s[j + 1..];
    forall k | 0 <= k < |rest| ensures rest[k] != c {
      assert rest[k] == s[j + 1 + k];
    }
    assert IndexOf(rest, c) == |rest|;
    assert Split(rest, c) == [rest];
  }

  /** Every valid email contains an `@`. */
  lemma ValidHasAt(email: string)
    ensures ValidateFormat(email) ==> '@' in email
  {
    if ValidateFormat(email) {
      var j := DomainQueried(email);
    }
  }

  /** Without the domain check the verdict is the format check alone. */
  lemma FormatAloneWithoutDomainCheck(email: string, hasMx: string -> bool)
    ensures ValidateEmail(email, false, hasMx) == ValidateFormat(email)
  {
  }

  /** With the domain check an email is valid exactly when its format is and the
      MX lookup for the text after its `@` succeeds (fail closed). */
  lemma DomainCheckFailsClosed(email: string, hasMx: string -> bool)
    ensures ValidateEmail(email, true, hasMx) <==>
      ValidateFormat(email) && hasMx(email[IndexOf(email, '@') + 1..])
  {
    if ValidateFormat(email) {
      var j := DomainQueried(email);
    }
  }

  /** A string without `@` is rejected without any lookup. */
  lemma NoAtRejected(email: string, checkDomain: bool, hasMx: string -> bool)
    requires '@' !in email
    ensures !ValidateEmail(email, checkDomain, hasMx)
  {
    ValidHasAt(email);
  }

  lemma NotAnEmailRejected(hasMx: string -> bool)
    ensures !ValidateEmail("not-an-email", true, hasMx)
  {
    NoAtRejected("not-an-email", true, hasMx);
  }

  lemma UserAtExampleAccepted(hasMx: string -> bool)
    ensures ValidateEmail("user@example.com", false, hasMx)
  {
    SplitIsValid("user@example.com", 4, 12);
  }

  /** A string that already reads local `@` domain `.` tld passes the format check. */
  lemma SplitIsValid(s: string, at: int, dot: int)
    requires IsEmailSplit(s, at, dot)
    ensures ValidateFormat(s)
  {
    assert IsLocalChar(s[0]) && IsTldChar(s[|s| - 1]);
    StripUnpadded(s);
  }
}
