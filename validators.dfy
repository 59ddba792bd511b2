/**
 The contact form's three field validators. Each returns either no error
 (JavaScript `null`) or one fixed message, and the "required" check always
 runs before the length or format check.
 */
module Validators {
  import opened Text

  /** A validator's verdict: `null` or an error message. */
  datatype Check = Pass | Fail(message: string)

  const NAME_REQUIRED := "Name is required"
  const NAME_TOO_SHORT := "Name must be at least 2 characters"
  const EMAIL_REQUIRED := "Email is required"
  const EMAIL_INVALID := "Please enter a valid email address"
  const MESSAGE_REQUIRED := "Message is required"
  const MESSAGE_TOO_SHORT := "Message must be at least 10 characters"

  /** validateName */
  function ValidateName(name: string): (r: Check)
    ensures r in {Pass, Fail(NAME_REQUIRED), Fail(NAME_TOO_SHORT)}
  {
    if Trim(name) == [] then Fail(NAME_REQUIRED)
    else if |Trim(name)| < 2 then Fail(NAME_TOO_SHORT)
    else Pass
  }

  /** validateMessage */
  function ValidateMessage(message: string): (r: Check)
    ensures r in {Pass, Fail(MESSAGE_REQUIRED), Fail(MESSAGE_TOO_SHORT)}
  {
    if Trim(message) == [] then Fail(MESSAGE_REQUIRED)
    else if |Trim(message)| < 10 then Fail(MESSAGE_TOO_SHORT)
    else Pass
  }

  /** A character of the class `[^\s@]`. */
  predicate IsAtomChar(c: char) {
    !IsWs(c) && c != '@'
  }

  /** `[^\s@]+` matches exactly s[lo..hi]. */
  predicate AtomRun(s: string, lo: int, hi: int)
    requires 0 <= lo <= hi <= |s|
  {
    lo < hi && forall k :: lo <= k < hi ==> IsAtomChar(s[k])
  }

  /** `/^[^\s@]+@[^\s@]+\.[^\s@]+$/.test(s)`: some `@` at i and some `.` at j > i cut
      `s` into three non-empty runs of characters that are neither white space nor `@`. */
  predicate MatchesEmailRegex(s: string)
    ensures MatchesEmailRegex(s) ==> |s| >= 5 && '@' in s && '.' in s && s[0] != '@'
  {
    exists i, j ::
      0 <= i < j < |s| && s[i] == '@' && s[j] == '.' &&
      AtomRun(s, 0, i) && AtomRun(s, i + 1, j) && AtomRun(s, j + 1, |s|)
  }

  /** validateEmail: the format is tested on the untrimmed value. */
  function ValidateEmail(email: string): (r: Check)
    ensures r in {Pass, Fail(EMAIL_REQUIRED), Fail(EMAIL_INVALID)}
  {
    if Trim(email) == [] then Fail(EMAIL_REQUIRED)
    else if !MatchesEmailRegex(email) then Fail(EMAIL_INVALID)
    else Pass
  }

  /** The shape of an address, stated without the regular expression: no white space,
      exactly one `@`, not first, and after it a `.` with a character on each side. */
  predicate EmailShaped(s: string) {
    NoWs(s) &&
    exists p :: 0 < p < |s| && s[p] == '@' &&
      (forall k :: 0 <= k < |s| && k != p ==> s[k] != '@') &&
      (exists q :: p + 1 < q < |s| - 1 && s[q] == '.')
  }

  /** The regular expression accepts exactly the strings of that shape. */
  lemma EmailRegexIffShaped(s: string)
    ensures MatchesEmailRegex(s) <==> EmailShaped(s)
  {
    if MatchesEmailRegex(s) {
      var i, j :| 0 <= i < j < |s| && s[i] == '@' && s[j] == '.' &&
        AtomRun(s, 0, i) && AtomRun(s, i + 1, j) && AtomRun(s, j + 1, |s|);
      assert !IsWs('@') && !IsWs('.');
      forall k | 0 <= k < |s|
        ensures !IsWs(s[k]) && (k != i ==> s[k] != '@')
      {
        if k < i {
          assert IsAtomChar(s[k]);
        } else if i < k < j {
          assert IsAtomChar(s[k]);
        } else if j < k {
          assert IsAtomChar(s[k]);
        }
      }
      assert 0 < i < |s| && s[i] == '@';
      assert i + 1 < j < |s| - 1 && s[j] == '.';
    }
    if EmailShaped(s) {
      var p :| 0 < p < |s| && s[p] == '@' &&
        (forall k :: 0 <= k < |s| && k != p ==> s[k] != '@') &&
        (exists q :: p + 1 < q < |s| - 1 && s[q] == '.');
      var q :| p + 1 < q < |s| - 1 && s[q] == '.';
      assert AtomRun(s, 0, p);
      assert AtomRun(s, p + 1, q);
      assert AtomRun(s, q + 1, |s|);
    }
  }

  /** Exactly one character of `s` is not white space. */
  predicate OneNonWs(s: string) {
    exists k :: 0 <= k < |s| && !IsWs(s[k]) && forall j :: 0 <= j < |s| && j != k ==> IsWs(s[j])
  }

  /** One non-white-space character: neither blank nor holding two such characters. */
  lemma OneNonWsIff(s: string)
    ensures OneNonWs(s) <==> !AllWs(s) && !HasSpan(s, 2)
  {
    if !AllWs(s) && !HasSpan(s, 2) {
      var k :| 0 <= k < |s| && !IsWs(s[k]);
      forall j | 0 <= j < |s| && j != k
        ensures IsWs(s[j])
      {
      }
    }
  }

  /** Name: the required message exactly for blank input (never the length message),
      the length message exactly when one non-white-space character is present, and
      acceptance exactly when two non-white-space characters are. */
  lemma NameVerdicts(name: string)
    ensures ValidateName(name) == Fail(NAME_REQUIRED) <==> AllWs(name)
    ensures ValidateName(name) == Fail(NAME_TOO_SHORT) <==> OneNonWs(name)
    ensures ValidateName(name) == Pass <==> HasSpan(name, 2)
  {
    TrimEmptyIff(name);
    TrimLengthIff(name, 2);
    OneNonWsIff(name);
  }

  /** Message: the same precedence with the threshold 10 on the trimmed length, here
      stated as the distance between the outermost non-white-space characters. */
  lemma MessageVerdicts(message: string)
    ensures ValidateMessage(message) == Fail(MESSAGE_REQUIRED) <==> AllWs(message)
    ensures ValidateMessage(message) == Fail(MESSAGE_TOO_SHORT) <==>
      !AllWs(message) && !HasSpan(message, 10)
    ensures ValidateMessage(message) == Pass <==> HasSpan(message, 10)
  {
    TrimEmptyIff(message);
    TrimLengthIff(message, 10);
    TrimLengthIff(message, 1);
  }

  /** Email: the required message exactly for blank input, acceptance exactly when the
      regular expression matches, and the format message in every other case. */
  lemma EmailVerdicts(email: string)
    ensures ValidateEmail(email) == Fail(EMAIL_REQUIRED) <==> AllWs(email)
    ensures ValidateEmail(email) == Pass <==> MatchesEmailRegex(email)
    ensures ValidateEmail(email) == Fail(EMAIL_INVALID) <==>
      !AllWs(email) && !MatchesEmailRegex(email)
  {
    TrimEmptyIff(email);
    if MatchesEmailRegex(email) {
      EmailRegexIffShaped(email);
      assert !IsWs(email[0]);
    }
  }

  /** An accepted address has no white space, exactly one `@` that is not first, and a
      `.` after it with at least one character on each side. */
  lemma AcceptedEmailShape(email: string)
    requires ValidateEmail(email) == Pass
    ensures EmailShaped(email)
  {
    EmailVerdicts(email);
    EmailRegexIffShaped(email);
  }

  /** Surrounding white space is not trimmed before the format test, so a padded
      address that is not blank gets the format message. */
  lemma PaddedEmailRejected(email: string)
    requires !AllWs(email)
    requires IsWs(email[0]) || IsWs(email[|email| - 1])
    ensures ValidateEmail(email) == Fail(EMAIL_INVALID)
  {
    EmailVerdicts(email);
    EmailRegexIffShaped(email);
  }

  lemma NameAccepted()
    ensures ValidateName("Al") == Pass
  {
    assert !IsWs("Al"[0]) && !IsWs("Al"[1]);
    assert TrimStart("Al") == "Al";
    assert TrimEnd("Al") == "Al";
  }

  lemma NameTooShortExample()
    ensures ValidateName("A") == Fail(NAME_TOO_SHORT)
  {
    assert !IsWs("A"[0]);
    assert TrimStart("A") == "A";
    assert TrimEnd("A") == "A";
  }

  lemma BlankNameRequired()
    ensures ValidateName("  ") == Fail(NAME_REQUIRED)
  {
    TrimEmptyIff("  ");
    assert AllWs("  ") by {
      assert IsWs("  "[0]) && IsWs("  "[1]);
    }
  }

  lemma EmailAccepted()
    ensures ValidateEmail("a@b.co") == Pass
  {
    var good := "a@b.co";
    assert !IsWs('a');
    assert Trim(good) != [] by {
      TrimEmptyIff(good);
    }
    assert AtomRun(good, 0, 1) && AtomRun(good, 2, 3) && AtomRun(good, 4, 6);
    assert good[1] == '@' && good[3] == '.';
  }

  lemma EmailWithoutDotRejected()
    ensures ValidateEmail("a@b") == Fail(EMAIL_INVALID)
  {
    var bad := "a@b";
    assert !IsWs('a');
    assert Trim(bad) != [] by {
      TrimEmptyIff(bad);
    }
    assert !MatchesEmailRegex(bad) by {
      assert forall j :: 0 <= j < |bad| ==> bad[j] != '.';
    }
  }

  lemma EmptyEmailRequired()
    ensures ValidateEmail("") == Fail(EMAIL_REQUIRED)
  {
    TrimEmptyIff("");
  }

  lemma PaddedEmailExample()
    ensures ValidateEmail(" a@b.co") == Fail(EMAIL_INVALID)
  {
    assert IsWs(" a@b.co"[0]) && !IsWs(" a@b.co"[1]);
    PaddedEmailRejected(" a@b.co");
  }
}
