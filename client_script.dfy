/**
 * The registration form script: `isValidEmail` tests `^[^\s@]+@[^\s@]+\.[^\s@]+$`, and the
 * submit handler trims the username and the email, then clears a flag for every field that
 * fails its check and submits only when the flag is still set.
 */
module ClientScript {
  import opened Text

  /** A match of `[^\s@]+`: one or more characters, none whitespace and none `@`. */
  predicate IsAddressRun(t: string)
  {
    |t| > 0 && forall k :: 0 <= k < |t| ==> !IsJsWhitespace(t[k]) && t[k] != '@'
  }

  /**
   * `isValidEmail(email)`: whether the whole string matches `^[^\s@]+@[^\s@]+\.[^\s@]+$`,
   * that is, splits at an `@` at `i` and a `.` at `j` into three runs of `[^\s@]+`.
   */
  predicate IsValidEmail(email: string)
    ensures IsValidEmail(email) ==> 5 <= |email| && '@' in email && '.' in email
  {
    exists i | 0 < i < |email| :: exists j | i + 1 < j < |email| - 1 ::
      && email[i] == '@' && email[j] == '.'
      && IsAddressRun(email[..i]) && IsAddressRun(email[i + 1..j]) && IsAddressRun(email[j + 1..])
  }

  /** `d` has a `.` that is neither its first nor its last character. */
  predicate HasInnerDot(d: string)
  {
    exists k | 0 < k < |d| - 1 :: d[k] == '.'
  }

  /**
   * The shape of an accepted address stated without the regular expression: no whitespace,
   * exactly one `@`, something before it, and an inner dot in the part after it.
   */
  ghost predicate IsWellFormedAddress(s: string)
  {
    && NoWhitespace(s)
    && multiset(s)['@'] == 1
    && exists i | 0 < i < |s| :: s[i] == '@' && HasInnerDot(s[i + 1..])
  }

  /** A character that occurs exactly once occurs nowhere but at the position where it is found. */
  lemma OnlyOccurrence(s: string, c: char, i: nat)
    requires i < |s| && s[i] == c && multiset(s)[c] == 1
    ensures c !in s[..i] && c !in s[i + 1..]
  {
    assert s == s[..i] + [c] + s[i + 1..];
    assert multiset(s) == multiset(s[..i]) + multiset{c} + multiset(s[i + 1..]);
  }

  lemma AcceptedIsWellFormed(s: string)
    requires IsValidEmail(s)
    ensures IsWellFormedAddress(s)
  {
    var i :| 0 < i < |s| && exists j | i + 1 < j < |s| - 1 ::
      && s[i] == '@' && s[j] == '.'
      && IsAddressRun(s[..i]) && IsAddressRun(s[i + 1..j]) && IsAddressRun(s[j + 1..]);
    var j :| i + 1 < j < |s| - 1
      && s[i] == '@' && s[j] == '.'
      && IsAddressRun(s[..i]) && IsAddressRun(s[i + 1..j]) && IsAddressRun(s[j + 1..]);
    SplitAt(s, i, j);
    PiecesWellFormed(s[..i], s[i + 1..j], s[j + 1..]);
  }

  lemma SplitAt(s: string, i: nat, j: nat)
    requires 0 < i < j < |s| && s[i] == '@' && s[j] == '.'
    ensures s == s[..i] + "@" + (s[i + 1..j] + "." + s[j + 1..])
  {
    assert s[i + 1..] == s[i + 1..j] + "." + s[j + 1..];
  }

  /** Three runs joined by `@` and `.` form a well-formed address. */
  lemma PiecesWellFormed(a: string, b: string, c: string)
    requires IsAddressRun(a) && IsAddressRun(b) && IsAddressRun(c)
    ensures IsWellFormedAddress(a + "@" + (b + "." + c))
  {
    var d := b + "." + c;
    var s := a + "@" + d;
    RunFacts(a);
    RunFacts(b);
    RunFacts(c);
    NoWhitespaceConcat(b, ".");
    NoWhitespaceConcat(b + ".", c);
    NoWhitespaceConcat(a, "@");
    NoWhitespaceConcat(a + "@", d);
    assert '@' !in d;
    assert multiset(s) == multiset(a) + multiset{'@'} + multiset(d);
    assert d[|b|] == '.';
    assert s[|a|] == '@' && s[|a| + 1..] == d;
  }

  lemma RunFacts(t: string)
    requires IsAddressRun(t)
    ensures t != [] && NoWhitespace(t) && '@' !in t
  {
  }

  lemma NoWhitespaceConcat(a: string, b: string)
    requires NoWhitespace(a) && NoWhitespace(b)
    ensures NoWhitespace(a + b)
  {
    forall k | 0 <= k < |a + b| ensures !IsJsWhitespace((a + b)[k]) {
      if k >= |a| { assert (a + b)[k] == b[k - |a|]; }
    }
  }

  lemma WellFormedIsAccepted(s: string)
    requires IsWellFormedAddress(s)
    ensures IsValidEmail(s)
  {
    var i :| 0 < i < |s| && s[i] == '@' && HasInnerDot(s[i + 1..]);
    var d := s[i + 1..];
    var k :| 0 < k < |d| - 1 && d[k] == '.';
    var j := i + 1 + k;
    OnlyOccurrence(s, '@', i);
    assert s[j] == '.';
    assert s[i + 1..j] == d[..k] && s[j + 1..] == d[k + 1..];
    assert IsAddressRun(s[..i]);
    assert IsAddressRun(s[i + 1..j]);
    assert IsAddressRun(s[j + 1..]);
  }

  /** The regular expression accepts exactly the well-formed addresses. */
  lemma IsValidEmailIff(s: string)
    ensures IsValidEmail(s) <==> IsWellFormedAddress(s)
  {
    if IsValidEmail(s) { AcceptedIsWellFormed(s); }
    if IsWellFormedAddress(s) { WellFormedIsAccepted(s); }
  }

  /** Any whitespace-free `local@domain` with a non-empty local part, no other `@` and an inner dot in the domain is accepted. */
  lemma AcceptsAddress(local: string, domain: string)
    requires local != [] && NoWhitespace(local) && NoWhitespace(domain)
    requires '@' !in local && '@' !in domain
    requires HasInnerDot(domain)
    ensures IsValidEmail(local + "@" + domain)
  {
    var s := local + "@" + domain;
    var i := |local|;
    assert s[i] == '@' && s[i + 1..] == domain;
    assert multiset(s) == multiset(local) + multiset{'@'} + multiset(domain);
    forall k | 0 <= k < |s| ensures !IsJsWhitespace(s[k]) {
      if k < i { assert s[k] == local[k]; }
      else if k > i { assert s[k] == domain[k - i - 1]; }
    }
    WellFormedIsAccepted(s);
  }

  /** The form fields that can show an error. */
  datatype Field = UsernameField | EmailField | DateOfBirthField

  /**
   * The validation part of the submit handler. `dateOfBirth` is the date input's value and
   * `dateInFuture` the outcome of `new Date(dateOfBirth) > new Date()`, consulted only for a
   * non-empty date. Returns whether the handler goes on to submit, and the fields whose error
   * it showed, in order.
   */
  method ValidateRegistration(usernameInput: string, emailInput: string, dateOfBirth: string, dateInFuture: bool)
    returns (isValid: bool, errors: seq<Field>)
    ensures UsernameField in errors <==> Utf16Length(Trim(usernameInput)) < 2
    ensures EmailField in errors <==> !IsValidEmail(Trim(emailInput))
    ensures DateOfBirthField in errors <==> dateOfBirth == [] || dateInFuture
    ensures isValid <==> errors == []
    ensures isValid <==>
      Utf16Length(Trim(usernameInput)) >= 2 && IsValidEmail(Trim(emailInput)) && dateOfBirth != [] && !dateInFuture
  {
    var username := Trim(usernameInput);
    var email := Trim(emailInput);
    errors := [];
    isValid := true;
    if username == [] || Utf16Length(username) < 2 {
      errors := errors + [UsernameField];
      isValid := false;
    }
    assert UsernameField in errors <==> Utf16Length(username) < 2;
    assert EmailField !in errors && DateOfBirthField !in errors;
    assert isValid <==> errors == [];
    if email == [] || !IsValidEmail(email) {
      errors := errors + [EmailField];
      isValid := false;
    }
    assert UsernameField in errors <==> Utf16Length(username) < 2;
    assert EmailField in errors <==> !IsValidEmail(email);
    assert DateOfBirthField !in errors;
    assert isValid <==> errors == [];
    if dateOfBirth == [] {
      errors := errors + [DateOfBirthField];
      isValid := false;
    } else if dateInFuture {
      errors := errors + [DateOfBirthField];
      isValid := false;
    }
  }
}
