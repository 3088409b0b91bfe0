/** The client-side form checks of `main.js`: `validateEmail`, `validatePassword` and
    `validateForm`. */
module Validation {
  import opened Strings

  /** What the regular-expression class `\s` matches: the ECMAScript white-space and
      line-terminator characters. */
  predicate IsSpace(c: char) {
    || c == '\t' || c == '\n' || c == '\U{000B}' || c == '\U{000C}' || c == '\r'
    || c == ' ' || c == '\U{00A0}' || c == '\U{1680}'
    || ('\U{2000}' <= c <= '\U{200A}')
    || c == '\U{2028}' || c == '\U{2029}' || c == '\U{202F}' || c == '\U{205F}'
    || c == '\U{3000}' || c == '\U{FEFF}'
  }

  /** A character of the class `[^\s@]`. */
  predicate Plain(c: char) { !IsSpace(c) && c != '@' }

  predicate AllPlain(s: string) { forall i :: 0 <= i < |s| ==> Plain(s[i]) }

  /** `s` is `local "@" domain "." tld` with three non-empty runs of `[^\s@]`. */
  ghost predicate IsEmailSplit(s: string, local: string, domain: string, tld: string) {
    && s == local + "@" + domain + "." + tld
    && local != "" && domain != "" && tld != ""
    && AllPlain(local) && AllPlain(domain) && AllPlain(tld)
  }

  /** The language of `/^[^\s@]+@[^\s@]+\.[^\s@]+$/`. */
  ghost predicate EmailShape(s: string) {
    exists local, domain, tld :: IsEmailSplit(s, local, domain, tld)
  }

  /** The part after the `@`: plain characters with a `.` that is neither first nor last. */
  predicate DomainPart(r: string) {
    AllPlain(r) && exists j | 0 < j < |r| - 1 :: DotAt(r, j)
  }

  /** A `.` with at least one character on each side. */
  predicate DotAt(r: string, j: int) {
    0 < j < |r| - 1 && r[j] == '.'
  }

  /** `validateEmail(email)`: the pattern test, as a scan for the `@` that ends a
      non-empty plain prefix and starts a valid domain part. */
  predicate ValidateEmail(email: string): (ok: bool)
    ensures ok ==> |email| >= 5 && email[0] != '@'
  {
    exists a | 0 < a < |email| :: AtSplit(email, a)
  }

  /** The `@` at index `a` ends a non-empty plain local part and starts a domain part. */
  predicate AtSplit(email: string, a: int) {
    0 < a < |email| && email[a] == '@' && AllPlain(email[..a]) && DomainPart(email[a + 1..])
  }

  /** `validateEmail` accepts exactly the strings of the pattern's language. */
  lemma ValidateEmailIsPattern(email: string)
    ensures ValidateEmail(email) <==> EmailShape(email)
  {
    if ValidateEmail(email) {
      AcceptedHasShape(email);
    }
    if EmailShape(email) {
      var local, domain, tld :| IsEmailSplit(email, local, domain, tld);
      ShapeIsAccepted(email, local, domain, tld);
    }
  }

  lemma AcceptedHasShape(email: string)
    requires ValidateEmail(email)
    ensures EmailShape(email)
  {
    var a :| 0 < a < |email| && AtSplit(email, a);
    var r := email[a + 1..];
    var j :| 0 < j < |r| - 1 && DotAt(r, j);
    var local, domain, tld := email[..a], r[0..j], r[j + 1..|r|];
    assert AllPlain(domain) && AllPlain(tld) by {
      PlainSlice(r, 0, j);
      PlainSlice(r, j + 1, |r|);
    }
    assert email == local + "@" + domain + "." + tld by {
      assert email == local + "@" + r;
      assert r == domain + "." + tld;
      Regroup(local, domain, tld);
    }
    assert IsEmailSplit(email, local, domain, tld);
  }

  lemma Regroup(local: string, domain: string, tld: string)
    ensures local + "@" + (domain + "." + tld) == local + "@" + domain + "." + tld
  {
  }

  lemma PlainSlice(s: string, lo: nat, hi: nat)
    requires AllPlain(s) && lo <= hi <= |s|
    ensures AllPlain(s[lo..hi])
  {
    forall i | 0 <= i < hi - lo ensures Plain(s[lo..hi][i]) {
      assert s[lo..hi][i] == s[lo + i];
    }
  }

  lemma ShapeIsAccepted(email: string, local: string, domain: string, tld: string)
    requires IsEmailSplit(email, local, domain, tld)
    ensures ValidateEmail(email)
  {
    var a := |local|;
    var r := domain + "." + tld;
    assert email == local + "@" + r;
    assert email[..a] == local && email[a] == '@' && email[a + 1..] == r;
    assert DotAt(r, |domain|);
    forall i | 0 <= i < |r| ensures Plain(r[i]) {
      if i < |domain| { assert r[i] == domain[i]; }
      else if i > |domain| { assert r[i] == tld[i - |domain| - 1]; }
    }
    assert DomainPart(r);
    assert AtSplit(email, a);
  }

  /** An accepted address holds exactly one `@` and no white space. */
  lemma ValidEmailHasOneAt(email: string)
    requires ValidateEmail(email)
    ensures multiset(email)['@'] == 1
    ensures forall i :: 0 <= i < |email| ==> !IsSpace(email[i])
  {
    var a :| 0 < a < |email| && AtSplit(email, a);
    var local, rest := email[..a], email[a + 1..];
    assert email == local + [email[a]] + rest;
    NoAtInPlain(local);
    NoAtInPlain(rest);
    assert multiset(email) == multiset(local) + multiset{'@'} + multiset(rest);
    forall i | 0 <= i < |email| ensures !IsSpace(email[i]) {
      if i < a { assert email[i] == local[i]; }
      else if i > a { assert email[i] == rest[i - a - 1]; }
    }
  }

  lemma NoAtInPlain(s: string)
    requires AllPlain(s)
    ensures multiset(s)['@'] == 0
  {
    assert '@' !in s;
  }

  /** `validatePassword(password)`: at least eight characters. */
  predicate ValidatePassword(password: string): (ok: bool)
    ensures ok ==> Truthy(Some(password))
  {
    |password| >= 8
  }

  /** The three fields `validateForm` reads; `None` stands for a missing property. */
  datatype FormData = FormData(email: Option<string>, password: Option<string>, confirmPassword: Option<string>)

  const EmailMessage := "Please enter a valid email address"
  const PasswordMessage := "Password must be at least 8 characters"
  const MismatchMessage := "Passwords do not match"

  /** The messages in the order `validateForm` produces them. */
  const Messages := [EmailMessage, PasswordMessage, MismatchMessage]

  /** The email message is due when the email is given and fails the check. */
  predicate EmailFails(form: FormData) {
    Truthy(form.email) && !ValidateEmail(form.email.value)
  }

  /** The password message is due when the password is given and is too short. */
  predicate PasswordFails(form: FormData) {
    Truthy(form.password) && !ValidatePassword(form.password.value)
  }

  /** The password message is due exactly for a password of one to seven characters:
      an empty one is skipped as falsy, a longer one passes. */
  lemma PasswordFailsIff(form: FormData)
    ensures PasswordFails(form) <==> form.password.Some? && 0 < |form.password.value| < 8
  {
  }

  /** The mismatch message is due when a confirmation is given and differs from the
      password (strictly: a missing password differs from any confirmation). */
  predicate Mismatch(form: FormData) {
    Truthy(form.confirmPassword) && form.password != form.confirmPassword
  }

  /** `validateForm(formData)`: collects the messages of the failing checks. The result
      holds only the three messages, each at most once, in their fixed order, and a
      message is present exactly when its check fails. */
  method ValidateForm(form: FormData) returns (errors: seq<string>)
    ensures |errors| <= 3
    ensures forall i :: 0 <= i < |errors| ==> errors[i] in Messages
    ensures forall i, j :: 0 <= i < j < |errors| ==> IndexOf(errors[i]) < IndexOf(errors[j])
    ensures EmailMessage in errors <==> EmailFails(form)
    ensures PasswordMessage in errors <==> PasswordFails(form)
    ensures MismatchMessage in errors <==> Mismatch(form)
    ensures !Truthy(form.email) && !Truthy(form.password) && !Truthy(form.confirmPassword) ==> errors == []
  {
    errors := [];
    if Truthy(form.email) && !ValidateEmail(form.email.value) {
      errors := errors + [EmailMessage];
    }
    if Truthy(form.password) && !ValidatePassword(form.password.value) {
      errors := errors + [PasswordMessage];
    }
    if Truthy(form.confirmPassword) && form.password != form.confirmPassword {
      errors := errors + [MismatchMessage];
    }
  }

  /** Position of a message in the fixed order. */
  function IndexOf(message: string): (k: nat)
    requires message in Messages
    ensures k < 3 && Messages[k] == message
  {
    if message == EmailMessage then 0 else if message == PasswordMessage then 1 else 2
  }
}
