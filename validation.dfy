/** The request-body validators that guard `/register` and `/login`
    (backend/src/middleware/validation.ts). Each guard is a rule with one
    rejection message; rules are tried in a fixed order and the first one
    violated is the answer. */
module Validation {
  import opened Strings

  /** A field of the JSON request body: a string, or anything else (missing,
      null, a number, an object). Every non-string value draws the same
      "required" message as a missing one, so they are one case here. */
  datatype Field = Absent | Str(value: string)

  /** The destructured `req.body`. */
  datatype Body = Body(name: Field, email: Field, password: Field)

  /** `!x || typeof x !== 'string'` is false exactly for non-empty strings. */
  predicate Present(f: Field) {
    f.Str? && f.value != ""
  }

  /** The text of a field, "" when it is not a string. */
  function TextOf(f: Field): (t: string) {
    if f.Str? then f.value else ""
  }

  /** One rejection per guard, in the order the guards appear. */
  datatype Rejection =
    | NameRequired
    | NameNotLetters
    | NameTooShort
    | EmailRequired
    | EmailInvalid
    | PasswordRequired
    | PasswordTooShort
    | PasswordNoLowercase
    | PasswordNoUppercase
    | PasswordNoDigit
    | PasswordNoSpecial

  datatype Verdict = Accept | Reject(reason: Rejection)

  /** The message the HTTP 400 response carries for each rejection. */
  function Message(r: Rejection): (m: string) {
    match r
    case NameRequired => "Name is required"
    case NameNotLetters => "Name should contain only letters and spaces"
    case NameTooShort => "Name must be at least 2 characters"
    case EmailRequired => "Email is required"
    case EmailInvalid => "Please enter a valid email address"
    case PasswordRequired => "Password is required"
    case PasswordTooShort => "Password must be at least 8 characters"
    case PasswordNoLowercase => "Password must contain at least one lowercase letter"
    case PasswordNoUppercase => "Password must contain at least one uppercase letter"
    case PasswordNoDigit => "Password must contain at least one number"
    case PasswordNoSpecial => "Password must contain at least one special character"
  }

  const NameMinLength: nat := 2
  const PasswordMinLength: nat := 8

  /** The class `[!@#$%^&*(),.?":{}|<>]`. */
  const SpecialCharacters: string := "!@#$%^&*(),.?\":{}|<>"

  /** `/^[A-Za-z\s]+$/`: non-empty, letters and whitespace only. */
  predicate LettersOrWhitespace(s: string) {
    |s| > 0 && forall i | 0 <= i < |s| :: IsLetter(s[i]) || IsWhitespace(s[i])
  }

  /** `[^\s@]+` without the `+`: no whitespace and no `@`. */
  predicate Plain(s: string) {
    forall i | 0 <= i < |s| :: !IsWhitespace(s[i]) && s[i] != '@'
  }

  /** `/^[^\s@]+@[^\s@]+\.[^\s@]+$/` read literally: the string splits at an
      `@` (index k) and a later `.` (index j) into three non-empty parts,
      none of which holds whitespace or an `@`. */
  predicate MatchesEmailPattern(e: string) {
    exists k, j | 0 < k && k + 1 < j && j + 1 < |e| ::
      e[k] == '@' && e[j] == '.' && Plain(e[..k]) && Plain(e[k + 1..j]) && Plain(e[j + 1..])
  }

  predicate HasLowercase(p: string) { exists i | 0 <= i < |p| :: IsLower(p[i]) }
  predicate HasUppercase(p: string) { exists i | 0 <= i < |p| :: IsUpper(p[i]) }
  predicate HasDigit(p: string) { exists i | 0 <= i < |p| :: IsDigit(p[i]) }
  predicate HasSpecial(p: string) { exists i | 0 <= i < |p| :: p[i] in SpecialCharacters }

  /** The rule behind each rejection, as a condition on the whole body. */
  predicate Violates(rule: Rejection, b: Body) {
    match rule
    case NameRequired => !Present(b.name)
    case NameNotLetters => !LettersOrWhitespace(Trim(TextOf(b.name)))
    case NameTooShort => |Trim(TextOf(b.name))| < NameMinLength
    case EmailRequired => !Present(b.email)
    case EmailInvalid => !MatchesEmailPattern(TextOf(b.email))
    case PasswordRequired => !Present(b.password)
    case PasswordTooShort => |TextOf(b.password)| < PasswordMinLength
    case PasswordNoLowercase => !HasLowercase(TextOf(b.password))
    case PasswordNoUppercase => !HasUppercase(TextOf(b.password))
    case PasswordNoDigit => !HasDigit(TextOf(b.password))
    case PasswordNoSpecial => !HasSpecial(TextOf(b.password))
  }

  const NameRules: seq<Rejection> := [NameRequired, NameNotLetters, NameTooShort]
  const EmailRules: seq<Rejection> := [EmailRequired, EmailInvalid]
  const PasswordRules: seq<Rejection> := [
    PasswordRequired, PasswordTooShort, PasswordNoLowercase, PasswordNoUppercase,
    PasswordNoDigit, PasswordNoSpecial
  ]

  /** The order of the registration guards: name, then email, then password. */
  const RegistrationRules: seq<Rejection> := NameRules + EmailRules + PasswordRules

  /** The order of the login guards. */
  const LoginRules: seq<Rejection> := EmailRules + [PasswordRequired]

  /** Reference semantics of a fail-fast guard chain: the first rule of the
      list that the body violates, or Accept when there is none. */
  function FirstViolation(rules: seq<Rejection>, b: Body): (v: Verdict)
    ensures v.Reject? ==> v.reason in rules && Violates(v.reason, b)
    decreases |rules|
  {
    if rules == [] then Accept
    else if Violates(rules[0], b) then Reject(rules[0])
    else FirstViolation(rules[1..], b)
  }

  /** The name guards of `validateRegistration`. */
  function CheckName(name: Field): (v: Verdict)
    ensures v.Reject? ==> v.reason in NameRules
    ensures v == Accept ==> Present(name) && NameMinLength <= |Trim(name.value)| <= |name.value|
  {
    if !Present(name) then Reject(NameRequired)
    else if !LettersOrWhitespace(Trim(name.value)) then Reject(NameNotLetters)
    else if |Trim(name.value)| < NameMinLength then Reject(NameTooShort)
    else Accept
  }

  /** The email guards, shared by both validators. */
  function CheckEmail(email: Field): (v: Verdict)
    ensures v.Reject? ==> v.reason in EmailRules
    ensures v == Accept ==> Present(email) && |email.value| >= 5 && '@' in email.value
  {
    if !Present(email) then Reject(EmailRequired)
    else if !MatchesEmailPattern(email.value) then Reject(EmailInvalid)
    else Accept
  }

  /** The password guards of `validateRegistration`. */
  function CheckPassword(password: Field): (v: Verdict)
    ensures v.Reject? ==> v.reason in PasswordRules
    ensures v == Accept ==> Present(password) && |password.value| >= PasswordMinLength
  {
    if !Present(password) then Reject(PasswordRequired)
    else if |password.value| < PasswordMinLength then Reject(PasswordTooShort)
    else if !HasLowercase(password.value) then Reject(PasswordNoLowercase)
    else if !HasUppercase(password.value) then Reject(PasswordNoUppercase)
    else if !HasDigit(password.value) then Reject(PasswordNoDigit)
    else if !HasSpecial(password.value) then Reject(PasswordNoSpecial)
    else Accept
  }

  /** `validateRegistration`: the name guards, then the email guards, then
      the password guards; the first failure is the answer. */
  function ValidateRegistration(b: Body): (v: Verdict)
    ensures v.Reject? ==> v.reason in RegistrationRules && Violates(v.reason, b)
    ensures v == Accept <==> CheckName(b.name) == Accept && CheckEmail(b.email) == Accept && CheckPassword(b.password) == Accept
  {
    if CheckName(b.name).Reject? then CheckName(b.name)
    else if CheckEmail(b.email).Reject? then CheckEmail(b.email)
    else CheckPassword(b.password)
  }

  /** `validateLogin`: presence and shape of the email, presence of the
      password, and nothing else. */
  function ValidateLogin(b: Body): (v: Verdict)
    ensures v.Reject? ==> v.reason in LoginRules && Violates(v.reason, b)
    ensures v == Accept ==> Present(b.email) && Present(b.password)
  {
    if CheckEmail(b.email).Reject? then CheckEmail(b.email)
    else if !Present(b.password) then Reject(PasswordRequired)
    else Accept
  }

  // ---------------------------------------------------------------------
  // The guards follow the rule order

  /** One step of the guard chain: the head rule decides when violated,
      otherwise the rest of the chain does. */
  lemma FirstViolationStep(rule: Rejection, rest: seq<Rejection>, b: Body)
    ensures FirstViolation([rule] + rest, b) == if Violates(rule, b) then Reject(rule) else FirstViolation(rest, b)
  {
    assert ([rule] + rest)[1..] == rest;
  }

  /** Chaining two lists of guards: the first list decides unless it
      accepts, and then the second does. */
  lemma {:induction false} FirstViolationAppend(first: seq<Rejection>, second: seq<Rejection>, b: Body)
    ensures FirstViolation(first + second, b) ==
      if FirstViolation(first, b).Reject? then FirstViolation(first, b) else FirstViolation(second, b)
    decreases |first|
  {
    if first == [] {
      assert first + second == second;
    } else {
      assert (first + second)[0] == first[0];
      assert (first + second)[1..] == first[1..] + second;
      FirstViolationAppend(first[1..], second, b);
    }
  }

  lemma NameRulesInOrder(b: Body)
    ensures CheckName(b.name) == FirstViolation(NameRules, b)
  {
    FirstViolationStep(NameRequired, [NameNotLetters, NameTooShort], b);
    FirstViolationStep(NameNotLetters, [NameTooShort], b);
    FirstViolationStep(NameTooShort, [], b);
  }

  lemma EmailRulesInOrder(b: Body)
    ensures CheckEmail(b.email) == FirstViolation(EmailRules, b)
  {
    FirstViolationStep(EmailRequired, [EmailInvalid], b);
    FirstViolationStep(EmailInvalid, [], b);
  }

  lemma PasswordRulesInOrder(b: Body)
    ensures CheckPassword(b.password) == FirstViolation(PasswordRules, b)
  {
    var rules := PasswordRules;
    FirstViolationStep(PasswordRequired, rules[1..], b);
    FirstViolationStep(PasswordTooShort, rules[2..], b);
    FirstViolationStep(PasswordNoLowercase, rules[3..], b);
    FirstViolationStep(PasswordNoUppercase, rules[4..], b);
    FirstViolationStep(PasswordNoDigit, rules[5..], b);
    FirstViolationStep(PasswordNoSpecial, [], b);
  }

  /** The registration guards run in the order name, email, password, and
      the answer is the first one violated. */
  lemma RegistrationFollowsRuleOrder(b: Body)
    ensures ValidateRegistration(b) == FirstViolation(RegistrationRules, b)
  {
    assert RegistrationRules == NameRules + (EmailRules + PasswordRules);
    FirstViolationAppend(NameRules, EmailRules + PasswordRules, b);
    FirstViolationAppend(EmailRules, PasswordRules, b);
    NameRulesInOrder(b);
    EmailRulesInOrder(b);
    PasswordRulesInOrder(b);
  }

  /** The login guards run in the order email presence, email shape,
      password presence, and the answer is the first one violated. */
  lemma LoginFollowsRuleOrder(b: Body)
    ensures ValidateLogin(b) == FirstViolation(LoginRules, b)
  {
    FirstViolationAppend(EmailRules, [PasswordRequired], b);
    EmailRulesInOrder(b);
    FirstViolationStep(PasswordRequired, [], b);
  }

  // ---------------------------------------------------------------------
  // The fail-fast order

  /** Accept exactly when no rule of the list is violated. */
  lemma {:induction false} FirstViolationAccepts(rules: seq<Rejection>, b: Body)
    ensures FirstViolation(rules, b) == Accept <==> forall k | 0 <= k < |rules| :: !Violates(rules[k], b)
    decreases |rules|
  {
    if rules != [] {
      FirstViolationAccepts(rules[1..], b);
      assert forall k | 1 <= k < |rules| :: rules[k] == rules[1..][k - 1];
    }
  }

  /** A rejection names a violated rule all of whose predecessors hold, and
      such a rule is the answer: the first failure wins. */
  lemma {:induction false} FirstViolationRejects(rules: seq<Rejection>, b: Body, r: Rejection)
    ensures FirstViolation(rules, b) == Reject(r) <==>
      exists k | 0 <= k < |rules| :: rules[k] == r && Violates(r, b) && forall j | 0 <= j < k :: !Violates(rules[j], b)
    decreases |rules|
  {
    if rules != [] {
      FirstViolationRejects(rules[1..], b, r);
      if FirstViolation(rules, b) == Reject(r) && !Violates(rules[0], b) {
        var k :| 0 <= k < |rules[1..]| && rules[1..][k] == r && Violates(r, b)
          && forall j | 0 <= j < k :: !Violates(rules[1..][j], b);
        assert rules[k + 1] == r;
        forall j | 0 <= j < k + 1 ensures !Violates(rules[j], b) {
          if j > 0 { assert rules[j] == rules[1..][j - 1]; }
        }
      }
      if k :| 0 <= k < |rules| && rules[k] == r && Violates(r, b) && forall j | 0 <= j < k :: !Violates(rules[j], b) {
        if k > 0 {
          assert rules[1..][k - 1] == r;
          forall j | 0 <= j < k - 1 ensures !Violates(rules[1..][j], b) {
            assert rules[1..][j] == rules[j + 1];
          }
          assert !Violates(rules[0], b);
        }
      }
    }
  }

  /** Registration is accepted exactly when every guard passes. */
  lemma RegistrationAcceptedExactly(b: Body)
    ensures ValidateRegistration(b) == Accept <==>
      && Present(b.name) && LettersOrWhitespace(Trim(b.name.value)) && |Trim(b.name.value)| >= NameMinLength
      && Present(b.email) && MatchesEmailPattern(b.email.value)
      && Present(b.password) && |b.password.value| >= PasswordMinLength
      && HasLowercase(b.password.value) && HasUppercase(b.password.value)
      && HasDigit(b.password.value) && HasSpecial(b.password.value)
  {
  }

  /** A failing name guard decides the answer: the email and password are
      never looked at, so a bad name and a bad email draw only the name
      message. */
  lemma NameCheckedBeforeEmailAndPassword(b: Body, email: Field, password: Field)
    requires CheckName(b.name).Reject?
    ensures ValidateRegistration(b).Reject?
    ensures ValidateRegistration(b).reason in {NameRequired, NameNotLetters, NameTooShort}
    ensures ValidateRegistration(b.(email := email, password := password)) == ValidateRegistration(b)
  {
  }

  /** With a good name, a failing email guard decides the answer and the
      password is never looked at. */
  lemma EmailCheckedBeforePassword(b: Body, password: Field)
    requires CheckName(b.name) == Accept && CheckEmail(b.email).Reject?
    ensures ValidateRegistration(b).Reject?
    ensures ValidateRegistration(b).reason in {EmailRequired, EmailInvalid}
    ensures ValidateRegistration(b.(password := password)) == ValidateRegistration(b)
  {
  }

  /** A whitespace-only name is present, but its trim is empty and fails the
      letters-and-spaces pattern. */
  lemma WhitespaceNameIsNotLetters(b: Body)
    requires Present(b.name) && AllWhitespace(b.name.value)
    ensures ValidateRegistration(b) == Reject(NameNotLetters)
  {
  }

  /** A single letter, with any whitespace before and after it, passes the
      pattern and fails on length. */
  lemma OneLetterNameIsTooShort(b: Body, pre: string, c: char, post: string)
    requires IsLetter(c) && AllWhitespace(pre) && AllWhitespace(post)
    requires b.name == Str(pre + [c] + post)
    ensures ValidateRegistration(b) == Reject(NameTooShort)
  {
    TrimOfPadded(pre, [c], post);
    assert LettersOrWhitespace([c]);
  }

  /** With a good name and email, a present password shorter than eight
      characters is refused for its length before any character class is
      tested. */
  lemma ShortPasswordFailsOnLength(b: Body)
    requires CheckName(b.name) == Accept && CheckEmail(b.email) == Accept
    requires Present(b.password) && |b.password.value| < PasswordMinLength
    ensures ValidateRegistration(b) == Reject(PasswordTooShort)
  {
  }

  /** The worked example: "Weak1" has a lowercase letter, an uppercase
      letter and a digit, yet behind a good name and email it is refused for
      its length. */
  lemma WeakPasswordExample(b: Body)
    requires CheckName(b.name) == Accept && CheckEmail(b.email) == Accept
    requires b.password == Str("Weak1")
    ensures HasLowercase(b.password.value) && HasUppercase(b.password.value) && HasDigit(b.password.value)
    ensures ValidateRegistration(b) == Reject(PasswordTooShort)
  {
    var p := b.password.value;
    assert IsUpper(p[0]) && IsLower(p[1]) && IsDigit(p[4]);
  }

  /** "Jo" is a good name. */
  lemma ExampleNamePasses(name: Field)
    requires name == Str("Jo")
    ensures CheckName(name) == Accept
  {
    var n := name.value;
    assert n[0] == 'J' && n[1] == 'o';
    TrimWithoutWhitespace(n);
  }

  /** "jo@x.com" is a good email. */
  lemma ExampleEmailPasses(email: Field)
    requires email == Str("jo@x.com")
    ensures CheckEmail(email) == Accept
  {
    var e := email.value;
    assert e[..2] == "jo" && e[3..4] == "x" && e[5..] == "com";
    assert e[2] == '@' && e[4] == '.' && Plain(e[..2]) && Plain(e[3..4]) && Plain(e[5..]);
  }

  /** Login validation: a present, well-shaped email and any non-empty
      password; no strength rule and no name. */
  lemma LoginAcceptedExactly(b: Body)
    ensures ValidateLogin(b) == Accept <==>
      Present(b.email) && MatchesEmailPattern(b.email.value) && Present(b.password)
  {
  }

  /** Credentials that pass registration also pass login validation. */
  lemma RegisteredCredentialsPassLogin(b: Body)
    requires ValidateRegistration(b) == Accept
    ensures ValidateLogin(b) == Accept
  {
    RegistrationAcceptedExactly(b);
  }

  // ---------------------------------------------------------------------
  // The email pattern

  /** The email test in plain terms: no whitespace anywhere, exactly one `@`
      which is not the first character, and a `.` in the domain with at least
      one character on each side. The string is tested as given, neither
      trimmed nor lowercased. */
  predicate EmailShape(e: string) {
    && NoWhitespace(e)
    && exists k | 0 < k < |e| ::
         && e[k] == '@'
         && (forall i | 0 <= i < |e| && e[i] == '@' :: i == k)
         && exists j | k + 1 < j < |e| - 1 :: e[j] == '.'
  }

  lemma EmailPatternCharacterization(e: string)
    ensures MatchesEmailPattern(e) <==> EmailShape(e)
  {
    if MatchesEmailPattern(e) { PatternGivesShape(e); }
    if EmailShape(e) { ShapeGivesPattern(e); }
  }

  lemma PatternGivesShape(e: string)
    requires MatchesEmailPattern(e)
    ensures EmailShape(e)
  {
    var k, j :| 0 < k && k + 1 < j && j + 1 < |e| && e[k] == '@' && e[j] == '.'
      && Plain(e[..k]) && Plain(e[k + 1..j]) && Plain(e[j + 1..]);
    var local, domain, top := e[..k], e[k + 1..j], e[j + 1..];
    forall i | 0 <= i < |e|
      ensures !IsWhitespace(e[i]) && (e[i] == '@' ==> i == k)
    {
      if i < k { assert e[i] == local[i]; }
      else if k < i < j { assert e[i] == domain[i - k - 1]; }
      else if j < i { assert e[i] == top[i - j - 1]; }
    }
  }

  lemma ShapeGivesPattern(e: string)
    requires EmailShape(e)
    ensures MatchesEmailPattern(e)
  {
    var k :| 0 < k < |e| && e[k] == '@' && (forall i | 0 <= i < |e| && e[i] == '@' :: i == k)
      && exists j | k + 1 < j < |e| - 1 :: e[j] == '.';
    var j :| k + 1 < j < |e| - 1 && e[j] == '.';
    var local, domain, top := e[..k], e[k + 1..j], e[j + 1..];
    forall i | 0 <= i < |local| ensures !IsWhitespace(local[i]) && local[i] != '@' {
      assert local[i] == e[i];
    }
    forall i | 0 <= i < |domain| ensures !IsWhitespace(domain[i]) && domain[i] != '@' {
      assert domain[i] == e[k + 1 + i];
    }
    forall i | 0 <= i < |top| ensures !IsWhitespace(top[i]) && top[i] != '@' {
      assert top[i] == e[j + 1 + i];
    }
    assert Plain(local) && Plain(domain) && Plain(top);
  }

  /** An email that passes validation has no whitespace, so trimming it
      (as the schema does when it is stored) changes nothing. */
  lemma ValidEmailHasNoWhitespace(e: string)
    requires MatchesEmailPattern(e)
    ensures NoWhitespace(e)
    ensures Trim(Lower(e)) == Lower(e)
  {
    EmailPatternCharacterization(e);
    TrimWithoutWhitespace(Lower(e));
  }

}
