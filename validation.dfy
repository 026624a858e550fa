/**
  The validators of the registration form: the institutional e-mail, the
  duplicate e-mail check, the password strength rules and the student id
  format. Each regular expression of the source is modelled by a scanner
  over the characters and proved equal to a character-level description of
  the strings it accepts.
 */
module Validation {
  import opened Wrappers

  /** `{ valid, error? }`: the result of the e-mail and student-id validators. */
  datatype ValidationResult = ValidationResult(valid: bool, error: Option<string>)

  /** The `requirements` record of `validatePassword`. */
  datatype PasswordRequirements = PasswordRequirements(length: bool, uppercase: bool, lowercase: bool, special: bool)

  /** `{ valid, error?, requirements? }`: the result of `validatePassword`. */
  datatype PasswordResult = PasswordResult(valid: bool, error: Option<string>, requirements: Option<PasswordRequirements>)

  const EmailRequired := "El correo es requerido"
  const EmailNotInstitutional := "Debes usar tu correo institucional (@est.unibe.edu.do)"
  const PasswordRequired := "La contraseña es requerida"
  const PasswordTooWeak := "La contraseña no cumple con todos los requisitos de seguridad"
  const StudentIdRequired := "La matrícula es requerida"
  const StudentIdBadFormat := "La matrícula debe tener el formato: AA-#### (ejemplo: 24-1197)"

  /** The fixed domain every institutional address ends with. */
  const InstitutionalSuffix := "@est.unibe.edu.do"

  // ---------------------------------------------------------------------
  // Character classes
  // ---------------------------------------------------------------------

  predicate IsAsciiUpper(c: char) { 'A' <= c <= 'Z' }

  predicate IsAsciiLower(c: char) { 'a' <= c <= 'z' }

  /** `\d` of a JavaScript regular expression: an ASCII digit. */
  predicate IsDigit(c: char) { '0' <= c <= '9' }

  /** `[a-zA-Z0-9._-]`: the characters allowed before the `@`. */
  predicate IsLocalChar(c: char)
  {
    IsAsciiUpper(c) || IsAsciiLower(c) || IsDigit(c) || c == '.' || c == '_' || c == '-'
  }

  /** The class `[!@#$%^&*()_+\-=\[\]{};':"\\|,.<>\/?~]` of the password rule. */
  predicate IsSpecial(c: char)
  {
    c in "!@#$%^&*()_+-=[]{};':\"\\|,.<>/?~"
  }

  // ---------------------------------------------------------------------
  // Scanners for the regular expressions
  // ---------------------------------------------------------------------

  /** `/[C]/.test(s)`: some character of `s` is in the class `C`. */
  function ContainsClass(s: string, C: char -> bool): (r: bool)
    ensures r <==> exists i :: 0 <= i < |s| && C(s[i])
  {
    if s == [] then false
    else if C(s[0]) then true
    else
      var r := ContainsClass(s[1..], C);
      assert forall i :: 0 < i < |s| ==> s[i] == s[1..][i - 1];
      r
  }

  /** `/^[C]*$/.test(s)`: every character of `s` is in the class `C`. */
  function AllInClass(s: string, C: char -> bool): (r: bool)
    ensures r <==> forall i :: 0 <= i < |s| ==> C(s[i])
  {
    if s == [] then true
    else if !C(s[0]) then false
    else
      var r := AllInClass(s[1..], C);
      assert forall i :: 0 < i < |s| ==> s[i] == s[1..][i - 1];
      r
  }

  // ---------------------------------------------------------------------
  // validateUnibeEmail
  // ---------------------------------------------------------------------

  /** The strings `/^[a-zA-Z0-9._-]+@est\.unibe\.edu\.do$/` accepts, described character by character. */
  ghost predicate InstitutionalEmail(s: string)
  {
    exists local: string ::
      && |local| >= 1
      && (forall i :: 0 <= i < |local| ==> IsLocalChar(local[i]))
      && s == local + InstitutionalSuffix
  }

  /**
    The test of that regular expression: the suffix is matched at the end,
    and the part in front of it is one or more characters of the class.
    Since `@` is not in the class, the split is forced.
   */
  function EmailRegexTest(s: string): (r: bool)
    ensures r ==> |s| > |InstitutionalSuffix| && s == s[..|s| - |InstitutionalSuffix|] + InstitutionalSuffix
    ensures r ==> forall i :: 0 <= i < |s| - |InstitutionalSuffix| ==> IsLocalChar(s[i])
  {
    var n := |s| - |InstitutionalSuffix|;
    n >= 1 && s[n..] == InstitutionalSuffix && AllInClass(s[..n], IsLocalChar)
  }

  lemma EmailRegexTestCorrect(s: string)
    ensures EmailRegexTest(s) <==> InstitutionalEmail(s)
  {
    var n := |s| - |InstitutionalSuffix|;
    if EmailRegexTest(s) {
      assert s == s[..n] + InstitutionalSuffix;
    }
    if InstitutionalEmail(s) {
      var local :| |local| >= 1 && (forall i :: 0 <= i < |local| ==> IsLocalChar(local[i]))
                   && s == local + InstitutionalSuffix;
      assert s[..n] == local;
      assert s[n..] == InstitutionalSuffix;
    }
  }

  /** `validateUnibeEmail`. */
  function ValidateUnibeEmail(email: string): (r: ValidationResult)
    ensures email == "" ==> r == ValidationResult(false, Some(EmailRequired))
    ensures r.valid <==> InstitutionalEmail(email)
    ensures r.error.None? <==> r.valid
    ensures email != "" && !r.valid ==> r.error == Some(EmailNotInstitutional)
  {
    EmailRegexTestCorrect(email);
    if email == "" then ValidationResult(false, Some(EmailRequired))
    else if !EmailRegexTest(email) then ValidationResult(false, Some(EmailNotInstitutional))
    else ValidationResult(true, None)
  }

  // ---------------------------------------------------------------------
  // checkDuplicateEmail
  // ---------------------------------------------------------------------

  /** `toLowerCase` on ASCII letters; every other character is kept. */
  function ToLowerChar(c: char): (r: char)
    ensures !IsAsciiUpper(r)
    ensures IsAsciiUpper(c) ==> IsAsciiLower(r) && r as int - c as int == 32
    ensures !IsAsciiUpper(c) ==> r == c
  {
    if IsAsciiUpper(c) then (c as int + 32) as char else c
  }

  function ToLower(s: string): (r: string)
    ensures |r| == |s|
    ensures forall i :: 0 <= i < |s| ==> !IsAsciiUpper(r[i])
    ensures forall i :: 0 <= i < |s| && !IsAsciiUpper(s[i]) ==> r[i] == s[i]
    ensures forall i :: 0 <= i < |s| && IsAsciiUpper(s[i]) ==> r[i] as int == s[i] as int + 32
  {
    seq(|s|, i requires 0 <= i < |s| => ToLowerChar(s[i]))
  }

  /** Lower-casing changes nothing a second time, nor a string without ASCII capitals. */
  lemma ToLowerNormalises(s: string)
    ensures ToLower(ToLower(s)) == ToLower(s)
    ensures (forall i :: 0 <= i < |s| ==> !IsAsciiUpper(s[i])) ==> ToLower(s) == s
  {
  }

  /** `checkDuplicateEmail`: only the candidate is lower-cased, the registered list is compared as stored. */
  function CheckDuplicateEmail(email: string, existingEmails: seq<string>): (r: bool)
    ensures r <==> exists i :: 0 <= i < |existingEmails| && existingEmails[i] == ToLower(email)
  {
    ToLower(email) in existingEmails
  }

  /** The check ignores the case of the candidate's ASCII letters. */
  lemma DuplicateIgnoresCandidateCase(e1: string, e2: string, existingEmails: seq<string>)
    requires ToLower(e1) == ToLower(e2)
    ensures CheckDuplicateEmail(e1, existingEmails) == CheckDuplicateEmail(e2, existingEmails)
  {
  }

  /** A registered address holding an ASCII capital is never reported, whatever the candidate. */
  lemma MixedCaseEntryNeverMatches(email: string, existingEmails: seq<string>, i: nat)
    requires i < |existingEmails|
    requires exists j :: 0 <= j < |existingEmails[i]| && IsAsciiUpper(existingEmails[i][j])
    ensures existingEmails[i] != ToLower(email)
  {
    ToLowerNormalises(email);
  }

  // ---------------------------------------------------------------------
  // validatePassword
  // ---------------------------------------------------------------------

  /** The four rules, each an outright statement about the characters of `p`. */
  ghost predicate LongEnough(p: string) { |p| >= 8 }
  ghost predicate HasUpper(p: string) { exists i :: 0 <= i < |p| && IsAsciiUpper(p[i]) }
  ghost predicate HasLower(p: string) { exists i :: 0 <= i < |p| && IsAsciiLower(p[i]) }
  ghost predicate HasSpecial(p: string) { exists i :: 0 <= i < |p| && IsSpecial(p[i]) }

  /** `validatePassword`. */
  function ValidatePassword(password: string): (r: PasswordResult)
    ensures password == "" ==> r == PasswordResult(false, Some(PasswordRequired), None)
    ensures password != "" ==> r.requirements.Some?
    ensures password != "" ==>
              r.requirements.value ==
              PasswordRequirements(LongEnough(password), HasUpper(password), HasLower(password), HasSpecial(password))
    ensures r.valid <==> LongEnough(password) && HasUpper(password) && HasLower(password) && HasSpecial(password)
    ensures r.error.None? <==> r.valid
    ensures password != "" && !r.valid ==> r.error == Some(PasswordTooWeak)
  {
    if password == "" then PasswordResult(false, Some(PasswordRequired), None)
    else
      var requirements := PasswordRequirements(
        |password| >= 8,
        ContainsClass(password, IsAsciiUpper),
        ContainsClass(password, IsAsciiLower),
        ContainsClass(password, IsSpecial));
      var allValid := requirements.length && requirements.uppercase && requirements.lowercase && requirements.special;
      if !allValid then PasswordResult(false, Some(PasswordTooWeak), Some(requirements))
      else PasswordResult(true, None, Some(requirements))
  }

  // ---------------------------------------------------------------------
  // validateStudentId
  // ---------------------------------------------------------------------

  /** The strings `/^\d{2}-\d{4}$/` accepts: a two-digit year, a hyphen, a four-digit number. */
  ghost predicate StudentIdFormat(s: string)
  {
    exists year: string, number: string ::
      && |year| == 2 && |number| == 4
      && (forall i :: 0 <= i < 2 ==> IsDigit(year[i]))
      && (forall i :: 0 <= i < 4 ==> IsDigit(number[i]))
      && s == year + "-" + number
  }

  /** The test of that regular expression, position by position. */
  function StudentIdRegexTest(s: string): (r: bool)
    ensures r <==> |s| == 7 && s[2] == '-' && forall i :: 0 <= i < |s| && i != 2 ==> IsDigit(s[i])
  {
    && |s| == 7
    && AllInClass(s[..2], IsDigit)
    && s[2] == '-'
    && AllInClass(s[3..], IsDigit)
  }

  lemma StudentIdRegexTestCorrect(s: string)
    ensures StudentIdRegexTest(s) <==> StudentIdFormat(s)
    ensures StudentIdRegexTest(s) ==> |s| == 7
  {
    if StudentIdRegexTest(s) {
      assert s == s[..2] + "-" + s[3..];
    }
    if StudentIdFormat(s) {
      var year, number :| |year| == 2 && |number| == 4
        && (forall i :: 0 <= i < 2 ==> IsDigit(year[i]))
        && (forall i :: 0 <= i < 4 ==> IsDigit(number[i]))
        && s == year + "-" + number;
      assert s[..2] == year && s[3..] == number;
    }
  }

  /** `validateStudentId`. */
  function ValidateStudentId(studentId: string): (r: ValidationResult)
    ensures studentId == "" ==> r == ValidationResult(false, Some(StudentIdRequired))
    ensures r.valid <==> StudentIdFormat(studentId)
    ensures r.valid ==> |studentId| == 7
    ensures r.error.None? <==> r.valid
    ensures studentId != "" && !r.valid ==> r.error == Some(StudentIdBadFormat)
  {
    StudentIdRegexTestCorrect(studentId);
    if studentId == "" then ValidationResult(false, Some(StudentIdRequired))
    else if !StudentIdRegexTest(studentId) then ValidationResult(false, Some(StudentIdBadFormat))
    else ValidationResult(true, None)
  }
}
