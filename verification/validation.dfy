/** The form checks of the doctor-review application
    (Final/doctor-react/src/utils/validation.js): the e-mail pattern, the
    password length rule and the per-field error maps of the registration and
    login forms. */
module Validation {
  import opened Common
  import opened Text
  import Lists

  /** The characters of s[lo..hi] are all in the class [^\s@]. */
  predicate PlainRange(s: string, lo: int, hi: int)
    requires 0 <= lo <= hi <= |s|
  {
    forall k :: lo <= k < hi ==> !IsSpace(s[k]) && s[k] != '@'
  }

  /** The regular expression ^[^\s@]+@[^\s@]+\.[^\s@]+$ read literally: a
      non-empty run, '@', a non-empty run, '.', a non-empty run, where a run
      has neither white space nor '@' (a run may contain '.'). */
  ghost predicate MatchesEmailPattern(s: string)
  {
    exists i, j :: 0 < i && i + 1 < j && j + 1 < |s| && s[i] == '@' && s[j] == '.'
      && PlainRange(s, 0, i) && PlainRange(s, i + 1, j) && PlainRange(s, j + 1, |s|)
  }

  /** `validateEmail`: one '@' with a non-empty local part before it, and a
      domain after it that holds a '.' which is neither its first nor its last
      character; no white space anywhere. Decides the literal pattern. */
  function ValidateEmail(s: string): (r: bool)
    ensures r <==> MatchesEmailPattern(s)
    ensures r ==> exists i :: 0 < i < |s| && s[i] == '@' && forall k :: 0 <= k < |s| && k != i ==> s[k] != '@'
    ensures r ==> forall k :: 0 <= k < |s| ==> !IsSpace(s[k])
  {
    EmailDecision(s);
    match Lists.FindFirst(s, (c: char) => c == '@')
    case None => false
    case Some(i) =>
      && i > 0
      && PlainRange(s, 0, i)
      && PlainRange(s, i + 1, |s|)
      && exists m :: i + 1 < m < |s| - 1 && s[m] == '.'
  }

  /** Both directions of the correspondence between the decision procedure
      used by `ValidateEmail` and the pattern. */
  lemma EmailDecision(s: string)
    ensures match Lists.FindFirst(s, (c: char) => c == '@')
            case None => !MatchesEmailPattern(s)
            case Some(i) =>
              (&& i > 0 && PlainRange(s, 0, i) && PlainRange(s, i + 1, |s|)
               && exists m :: i + 1 < m < |s| - 1 && s[m] == '.') <==> MatchesEmailPattern(s)
  {
    var at := Lists.FindFirst(s, (c: char) => c == '@');
    if MatchesEmailPattern(s) {
      var i, j :| 0 < i && i + 1 < j && j + 1 < |s| && s[i] == '@' && s[j] == '.'
        && PlainRange(s, 0, i) && PlainRange(s, i + 1, j) && PlainRange(s, j + 1, |s|);
      PatternDecided(s, i, j);
    }
    match at
    case None =>
    case Some(i) =>
      if && i > 0 && PlainRange(s, 0, i) && PlainRange(s, i + 1, |s|)
         && exists m :: i + 1 < m < |s| - 1 && s[m] == '.'
      {
        var m :| i + 1 < m < |s| - 1 && s[m] == '.';
        assert PlainRange(s, i + 1, m) && PlainRange(s, m + 1, |s|);
      }
  }

  /** A match of the pattern at '@' index `i` and '.' index `j`: `i` is the
      first '@', and everything after it is one plain run holding the '.'. */
  lemma PatternDecided(s: string, i: int, j: int)
    requires 0 < i && i + 1 < j && j + 1 < |s| && s[i] == '@' && s[j] == '.'
    requires PlainRange(s, 0, i) && PlainRange(s, i + 1, j) && PlainRange(s, j + 1, |s|)
    ensures Lists.FindFirst(s, (c: char) => c == '@') == Some(i)
    ensures PlainRange(s, i + 1, |s|)
  {
    forall k | i + 1 <= k < |s|
      ensures !IsSpace(s[k]) && s[k] != '@'
    {
      if k < j {
      } else if k == j {
      } else {
      }
    }
  }

  /** The shortest password `validatePassword` accepts. */
  const MinPasswordLength := 6

  /** `validatePassword`: `password.length >= 6`, where `length` counts
      UTF-16 code units, so a character outside the Basic Multilingual Plane
      counts twice. Six characters always suffice, three never do, and an
      accepted password is never empty, so "required" and "too short" never
      both apply. */
  function ValidatePassword(password: string): (r: bool)
    ensures r <==> Utf16Length(password) >= MinPasswordLength
    ensures |password| >= MinPasswordLength ==> r
    ensures r ==> |password| >= MinPasswordLength / 2
    ensures r ==> password != ""
  {
    Utf16Length(password) >= MinPasswordLength
  }

  /** Only the code-unit length counts: extending an accepted password keeps
      it accepted, and passwords of equal `length` get the same verdict
      whatever their characters. */
  lemma PasswordRuleIsLengthOnly(password: string, more: string, other: string)
    requires Utf16Length(other) == Utf16Length(password)
    ensures ValidatePassword(password) ==> ValidatePassword(password + more)
    ensures ValidatePassword(password) == ValidatePassword(other)
  {
    Utf16LengthConcat(password, more);
  }

  /** Three emoji have `length` 6: registration accepts them although they
      are only three characters, while three Basic Latin letters are too
      short. */
  lemma AstralPasswordAccepted()
    ensures |"\U{1F600}\U{1F600}\U{1F600}"| == 3
    ensures ValidatePassword("\U{1F600}\U{1F600}\U{1F600}")
    ensures Password !in ValidateRegistration("a@b.c", "\U{1F600}\U{1F600}\U{1F600}", "\U{1F600}\U{1F600}\U{1F600}").errors
    ensures !ValidatePassword("abc")
  {
    var p := "\U{1F600}\U{1F600}\U{1F600}";
    assert Utf16Length(p) == 6 by {
      assert p[1..][1..][1..] == [];
    }
    assert Utf16Length("abc") == 3 by {
      assert "abc"[1..][1..][1..] == [];
    }
  }

  datatype Field = Email | Password | ConfirmPassword

  /** `{ isValid, errors }`: at most one message per field. */
  datatype Report = Report(isValid: bool, errors: map<Field, string>)

  const EmailRequired := "Email обязателен"
  const EmailMalformed := "Некорректный email"
  const PasswordRequired := "Пароль обязателен"
  const PasswordTooShort := "Пароль должен содержать минимум 6 символов"
  const ConfirmRequired := "Подтверждение пароля обязательно"
  const PasswordsDiffer := "Пароли не совпадают"

  /** Builds `errors` from the message chosen for each field, if any. */
  function ErrorMap(email: Option<string>, password: Option<string>, confirm: Option<string>): (m: map<Field, string>)
    ensures Email in m <==> email.Some?
    ensures Email in m ==> m[Email] == email.value
    ensures Password in m <==> password.Some?
    ensures Password in m ==> m[Password] == password.value
    ensures ConfirmPassword in m <==> confirm.Some?
    ensures ConfirmPassword in m ==> m[ConfirmPassword] == confirm.value
  {
    map f | f in {Email, Password, ConfirmPassword} && MessageFor(f, email, password, confirm).Some?
      :: MessageFor(f, email, password, confirm).value
  }

  function MessageFor(f: Field, email: Option<string>, password: Option<string>, confirm: Option<string>): Option<string>
  {
    match f
    case Email => email
    case Password => password
    case ConfirmPassword => confirm
  }

  /** The e-mail check shared by both forms: an empty value is "required",
      any other value failing the pattern is "malformed". */
  function EmailCheck(email: string): Option<string>
  {
    if email == "" then Some(EmailRequired)
    else if !ValidateEmail(email) then Some(EmailMalformed)
    else None
  }

  /** `validateRegistration`: each field is checked on its own, so every
      failing field is reported, each with its one message. */
  function ValidateRegistration(email: string, password: string, confirm: string): (r: Report)
    ensures r.isValid <==> r.errors == map[]
    ensures r.errors.Keys <= {Email, Password, ConfirmPassword}
    ensures Email in r.errors <==> !ValidateEmail(email)
    ensures Email in r.errors ==> r.errors[Email] == if email == "" then EmailRequired else EmailMalformed
    ensures Password in r.errors <==> !ValidatePassword(password)
    ensures Password in r.errors ==> r.errors[Password] == if password == "" then PasswordRequired else PasswordTooShort
    ensures ConfirmPassword in r.errors <==> confirm == "" || confirm != password
    ensures ConfirmPassword in r.errors ==> r.errors[ConfirmPassword] == if confirm == "" then ConfirmRequired else PasswordsDiffer
    ensures r.isValid <==> ValidateEmail(email) && ValidatePassword(password) && confirm == password
  {
    var passwordCheck :=
      if password == "" then Some(PasswordRequired)
      else if !ValidatePassword(password) then Some(PasswordTooShort)
      else None;
    var confirmCheck :=
      if confirm == "" then Some(ConfirmRequired)
      else if password != confirm then Some(PasswordsDiffer)
      else None;
    var errors := ErrorMap(EmailCheck(email), passwordCheck, confirmCheck);
    assert errors == map[] <==> |errors| == 0;
    Report(|errors| == 0, errors)
  }

  /** `validateLogin`: the same e-mail check, but the password is only
      required to be non-empty, and there is no confirmation field. */
  function ValidateLogin(email: string, password: string): (r: Report)
    ensures r.isValid <==> r.errors == map[]
    ensures ConfirmPassword !in r.errors
    ensures Email in r.errors <==> !ValidateEmail(email)
    ensures Email in r.errors ==> r.errors[Email] == if email == "" then EmailRequired else EmailMalformed
    ensures Password in r.errors <==> password == ""
    ensures Password in r.errors ==> r.errors[Password] == PasswordRequired
    ensures r.isValid <==> ValidateEmail(email) && password != ""
  {
    var passwordCheck := if password == "" then Some(PasswordRequired) else None;
    var errors := ErrorMap(EmailCheck(email), passwordCheck, None);
    assert errors == map[] <==> |errors| == 0;
    Report(|errors| == 0, errors)
  }

  /** A password too short to register with is still accepted by the login
      form, and a mismatch is reported even when the password is invalid. */
  lemma LoginHasNoLengthRule(email: string, password: string)
    requires password != "" && !ValidatePassword(password)
    ensures Password !in ValidateLogin(email, password).errors
    ensures Password in ValidateRegistration(email, password, password + "x").errors
    ensures ValidateRegistration(email, password, password + "x").errors[ConfirmPassword] == PasswordsDiffer
  {
    assert password + "x" != password by {
      assert |password + "x"| != |password|;
    }
  }
}
