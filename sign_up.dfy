/** The sign-up screen's decision logic (src/screens/SignUpScreen.tsx): form
    validation, the password-strength bar and the outcome of a sign-up. */
module SignUp {
  import opened Wrappers
  import opened JsString
  import opened Storage

  /** The checks of the form, in the order they run. */
  datatype FormError = UsernameRequired | UsernameTooShort | PasswordRequired | PasswordTooShort | PasswordsDiffer
  {
    /** The text the alert shows; it names the field whose check failed. */
    function Message(): (r: string)
      ensures |r| >= 8
      ensures UsernameRequired? || UsernameTooShort? ==> r[..8] == "Username"
      ensures PasswordRequired? || PasswordTooShort? || PasswordsDiffer? ==> r[..8] == "Password"
    {
      match this
      case UsernameRequired => "Username" + " is required"
      case UsernameTooShort => "Username" + " must be at least 3 characters"
      case PasswordRequired => "Password" + " is required"
      case PasswordTooShort => "Password" + " must be at least 4 characters"
      case PasswordsDiffer => "Password" + "s do not match"
    }
  }

  /** Each failing check has its own message. */
  lemma MessagesDistinct(a: FormError, b: FormError)
    ensures a.Message() == b.Message() <==> a == b
  {
    if a != b {
      var x, y := a.Message(), b.Message();
      assert x[0] != y[0] || x[9] != y[9] || x[12] != y[12] || |x| != |y|;
    }
  }

  /** The password checks of `validateForm`, run once the username passes. */
  function PasswordError(password: string, confirmPassword: string): (r: Option<FormError>)
    ensures r == None <==> !IsBlank(password) && |password| >= 4 && password == confirmPassword
    ensures IsBlank(password) ==> r == Some(PasswordRequired)
    ensures !IsBlank(password) && |password| < 4 ==> r == Some(PasswordTooShort)
    ensures !IsBlank(password) && |password| >= 4 && password != confirmPassword ==> r == Some(PasswordsDiffer)
  {
    if IsBlank(password) then Some(PasswordRequired)
    else if |password| < 4 then Some(PasswordTooShort)
    else if password != confirmPassword then Some(PasswordsDiffer)
    else None
  }

  /** `validateForm`: the message of the first failing check, or null (None).
      The username is measured after trimming, the password is not. */
  function ValidateForm(username: string, password: string, confirmPassword: string): (r: Option<FormError>)
    ensures r == None <==>
              && |Trim(username)| >= 3
              && !IsBlank(password)
              && |password| >= 4
              && password == confirmPassword
    ensures IsBlank(username) ==> r == Some(UsernameRequired)
    ensures !IsBlank(username) && |Trim(username)| < 3 ==> r == Some(UsernameTooShort)
    ensures |Trim(username)| >= 3 ==> r == PasswordError(password, confirmPassword)
  {
    if IsBlank(username) then Some(UsernameRequired)
    else if |Trim(username)| < 3 then Some(UsernameTooShort)
    else PasswordError(password, confirmPassword)
  }

  /** Surrounding whitespace on the username never changes the verdict. */
  lemma ValidateUsesTrimmedUsername(username: string, password: string, confirmPassword: string)
    ensures ValidateForm(Trim(username), password, confirmPassword)
            == ValidateForm(username, password, confirmPassword)
  {
    TrimIdempotent(username);
  }

  /** A password of whitespace only is reported as missing, whatever its length,
      once the username passes. */
  lemma BlankPasswordIsRequired(username: string, password: string, confirmPassword: string)
    requires |Trim(username)| >= 3
    requires AllWhitespace(password)
    ensures ValidateForm(username, password, confirmPassword) == Some(PasswordRequired)
  {
  }

  /** A mismatch is reported only after every earlier check has passed. */
  lemma MismatchIsLastCheck(username: string, password: string, confirmPassword: string)
    requires ValidateForm(username, password, confirmPassword) == Some(PasswordsDiffer)
    ensures |Trim(username)| >= 3 && !IsBlank(password) && |password| >= 4
    ensures password != confirmPassword
  {
  }

  datatype StrengthColor = Border | Error | Warning | Success

  datatype Strength = Strength(text: string, color: StrengthColor, width: nat)

  /** `getPasswordStrength`: bands by raw length. */
  function PasswordStrength(password: string): (s: Strength)
    ensures s.width <= 100
    ensures s.width == 0 <==> password == ""
    ensures s.text == "" <==> password == ""
    ensures s.text == "Strong" <==> |password| >= 8
    ensures password == "" ==> s == Strength("", Border, 0)
    ensures 1 <= |password| < 4 ==> s == Strength("Weak", Error, 33)
    ensures 4 <= |password| < 8 ==> s == Strength("Medium", Warning, 66)
    ensures |password| >= 8 ==> s == Strength("Strong", Success, 100)
  {
    if |password| == 0 then Strength("", Border, 0)
    else if |password| < 4 then Strength("Weak", Error, 33)
    else if |password| < 8 then Strength("Medium", Warning, 66)
    else Strength("Strong", Success, 100)
  }

  /** A longer password never shows a narrower bar. */
  lemma StrengthMonotone(a: string, b: string)
    requires |a| <= |b|
    ensures PasswordStrength(a).width <= PasswordStrength(b).width
  {
  }

  /** Every password the form accepts is at least Medium. */
  lemma AcceptedIsAtLeastMedium(username: string, password: string)
    requires ValidateForm(username, password, password) == None
    ensures PasswordStrength(password).width >= 66
  {
  }

  /** The `try` block of `handleSignUp`: registers `name` and, on success, makes
      it the session. A refusal (taken name or failed write) leaves the session
      untouched. */
  method CreateAccount(store: Store, name: string, password: string, now: int,
                       saveFaults: Faults, sessionWriteFails: bool)
    returns (created: bool)
    requires store.Valid() && name != ""
    modifies store`users, store`session
    ensures store.Valid()
    ensures var seen := if saveFaults.readFails then [] else old(store.users);
            && created == (FindUser(seen, name).None? && !saveFaults.writeFails)
            && store.users == (if created then seen + [User(name, PasswordHash(password), now)]
                               else old(store.users))
            && store.session == (if created && !sessionWriteFails then Some(name) else old(store.session))
  {
    created := store.SaveUser(name, password, now, saveFaults);
    if created {
      store.SetCurrentUser(Some(name), sessionWriteFails);
    }
  }

  datatype SignUpOutcome = Invalid(error: FormError) | Created | Rejected

  /** `handleSignUp`: an invalid form touches nothing; otherwise the trimmed
      username goes to `CreateAccount`. */
  method HandleSignUp(store: Store, username: string, password: string, confirmPassword: string,
                      now: int, saveFaults: Faults, sessionWriteFails: bool)
    returns (outcome: SignUpOutcome)
    requires store.Valid()
    modifies store`users, store`session
    ensures store.Valid()
    ensures ValidateForm(username, password, confirmPassword).Some? ==>
              && outcome == Invalid(ValidateForm(username, password, confirmPassword).value)
              && unchanged(store)
    ensures ValidateForm(username, password, confirmPassword).None? ==>
              var name := Trim(username);
              var seen := if saveFaults.readFails then [] else old(store.users);
              && outcome == (if FindUser(seen, name).None? && !saveFaults.writeFails then Created else Rejected)
              && store.users == (if outcome == Created then seen + [User(name, PasswordHash(password), now)]
                                 else old(store.users))
              && store.session == (if outcome == Created && !sessionWriteFails then Some(name)
                                   else old(store.session))
  {
    var error := ValidateForm(username, password, confirmPassword);
    if error.Some? {
      return Invalid(error.value);
    }
    var name := Trim(username);
    var created := CreateAccount(store, name, password, now, saveFaults, sessionWriteFails);
    outcome := if created then Created else Rejected;
  }
}
