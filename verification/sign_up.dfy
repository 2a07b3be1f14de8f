/** The checks the sign-up form makes before it asks the backend to create
    an account. */
module SignUp {
  import opened Wrappers
  import opened Text
  import opened JsValues

  datatype SignUpForm = SignUpForm(
    email: string,
    password: string,
    confirmPassword: string,
    fullName: string,
    username: string)

  const MismatchError: string := "Passwords don't match"
  const TooShortError: string := "Password must be at least 6 characters"
  const MinPasswordLength: nat := 6
  const VerifyEmailPath: string := "/auth/verify-email"

  /** The first failing check, the match before the length. The length is
      JavaScript's, in UTF-16 code units. */
  function Validate(form: SignUpForm): (r: Option<string>)
    ensures r.None? <==> form.password == form.confirmPassword
                         && Utf16Length(form.password) >= MinPasswordLength
    ensures form.password != form.confirmPassword ==> r == Some(MismatchError)
    ensures form.password == form.confirmPassword && Utf16Length(form.password) < MinPasswordLength ==>
              r == Some(TooShortError)
  {
    if form.password != form.confirmPassword then Some(MismatchError)
    else if Utf16Length(form.password) < MinPasswordLength then Some(TooShortError)
    else None
  }

  /** What submitting did: the error shown, whether the form is still
      loading, whether the backend was asked, and where the page went. */
  datatype Outcome = Outcome(error: Option<string>, loading: bool, signUpCalled: bool, redirect: Option<string>)

  /** `handleSignUp`; `authError` is the error the backend answers with,
      if any (consulted only when the backend is asked). */
  function HandleSignUp(form: SignUpForm, authError: Option<JsError>): (o: Outcome)
    ensures !o.loading
    ensures o.signUpCalled <==> Validate(form).None?
    ensures Validate(form).Some? ==> o == Outcome(Validate(form), false, false, None)
    ensures o.signUpCalled && authError.Some? ==> o.error == authError.value.message && o.redirect.None?
    ensures o.signUpCalled && authError.None? ==> o.error.None? && o.redirect == Some(VerifyEmailPath)
  {
    match Validate(form)
    case Some(text) => Outcome(Some(text), false, false, None)
    case None =>
      match authError
      case Some(e) => Outcome(e.message, false, true, None)
      case None => Outcome(None, false, true, Some(VerifyEmailPath))
  }

  /** Mismatched passwords are reported as such even when the password is
      also too short. */
  lemma MismatchTakesPrecedence(form: SignUpForm, authError: Option<JsError>)
    requires form.password != form.confirmPassword
    requires Utf16Length(form.password) < MinPasswordLength
    ensures HandleSignUp(form, authError).error == Some(MismatchError)
    ensures !HandleSignUp(form, authError).signUpCalled
  {
  }

  /** The length is counted in UTF-16 code units, so three characters from
      outside the Basic Multilingual Plane make a long enough password while
      five ASCII letters do not. */
  lemma LengthInCodeUnits(email: string)
    ensures Validate(SignUpForm(email, "\U{1F308}\U{1F308}\U{1F308}", "\U{1F308}\U{1F308}\U{1F308}", "", "")).None?
    ensures Validate(SignUpForm(email, "abcde", "abcde", "", "")) == Some(TooShortError)
  {
    var p := "\U{1F308}\U{1F308}\U{1F308}";
    assert p[1..] == "\U{1F308}\U{1F308}" && p[1..][1..] == "\U{1F308}";
    assert Utf16Length(p) == 6;
    var q := "abcde";
    assert q[1..] == "bcde" && q[1..][1..] == "cde" && q[1..][1..][1..] == "de";
    assert Utf16Length(q) == 5;
  }
}
