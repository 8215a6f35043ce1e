/** The sign-up route: its loader sends a signed-in user home; its action is
    a chain of guards in front of the identity provider's `signUp`. */
module Signup {
  import opened Model
  import opened Auth

  const AllFieldsRequired := "All fields are required"
  const PasswordsDiffer := "Passwords do not match"
  const PasswordTooShort := "Password must be at least 6 characters"
  const AccountCreated := "Account created! Please check your email to confirm your account before signing in."
  const MinPasswordLength := 6

  datatype SignupForm = SignupForm(email: Option<string>, password: Option<string>, confirmPassword: Option<string>)

  /** The loader: home when `getUser` finds a user, otherwise the page. */
  function Loader(users: map<string, User>, session: Option<Session>): (r: Response)
    ensures r == Redirect("/") <==> session.Some? && session.value.email in users
    ensures r != Redirect("/") ==> r == Json(200, NoData)
  {
    if GetUser(users, session).Some? then Redirect("/") else Json(200, NoData)
  }

  /** The guards a form must pass before the provider is called. */
  predicate ReachesProvider(form: SignupForm) {
    && Truthy(form.email) && Truthy(form.password) && Truthy(form.confirmPassword)
    && form.password.value == form.confirmPassword.value
    && |form.password.value| >= MinPasswordLength
  }

  /** The action. `signUp(email, password)` is the provider's answer: an
      error message, or None when the account was created. */
  function Action(form: SignupForm, signUp: (string, string) -> Option<string>): Response {
    if !Truthy(form.email) || !Truthy(form.password) || !Truthy(form.confirmPassword) then
      Json(400, ErrorMessage(AllFieldsRequired))
    else if form.password.value != form.confirmPassword.value then
      Json(400, ErrorMessage(PasswordsDiffer))
    else if |form.password.value| < MinPasswordLength then
      Json(400, ErrorMessage(PasswordTooShort))
    else
      match signUp(form.email.value, form.password.value)
      case Some(message) => Json(400, ErrorMessage(message))
      case None => Json(200, SuccessMessage(AccountCreated))
  }

  /** The guards in their order: a missing field first, then a mismatch
      (even for a short pair), then the length. */
  lemma ActionGuards(form: SignupForm, signUp: (string, string) -> Option<string>)
    ensures var r := Action(form, signUp);
      && (!Truthy(form.email) || !Truthy(form.password) || !Truthy(form.confirmPassword) ==>
            r == Json(400, ErrorMessage(AllFieldsRequired)))
      && (Truthy(form.email) && Truthy(form.password) && Truthy(form.confirmPassword)
          && form.password.value != form.confirmPassword.value ==>
            r == Json(400, ErrorMessage(PasswordsDiffer)))
      && (Truthy(form.email) && Truthy(form.password) && Truthy(form.confirmPassword)
          && form.password.value == form.confirmPassword.value && |form.password.value| < MinPasswordLength ==>
            r == Json(400, ErrorMessage(PasswordTooShort)))
  {
  }

  /** The provider decides the answer only for a form that passed every
      guard: any two providers give the same answer to any other form. */
  lemma ProviderOnlyAfterGuards(form: SignupForm, p: (string, string) -> Option<string>,
                                q: (string, string) -> Option<string>)
    requires !ReachesProvider(form)
    ensures Action(form, p) == Action(form, q)
    ensures Action(form, p).Json? && Action(form, p).status == 400
  {
  }

  /** Past the guards, a provider error is passed on verbatim with 400 and
      success gives the fixed confirmation notice. */
  lemma ProviderAnswer(form: SignupForm, signUp: (string, string) -> Option<string>)
    requires ReachesProvider(form)
    ensures var e := signUp(form.email.value, form.password.value);
      && (e.Some? ==> Action(form, signUp) == Json(400, ErrorMessage(e.value)))
      && (e.None? ==> Action(form, signUp) == Json(200, SuccessMessage(AccountCreated)))
  {
  }
}
