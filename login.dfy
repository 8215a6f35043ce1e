/** The login route: its loader sends a signed-in user home; its action
    checks the fields, calls the provider's `signInWithPassword` and
    rewrites the "email not confirmed" error. */
module Login {
  import opened Model
  import opened Text
  import opened Auth

  const FieldsRequired := "Email and password are required"
  const ConfirmEmailFirst := "Please confirm your email address before signing in. Check your inbox for the confirmation link."
  const NotConfirmed := "email not confirmed"

  datatype LoginForm = LoginForm(email: Option<string>, password: Option<string>)

  /** The loader: home when `getUser` finds a user, otherwise the page. */
  function Loader(users: map<string, User>, session: Option<Session>): (r: Response)
    ensures r == Redirect("/") <==> session.Some? && session.value.email in users
    ensures r != Redirect("/") ==> r == Json(200, NoData)
  {
    if GetUser(users, session).Some? then Redirect("/") else Json(200, NoData)
  }

  /** The message shown for a provider error. */
  function ErrorText(message: string): (r: string)
    ensures ContainsIgnoreCase(message, NotConfirmed) ==> r == ConfirmEmailFirst
    ensures !ContainsIgnoreCase(message, NotConfirmed) ==> r == message
  {
    assert Lower(NotConfirmed) == NotConfirmed;
    if Contains(Lower(message), NotConfirmed) then ConfirmEmailFirst else message
  }

  /** The action. `signIn(email, password)` is the provider's answer: an
      error message, or None when the session was opened. */
  function Action(form: LoginForm, signIn: (string, string) -> Option<string>): Response {
    if !Truthy(form.email) || !Truthy(form.password) then
      Json(400, ErrorMessage(FieldsRequired))
    else
      match signIn(form.email.value, form.password.value)
      case Some(message) => Json(400, ErrorMessage(ErrorText(message)))
      case None => Redirect("/")
  }

  /** A missing field is refused whatever the provider would say. */
  lemma MissingFieldsSkipProvider(form: LoginForm, p: (string, string) -> Option<string>,
                                  q: (string, string) -> Option<string>)
    requires !Truthy(form.email) || !Truthy(form.password)
    ensures Action(form, p) == Action(form, q) == Json(400, ErrorMessage(FieldsRequired))
  {
  }

  /** Every provider error answers 400; success redirects home. */
  lemma ProviderAnswer(form: LoginForm, signIn: (string, string) -> Option<string>)
    requires Truthy(form.email) && Truthy(form.password)
    ensures var e := signIn(form.email.value, form.password.value);
      && (e.Some? ==> Action(form, signIn) == Json(400, ErrorMessage(ErrorText(e.value))))
      && (e.None? ==> Action(form, signIn) == Redirect("/"))
  {
  }

  /** The rewrite ignores letter case: the provider's own wording is caught. */
  lemma ProviderWordingRewritten()
    ensures ErrorText("Email not confirmed") == ConfirmEmailFirst
    ensures ErrorText("EMAIL NOT CONFIRMED") == ConfirmEmailFirst
  {
    assert Lower("Email not confirmed") == NotConfirmed;
    assert Lower("EMAIL NOT CONFIRMED") == NotConfirmed;
    assert StartsWith(NotConfirmed, NotConfirmed);
  }

  /** The rewrite happens exactly when the lower-cased message shows the
      phrase at some offset; otherwise the message passes unchanged. */
  lemma ErrorTextByOffset(message: string)
    ensures (exists i :: OccursAt(Lower(message), NotConfirmed, i)) ==> ErrorText(message) == ConfirmEmailFirst
    ensures (forall i :: !OccursAt(Lower(message), NotConfirmed, i)) ==> ErrorText(message) == message
  {
    ContainsAt(Lower(message), NotConfirmed);
    assert Lower(NotConfirmed) == NotConfirmed;
  }
}
