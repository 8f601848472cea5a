/**
 * The credential server actions (app/auth/actions.ts): `signup` and `login`.
 *
 * Each action reads the posted form fields, runs its guard clauses in order,
 * asks the authentication provider, and either returns a failed result with a
 * message or redirects to the dashboard. The provider is a parameter: a
 * function from the request the action sends to the answer it gets back.
 */
module AuthActions {
  import opened Wrappers

  const RequiredFieldsMessage := "Email y contraseña son requeridos"
  const ShortPasswordMessage := "La contraseña debe tener al menos 6 caracteres"
  const SignupFallbackMessage := "Error al crear la cuenta"
  const NoUserMessage := "No se pudo crear el usuario"
  const InvalidCredentialsMessage := "Credenciales inválidas"
  const DefaultFullName := "Corredor"
  const DashboardPath := "/dashboard"
  const MinPasswordLength := 6

  /** A posted form field; `None` when the form did not send it. */
  type Field = Option<string>

  /** JavaScript truthiness of a field: sent and not empty. */
  predicate Filled(f: Field) {
    f.Some? && f.value != ""
  }

  /**
   * The fields both forms post. Login leaves `fullName` out; both send `next`,
   * which neither action reads.
   */
  datatype AuthForm = AuthForm(email: Field, password: Field, fullName: Field, next: Field)

  /** What `signup` sends to the provider: credentials and the profile's full name. */
  datatype SignUpRequest = SignUpRequest(email: string, password: string, fullName: string)

  /** What `login` sends to the provider. */
  datatype Credentials = Credentials(email: string, password: string)

  /** The provider's answer: an error with its message, no user, or a signed-in user. */
  datatype ProviderOutcome = ProviderError(message: string) | NoUser | SignedIn(userId: string)

  /** How an action ends: it returns an `AuthResult`, or it redirects. */
  datatype ActionOutcome = Returned(success: bool, error: Option<string>) | Redirect(path: string)

  function Fail(message: string): ActionOutcome {
    Returned(false, Some(message))
  }

  /**
   * The outcomes an action may end with: a returned result is always a failure
   * carrying a non-empty message, and the only redirect goes to the dashboard.
   */
  predicate Settled(r: ActionOutcome) {
    match r
    case Returned(success, error) => !success && error.Some? && error.value != ""
    case Redirect(path) => path == DashboardPath
  }

  /** Both guards of `signup` pass: email and password filled, password long enough. */
  predicate SignupGuardsPass(form: AuthForm) {
    Filled(form.email) && Filled(form.password) && |form.password.value| >= MinPasswordLength
  }

  /** The guard of `login` passes: email and password filled. */
  predicate LoginGuardPasses(form: AuthForm) {
    Filled(form.email) && Filled(form.password)
  }

  /** The request `signup` sends once its guards pass. */
  function SignUpRequestFor(form: AuthForm): (req: SignUpRequest)
    requires Filled(form.email) && Filled(form.password)
    ensures req.email == form.email.value && req.password == form.password.value
    ensures req.fullName == if Filled(form.fullName) then form.fullName.value else DefaultFullName
    ensures req.fullName != ""
  {
    var fullName := if Filled(form.fullName) then form.fullName.value else DefaultFullName;
    SignUpRequest(form.email.value, form.password.value, fullName)
  }

  /** The credentials `login` sends once its guard passes. */
  function CredentialsFor(form: AuthForm): (c: Credentials)
    requires Filled(form.email) && Filled(form.password)
    ensures c.email == form.email.value && c.password == form.password.value
  {
    Credentials(form.email.value, form.password.value)
  }

  /** `signup`: required fields, then password length, then the provider's answer. */
  function Signup(form: AuthForm, signUp: SignUpRequest -> ProviderOutcome): (r: ActionOutcome)
    ensures Settled(r)
    ensures !Filled(form.email) || !Filled(form.password) ==> r == Fail(RequiredFieldsMessage)
    ensures Filled(form.email) && Filled(form.password) && |form.password.value| < MinPasswordLength
      ==> r == Fail(ShortPasswordMessage)
    ensures SignupGuardsPass(form) && signUp(SignUpRequestFor(form)).ProviderError? ==>
      var message := signUp(SignUpRequestFor(form)).message;
      r == Fail(if message != "" then message else SignupFallbackMessage)
    ensures SignupGuardsPass(form) && signUp(SignUpRequestFor(form)).NoUser? ==> r == Fail(NoUserMessage)
    ensures r.Redirect? <==> SignupGuardsPass(form) && signUp(SignUpRequestFor(form)).SignedIn?
  {
    if !Filled(form.email) || !Filled(form.password) then
      Fail(RequiredFieldsMessage)
    else if |form.password.value| < MinPasswordLength then
      Fail(ShortPasswordMessage)
    else
      match signUp(SignUpRequestFor(form))
      case ProviderError(message) =>
        Fail(if message != "" then message else SignupFallbackMessage)
      case NoUser =>
        Fail(NoUserMessage)
      case SignedIn(_) =>
        Redirect(DashboardPath)
  }

  /** `login`: required fields, then the provider's answer; no length check. */
  function Login(form: AuthForm, signIn: Credentials -> ProviderOutcome): (r: ActionOutcome)
    ensures Settled(r)
    ensures !LoginGuardPasses(form) ==> r == Fail(RequiredFieldsMessage)
    ensures LoginGuardPasses(form) && signIn(CredentialsFor(form)).ProviderError?
      ==> r == Fail(InvalidCredentialsMessage)
    ensures r.Redirect? <==> LoginGuardPasses(form) && !signIn(CredentialsFor(form)).ProviderError?
  {
    if !Filled(form.email) || !Filled(form.password) then
      Fail(RequiredFieldsMessage)
    else if signIn(CredentialsFor(form)).ProviderError? then
      Fail(InvalidCredentialsMessage)
    else
      Redirect(DashboardPath)
  }

  // ---------------------------------------------------------------------------
  // Relations between the two actions and their inputs
  // ---------------------------------------------------------------------------

  /** A failed guard ends `signup` before the provider is asked. */
  lemma SignupGuardsPrecedeProvider(form: AuthForm, p: SignUpRequest -> ProviderOutcome,
                                    q: SignUpRequest -> ProviderOutcome)
    requires !SignupGuardsPass(form)
    ensures Signup(form, p) == Signup(form, q)
    ensures Signup(form, p).Returned?
  {
  }

  /** Likewise for `login`. */
  lemma LoginGuardPrecedesProvider(form: AuthForm, p: Credentials -> ProviderOutcome,
                                   q: Credentials -> ProviderOutcome)
    requires !LoginGuardPasses(form)
    ensures Login(form, p) == Login(form, q)
    ensures Login(form, p).Returned?
  {
  }

  /** With a field missing, both actions fail with the same message. */
  lemma MissingFieldSameForBoth(form: AuthForm, p: SignUpRequest -> ProviderOutcome,
                                q: Credentials -> ProviderOutcome)
    requires !LoginGuardPasses(form)
    ensures Signup(form, p) == Login(form, q) == Fail(RequiredFieldsMessage)
  {
  }

  /**
   * `login` hides the provider's message: any two providers that both reject
   * the credentials lead to the same outcome.
   */
  lemma LoginHidesProviderMessage(form: AuthForm, p: Credentials -> ProviderOutcome,
                                  q: Credentials -> ProviderOutcome)
    requires LoginGuardPasses(form)
    requires p(CredentialsFor(form)).ProviderError? && q(CredentialsFor(form)).ProviderError?
    ensures Login(form, p) == Login(form, q) == Fail(InvalidCredentialsMessage)
  {
  }

  /**
   * `login` checks no password length: a short password that `signup` refuses
   * still reaches the provider, and `login` succeeds when the provider accepts.
   */
  lemma LoginSkipsLengthCheck(form: AuthForm, p: SignUpRequest -> ProviderOutcome,
                              q: Credentials -> ProviderOutcome)
    requires LoginGuardPasses(form) && |form.password.value| < MinPasswordLength
    requires q(CredentialsFor(form)).SignedIn?
    ensures Signup(form, p) == Fail(ShortPasswordMessage)
    ensures Login(form, q) == Redirect(DashboardPath)
  {
  }

  /** `login` only looks at the error: an answer without a user still redirects. */
  lemma LoginIgnoresMissingUser(form: AuthForm, q: Credentials -> ProviderOutcome)
    requires LoginGuardPasses(form) && q(CredentialsFor(form)).NoUser?
    ensures Login(form, q) == Redirect(DashboardPath)
  {
  }

  /** The posted `next` field changes nothing in either action. */
  lemma NextIsIgnored(form: AuthForm, next: Field, p: SignUpRequest -> ProviderOutcome,
                      q: Credentials -> ProviderOutcome)
    ensures Signup(form.(next := next), p) == Signup(form, p)
    ensures Login(form.(next := next), q) == Login(form, q)
  {
    if SignupGuardsPass(form) {
      assert SignUpRequestFor(form.(next := next)) == SignUpRequestFor(form);
    }
    if LoginGuardPasses(form) {
      assert CredentialsFor(form.(next := next)) == CredentialsFor(form);
    }
  }
}
