/**
 * The route guard: it sends an anonymous visitor to the login page, shows a
 * progress indicator while an authenticated session has no user yet, and
 * otherwise renders the protected page.
 */
module ProtectedRoute {
  import opened Wrappers
  import Auth

  /** What the guard renders. */
  datatype View =
    | Redirect(to: string, replace: bool)
    | Loading
    | RenderChildren

  /** The guard's decision from `isAuthenticated` and `user`. */
  function Gate(isAuthenticated: bool, user: Option<Auth.Profile>): (v: View)
    ensures !isAuthenticated <==> v == Redirect("/login", true)
    ensures isAuthenticated && user.None? <==> v == Loading
    ensures isAuthenticated && user.Some? <==> v == RenderChildren
  {
    if !isAuthenticated then Redirect("/login", true)
    else if user.None? then Loading
    else RenderChildren
  }

  /** The guard's decision for a whole authentication state. */
  function GateFor(s: Auth.AuthState): View
  {
    Gate(s.isAuthenticated, s.user)
  }

  /**
   * The guard as a consumer of the context: outside a provider `useAuth`
   * throws, and inside one the guard decides from the provider's state.
   */
  function Route(context: Option<Auth.AuthState>): (r: Result<View, string>)
    ensures context.None? ==> r == Err("useAuth must be used within an AuthProvider")
    ensures context.Some? ==> r == Ok(GateFor(context.value))
  {
    match Auth.UseAuth(context)
    case Err(e) => Err(e)
    case Ok(s) => Ok(GateFor(s))
  }

  /** A guard under a provider never throws, and always shows one of the three views. */
  lemma RouteUnderProvider(s: Auth.AuthState)
    ensures Route(Some(s)).Ok?
    ensures Route(Some(s)).value in {Redirect("/login", true), Loading, RenderChildren}
  {
  }

  /** Right after `login` the protected page renders; right after `logout` the guard redirects to the login page. */
  lemma GateAfterTransitions(s: Auth.AuthState, token: string, userData: Auth.Profile)
    ensures GateFor(Auth.LoginStep(s, token, userData)) == RenderChildren
    ensures GateFor(Auth.LogoutStep(s)) == Redirect("/login", true)
  {
  }

  /** A provider that starts from a truthy stored token shows the progress indicator until the `me` user arrives, and the login redirect otherwise. */
  lemma GateInitially(stored: Option<string>)
    ensures GateFor(Auth.Initial(stored)) == if Auth.Truthy(stored) then Loading else Redirect("/login", true)
  {
  }
}
