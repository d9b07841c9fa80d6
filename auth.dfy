/**
 * The client's authentication context: the token kept in local storage, the
 * token and user held in state, and the `isAuthenticated` flag, with the
 * transitions `login`, `logout` and the reaction to the `me` query.
 */
module Auth {
  import opened Wrappers

  /** The user the `me` query returns. */
  datatype Profile = Profile(id: string, name: string, email: string)

  /** The whole authentication state: the stored token (`null` when absent) and the provider's three state values. */
  datatype AuthState = AuthState(
    stored: Option<string>,
    token: Option<string>,
    user: Option<Profile>,
    isAuthenticated: bool)

  /** The state after `logout`: no token anywhere, no user, not authenticated. */
  const Anonymous := AuthState(None, None, None, false)

  /** JavaScript truthiness of a possibly-null string: present and non-empty. */
  predicate Truthy(t: Option<string>)
  {
    t.Some? && t.value != ""
  }

  /** The stored token and the state token are the same. */
  predicate Agree(s: AuthState)
  {
    s.stored == s.token
  }

  /** The state a provider starts in: the stored token read once, no user, authenticated iff that token is truthy. */
  function Initial(stored: Option<string>): (s: AuthState)
    ensures s.stored == stored && s.token == stored && s.user == None
    ensures s.isAuthenticated <==> Truthy(stored)
    ensures Agree(s)
  {
    AuthState(stored, stored, None, Truthy(stored))
  }

  /** `login(token, userData)`. */
  function LoginStep(s: AuthState, token: string, userData: Profile): (r: AuthState)
    ensures r.stored == Some(token) && r.token == Some(token)
    ensures r.user == Some(userData) && r.isAuthenticated
    ensures Agree(r)
  {
    AuthState(Some(token), Some(token), Some(userData), true)
  }

  /** `logout()`. */
  function LogoutStep(s: AuthState): (r: AuthState)
    ensures r.stored.None? && r.token.None? && r.user.None? && !r.isAuthenticated
    ensures Agree(r)
  {
    Anonymous
  }

  /**
   * The effect on `[data, error]`: a `me` user is taken and marks the state
   * authenticated; otherwise an error logs out; otherwise nothing changes.
   * `me` is `None` when the query has no data and `Some(None)` when `data.me` is `null`.
   */
  function MeStep(s: AuthState, me: Option<Option<Profile>>, error: bool): (r: AuthState)
    ensures me.Some? && me.value.Some? ==>
      r == s.(user := me.value, isAuthenticated := true)
    ensures !(me.Some? && me.value.Some?) && error ==> r == LogoutStep(s)
    ensures !(me.Some? && me.value.Some?) && !error ==> r == s
    ensures r.stored == s.stored || r == Anonymous
  {
    if me.Some? && me.value.Some? then s.(user := me.value, isAuthenticated := true)
    else if error then LogoutStep(s)
    else s
  }

  /** Logging out twice is logging out once. */
  lemma LogoutIdempotent(s: AuthState)
    ensures LogoutStep(LogoutStep(s)) == LogoutStep(s)
  {
  }

  /** Logging in and then out reaches the anonymous state, whatever the state before. */
  lemma LoginThenLogout(s: AuthState, token: string, userData: Profile)
    ensures LogoutStep(LoginStep(s, token, userData)) == Anonymous
    ensures LogoutStep(LoginStep(s, token, userData)) == LogoutStep(s)
  {
  }

  /** Every transition keeps the stored token and the state token in agreement. */
  lemma TransitionsKeepAgreement(s: AuthState, token: string, userData: Profile, me: Option<Option<Profile>>, error: bool)
    requires Agree(s)
    ensures Agree(LoginStep(s, token, userData))
    ensures Agree(LogoutStep(s))
    ensures Agree(MeStep(s, me, error))
  {
  }

  /** Whether the `me` query is skipped (`skip: !token`). */
  predicate SkipsMe(s: AuthState)
  {
    !Truthy(s.token)
  }

  /**
   * The `me` query never runs after `logout`, always runs after a `login`
   * with a non-empty token, and on mount runs exactly when the provider
   * starts authenticated. A skipped query reports neither data nor error,
   * so the effect then leaves the state alone.
   */
  lemma SkipsMeAfterTransitions(s: AuthState, stored: Option<string>, token: string, userData: Profile)
    ensures SkipsMe(LogoutStep(s))
    ensures token != "" ==> !SkipsMe(LoginStep(s, token, userData))
    ensures SkipsMe(Initial(stored)) <==> !Initial(stored).isAuthenticated
    ensures SkipsMe(s) ==> MeStep(s, None, false) == s
  {
  }

  /** An authenticated state has a token, so its `me` query runs. */
  predicate HasSessionToken(s: AuthState)
  {
    s.isAuthenticated ==> !SkipsMe(s)
  }

  /**
   * Every transition as it can happen keeps an authenticated state's `me`
   * query running: a login with a non-empty token, and the effect on what
   * the query reports (nothing, when it is skipped).
   */
  lemma SessionTokenKept(s: AuthState, stored: Option<string>, token: string, userData: Profile,
                         me: Option<Option<Profile>>, error: bool)
    requires HasSessionToken(s)
    ensures HasSessionToken(Initial(stored))
    ensures HasSessionToken(LogoutStep(s))
    ensures token != "" ==> HasSessionToken(LoginStep(s, token, userData))
    ensures !SkipsMe(s) || (me.None? && !error) ==> HasSessionToken(MeStep(s, me, error))
  {
  }

  /** `useAuth`: the provider's value, or the error thrown outside a provider. */
  function UseAuth<V>(context: Option<V>): (r: Result<V, string>)
    ensures r.Ok? <==> context.Some?
    ensures r.Ok? ==> r.value == context.value
    ensures r.Err? ==> r.error == "useAuth must be used within an AuthProvider"
  {
    match context
    case None => Err("useAuth must be used within an AuthProvider")
    case Some(v) => Ok(v)
  }

  /** The state of one `AuthProvider`, with the browser's stored token. */
  class AuthProvider {
    /** `localStorage.getItem("token")`. */
    var storedToken: Option<string>
    var token: Option<string>
    var user: Option<Profile>
    var isAuthenticated: bool

    /** Every transition keeps the stored and the state token equal. */
    ghost predicate Valid()
      reads this
    {
      Agree(State())
    }

    function State(): AuthState
      reads this
    {
      AuthState(storedToken, token, user, isAuthenticated)
    }

    constructor (stored: Option<string>)
      ensures Valid()
      ensures State() == Initial(stored)
    {
      storedToken := stored;
      token := stored;
      user := None;
      isAuthenticated := Truthy(stored);
    }

    method Login(t: string, userData: Profile)
      requires Valid()
      modifies this
      ensures Valid()
      ensures State() == LoginStep(old(State()), t, userData)
    {
      storedToken := Some(t);
      token := Some(t);
      user := Some(userData);
      isAuthenticated := true;
    }

    method Logout()
      requires Valid()
      modifies this
      ensures Valid()
      ensures State() == LogoutStep(old(State()))
    {
      storedToken := None;
      token := None;
      user := None;
      isAuthenticated := false;
    }

    /** The effect that reacts to the `me` query's `data` and `error`. */
    method MeEffect(me: Option<Option<Profile>>, error: bool)
      requires Valid()
      modifies this
      ensures Valid()
      ensures State() == MeStep(old(State()), me, error)
    {
      if me.Some? && me.value.Some? {
        user := me.value;
        isAuthenticated := true;
      } else if error {
        Logout();
      }
    }
  }
}
