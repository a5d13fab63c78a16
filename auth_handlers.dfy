/**
 * The four public auth routes. Each handler is one sequential step over the store:
 * ordered guards that answer 400, 401 or (when the body cannot be read) 500 and change
 * nothing, then the state change. The session cookie is reduced to the token it carries:
 * `cookie` in is the request's cookie, the `Option` out is the cookie set on the reply.
 */
module AuthHandlers {
  import opened Wrappers
  import opened Http
  import opened Auth

  const MinPasswordLength: nat := 8

  /** The `password` member of a JSON body. */
  datatype Field = Absent | Str(s: string) | NotString

  /**
   * A request body: `Unreadable` when `c.req.json()` throws or the body is JSON `null` (the
   * destructuring then throws); otherwise its `password` member, which is `Absent` also for a
   * body that is a JSON number or string.
   */
  datatype Body = Unreadable | Json(password: Field)

  /** `!password || typeof password !== 'string' || password.length < 8` is false. */
  predicate AcceptableNewPassword(f: Field) {
    f.Str? && |f.s| >= MinPasswordLength
  }

  /** `!password || typeof password !== 'string'` is false: any non-empty string. */
  predicate PresentPassword(f: Field) {
    f.Str? && f.s != ""
  }

  datatype AuthStatus = AuthStatus(passwordSet: bool, authenticated: bool)

  /** GET /auth/status. */
  function GetAuthStatus(store: AuthStore, cookie: Option<string>): (status: AuthStatus)
    reads store
    ensures !status.passwordSet <==> store.row == Row(None)
    ensures status.authenticated <==> cookie.Some? && cookie.value != "" && cookie.value in store.sessions
  {
    AuthStatus(store.IsPasswordSet(), store.IsValidSession(cookie))
  }

  /**
   * POST /auth/setup. `hash` is what bcrypt would make of the body's password and
   * `freshToken` is the UUID the handler would draw; both are used only on success.
   */
  method SetupPassword(store: AuthStore, body: Body, hash: string, freshToken: string)
    returns (reply: Reply, cookie: Option<string>)
    requires freshToken != ""
    requires body.Json? && AcceptableNewPassword(body.password) ==> store.HashOf(body.password.s, hash)
    modifies store
    ensures old(store.IsPasswordSet()) ==> reply == Failure(400, "Password already set up")
    ensures !old(store.IsPasswordSet()) && body.Unreadable? ==> reply == InternalError
    ensures !old(store.IsPasswordSet()) && body.Json? && !AcceptableNewPassword(body.password) ==>
      reply == Failure(400, "Password must be at least 8 characters long")
    ensures reply == Success <==> !old(store.IsPasswordSet()) && body.Json? && AcceptableNewPassword(body.password)
    ensures reply != Success ==> unchanged(store) && cookie == None
    ensures reply == Success ==>
      && store.row == Row(Some(hash))
      && store.sessions == old(store.sessions) + {freshToken}
      && cookie == Some(freshToken)
      && store.IsPasswordSet()
      && store.VerifyLogin(body.password.s)
      && store.IsValidSession(cookie)
  {
    if store.IsPasswordSet() {
      return Failure(400, "Password already set up"), None;
    }
    if body.Unreadable? {
      return InternalError, None;
    }
    if !AcceptableNewPassword(body.password) {
      return Failure(400, "Password must be at least 8 characters long"), None;
    }
    store.SetPassword(body.password.s, hash);
    store.CreateSession(freshToken);
    reply, cookie := Success, Some(freshToken);
  }

  /** POST /auth/login. `freshToken` is the UUID the handler would draw on success. */
  method Login(store: AuthStore, body: Body, freshToken: string)
    returns (reply: Reply, cookie: Option<string>)
    requires freshToken != ""
    modifies store`sessions
    ensures store.row == old(store.row)
    ensures !old(store.IsPasswordSet()) ==> reply == Failure(400, "Password not set up yet")
    ensures old(store.IsPasswordSet()) && body.Unreadable? ==> reply == InternalError
    ensures old(store.IsPasswordSet()) && body.Json? && !PresentPassword(body.password) ==>
      reply == Failure(400, "Password is required")
    ensures old(store.IsPasswordSet()) && body.Json? && PresentPassword(body.password) && !store.VerifyLogin(body.password.s) ==>
      reply == Failure(401, "Invalid password")
    ensures reply == Success <==> body.Json? && PresentPassword(body.password) && store.VerifyLogin(body.password.s)
    ensures reply != Success ==> store.sessions == old(store.sessions) && cookie == None
    ensures reply == Success ==>
      && store.sessions == old(store.sessions) + {freshToken}
      && cookie == Some(freshToken)
      && store.IsValidSession(cookie)
  {
    if !store.IsPasswordSet() {
      return Failure(400, "Password not set up yet"), None;
    }
    if body.Unreadable? {
      return InternalError, None;
    }
    if !PresentPassword(body.password) {
      return Failure(400, "Password is required"), None;
    }
    if !store.VerifyLogin(body.password.s) {
      return Failure(401, "Invalid password"), None;
    }
    store.CreateSession(freshToken);
    reply, cookie := Success, Some(freshToken);
  }

  /**
   * POST /auth/logout: ends the request's own session, if it names one, always clears the
   * session cookie on the reply, and always succeeds.
   */
  method Logout(store: AuthStore, cookie: Option<string>) returns (reply: Reply, clearsCookie: bool)
    modifies store`sessions
    ensures reply == Success && clearsCookie
    ensures store.row == old(store.row)
    ensures store.sessions ==
      if cookie.Some? && cookie.value != "" then old(store.sessions) - {cookie.value} else old(store.sessions)
    ensures !store.IsValidSession(cookie)
  {
    if cookie.Some? && cookie.value != "" {
      store.DestroySession(cookie.value);
    }
    reply, clearsCookie := Success, true;
  }
}
