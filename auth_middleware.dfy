/**
 * The gate in front of every protected route, and what the auth routes and the gate
 * give together over a store's lifetime.
 */
module AuthMiddleware {
  import opened Wrappers
  import opened Http
  import opened Auth
  import opened AuthHandlers

  /** Either the request goes on to the route (`next()`) or it is answered here. */
  datatype Decision = Next | Respond(reply: Reply)

  /** Open while no password is set; afterwards only for a cookie naming a live session. */
  function Gate(store: AuthStore, cookie: Option<string>): (d: Decision)
    reads store
    ensures d == Next <==> store.row == Row(None) || (cookie.Some? && cookie.value != "" && cookie.value in store.sessions)
    ensures d != Next ==> d == Respond(Failure(401, "Unauthorized"))
  {
    if !store.IsPasswordSet() then Next
    else if !store.IsValidSession(cookie) then Respond(Failure(401, "Unauthorized"))
    else Next
  }

  /**
   * A fresh install: before setup the gate is open to anyone; setup hands out a cookie the
   * gate admits while it turns away a request without one; logout closes the gate to that
   * cookie again; logging in with the same password opens it for the new cookie.
   */
  method SessionLifecycle(verify: (string, string) -> bool, password: string, hash: string,
                          setupToken: string, loginToken: string)
    returns (openBefore: bool, admittedAfterSetup: bool, anonymousAfterSetup: bool,
             admittedAfterLogout: bool, admittedAfterLogin: bool)
    requires |password| >= MinPasswordLength
    requires hash != "" && verify(password, hash)
    requires setupToken != "" && loginToken != "" && setupToken != loginToken
    ensures openBefore && admittedAfterSetup && !anonymousAfterSetup
    ensures !admittedAfterLogout && admittedAfterLogin
  {
    var store := new AuthStore(verify, Row(None));
    openBefore := Gate(store, None) == Next;
    var reply, cookie := SetupPassword(store, Json(Str(password)), hash, setupToken);
    admittedAfterSetup := Gate(store, cookie) == Next;
    anonymousAfterSetup := Gate(store, None) == Next;
    var cleared;
    reply, cleared := Logout(store, cookie);
    admittedAfterLogout := Gate(store, cookie) == Next;
    var loginCookie;
    reply, loginCookie := Login(store, Json(Str(password)), loginToken);
    admittedAfterLogin := Gate(store, loginCookie) == Next;
  }

  /**
   * A store whose `auth` row is missing reads as "password set", so it can never be
   * opened: setup is refused, every login fails verification and the gate turns away
   * every request that does not already hold a session.
   */
  method MissingRowLockout(verify: (string, string) -> bool, password: string, hash: string, token: string)
    returns (setupReply: Reply, loginReply: Reply, gate: Decision)
    requires token != ""
    requires hash != "" && verify(password, hash)
    ensures setupReply == Failure(400, "Password already set up")
    ensures loginReply.Failure? && loginReply.status in {400, 401}
    ensures gate == Respond(Failure(401, "Unauthorized"))
  {
    var store := new AuthStore(verify, NoRow);
    var cookie;
    setupReply, cookie := SetupPassword(store, Json(Str(password)), hash, token);
    loginReply, cookie := Login(store, Json(Str(password)), token);
    gate := Gate(store, cookie);
  }
}
