/**
 * The HTTP handlers of server.js (lines 94-158) as step functions over the
 * application state: the users table and the session store. Each takes the
 * parsed body fields, possibly absent, and yields the new state and the
 * response (status code and JSON body).
 */
module Handlers {
  import opened Optional
  import opened Bcrypt
  import opened UsersTable
  import opened Sessions

  /** The error tags the handlers put in `{ error: ... }`. */
  datatype ErrorTag = Missing | Invalid | CouldNotCreate | NotLoggedIn | Unauthorized

  /** The JSON bodies the handlers send. */
  datatype Body =
    | OkBody                         // { ok: true }
    | LoggedIn(username: string)     // { ok: true, username }
    | Error(tag: ErrorTag)           // { error: tag }
    | WhoAmI(user: Option<UserRef>)  // { user } or { user: null }

  datatype Response = Response(status: nat, body: Body)

  /** What `requireAuth` does with a request: pass it on, redirect it, or answer it. */
  datatype Gate = Next | Redirect(location: string) | Deny(response: Response)

  /** Everything the handlers read and write. */
  datatype AppState = AppState(table: Table, sessions: Store)

  /** A handler's result: the new state and the response sent. */
  datatype Outcome = Outcome(state: AppState, response: Response)

  /**
   * The invariant of the running server: the table invariant, and every session
   * user is a row of the table under the same id, with a non-empty name (a session
   * is only ever set by a login that passed the `!username` test, from a row, and
   * rows are never deleted or renamed).
   */
  predicate Consistent(s: AppState)
  {
    && UsersTable.Valid(s.table)
    && forall tok :: tok in s.sessions && s.sessions[tok].Some? ==>
         s.sessions[tok].value.username != "" && Belongs(s.table, s.sessions[tok].value)
  }

  /** `user` names a row of the table, with that row's id. */
  predicate Belongs(t: Table, user: UserRef)
  {
    user.username in t.rows && t.rows[user.username].id == user.id
  }

  /** A body field passes the handlers' `!field` test: present and not the empty string. */
  predicate Present(field: Option<string>): (ok: bool)
    ensures ok <==> field != None && field != Some("")
  {
    field.Some? && field.value != ""
  }

  /** The credentials are right: the user exists and the password verifies against its stored hash. */
  predicate Authentic(t: Table, username: string, password: string)
  {
    username in t.rows && Verify(password, t.rows[username].passwordHash)
  }

  /**
   * POST /api/login. Missing fields answer 400; an unknown user and a wrong
   * password both answer 401 `invalid` and change nothing; otherwise the
   * session is set to the row's `{ id, username }`.
   */
  function Login(s: AppState, token: Token, username: Option<string>, password: Option<string>): (r: Outcome)
    ensures r.state.table == s.table
    ensures r.response.status == 200 <==>
      Present(username) && Present(password) && Authentic(s.table, username.value, password.value)
    ensures r.response.status == 200 ==>
      && r.response.body == LoggedIn(username.value)
      && r.state.sessions == SetUser(s.sessions, token, UserRef(s.table.rows[username.value].id, username.value))
    ensures !Present(username) || !Present(password) ==> r == Outcome(s, Response(400, Error(Missing)))
    ensures Present(username) && Present(password) && !Authentic(s.table, username.value, password.value) ==>
      r == Outcome(s, Response(401, Error(Invalid)))
    ensures Consistent(s) ==> Consistent(r.state)
  {
    if !Present(username) || !Present(password) then Outcome(s, Response(400, Error(Missing)))
    else
      match FindUser(s.table, username.value)
      case None => Outcome(s, Response(401, Error(Invalid)))
      case Some(row) =>
        if !Verify(password.value, row.passwordHash) then Outcome(s, Response(401, Error(Invalid)))
        else
          var user := UserRef(row.id, username.value);
          Outcome(s.(sessions := SetUser(s.sessions, token, user)), Response(200, LoggedIn(username.value)))
  }

  /**
   * POST /api/register. Missing fields answer 400; a taken username fails the
   * UNIQUE column and answers 500 `could_not_create`; both leave the state as it
   * was. Otherwise one row is inserted with the next id and the password's hash.
   */
  function Register(s: AppState, username: Option<string>, password: Option<string>, salt: Salt): (r: Outcome)
    ensures r.state.sessions == s.sessions
    ensures !Present(username) || !Present(password) ==> r == Outcome(s, Response(400, Error(Missing)))
    ensures Present(username) && Present(password) && username.value in s.table.rows ==>
      r == Outcome(s, Response(500, Error(CouldNotCreate)))
    ensures Present(username) && Present(password) && username.value !in s.table.rows ==>
      && r.response == Response(200, OkBody)
      && r.state.table.rows == s.table.rows[username.value := Row(s.table.nextId, Hash(password.value, salt))]
      && r.state.table.nextId == s.table.nextId + 1
    ensures Consistent(s) ==> Consistent(r.state)
  {
    if !Present(username) || !Present(password) then Outcome(s, Response(400, Error(Missing)))
    else
      match CreateUser(s.table, username.value, password.value, salt)
      case UniqueViolation => Outcome(s, Response(500, Error(CouldNotCreate)))
      case Inserted(t', _) => Outcome(s.(table := t'), Response(200, OkBody))
  }

  /**
   * POST /api/change-password. Without a session user: 403 `not_logged_in`;
   * without `newPassword`: 400; both change nothing. Otherwise only the hash of
   * the session user's row is replaced.
   */
  function ChangePassword(s: AppState, token: Token, newPassword: Option<string>, salt: Salt): (r: Outcome)
    ensures r.state.sessions == s.sessions
    ensures r.state.table.nextId == s.table.nextId && r.state.table.rows.Keys == s.table.rows.Keys
    ensures CurrentUser(s.sessions, token).None? ==> r == Outcome(s, Response(403, Error(NotLoggedIn)))
    ensures CurrentUser(s.sessions, token).Some? && !Present(newPassword) ==>
      r == Outcome(s, Response(400, Error(Missing)))
    ensures CurrentUser(s.sessions, token).Some? && Present(newPassword) ==>
      var name := CurrentUser(s.sessions, token).value.username;
      && r.response == Response(200, OkBody)
      && (forall v :: v in s.table.rows && v != name ==> r.state.table.rows[v] == s.table.rows[v])
      && (name in s.table.rows ==>
            r.state.table.rows[name] == Row(s.table.rows[name].id, Hash(newPassword.value, salt)))
    ensures Consistent(s) ==> Consistent(r.state)
  {
    match CurrentUser(s.sessions, token)
    case None => Outcome(s, Response(403, Error(NotLoggedIn)))
    case Some(user) =>
      if !Present(newPassword) then Outcome(s, Response(400, Error(Missing)))
      else
        var update := UpdatePassword(s.table, user.username, newPassword.value, salt);
        Outcome(s.(table := update.table), Response(200, OkBody))
  }

  /** POST /api/logout: the request's session is destroyed; the answer is always `{ ok: true }`. */
  function Logout(s: AppState, token: Token): (r: Outcome)
    ensures r.state.table == s.table
    ensures r.state.sessions == Destroy(s.sessions, token)
    ensures r.response == Response(200, OkBody)
    ensures Consistent(s) ==> Consistent(r.state)
  {
    Outcome(s.(sessions := Destroy(s.sessions, token)), Response(200, OkBody))
  }

  /**
   * `requireAuth`: a request passes exactly when its session has a user;
   * otherwise an HTML client is redirected to `/` and any other gets 401.
   */
  function RequireAuth(s: AppState, token: Token, acceptsHtml: bool): (g: Gate)
    ensures g == Next <==> CurrentUser(s.sessions, token).Some?
    ensures g.Redirect? <==> CurrentUser(s.sessions, token).None? && acceptsHtml
    ensures g.Redirect? ==> g.location == "/"
    ensures g.Deny? ==> g.response == Response(401, Error(Unauthorized))
  {
    if CurrentUser(s.sessions, token).Some? then Next
    else if acceptsHtml then Redirect("/")
    else Deny(Response(401, Error(Unauthorized)))
  }

  /** GET /api/whoami: reports the session user, or null; it reports a user exactly when `requireAuth` would pass. */
  function Whoami(s: AppState, token: Token): (r: Response)
    ensures r.status == 200 && r.body.WhoAmI?
    ensures r.body.user.Some? <==> RequireAuth(s, token, false) == Next
    ensures r.body.user.Some? ==> r.body.user == CurrentUser(s.sessions, token)
  {
    Response(200, WhoAmI(CurrentUser(s.sessions, token)))
  }

  // ---------------------------------------------------------------------------
  // Properties relating several requests

  /**
   * An unknown username and a known username with a wrong password cannot be
   * told apart: same response, same (unchanged) state.
   */
  lemma LoginFailuresIndistinguishable(s: AppState, token: Token, unknown: string, p: string, known: string, q: string)
    requires unknown != "" && p != "" && known != "" && q != ""
    requires unknown !in s.table.rows
    requires known in s.table.rows && !Verify(q, s.table.rows[known].passwordHash)
    ensures Login(s, token, Some(unknown), Some(p)) == Login(s, token, Some(known), Some(q))
    ensures Login(s, token, Some(unknown), Some(p)) == Outcome(s, Response(401, Error(Invalid)))
  {
  }

  /** A user who registered can log in with that password, and the session then names the new row. */
  lemma RegisterThenLogin(s: AppState, username: string, password: string, salt: Salt, token: Token)
    requires Consistent(s)
    requires username != "" && password != "" && username !in s.table.rows
    ensures
      var registered := Register(s, Some(username), Some(password), salt);
      var login := Login(registered.state, token, Some(username), Some(password));
      && registered.response.status == 200
      && login.response == Response(200, LoggedIn(username))
      && CurrentUser(login.state.sessions, token) == Some(UserRef(s.table.nextId, username))
  {
  }

  /**
   * With a consistent state, a change-password by a logged-in user hits
   * exactly one row: the UPDATE reports one change.
   */
  lemma ChangePasswordHitsOneRow(s: AppState, token: Token, newPassword: string, salt: Salt)
    requires Consistent(s) && CurrentUser(s.sessions, token).Some?
    ensures UpdatePassword(s.table, CurrentUser(s.sessions, token).value.username, newPassword, salt).changes == 1
  {
  }

  /**
   * After a password change the new password logs the user in and any other
   * password, the old one included, is refused.
   */
  lemma ChangePasswordThenLogin(s: AppState, token: Token, newPassword: string, salt: Salt,
                                other: string, loginToken: Token)
    requires Consistent(s) && CurrentUser(s.sessions, token).Some?
    requires newPassword != "" && other != "" && other != newPassword
    ensures
      var name := CurrentUser(s.sessions, token).value.username;
      var changed := ChangePassword(s, token, Some(newPassword), salt).state;
      && Login(changed, loginToken, Some(name), Some(newPassword)).response == Response(200, LoggedIn(name))
      && Login(changed, loginToken, Some(name), Some(other)).response == Response(401, Error(Invalid))
  {
  }

  /**
   * After logout the token names no user: protected pages are refused, whoami
   * answers `{ user: null }` and change-password answers 403.
   */
  lemma LogoutEndsSession(s: AppState, token: Token, acceptsHtml: bool, newPassword: Option<string>, salt: Salt)
    ensures
      var out := Logout(s, token).state;
      && RequireAuth(out, token, acceptsHtml) != Next
      && Whoami(out, token) == Response(200, WhoAmI(None))
      && ChangePassword(out, token, newPassword, salt).response == Response(403, Error(NotLoggedIn))
  {
  }

  // ---------------------------------------------------------------------------
  // The server as a sequence of requests

  /** The requests that reach the state-changing handlers and whoami. */
  datatype Request =
    | LoginRequest(token: Token, username: Option<string>, password: Option<string>)
    | RegisterRequest(username: Option<string>, password: Option<string>, salt: Salt)
    | ChangePasswordRequest(token: Token, newPassword: Option<string>, salt: Salt)
    | LogoutRequest(token: Token)
    | WhoamiRequest(token: Token)

  /** Route one request to its handler. */
  function Handle(s: AppState, req: Request): (r: Outcome)
    ensures Consistent(s) ==> Consistent(r.state)
    ensures forall u :: u in s.table.rows ==> u in r.state.table.rows && r.state.table.rows[u].id == s.table.rows[u].id
    ensures r.response.status != 200 ==> r.state == s
  {
    match req
    case LoginRequest(token, username, password) => Login(s, token, username, password)
    case RegisterRequest(username, password, salt) => Register(s, username, password, salt)
    case ChangePasswordRequest(token, newPassword, salt) => ChangePassword(s, token, newPassword, salt)
    case LogoutRequest(token) => Logout(s, token)
    case WhoamiRequest(token) => Outcome(s, Whoami(s, token))
  }

  /** The state after the requests have been handled one after another. */
  function Run(s: AppState, reqs: seq<Request>): AppState
    decreases |reqs|
  {
    if reqs == [] then s else Run(Handle(s, reqs[0]).state, reqs[1..])
  }

  /** However requests follow one another, the server stays consistent. */
  lemma {:induction false} RunKeepsConsistent(s: AppState, reqs: seq<Request>)
    requires Consistent(s)
    ensures Consistent(Run(s, reqs))
    decreases |reqs|
  {
    if reqs != [] {
      RunKeepsConsistent(Handle(s, reqs[0]).state, reqs[1..]);
    }
  }

  /** No sequence of requests deletes a user or changes a user's id. */
  lemma {:induction false} RunKeepsUsers(s: AppState, reqs: seq<Request>)
    ensures forall u :: u in s.table.rows ==>
      u in Run(s, reqs).table.rows && Run(s, reqs).table.rows[u].id == s.table.rows[u].id
    decreases |reqs|
  {
    if reqs != [] {
      RunKeepsUsers(Handle(s, reqs[0]).state, reqs[1..]);
    }
  }
}
