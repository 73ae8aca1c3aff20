/**
 * The server-side session store that express-session keeps (server.js:17-27):
 * opaque tokens mapped to session data, of which the server uses one field,
 * `user`, holding `{ id, username }` once a login has succeeded.
 *
 * Token generation, cookie signing and `maxAge` expiry belong to the library
 * and the clock; a token here is an input naming the session a request carries.
 */
module Sessions {
  import opened Optional
  import opened UsersTable

  type Token = string

  /** Every stored session, by token, with its optional `user` field. */
  type Store = map<Token, Option<UserRef>>

  /** `req.session.user` for the request carrying `token`: absent for an unknown token. */
  function CurrentUser(store: Store, token: Token): (r: Option<UserRef>)
    ensures r.Some? <==> token in store && store[token].Some?
    ensures r.Some? ==> r == store[token]
  {
    if token in store then store[token] else None
  }

  /** `req.session.user = user`: the session now names that user; every other session is as it was. */
  function SetUser(store: Store, token: Token, user: UserRef): (r: Store)
    ensures CurrentUser(r, token) == Some(user)
    ensures forall t :: t != token ==> CurrentUser(r, t) == CurrentUser(store, t)
    ensures r.Keys == store.Keys + {token}
  {
    store[token := Some(user)]
  }

  /**
   * `req.session.destroy()`: the session is removed from the store, so its token
   * names no user any more; every other session is as it was. Destroying an
   * unknown token changes nothing.
   */
  function Destroy(store: Store, token: Token): (r: Store)
    ensures token !in r && CurrentUser(r, token) == None
    ensures forall t :: t != token ==> CurrentUser(r, t) == CurrentUser(store, t)
    ensures token !in store ==> r == store
  {
    store - {token}
  }
}
