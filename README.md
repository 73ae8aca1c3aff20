# ice-gate-auth: authentication state machine

A Dafny model of the decision logic of `server.js`, the server of a small
login-gated site. The Express, SQLite and bcrypt plumbing is left out. The state has two parts:

- the `users` table (`id`, unique `username`, `password_hash`). It is modelled as a
  map from username to `Row(id, passwordHash)`. A counter `nextId` stands in for SQLite's
  `AUTOINCREMENT` (`UsersTable`);
- the express-session store: a map from an opaque token to the session's
  optional `user` field `{ id, username }` (`Sessions`).

The modules:

- `Bcrypt`: the hasher is an ideal salted one-way function. `Hash(p, salt)`
  yields a record that `Verify` accepts for `p` and for no other password.
  The salt is an input, because bcrypt draws it at random.
- `UsersTable`: `findUser`, `createUser` (the UNIQUE column rejects a taken
  username), `updatePassword` (returns 0 or 1 changed rows) and the startup seed
  loop, as functions over a table value. The table invariant `Valid` says that
  every id came from the counter and that ids are distinct. Usernames are distinct
  because they are the map's keys.
- `Handlers`: the handlers for `/api/login`, `/api/register`, `/api/change-password`
  and `/api/logout`, plus `requireAuth` and `/api/whoami`. Each is a step function
  from state and parsed body fields (each possibly absent) to a new state and a response. The invariant `Consistent`
  adds to `Valid` that every session user is a row of the table under the
  same id, with a non-empty name. `Run` handles a sequence of requests, and lemmas about it cover every
  order of whole requests.
- `Server`: the class `AuthServer` holds the table and the session store as fields.
  Its methods update those fields branch by branch, as the handlers do, and each is
  proved to yield the state and response of the matching step function. `Seed` is
  the `for` loop over the wanted users, proved against `UsersTable.Seeded`.

Points of server.js that are easy to get wrong:

- The login route is `POST /api/login`. It reads only the `username` and `password`
  keys.
- Logout is `POST /api/logout`.
- `/api/whoami` is not protected: without a session it answers `{ user: null }`.
- Change-password without a session answers 403 `not_logged_in`, not 401.
- A failed login does not touch the session. A session that was already logged
  in stays logged in.

A body field counts as missing when it is absent or is the empty string. This is
JavaScript's `!field` test applied to a string.

## Model

| member | source | states |
|---|---|---|
| Bcrypt.Hash | server.js:51 | the stored record carries cost 10 and its salt; it verifies the hashed password and no other one |
| Bcrypt.Verify | server.js:100 | `bcrypt.compare` accepts exactly when the stored record equals the hash of the given password under the record's own cost and salt |
| Bcrypt.FreshSaltFreshRecord | server.js:62 | two hashes of one password under different salts are different records |
| UsersTable.Empty | server.js:31-37 | a new table has no rows, AUTOINCREMENT at 1, and satisfies the table invariant |
| UsersTable.FindUser | server.js:41-48 | a row is returned exactly when the username is in the table, and it is that username's row |
| UsersTable.CreateUser | server.js:50-59 | a taken username is rejected by UNIQUE and the table is left alone; otherwise exactly one row is added, under the counter's id, which no existing row uses, with Hash(password) as hash; the invariant is kept |
| UsersTable.UpdatePassword | server.js:61-70 | reports 1 changed row exactly when the username exists, else 0; only that row's hash changes, its id stays the same, no row is added or removed |
| UsersTable.SeedStep | server.js:82-86 | one seed iteration never changes an existing row; with a snapshot of the table the wanted username is present afterwards; a new row holds the wanted password's hash |
| UsersTable.Seeded | server.js:82-86 | the table after the seed loop over the wanted list: no username is dropped and the counter never goes back |
| UsersTable.SeedKeepsRows | server.js:75-86 | seeding never deletes a row and never changes an existing user's id or hash |
| UsersTable.SeedCoversWanted | server.js:75-86 | after seeding every wanted username is in the table |
| UsersTable.SeedAddsFirstEntry | server.js:82-84 | every row seeding adds belongs to a wanted username and holds the hash of that username's first entry; a later duplicate fails on UNIQUE and is ignored |
| UsersTable.SeedKeepsValid | server.js:75-86 | seeding keeps the table invariant (distinct ids below the counter) |
| Sessions.CurrentUser | server.js:144 | a session user is reported exactly when the token is stored and its `user` is set |
| Sessions.SetUser | server.js:102 | after the assignment the token names that user; every other token's user is unchanged |
| Sessions.Destroy | server.js:137-140 | after destroy the token names no user; other sessions are unchanged; destroying an unknown token changes nothing |
| Handlers.Present | server.js:96 | a body field passes the `!field` test exactly when it is neither absent nor the empty string |
| Handlers.Login | server.js:94-108 | missing field: 400 `missing`, nothing changed; success exactly when the user exists and the password verifies against its hash, then the session holds the row's {id, username} and the body is {ok, username}; otherwise 401 `invalid`, nothing changed; never changes the table; keeps the invariant |
| Handlers.Register | server.js:110-120 | missing field: 400, nothing changed; taken username: 500 `could_not_create`, nothing changed; otherwise one row with the next id and Hash(password); sessions untouched; keeps the invariant |
| Handlers.ChangePassword | server.js:122-134 | no session user: 403 `not_logged_in`; missing `newPassword`: 400; both change nothing; otherwise only the session user's row gets the new hash, no other row, id or session changes; keeps the invariant |
| Handlers.Logout | server.js:136-141 | the request's session is destroyed, the table is untouched, the answer is 200 {ok:true}; keeps the invariant |
| Handlers.RequireAuth | server.js:143-147 | passes exactly when the session has a user; otherwise redirect to `/` exactly for HTML clients, else 401 `unauthorized` |
| Handlers.Whoami | server.js:155-158 | answers 200 with the session user, which is present exactly when requireAuth would pass |
| Handlers.LoginFailuresIndistinguishable | server.js:98-101 | an unknown user and a known user with a wrong password get the identical outcome: 401 `invalid` and an unchanged state |
| Handlers.RegisterThenLogin | server.js:110-120 | after registering, login with the same password succeeds and the session names the new row's id |
| Handlers.ChangePasswordHitsOneRow | server.js:122-128 | in a consistent state a logged-in user's UPDATE changes exactly one row |
| Handlers.ChangePasswordThenLogin | server.js:122-134 | after a password change the new password logs in and every other password, the old one included, gets 401 |
| Handlers.LogoutEndsSession | server.js:136-158 | after logout requireAuth does not pass, whoami answers {user:null}, and change-password answers 403 |
| Handlers.Handle | server.js:94-158 | every request keeps the invariant, never deletes a user or changes an id, and a non-200 answer leaves the state unchanged |
| Handlers.RunKeepsConsistent | server.js:94-158 | any sequence of requests keeps usernames unique, ids distinct and sessions pointing at their rows |
| Handlers.RunKeepsUsers | server.js:53-64 | no sequence of requests deletes a user or changes a user's id |
| Server.AuthServer.constructor | server.js:29-38 | a new server starts with an empty table, AUTOINCREMENT at 1, no sessions, and the invariant |
| Server.AuthServer.FindUser | server.js:41-48 | `findUser` on the live table: the row exactly when the username exists |
| Server.AuthServer.CreateUser | server.js:50-59 | updates the fields exactly as UsersTable.CreateUser specifies and returns {id, username} or nothing on a UNIQUE violation; sessions untouched |
| Server.AuthServer.UpdatePassword | server.js:61-70 | updates the fields exactly as UsersTable.UpdatePassword specifies and returns its change count |
| Server.AuthServer.Login | server.js:94-108 | new state and response equal Handlers.Login's |
| Server.AuthServer.Register | server.js:110-120 | new state and response equal Handlers.Register's |
| Server.AuthServer.ChangePassword | server.js:122-134 | new state and response equal Handlers.ChangePassword's |
| Server.AuthServer.Logout | server.js:136-141 | new state and response equal Handlers.Logout's |
| Server.AuthServer.Seed | server.js:73-91 | the loop leaves the table equal to UsersTable.Seeded over a snapshot of the usernames present at the start; sessions untouched; keeps the invariant |

## Left out

- Bcrypt.Hash: bcrypt is idealised. It has no collisions and does not truncate passwords to 72 bytes, so "no other password verifies" is stronger than real bcrypt. Salt generation, the cost computation and constant-time comparison are not modelled.
- Response timing is not modelled. The unknown-user branch answers without running `bcrypt.compare`, so its latency may differ from the wrong-password branch. Only status, body and state are shown to be identical.
- Database errors other than the UNIQUE violation, and bcrypt failures, are external I/O. This covers the 500 `server` answers of login and change-password.
- Body fields that are not strings (numbers or objects in a JSON body) are external input. Fields are modelled as optional strings.
- Parts of express-session are library behaviour that depends on the clock. Not modelled: generating a fresh token for a request whose cookie names no stored session, cookie signing, persistence in `SQLiteStore`, and `maxAge` expiry. The token of the request's session is an input. So after logout the model would let a later login on the same token string create a session again, which the library prevents by never issuing a destroyed token.
- Content negotiation (`req.accepts('html')`) is reduced to a boolean input.
- `created_at` depends on the clock.
- SQLite's 64-bit limit on ids, where AUTOINCREMENT fails when exhausted, is not modelled. `nextId` is unbounded.
- Handlers are modelled as atomic steps. In server.js they pause at `await` points between their database and bcrypt calls: login awaits `findUser` and `bcrypt.compare` before it sets the session user, and register and change-password await `bcrypt.hash` before the INSERT or UPDATE. Requests from different clients can therefore interleave inside a handler, for example a logout during a login's `compare`, after which the login saves the session copy it loaded earlier. The model does not capture these interleavings.
- Seeding runs asynchronously beside incoming requests; that interleaving is concurrency and is not modelled. The failed initial `SELECT` and the logging are left out too. The hard-coded seed list is passed as a parameter.
- `changepassword.js` is not part of this model. It is a command-line wrapper around the same UPDATE that `updatePassword` performs.
- Static file serving, `/dashboard.html`'s `sendFile`, body parsing, routing and `app.listen` are I/O plumbing.
