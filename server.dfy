/**
 * The running server of server.js: the `users` table and the session store are
 * fields that the handlers update in place. Each method follows its handler
 * branch by branch and is proved to produce the state and response that the
 * step function of the same name in `Handlers` specifies.
 */
module Server {
  import opened Optional
  import opened Bcrypt
  import opened UsersTable
  import opened Sessions
  import opened Handlers

  class AuthServer {
    /** The rows of the `users` table, by username. */
    var users: map<string, Row>
    /** SQLite's AUTOINCREMENT counter for `users.id`. */
    var nextId: nat
    /** The express-session store. */
    var sessions: Store

    function Db(): Table
      reads this
    {
      UsersTable.Table(users, nextId)
    }

    function State(): AppState
      reads this
    {
      AppState(Db(), sessions)
    }

    ghost predicate Valid()
      reads this
    {
      Consistent(State())
    }

    /** A server started on a new database (`CREATE TABLE IF NOT EXISTS` creating it) with no sessions. */
    constructor ()
      ensures Valid()
      ensures Db() == Empty() && sessions == map[]
    {
      users := map[];
      nextId := 1;
      sessions := map[];
    }

    /** `findUser` against the current table. */
    function FindUser(username: string): (r: Option<Row>)
      reads this
      ensures r.Some? <==> username in users
      ensures r.Some? ==> r.value == users[username]
    {
      UsersTable.FindUser(Db(), username)
    }

    /**
     * `createUser`: insert a row, or leave the table alone when the UNIQUE column
     * rejects the username. Returns `{ id, username }` of the new row.
     */
    method CreateUser(username: string, password: string, salt: Salt) returns (created: Option<UserRef>)
      requires Valid()
      modifies this
      ensures Valid() && sessions == old(sessions)
      ensures
        var ins := UsersTable.CreateUser(old(Db()), username, password, salt);
        && (ins.Inserted? ==> Db() == ins.table && created == Some(ins.user))
        && (ins.UniqueViolation? ==> Db() == old(Db()) && created == None)
    {
      if username in users {
        return None;
      }
      created := Some(UserRef(nextId, username));
      users := users[username := Row(nextId, Hash(password, salt))];
      nextId := nextId + 1;
    }

    /** `updatePassword`: set the hash of the row with that username; returns the number of changed rows. */
    method UpdatePassword(username: string, newPassword: string, salt: Salt) returns (changes: nat)
      requires Valid()
      modifies this
      ensures Valid() && sessions == old(sessions)
      ensures
        var upd := UsersTable.UpdatePassword(old(Db()), username, newPassword, salt);
        Db() == upd.table && changes == upd.changes
    {
      changes := 0;
      if username in users {
        users := users[username := Row(users[username].id, Hash(newPassword, salt))];
        changes := 1;
      }
    }

    /** POST /api/login for the request whose session is `token`. */
    method Login(token: Token, username: Option<string>, password: Option<string>) returns (resp: Response)
      requires Valid()
      modifies this
      ensures Valid()
      ensures Outcome(State(), resp) == Handlers.Login(old(State()), token, username, password)
    {
      if !Present(username) || !Present(password) {
        return Response(400, Error(Missing));
      }
      var user := FindUser(username.value);
      if user.None? {
        return Response(401, Error(Invalid));
      }
      var ok := Verify(password.value, user.value.passwordHash);
      if !ok {
        return Response(401, Error(Invalid));
      }
      sessions := sessions[token := Some(UserRef(user.value.id, username.value))];
      resp := Response(200, LoggedIn(username.value));
    }

    /** POST /api/register. */
    method Register(username: Option<string>, password: Option<string>, salt: Salt) returns (resp: Response)
      requires Valid()
      modifies this
      ensures Valid()
      ensures Outcome(State(), resp) == Handlers.Register(old(State()), username, password, salt)
    {
      if !Present(username) || !Present(password) {
        return Response(400, Error(Missing));
      }
      var created := CreateUser(username.value, password.value, salt);
      if created.None? {
        return Response(500, Error(CouldNotCreate));
      }
      resp := Response(200, OkBody);
    }

    /** POST /api/change-password for the request whose session is `token`. */
    method ChangePassword(token: Token, newPassword: Option<string>, salt: Salt) returns (resp: Response)
      requires Valid()
      modifies this
      ensures Valid()
      ensures Outcome(State(), resp) == Handlers.ChangePassword(old(State()), token, newPassword, salt)
    {
      var user := CurrentUser(sessions, token);
      if user.None? {
        return Response(403, Error(NotLoggedIn));
      }
      if !Present(newPassword) {
        return Response(400, Error(Missing));
      }
      var _ := UpdatePassword(user.value.username, newPassword.value, salt);
      resp := Response(200, OkBody);
    }

    /** POST /api/logout: destroy the request's session. */
    method Logout(token: Token) returns (resp: Response)
      requires Valid()
      modifies this
      ensures Valid()
      ensures Outcome(State(), resp) == Handlers.Logout(old(State()), token)
    {
      sessions := sessions - {token};
      resp := Response(200, OkBody);
    }

    /**
     * The startup `seed`: snapshot the usernames in the table, then for each
     * wanted entry whose username was not among them try `createUser`, ignoring
     * a failure. Entry `i` is hashed with `salts[i]`.
     */
    method Seed(wanted: seq<Wanted>, salts: seq<Salt>)
      requires Valid() && |salts| == |wanted|
      modifies this
      ensures Valid() && sessions == old(sessions)
      ensures Db() == Seeded(old(Db()), old(users.Keys), wanted, salts)
    {
      var existing := users.Keys;
      for i := 0 to |wanted|
        invariant Valid() && sessions == old(sessions)
        invariant Db() == Seeded(old(Db()), existing, wanted[..i], salts[..i])
      {
        assert wanted[..i + 1][..i] == wanted[..i] && salts[..i + 1][..i] == salts[..i];
        var w := wanted[i];
        if w.username !in existing {
          var _ := CreateUser(w.username, w.password, salts[i]);
        }
      }
      assert wanted[..|wanted|] == wanted && salts[..|salts|] == salts;
    }
  }

  /** Register, log in, change the password and log out on one server, asserting each answer. */
  method Scenario(alice: string, secret: string, newSecret: string, salt1: Salt, salt2: Salt, token: Token)
    requires alice != "" && secret != "" && newSecret != "" && secret != newSecret
  {
    var server := new AuthServer();
    var r := server.Register(Some(alice), Some(secret), salt1);
    assert r.status == 200;
    r := server.Register(Some(alice), Some(newSecret), salt2);
    assert r == Response(500, Error(CouldNotCreate));

    r := server.Login(token, Some(alice), Some(newSecret));
    assert r == Response(401, Error(Invalid));
    r := server.Login(token, Some(alice), Some(secret));
    assert r == Response(200, LoggedIn(alice));
    assert RequireAuth(server.State(), token, true) == Next;

    r := server.ChangePassword(token, Some(newSecret), salt2);
    assert r.status == 200;
    r := server.Login(token, Some(alice), Some(secret));
    assert r == Response(401, Error(Invalid));
    r := server.Login(token, Some(alice), Some(newSecret));
    assert r == Response(200, LoggedIn(alice));

    r := server.Logout(token);
    assert Whoami(server.State(), token) == Response(200, WhoAmI(None));
    assert RequireAuth(server.State(), token, false) == Deny(Response(401, Error(Unauthorized)));
    r := server.ChangePassword(token, Some(secret), salt1);
    assert r == Response(403, Error(NotLoggedIn));
  }
}
