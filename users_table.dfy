/**
 * The `users` table (server.js:31-37) and the three functions the server runs
 * against it: `findUser`, `createUser` and `updatePassword`, plus the startup
 * `seed` loop's effect as a specification function.
 *
 * The table is a map keyed by username: the `UNIQUE` constraint on the username
 * column makes the username a key. `nextId` stands in for SQLite's
 * `AUTOINCREMENT` counter; `created_at` is a clock value and is not modelled.
 */
module UsersTable {
  import opened Optional
  import opened Bcrypt

  /** One row: the `id` and `password_hash` columns (the username is the key). */
  datatype Row = Row(id: nat, passwordHash: HashRecord)

  /** The table and the AUTOINCREMENT counter: the id the next insert receives. */
  datatype Table = Table(rows: map<string, Row>, nextId: nat)

  /** `{ id, username }`: what `createUser` resolves to and what a session stores. */
  datatype UserRef = UserRef(id: nat, username: string)

  /** A freshly created database: no rows, and AUTOINCREMENT starts at 1. */
  function Empty(): (t: Table)
    ensures Valid(t) && t.rows == map[] && t.nextId == 1
  {
    Table(map[], 1)
  }

  /**
   * The table invariant: every id was handed out by the counter, and no two
   * rows share an id. Usernames are distinct because they are the map's keys.
   */
  predicate Valid(t: Table)
  {
    && 1 <= t.nextId
    && (forall u :: u in t.rows ==> 1 <= t.rows[u].id < t.nextId)
    && (forall u, v :: u in t.rows && v in t.rows && u != v ==> t.rows[u].id != t.rows[v].id)
  }

  /** `findUser`: `SELECT * FROM users WHERE username = ?`, undefined when no row matches. */
  function FindUser(t: Table, username: string): (r: Option<Row>)
    ensures r.Some? <==> username in t.rows
    ensures r.Some? ==> r.value == t.rows[username]
  {
    if username in t.rows then Some(t.rows[username]) else None
  }

  /** The outcome of an INSERT: the new table and `{ id: lastID, username }`, or the UNIQUE violation. */
  datatype Insert = Inserted(table: Table, user: UserRef) | UniqueViolation

  /**
   * `createUser`: hash the password, then INSERT a row. The UNIQUE column rejects
   * a username that is already present and leaves the table as it was; otherwise
   * exactly one row is added, under an id no existing row uses.
   */
  function CreateUser(t: Table, username: string, password: string, salt: Salt): (r: Insert)
    ensures r.UniqueViolation? <==> username in t.rows
    ensures r.Inserted? ==>
      && r.user == UserRef(t.nextId, username)
      && r.table.rows == t.rows[username := Row(t.nextId, Hash(password, salt))]
      && r.table.nextId == t.nextId + 1
    ensures r.Inserted? && Valid(t) ==>
      && Valid(r.table)
      && (forall v :: v in t.rows ==> t.rows[v].id != r.user.id)
  {
    if username in t.rows then UniqueViolation
    else
      var row := Row(t.nextId, Hash(password, salt));
      Inserted(Table(t.rows[username := row], t.nextId + 1), UserRef(t.nextId, username))
  }

  /** The outcome of an UPDATE: the new table and `this.changes`. */
  datatype Update = Update(table: Table, changes: nat)

  /**
   * `updatePassword`: `UPDATE users SET password_hash = ? WHERE username = ?`.
   * Changes the hash of the one matching row (if any) and nothing else, and
   * reports 1 or 0 changed rows.
   */
  function UpdatePassword(t: Table, username: string, newPassword: string, salt: Salt): (r: Update)
    ensures r.changes <= 1 && (r.changes == 1 <==> username in t.rows)
    ensures r.table.nextId == t.nextId && r.table.rows.Keys == t.rows.Keys
    ensures forall v :: v in t.rows && v != username ==> r.table.rows[v] == t.rows[v]
    ensures username in t.rows ==>
      r.table.rows[username] == Row(t.rows[username].id, Hash(newPassword, salt))
    ensures Valid(t) ==> Valid(r.table)
  {
    if username in t.rows then
      var row := t.rows[username];
      Update(Table(t.rows[username := Row(row.id, Hash(newPassword, salt))], t.nextId), 1)
    else
      Update(t, 0)
  }

  /** One entry of the seed list: a wanted username and its password. */
  datatype Wanted = Wanted(username: string, password: string)

  /**
   * One iteration of the seed loop: skip a username that was in the table when
   * seeding began (`existing`), otherwise try `createUser` and ignore a failure.
   */
  function SeedStep(t: Table, existing: set<string>, w: Wanted, salt: Salt): (r: Table)
    ensures forall u :: u in t.rows ==> u in r.rows && r.rows[u] == t.rows[u]
    ensures existing <= t.rows.Keys ==> w.username in r.rows
    ensures forall u :: u in r.rows && u !in t.rows ==>
      u == w.username && r.rows[u].passwordHash == Hash(w.password, salt)
    ensures Valid(t) ==> Valid(r)
  {
    if w.username in existing then t
    else
      match CreateUser(t, w.username, w.password, salt)
      case Inserted(t', _) => t'
      case UniqueViolation => t
  }

  /**
   * The table after the seed loop has run over `wanted`, entry `i` hashed with
   * `salts[i]`. Written on the last entry so that it follows the loop's order.
   */
  function Seeded(t: Table, existing: set<string>, wanted: seq<Wanted>, salts: seq<Salt>): (r: Table)
    requires |salts| == |wanted|
    ensures t.rows.Keys <= r.rows.Keys && t.nextId <= r.nextId
    decreases |wanted|
  {
    if wanted == [] then t
    else
      var n := |wanted| - 1;
      SeedStep(Seeded(t, existing, wanted[..n], salts[..n]), existing, wanted[n], salts[n])
  }

  /** Seeding never deletes a row and never changes an existing row's id or hash. */
  lemma {:induction false} SeedKeepsRows(t: Table, existing: set<string>, wanted: seq<Wanted>, salts: seq<Salt>)
    requires |salts| == |wanted|
    ensures forall u :: u in t.rows ==>
      u in Seeded(t, existing, wanted, salts).rows && Seeded(t, existing, wanted, salts).rows[u] == t.rows[u]
    decreases |wanted|
  {
    if wanted != [] {
      var n := |wanted| - 1;
      SeedKeepsRows(t, existing, wanted[..n], salts[..n]);
    }
  }

  /** When `existing` is a snapshot of the table, every wanted username is present afterwards. */
  lemma {:induction false} SeedCoversWanted(t: Table, existing: set<string>, wanted: seq<Wanted>, salts: seq<Salt>)
    requires |salts| == |wanted| && existing <= t.rows.Keys
    ensures forall i :: 0 <= i < |wanted| ==> wanted[i].username in Seeded(t, existing, wanted, salts).rows
    decreases |wanted|
  {
    if wanted != [] {
      var n := |wanted| - 1;
      var before := Seeded(t, existing, wanted[..n], salts[..n]);
      SeedCoversWanted(t, existing, wanted[..n], salts[..n]);
      SeedKeepsRows(t, existing, wanted[..n], salts[..n]);
      forall i | 0 <= i < n
        ensures wanted[i].username in before.rows
      {
        assert wanted[..n][i] == wanted[i];
      }
    }
  }

  /**
   * A row seeding adds belongs to a wanted username, and carries the hash of the
   * password of that username's FIRST entry in the list: a later duplicate entry
   * fails on the UNIQUE column and is ignored.
   */
  lemma {:induction false} SeedAddsFirstEntry(t: Table, existing: set<string>, wanted: seq<Wanted>, salts: seq<Salt>)
    requires |salts| == |wanted| && existing <= t.rows.Keys
    ensures forall u :: u in Seeded(t, existing, wanted, salts).rows && u !in t.rows ==>
      (exists i :: FirstEntry(wanted, u, i)
        && Seeded(t, existing, wanted, salts).rows[u].passwordHash == Hash(wanted[i].password, salts[i]))
    decreases |wanted|
  {
    if wanted != [] {
      var n := |wanted| - 1;
      var before := Seeded(t, existing, wanted[..n], salts[..n]);
      var after := Seeded(t, existing, wanted, salts);
      SeedAddsFirstEntry(t, existing, wanted[..n], salts[..n]);
      SeedCoversWanted(t, existing, wanted[..n], salts[..n]);
      forall u | u in after.rows && u !in t.rows
        ensures exists i :: FirstEntry(wanted, u, i) && after.rows[u].passwordHash == Hash(wanted[i].password, salts[i])
      {
        if u in before.rows {
          var i :| FirstEntry(wanted[..n], u, i) && before.rows[u].passwordHash == Hash(wanted[..n][i].password, salts[..n][i]);
          assert forall j :: 0 <= j < i ==> wanted[j] == wanted[..n][j];
          assert FirstEntry(wanted, u, i);
        } else {
          assert forall j :: 0 <= j < n ==> wanted[j] == wanted[..n][j];
          assert FirstEntry(wanted, u, n);
        }
      }
    }
  }

  /** Entry `i` is the first entry of `wanted` that names username `u`. */
  predicate FirstEntry(wanted: seq<Wanted>, u: string, i: int)
  {
    0 <= i < |wanted| && wanted[i].username == u && forall j :: 0 <= j < i ==> wanted[j].username != u
  }

  /** Seeding keeps the table invariant. */
  lemma {:induction false} SeedKeepsValid(t: Table, existing: set<string>, wanted: seq<Wanted>, salts: seq<Salt>)
    requires |salts| == |wanted| && Valid(t)
    ensures Valid(Seeded(t, existing, wanted, salts))
    decreases |wanted|
  {
    if wanted != [] {
      var n := |wanted| - 1;
      SeedKeepsValid(t, existing, wanted[..n], salts[..n]);
    }
  }
}
