/**
 * The `users(id, username, email, password)` table, seen through the two query
 * shapes the auth routes use: a point lookup by username and an insert. The
 * table is a map keyed by username, so the UNIQUE constraint on `username` is
 * the map's own uniqueness and an insert of a taken name fails.
 */
module UserStore {
  import opened Js
  import opened Bcrypt

  /** One row; its username is the key it is stored under. */
  datatype UserRow = UserRow(id: nat, email: JsString, passwordHash: Digest)

  /** The table's contents and the counter new ids are drawn from, in order. */
  datatype Table = Table(rows: map<JsString, UserRow>, nextId: nat)

  /** Every id was handed out before and no two rows share one. */
  predicate Valid(t: Table) {
    && (forall u :: u in t.rows ==> t.rows[u].id < t.nextId)
    && (forall u, v :: u in t.rows && v in t.rows && u != v ==> t.rows[u].id != t.rows[v].id)
  }

  /**
   * How one request's calls to the database and the hasher go: each flag says
   * that call rejects (a lost connection, a driver error, a hashing error).
   * `salt` is the salt `bcrypt.hash` draws.
   */
  datatype Infra = Infra(
    lookupFails: bool,
    compareFails: bool,
    hashFails: bool,
    insertFails: bool,
    rereadFails: bool,
    salt: nat)

  /**
   * `INSERT INTO users (username, email, password) VALUES (?,?,?)`: `None`
   * when the statement fails, else the table with the new row under the next id.
   */
  function Inserted(t: Table, username: JsString, email: JsString, hash: Digest, fails: bool): (r: Option<Table>)
    ensures r.Some? <==> !fails && username !in t.rows
    ensures r.Some? ==> r.value.rows.Keys == t.rows.Keys + {username}
    ensures r.Some? ==> r.value.rows[username] == UserRow(t.nextId, email, hash)
    ensures r.Some? ==> forall u :: u in t.rows ==> r.value.rows[u] == t.rows[u]
  {
    if fails || username in t.rows then None
    else Some(Table(t.rows[username := UserRow(t.nextId, email, hash)], t.nextId + 1))
  }

  /** An insert keeps ids unique and below the counter. */
  lemma InsertKeepsValid(t: Table, username: JsString, email: JsString, hash: Digest, fails: bool)
    requires Valid(t)
    ensures Inserted(t, username, email, hash, fails).Some? ==> Valid(Inserted(t, username, email, hash, fails).value)
  {
    var r := Inserted(t, username, email, hash, fails);
    if r.Some? {
      var t' := r.value;
      forall u, v | u in t'.rows && v in t'.rows && u != v
        ensures t'.rows[u].id != t'.rows[v].id
      {
        if u != username && v != username {
          assert t'.rows[u] == t.rows[u] && t'.rows[v] == t.rows[v];
        }
      }
    }
  }

  class UserDb {
    var rows: map<JsString, UserRow>
    var nextId: nat

    function Value(): Table
      reads this
    {
      Table(rows, nextId)
    }

    constructor (t: Table)
      ensures Value() == t
    {
      rows, nextId := t.rows, t.nextId;
    }

    /** Runs the insert statement; `ok` says whether it succeeded. */
    method Insert(username: JsString, email: JsString, hash: Digest, fails: bool) returns (ok: bool)
      modifies this
      ensures ok == Inserted(old(Value()), username, email, hash, fails).Some?
      ensures Value() == Inserted(old(Value()), username, email, hash, fails).GetOr(old(Value()))
    {
      if fails || username in rows {
        return false;
      }
      rows := rows[username := UserRow(nextId, email, hash)];
      nextId := nextId + 1;
      ok := true;
    }
  }
}
