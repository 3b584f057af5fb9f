/** User accounts: insert with the UNIQUE username, update, lookup by id and by credentials
    (database.ts:380-456). */
module Identity {
  import opened Tables
  import opened Records

  predicate UsernameInUse(rows: seq<Row<User>>, username: string)
  {
    exists i :: 0 <= i < |rows| && rows[i].val.username == username
  }

  /** A row other than `id` already holds `username`. */
  predicate UsernameHeldByOther(rows: seq<Row<User>>, id: int, username: string)
  {
    exists i :: 0 <= i < |rows| && rows[i].id != id && rows[i].val.username == username
  }

  /** addUser: the INSERT is refused by `username TEXT UNIQUE` and the function then reports
      false; otherwise it inserts and reports true. */
  function AddUser(t: Table<User>, username: string, password: string, role: string)
    : (r: (Table<User>, bool))
    requires WellFormed(t) && DistinctUsernames(t.rows)
    ensures WellFormed(r.0) && DistinctUsernames(r.0.rows)
    ensures r.1 <==> !UsernameInUse(t.rows, username)
    ensures !r.1 ==> r.0 == t
    ensures r.1 ==> r.0.rows == t.rows + [Row(r.0.lastId, User(username, password, role))] &&
                    r.0.lastId == t.lastId + 1 && !HasId(t.rows, r.0.lastId)
  {
    if UsernameInUse(t.rows, username) then (t, false)
    else (Insert(t, User(username, password, role)), true)
  }

  /** updateUser: `UPDATE users SET username, password, role WHERE id = ?`, refused when another
      account already has the new username (the error is swallowed). */
  function UpdateUser(rows: seq<Row<User>>, u: Row<User>): (r: seq<Row<User>>)
    requires Ordered(rows) && DistinctUsernames(rows)
    ensures Ordered(r) && DistinctUsernames(r)
    ensures UsernameHeldByOther(rows, u.id, u.val.username) ==> r == rows
    ensures !UsernameHeldByOther(rows, u.id, u.val.username) ==>
              |r| == |rows| &&
              forall i :: 0 <= i < |rows| ==> r[i] == if rows[i].id == u.id then u else rows[i]
  {
    if UsernameHeldByOther(rows, u.id, u.val.username) then rows else Replace(rows, u.id, u.val)
  }

  /** getUserByCredentials: the first row whose username and password both equal the inputs
      exactly, or null. */
  function Credentials(rows: seq<Row<User>>, username: string, password: string)
    : (r: Option<Row<User>>)
    ensures r.Some? ==> r.value in rows && r.value.val.username == username &&
                        r.value.val.password == password
    ensures r.None? <==> forall i :: 0 <= i < |rows| ==>
                           rows[i].val.username != username || rows[i].val.password != password
  {
    if rows == [] then None
    else if rows[0].val.username == username && rows[0].val.password == password then Some(rows[0])
    else
      var r := Credentials(rows[1..], username, password);
      assert forall i :: 1 <= i < |rows| ==> rows[i] == rows[1..][i - 1];
      r
  }

  /** Signing in right after a successful addUser finds exactly the account just created. */
  lemma {:induction false} AddedUserCanSignIn(t: Table<User>, username: string, password: string, role: string)
    requires WellFormed(t) && DistinctUsernames(t.rows)
    requires !UsernameInUse(t.rows, username)
    ensures var r := AddUser(t, username, password, role).0;
            Credentials(r.rows, username, password) == Some(Row(r.lastId, User(username, password, role)))
  {
    var r := AddUser(t, username, password, role).0;
    var c := Credentials(r.rows, username, password);
    assert r.rows[|t.rows|] == Row(r.lastId, User(username, password, role));
    assert c.Some?;
    var k :| 0 <= k < |r.rows| && r.rows[k] == c.value;
    assert k == |t.rows|;
  }

  /** With usernames unique, the account a credential lookup returns is the only one holding
      that username. */
  lemma CredentialsUnique(rows: seq<Row<User>>, username: string, password: string, other: Row<User>)
    requires DistinctUsernames(rows)
    requires Credentials(rows, username, password).Some?
    requires other in rows && other.val.username == username
    ensures other == Credentials(rows, username, password).value
  {
  }
}
