/**
 * The `user` table of the database: rows (id, username, password hash),
 * the two lookups the authentication handlers run against it, and the
 * INSERT whose UNIQUE constraint on `username` raises IntegrityError.
 */
module UserTable {
  import opened Wrappers

  datatype User = User(id: int, username: string, passwordHash: string)

  /** The table invariant: usernames are non-empty and unique, and every id
      lies in [1, nextId), so `nextId` is a fresh id (the table is append-only). */
  ghost predicate WellFormed(users: seq<User>, nextId: int) {
    && 1 <= nextId
    && (forall i :: 0 <= i < |users| ==> users[i].username != "" && 1 <= users[i].id < nextId)
    && (forall i, j :: 0 <= i < j < |users| ==> users[i].username != users[j].username)
    && (forall i, j :: 0 <= i < j < |users| ==> users[i].id != users[j].id)
  }

  /** Some row carries this username. */
  ghost predicate Registered(users: seq<User>, username: string) {
    exists u :: u in users && u.username == username
  }

  /** `SELECT * FROM user WHERE username = ?` followed by `fetchone()`. */
  function FindByUsername(users: seq<User>, username: string): (r: Option<User>)
    ensures r.Some? <==> Registered(users, username)
    ensures r.Some? ==> r.value in users && r.value.username == username
  {
    if users == [] then None
    else if users[0].username == username then Some(users[0])
    else FindByUsername(users[1..], username)
  }

  /** `SELECT * FROM user WHERE id = ?` followed by `fetchone()`. */
  function FindById(users: seq<User>, id: int): (r: Option<User>)
    ensures r.Some? <==> exists u :: u in users && u.id == id
    ensures r.Some? ==> r.value in users && r.value.id == id
  {
    if users == [] then None
    else if users[0].id == id then Some(users[0])
    else FindById(users[1..], id)
  }

  /** `INSERT INTO user (username, password) VALUES (?, ?)` with the id the
      database assigns: `None` stands for the IntegrityError the UNIQUE
      constraint raises when the username is already present. */
  function Insert(users: seq<User>, nextId: int, username: string, passwordHash: string): (r: Option<seq<User>>)
    ensures r.None? <==> Registered(users, username)
    ensures r.Some? ==> |r.value| == |users| + 1 && r.value[..|users|] == users
    ensures r.Some? ==> r.value[|users|] == User(nextId, username, passwordHash)
  {
    if FindByUsername(users, username).Some? then None
    else Some(users + [User(nextId, username, passwordHash)])
  }

  /** In a well-formed table the username lookup finds exactly the row
      that carries the username. */
  lemma FindByUsernameExact(users: seq<User>, nextId: int, u: User)
    requires WellFormed(users, nextId) && u in users
    ensures FindByUsername(users, u.username) == Some(u)
  {
  }

  /** In a well-formed table the id lookup finds exactly the row with that id. */
  lemma FindByIdExact(users: seq<User>, nextId: int, u: User)
    requires WellFormed(users, nextId) && u in users
    ensures FindById(users, u.id) == Some(u)
  {
  }

  /** A lookup by username in an appended table looks in the first part first. */
  lemma {:induction false} FindByUsernameAppend(a: seq<User>, b: seq<User>, username: string)
    ensures FindByUsername(a + b, username)
         == if FindByUsername(a, username).Some? then FindByUsername(a, username) else FindByUsername(b, username)
  {
    if a != [] {
      assert (a + b)[0] == a[0];
      assert (a + b)[1..] == a[1..] + b;
      FindByUsernameAppend(a[1..], b, username);
    } else {
      assert a + b == b;
    }
  }

  /** A lookup by id in an appended table looks in the first part first. */
  lemma {:induction false} FindByIdAppend(a: seq<User>, b: seq<User>, id: int)
    ensures FindById(a + b, id)
         == if FindById(a, id).Some? then FindById(a, id) else FindById(b, id)
  {
    if a != [] {
      assert (a + b)[0] == a[0];
      assert (a + b)[1..] == a[1..] + b;
      FindByIdAppend(a[1..], b, id);
    } else {
      assert a + b == b;
    }
  }

  /** A successful insert keeps the table invariant, with the counter advanced. */
  lemma InsertKeepsWellFormed(users: seq<User>, nextId: int, username: string, passwordHash: string)
    requires WellFormed(users, nextId) && username != ""
    requires Insert(users, nextId, username, passwordHash).Some?
    ensures WellFormed(Insert(users, nextId, username, passwordHash).value, nextId + 1)
  {
  }

  /** After a successful insert the new row is found by its username and by
      its id, and every other lookup answers as before. */
  lemma InsertThenFind(users: seq<User>, nextId: int, username: string, passwordHash: string)
    requires WellFormed(users, nextId)
    requires Insert(users, nextId, username, passwordHash).Some?
    ensures var t := Insert(users, nextId, username, passwordHash).value;
      && FindByUsername(t, username) == Some(User(nextId, username, passwordHash))
      && FindById(t, nextId) == Some(User(nextId, username, passwordHash))
      && (forall n :: n != username ==> FindByUsername(t, n) == FindByUsername(users, n))
      && (forall id :: id != nextId ==> FindById(t, id) == FindById(users, id))
  {
    var row := User(nextId, username, passwordHash);
    assert Insert(users, nextId, username, passwordHash).value == users + [row];
    forall n | n != username
      ensures FindByUsername(users + [row], n) == FindByUsername(users, n)
    {
      FindByUsernameAppend(users, [row], n);
    }
    forall id | id != nextId
      ensures FindById(users + [row], id) == FindById(users, id)
    {
      FindByIdAppend(users, [row], id);
    }
  }
}
