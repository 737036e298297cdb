/**
 * The user store: a table of accounts keyed by an auto-generated id, with a
 * unique username column.
 */
module Users {
  import opened Wrappers
  import opened Entities

  /** Every row sits under its own id. */
  ghost predicate IdsMatchKeys(users: map<int, User>) {
    forall id :: id in users ==> users[id].id == id
  }

  /** Ids are generated from 1 upwards, so every stored id is below the next one. */
  ghost predicate IdsBelow(users: map<int, User>, nextId: int) {
    forall id :: id in users ==> 1 <= id < nextId
  }

  /** The unique constraint on the username column. */
  ghost predicate UniqueUsernames(users: map<int, User>) {
    forall i, j :: i in users && j in users && users[i].username == users[j].username ==> i == j
  }

  /** Some row of the table carries this username. */
  predicate UsernameTaken(users: map<int, User>, username: string) {
    exists id :: id in users && users[id].username == username
  }

  /** The ids of the rows that carry this username. */
  ghost function RowsNamed(users: map<int, User>, username: string): set<int> {
    set id | id in users && users[id].username == username
  }

  /**
   * The row that `findOne({ where: { username } })` yields: the one row with
   * that username, or none when no row has it.
   */
  function UserWithName(users: map<int, User>, username: string): (r: Option<User>)
    requires UniqueUsernames(users)
    ensures r.Some? <==> UsernameTaken(users, username)
    ensures forall id :: id in users && users[id].username == username ==> r == Some(users[id])
  {
    if UsernameTaken(users, username) then
      var id :| id in users && users[id].username == username;
      Some(users[id])
    else
      None
  }

  /** The row that `findOne(id)` yields: the row stored under `id`, or none. */
  function UserWithId(users: map<int, User>, id: int): (r: Option<User>)
    requires IdsMatchKeys(users)
    ensures r.Some? <==> id in users
    ensures r.Some? ==> r.value.id == id && users[id] == r.value
  {
    if id in users then Some(users[id]) else None
  }

  /**
   * The unique column leaves at most one row per username; in particular a
   * taken username is carried by exactly one row.
   */
  lemma OneRowPerUsername(users: map<int, User>, username: string)
    requires UniqueUsernames(users)
    ensures |RowsNamed(users, username)| <= 1
    ensures UsernameTaken(users, username) <==> |RowsNamed(users, username)| == 1
  {
    var rows := RowsNamed(users, username);
    if UsernameTaken(users, username) {
      var id :| id in users && users[id].username == username;
      assert rows == {id} by {
        forall j | j in rows ensures j == id { }
      }
    } else {
      assert rows == {} by {
        forall j | j in rows ensures false { }
      }
    }
  }

  /** The user service over an in-memory user table. */
  class UserService {
    var users: map<int, User>
    var nextId: int

    /** The table invariant: keyed by id, ids below the counter, unique usernames. */
    ghost predicate Valid()
      reads this
    {
      1 <= nextId && IdsMatchKeys(users) && IdsBelow(users, nextId) && UniqueUsernames(users)
    }

    constructor ()
      ensures Valid()
      ensures users == map[] && nextId == 1
    {
      users := map[];
      nextId := 1;
    }

    /**
     * Saves a new row with a fresh id and exactly the given username, password
     * and role, and returns it. A username that is already stored makes the
     * save fail on the unique column and leaves the table as it was.
     */
    method Create(username: string, password: string, role: string) returns (r: Result<User>)
      requires Valid()
      modifies this
      ensures Valid()
      ensures r.Err? <==> UsernameTaken(old(users), username)
      ensures r.Err? ==> r.error == UniqueViolation("username") && users == old(users) && nextId == old(nextId)
      ensures r.Ok? ==> && r.value == User(old(nextId), username, password, role)
                        && r.value.id !in old(users)
                        && users == old(users)[r.value.id := r.value]
                        && nextId == old(nextId) + 1
    {
      if UsernameTaken(users, username) {
        return Err(UniqueViolation("username"));
      }
      var user := User(nextId, username, password, role);
      users := users[nextId := user];
      nextId := nextId + 1;
      r := Ok(user);
    }

    /** Looks a row up by username, without changing the table. */
    method FindByUsername(username: string) returns (r: Option<User>)
      requires Valid()
      ensures r.Some? <==> UsernameTaken(users, username)
      ensures r.Some? ==> r.value.username == username && r.value.id in users && users[r.value.id] == r.value
      ensures r == UserWithName(users, username)
    {
      r := UserWithName(users, username);
    }

    /** Looks a row up by id, without changing the table. */
    method FindById(id: int) returns (r: Option<User>)
      requires Valid()
      ensures r.Some? <==> id in users
      ensures r.Some? ==> r.value.id == id && users[id] == r.value
      ensures r == UserWithId(users, id)
    {
      r := UserWithId(users, id);
    }

    /**
     * Sets the role of row `id` and nothing else: its id, username and
     * password and every other row stay as they were. There is no existence
     * check: a missing id updates no row.
     */
    method UpdateRole(id: int, role: string)
      requires Valid()
      modifies this
      ensures Valid() && nextId == old(nextId)
      ensures users.Keys == old(users).Keys
      ensures id in old(users) ==> users == old(users)[id := old(users)[id].(role := role)]
      ensures id !in old(users) ==> users == old(users)
    {
      if id in users {
        users := users[id := users[id].(role := role)];
      }
    }

    /**
     * Removes row `id` after checking that it exists; a missing id throws
     * "User not found" and leaves the table as it was.
     */
    method DeleteUser(id: int) returns (r: Outcome)
      requires Valid()
      modifies this
      ensures Valid() && nextId == old(nextId)
      ensures r.Fail? <==> id !in old(users)
      ensures r.Fail? ==> r.error == NotFound("User not found") && users == old(users)
      ensures r.Pass? ==> users == old(users) - {id}
    {
      var user := FindById(id);
      if user.None? {
        return Fail(NotFound("User not found"));
      }
      users := users - {id};
      r := Pass;
    }
  }
}
