/**
 * Accounts and the session (utils/auth.py): password hashing and checking,
 * the login lookup, the role predicates over the logged-in user, the login
 * form, logout and user creation. SHA-256 is a parameter `hash` of the model.
 */
module Auth {
  import opened Wrappers
  import opened Tables
  import opened Schema

  /** hash_password: the hex digest of the password under `hash`. */
  function HashPassword(hash: string -> string, password: string): string {
    hash(password)
  }

  /** verify_password: recompute the digest and compare it with the stored one. */
  predicate VerifyPassword(hash: string -> string, password: string, hashed: string) {
    HashPassword(hash, password) == hashed
  }

  /** The dictionary login_user builds and the session keeps under 'user'. */
  datatype UserInfo = UserInfo(id: nat, username: string, fullName: string, role: Role, isActive: bool)

  /** The three founder accounts. */
  const Founders: seq<string> := ["james", "joe", "jake"]

  /** The WHERE clause of the login lookup: this username, and is_active = 1. */
  function ActiveNamed(username: string): UserRow -> bool {
    (u: UserRow) => u.username == username && u.isActive
  }

  /** A users row that lets `username` log in with `password`. */
  predicate Admits(hash: string -> string, row: UserRow, username: string, password: string) {
    row.username == username && row.isActive && VerifyPassword(hash, password, row.passwordHash)
  }

  /** The record login_user returns for row `id`. */
  function InfoOf(id: nat, row: UserRow): UserInfo {
    UserInfo(id, row.username, row.fullName, row.role, row.isActive)
  }

  /** Usernames are unique, so the login lookup returns at most one row. */
  lemma LookupAtMostOne(users: Table<UserRow>, found: seq<nat>, username: string)
    requires UniqueUsernames(users) && Lists(users, ActiveNamed(username), found)
    ensures |found| <= 1
    ensures forall k :: k in users.rows && ActiveNamed(username)(users.rows[k]) ==> found == [k]
  {
    forall i | 0 <= i < |found| ensures found[i] == found[0] {
      assert users.rows[found[i]].username == users.rows[found[0]].username;
    }
    if |found| > 0 {
      DistinctCard(found);
      assert AsSet(found) == {found[0]};
    }
  }

  /**
   * login_user: `found` is what the SELECT returned (the active rows with
   * that username) and `lookupFails` says whether the query raised. A record
   * comes back exactly when some active row with that username stores the
   * password's hash, and then it is that row's fields.
   */
  function LoginUser(hash: string -> string, users: Table<UserRow>, found: seq<nat>,
                     username: string, password: string, lookupFails: bool): (r: Option<UserInfo>)
    requires UniqueUsernames(users) && Lists(users, ActiveNamed(username), found)
    ensures r.Some? <==> !lookupFails && exists k :: k in users.rows && Admits(hash, users.rows[k], username, password)
    ensures r.Some? ==> r.value.id in users.rows && Admits(hash, users.rows[r.value.id], username, password)
    ensures r.Some? ==> r.value == InfoOf(r.value.id, users.rows[r.value.id])
  {
    LookupAtMostOne(users, found, username);
    if lookupFails then None
    else if |found| > 0 && VerifyPassword(hash, password, users.rows[found[0]].passwordHash) then
      Some(InfoOf(found[0], users.rows[found[0]]))
    else None
  }

  /** is_admin: someone is logged in and their role is admin. */
  predicate IsAdmin(user: Option<UserInfo>) {
    user.Some? && user.value.role == Admin
  }

  /** is_founder: someone is logged in and their username is a founder's. */
  predicate IsFounder(user: Option<UserInfo>) {
    user.Some? && user.value.username in Founders
  }

  /** is_james: someone is logged in as james. */
  predicate IsJames(user: Option<UserInfo>) {
    user.Some? && user.value.username == "james"
  }

  /** james is a founder, and nobody has a role while logged out. */
  lemma RolePredicates(user: Option<UserInfo>)
    ensures IsJames(user) ==> IsFounder(user)
    ensures user.None? ==> !IsAdmin(user) && !IsFounder(user) && !IsJames(user)
    ensures IsFounder(user) <==> user.Some? && (user.value.username == "james" || user.value.username == "joe" || user.value.username == "jake")
  {
  }

  /** What the login form reports. */
  datatype LoginOutcome = MissingField | InvalidCredentials | Welcome(fullName: string)

  /** st.session_state as far as authentication uses it: the logged-in user, if any. */
  class Session {
    var user: Option<UserInfo>

    constructor ()
      ensures user.None?
    {
      user := None;
    }

    /** is_logged_in. */
    predicate IsLoggedIn()
      reads this
    {
      user.Some?
    }

    /**
     * The login form's submit handler. An empty field is rejected before any
     * lookup; an unknown user and a wrong password get the same message; a
     * successful login stores the record in the session.
     */
    method SubmitLogin(hash: string -> string, users: Table<UserRow>, found: seq<nat>,
                       username: string, password: string, lookupFails: bool) returns (outcome: LoginOutcome)
      requires UniqueUsernames(users) && Lists(users, ActiveNamed(username), found)
      modifies this
      ensures outcome.MissingField? <==> username == [] || password == []
      ensures outcome.MissingField? ==> user == old(user)
      ensures outcome == InvalidCredentials <==>
        username != [] && password != [] && LoginUser(hash, users, found, username, password, lookupFails).None?
      ensures outcome.InvalidCredentials? ==> user == old(user)
      ensures outcome.Welcome? ==>
        user == LoginUser(hash, users, found, username, password, lookupFails) &&
        user.Some? && outcome.fullName == user.value.fullName
    {
      if username != [] && password != [] {
        var info := LoginUser(hash, users, found, username, password, lookupFails);
        if info.Some? {
          user := info;
          outcome := Welcome(info.value.fullName);
        } else {
          outcome := InvalidCredentials;
        }
      } else {
        outcome := MissingField;
      }
    }

    /** logout: the session forgets its user. */
    method Logout()
      modifies this
      ensures !IsLoggedIn()
      ensures !IsAdmin(user) && !IsFounder(user) && !IsJames(user)
    {
      user := None;
    }
  }

  /** create_user's default role. */
  const DefaultRole: Role := Teacher

  /**
   * create_user: stores the password's hash, never the password itself. The
   * UNIQUE username makes the INSERT raise for a taken name, and then the
   * result is None and the table is unchanged.
   */
  method CreateUser(db: SchoolDb, hash: string -> string, username: string, password: string,
                    fullName: string, role: Role) returns (id: Option<nat>)
    requires db.Valid()
    modifies db`users
    ensures db.Valid()
    ensures id.None? <==> UsernameTaken(old(db.users), username)
    ensures id.None? ==> db.users == old(db.users)
    ensures id.Some? ==> id.value == NextId(old(db.users)) && db.users == Insert(old(db.users), UserRow(username, HashPassword(hash, password), fullName, role, true))
    ensures id.Some? ==> VerifyPassword(hash, password, db.users.rows[id.value].passwordHash)
  {
    var row := UserRow(username, HashPassword(hash, password), fullName, role, true);
    var inserted := InsertUser(db.users, row);
    if inserted.Some? {
      id := Some(NextId(db.users));
      db.users := inserted.value;
    } else {
      id := None;
    }
  }
}
