/**
 * The maintenance scripts that work on the users table directly:
 * create_admin.py (create or promote an administrator), reset_passwords.py
 * (re-create the three founder accounts with their fixed passwords) and
 * cleanup_users.py (delete every account but the founders'). Whether the
 * database file exists is a parameter; the prompts' answers are parameters.
 */
module Maintenance {
  import opened Wrappers
  import opened Text
  import opened Tables
  import opened Schema
  import opened Auth
  import opened Admin

  /** `row` is stored, and no other row has its username. */
  ghost predicate HoldsOnly(users: Table<UserRow>, row: UserRow) {
    exists k :: k in users.rows && users.rows[k] == row && Ids(users, Named(row.username)) == {k}
  }

  /** With unique usernames, the row with a given username is the only one selected by it. */
  lemma NamedSingleton(users: Table<UserRow>, k: nat)
    requires UniqueUsernames(users) && k in users.rows
    ensures Ids(users, Named(users.rows[k].username)) == {k}
  {
  }

  /**
   * A stored, active admin row with the hash of `password` lets its owner log
   * in, and the session then holds an administrator with that name.
   */
  lemma StoredAdminLogsIn(hash: string -> string, users: Table<UserRow>, found: seq<nat>,
                          username: string, password: string, fullName: string)
    requires UniqueUsernames(users) && Lists(users, ActiveNamed(username), found)
    requires UserRow(username, HashPassword(hash, password), fullName, Admin, true) in users.rows.Values
    ensures LoginUser(hash, users, found, username, password, false).Some?
    ensures IsAdmin(LoginUser(hash, users, found, username, password, false))
    ensures LoginUser(hash, users, found, username, password, false).value.fullName == fullName
  {
    var row := UserRow(username, HashPassword(hash, password), fullName, Admin, true);
    var k :| k in users.rows && users.rows[k] == row;
    assert Admits(hash, users.rows[k], username, password);
    var r := LoginUser(hash, users, found, username, password, false);
    var id := r.value.id;
    assert users.rows[id].username == username;
    assert id == k;
  }

  // create_admin.py

  /** The defaults create_admin falls back on. */
  const DefaultAdminUsername: string := "admin"
  const DefaultAdminFullName: string := "System Administrator"

  /** The username the script uses: the stripped answer, or 'admin' when that is empty. */
  function AdminUsername(answer: string): (u: string)
    ensures u != [] && Trimmed(u)
    ensures Strip(answer) != [] ==> u == Strip(answer)
  {
    StripTrimmed(answer);
    var s := Strip(answer);
    if s == [] then DefaultAdminUsername else s
  }

  /** The full name the script uses: the stripped answer, or 'System Administrator' when that is empty. */
  function AdminFullName(answer: string): (n: string)
    ensures n != [] && Trimmed(n)
    ensures Strip(answer) != [] ==> n == Strip(answer)
  {
    StripTrimmed(answer);
    var s := Strip(answer);
    if s == [] then DefaultAdminFullName else s
  }

  /** SET password_hash = ?, full_name = ?, role = 'admin', is_active = 1. */
  function Promote(h: string, fullName: string): UserRow -> UserRow {
    (u: UserRow) => u.(passwordHash := h, fullName := fullName, role := Admin, isActive := true)
  }

  /** The row the script leaves for the administrator. */
  function AdminRow(username: string, h: string, fullName: string): UserRow {
    UserRow(username, h, fullName, Admin, true)
  }

  /**
   * The UPDATE of the username's row followed, when it changed no row, by the
   * INSERT of a new one: the upsert on the username.
   */
  function SetupAdmin(users: Table<UserRow>, username: string, h: string, fullName: string): (u: Table<UserRow>)
    requires Tables.Valid(users)
    ensures Tables.Valid(u)
  {
    UpsertMatches(users, Named(username), Promote(h, fullName), AdminRow(username, h, fullName));
    Upsert(users, Named(username), Promote(h, fullName), AdminRow(username, h, fullName))
  }

  /**
   * Whether the account existed or not, exactly one row carries the username
   * afterwards and it is an active admin with the given hash and name; every
   * row of another username is kept; an existing account keeps its id and a
   * new one gets the next id; usernames stay unique, so the INSERT never
   * meets the UNIQUE constraint.
   */
  lemma SetupAdminEffect(users: Table<UserRow>, username: string, h: string, fullName: string)
    requires Tables.Valid(users) && UniqueUsernames(users)
    ensures UsernameTaken(users, username) <==> Ids(users, Named(username)) != {}
    ensures UniqueUsernames(SetupAdmin(users, username, h, fullName))
    ensures HoldsOnly(SetupAdmin(users, username, h, fullName), AdminRow(username, h, fullName))
    ensures UsernameTaken(users, username) ==> SetupAdmin(users, username, h, fullName).rows.Keys == users.rows.Keys
    ensures !UsernameTaken(users, username) ==>
      SetupAdmin(users, username, h, fullName).rows.Keys == users.rows.Keys + {NextId(users)}
    ensures forall k :: k in users.rows && users.rows[k].username != username ==>
      k in SetupAdmin(users, username, h, fullName).rows && SetupAdmin(users, username, h, fullName).rows[k] == users.rows[k]
  {
    var row := AdminRow(username, h, fullName);
    var u := SetupAdmin(users, username, h, fullName);
    UpsertMatches(users, Named(username), Promote(h, fullName), row);
    UpsertKeepsOthers(users, Named(username), Promote(h, fullName), row);
    if UsernameTaken(users, username) {
      var k :| k in users.rows && users.rows[k].username == username;
      assert k in Ids(users, Named(username));
      NamedSingleton(users, k);
      assert u.rows[k] == row;
      assert forall j :: j in u.rows ==> u.rows[j].username == users.rows[j].username;
    } else {
      assert Ids(users, Named(username)) == {};
      assert forall j :: j in users.rows ==> u.rows[j] == users.rows[j];
    }
  }

  /** What create_admin reports. */
  datatype SetupOutcome = EmptyPassword | UpdatedAdmin | CreatedAdmin

  /**
   * create_admin_user: an empty password (after stripping) aborts before the
   * database is touched; otherwise the administrator is created or promoted
   * under the defaulted username and full name, with the stripped password's
   * hash, and the outcome says which.
   */
  method CreateAdmin(db: SchoolDb, hash: string -> string, usernameAnswer: string,
                     passwordAnswer: string, fullNameAnswer: string) returns (outcome: SetupOutcome)
    requires db.Valid()
    modifies db`users
    ensures db.Valid()
    ensures outcome.EmptyPassword? <==> Strip(passwordAnswer) == []
    ensures outcome.EmptyPassword? ==> db.users == old(db.users)
    ensures outcome.UpdatedAdmin? <==>
      Strip(passwordAnswer) != [] && UsernameTaken(old(db.users), AdminUsername(usernameAnswer))
    ensures !outcome.EmptyPassword? ==> db.users == SetupAdmin(old(db.users), AdminUsername(usernameAnswer),
      HashPassword(hash, Strip(passwordAnswer)), AdminFullName(fullNameAnswer))
  {
    var username := AdminUsername(usernameAnswer);
    var password := Strip(passwordAnswer);
    if password == [] {
      outcome := EmptyPassword;
      return;
    }
    var fullName := AdminFullName(fullNameAnswer);
    var updated := WriteAdmin(db, username, HashPassword(hash, password), fullName);
    outcome := if updated then UpdatedAdmin else CreatedAdmin;
  }

  /**
   * The statements create_admin runs: UPDATE the username's row, and INSERT
   * a new admin row when the UPDATE's rowcount is 0. Reports whether the
   * UPDATE found the account.
   */
  method WriteAdmin(db: SchoolDb, username: string, h: string, fullName: string) returns (updated: bool)
    requires db.Valid()
    modifies db`users
    ensures db.Valid()
    ensures updated <==> UsernameTaken(old(db.users), username)
    ensures db.users == SetupAdmin(old(db.users), username, h, fullName)
  {
    SetupAdminEffect(db.users, username, h, fullName);
    ghost var expected := SetupAdmin(db.users, username, h, fullName);
    var rowcount := |Ids(db.users, Named(username))|;
    if rowcount == 0 {
      UpdateNoMatch(db.users, Named(username), Promote(h, fullName));
    }
    db.users := UpdateWhere(db.users, Named(username), Promote(h, fullName));
    if rowcount == 0 {
      db.users := Insert(db.users, AdminRow(username, h, fullName));
    }
    updated := rowcount != 0;
    assert db.users == expected;
  }

  // reset_passwords.py

  /** A founder account: username, fixed password, full name. */
  datatype Account = Account(username: string, password: string, fullName: string)

  /** The founders list, in the order the script processes it. */
  const FounderAccounts: seq<Account> := [
    Account("james", "rx9K2p", "James Pares"),
    Account("joe", "mL7Ht3", "Joe (Founder)"),
    Account("jake", "qN4Xv8", "Jake (Founder)")]

  /** The row the script writes for an account: its password's hash, role admin, is_active 1. */
  function AccountRow(hash: string -> string, a: Account): UserRow {
    UserRow(a.username, HashPassword(hash, a.password), a.fullName, Admin, true)
  }

  /**
   * INSERT OR REPLACE INTO users: the UNIQUE username conflict deletes the
   * existing row of that name, then the row is inserted under a fresh id.
   */
  function InsertOrReplace(users: Table<UserRow>, row: UserRow): (u: Table<UserRow>)
    requires Tables.Valid(users)
    ensures Tables.Valid(u)
  {
    Insert(DeleteWhere(users, Named(row.username)), row)
  }

  /** An INSERT OR REPLACE keeps usernames unique: the one row it could clash with is gone. */
  lemma InsertOrReplaceUnique(users: Table<UserRow>, row: UserRow)
    requires Tables.Valid(users) && UniqueUsernames(users)
    ensures UniqueUsernames(InsertOrReplace(users, row))
  {
    var d := DeleteWhere(users, Named(row.username));
    var u := Insert(d, row);
    forall a, b | a in u.rows && b in u.rows && a != b ensures u.rows[a].username != u.rows[b].username {
      if a == NextId(d) {
        assert b in d.rows;
      } else if b == NextId(d) {
        assert a in d.rows;
      }
    }
  }

  /** After an INSERT OR REPLACE the row is the only one with its username. */
  lemma InsertOrReplaceHolds(users: Table<UserRow>, row: UserRow)
    requires Tables.Valid(users) && UniqueUsernames(users)
    ensures HoldsOnly(InsertOrReplace(users, row), row)
  {
    InsertOrReplaceUnique(users, row);
    NamedSingleton(InsertOrReplace(users, row), NextId(DeleteWhere(users, Named(row.username))));
  }

  /**
   * An INSERT OR REPLACE keeps every row of another username where and as it
   * was, and every row it holds is an old row or the new one under the next id.
   */
  lemma InsertOrReplaceKeeps(users: Table<UserRow>, row: UserRow)
    requires Tables.Valid(users)
    ensures InsertOrReplace(users, row).rows.Keys <= users.rows.Keys + {NextId(users)}
    ensures forall k :: k in users.rows && users.rows[k].username != row.username ==>
      k in InsertOrReplace(users, row).rows && InsertOrReplace(users, row).rows[k] == users.rows[k]
    ensures forall k :: k in InsertOrReplace(users, row).rows ==>
      (k in users.rows && InsertOrReplace(users, row).rows[k] == users.rows[k]) || InsertOrReplace(users, row).rows[k] == row
  {
  }

  /** The INSERT OR REPLACE statements of the loop, one row after another. */
  function ReplaceAll(users: Table<UserRow>, rows: seq<UserRow>): (u: Table<UserRow>)
    requires Tables.Valid(users)
    ensures Tables.Valid(u)
    decreases |rows|
  {
    if rows == [] then users else ReplaceAll(InsertOrReplace(users, rows[0]), rows[1..])
  }

  /** The usernames of a list of rows. */
  function UsernamesOf(rows: seq<UserRow>): (names: seq<string>)
    ensures |names| == |rows| && forall i :: 0 <= i < |rows| ==> names[i] == rows[i].username
  {
    if rows == [] then [] else [rows[0].username] + UsernamesOf(rows[1..])
  }

  /** No two rows of the list share a username. */
  predicate DistinctUsernames(rows: seq<UserRow>) {
    forall i, j :: 0 <= i < j < |rows| ==> rows[i].username != rows[j].username
  }

  /** A run of INSERT OR REPLACE statements keeps usernames unique. */
  lemma {:induction false} ReplaceAllUnique(users: Table<UserRow>, rows: seq<UserRow>)
    requires Tables.Valid(users) && UniqueUsernames(users)
    ensures UniqueUsernames(ReplaceAll(users, rows))
    decreases |rows|
  {
    if rows != [] {
      InsertOrReplaceUnique(users, rows[0]);
      ReplaceAllUnique(InsertOrReplace(users, rows[0]), rows[1..]);
    }
  }

  /** A run of INSERT OR REPLACE statements keeps every row whose username it does not write. */
  lemma {:induction false} ReplaceAllKeeps(users: Table<UserRow>, rows: seq<UserRow>)
    requires Tables.Valid(users)
    ensures forall k :: k in users.rows && users.rows[k].username !in UsernamesOf(rows) ==>
      k in ReplaceAll(users, rows).rows && ReplaceAll(users, rows).rows[k] == users.rows[k]
    decreases |rows|
  {
    if rows != [] {
      var v := InsertOrReplace(users, rows[0]);
      InsertOrReplaceKeeps(users, rows[0]);
      ReplaceAllKeeps(v, rows[1..]);
      assert UsernamesOf(rows) == [rows[0].username] + UsernamesOf(rows[1..]);
    }
  }

  /** Every row after a run of INSERT OR REPLACE statements is an old one kept as it was, or has a username the run wrote. */
  lemma {:induction false} ReplaceAllAddsOnly(users: Table<UserRow>, rows: seq<UserRow>)
    requires Tables.Valid(users)
    ensures forall k :: k in ReplaceAll(users, rows).rows ==>
      (k in users.rows && ReplaceAll(users, rows).rows[k] == users.rows[k]) ||
      ReplaceAll(users, rows).rows[k].username in UsernamesOf(rows)
    decreases |rows|
  {
    if rows != [] {
      var v := InsertOrReplace(users, rows[0]);
      var u := ReplaceAll(v, rows[1..]);
      InsertOrReplaceKeeps(users, rows[0]);
      ReplaceAllAddsOnly(v, rows[1..]);
      assert UsernamesOf(rows) == [rows[0].username] + UsernamesOf(rows[1..]);
      forall k | k in u.rows
        ensures (k in users.rows && u.rows[k] == users.rows[k]) || u.rows[k].username in UsernamesOf(rows)
      {
        if u.rows[k].username !in UsernamesOf(rows[1..]) {
          assert k in v.rows && u.rows[k] == v.rows[k];
        }
      }
    }
  }

  /**
   * After a run of INSERT OR REPLACE statements whose usernames are distinct,
   * each written row is the only row of its username.
   */
  lemma {:induction false} ReplaceAllHolds(users: Table<UserRow>, rows: seq<UserRow>)
    requires Tables.Valid(users) && UniqueUsernames(users) && DistinctUsernames(rows)
    ensures forall i :: 0 <= i < |rows| ==> HoldsOnly(ReplaceAll(users, rows), rows[i])
    decreases |rows|
  {
    if rows != [] {
      var v := InsertOrReplace(users, rows[0]);
      var rest := rows[1..];
      var u := ReplaceAll(v, rest);
      InsertOrReplaceUnique(users, rows[0]);
      InsertOrReplaceHolds(users, rows[0]);
      ReplaceAllHolds(v, rest);
      ReplaceAllKeeps(v, rest);
      ReplaceAllUnique(v, rest);
      assert HoldsOnly(u, rows[0]) by {
        var k :| k in v.rows && v.rows[k] == rows[0] && Ids(v, Named(rows[0].username)) == {k};
        assert rows[0].username !in UsernamesOf(rest) by {
          forall i | 0 <= i < |rest| ensures UsernamesOf(rest)[i] != rows[0].username {
            assert rest[i] == rows[i + 1];
          }
        }
        assert k in u.rows && u.rows[k] == rows[0];
        NamedSingleton(u, k);
      }
      forall i | 0 <= i < |rows| ensures HoldsOnly(u, rows[i]) {
        if i > 0 {
          assert rows[i] == rest[i - 1];
        }
      }
    }
  }

  /** The founders' usernames are distinct and are exactly the founders list of the application. */
  lemma FounderAccountsNamed(hash: string -> string)
    ensures DistinctUsernames(FounderRows(hash))
    ensures UsernamesOf(FounderRows(hash)) == Founders
  {
    var rows := FounderRows(hash);
    assert rows[0].username == "james" && rows[1].username == "joe" && rows[2].username == "jake";
  }

  /** The rows the loop writes, one per account, in order. */
  function AccountRows(hash: string -> string, accounts: seq<Account>): (rows: seq<UserRow>)
    ensures |rows| == |accounts|
    ensures forall i :: 0 <= i < |rows| ==> rows[i] == AccountRow(hash, accounts[i])
  {
    seq(|accounts|, i requires 0 <= i < |accounts| => AccountRow(hash, accounts[i]))
  }

  /** The rows of the three founders. */
  function FounderRows(hash: string -> string): seq<UserRow> {
    AccountRows(hash, FounderAccounts)
  }

  /**
   * reset_founder_passwords: with no database file nothing happens; otherwise
   * each founder in turn is written with INSERT OR REPLACE.
   */
  method ResetFounderPasswords(db: SchoolDb, hash: string -> string, dbExists: bool)
    requires db.Valid()
    modifies db`users
    ensures db.Valid()
    ensures !dbExists ==> db.users == old(db.users)
    ensures dbExists ==> db.users == ReplaceAll(old(db.users), FounderRows(hash))
  {
    if dbExists {
      WriteAccounts(db, hash, FounderAccounts);
    }
  }

  /** The script's loop: one INSERT OR REPLACE per account, in list order. */
  method WriteAccounts(db: SchoolDb, hash: string -> string, accounts: seq<Account>)
    requires db.Valid()
    modifies db`users
    ensures db.Valid()
    ensures db.users == ReplaceAll(old(db.users), AccountRows(hash, accounts))
  {
    ghost var rows := AccountRows(hash, accounts);
    var i := 0;
    while i < |accounts|
      invariant 0 <= i <= |accounts|
      invariant db.Valid()
      invariant ReplaceAll(db.users, rows[i..]) == ReplaceAll(old(db.users), rows)
    {
      var row := AccountRow(hash, accounts[i]);
      InsertOrReplaceUnique(db.users, row);
      assert rows[i..][0] == row && rows[i..][1..] == rows[i + 1..];
      db.users := InsertOrReplace(db.users, row);
      i := i + 1;
    }
  }

  /**
   * After the reset each founder has exactly one row, an active admin holding
   * the hash of the founder's fixed password; every row of a non-founder is
   * kept as it was; and nothing else is added.
   */
  lemma ResetEffect(hash: string -> string, users: Table<UserRow>)
    requires Tables.Valid(users) && UniqueUsernames(users)
    ensures UniqueUsernames(ReplaceAll(users, FounderRows(hash)))
    ensures forall a :: a in FounderAccounts ==> HoldsOnly(ReplaceAll(users, FounderRows(hash)), AccountRow(hash, a))
    ensures forall k :: k in users.rows && users.rows[k].username !in Founders ==>
      k in ReplaceAll(users, FounderRows(hash)).rows && ReplaceAll(users, FounderRows(hash)).rows[k] == users.rows[k]
    ensures forall k :: k in ReplaceAll(users, FounderRows(hash)).rows ==>
      (k in users.rows && ReplaceAll(users, FounderRows(hash)).rows[k] == users.rows[k]) ||
      ReplaceAll(users, FounderRows(hash)).rows[k].username in Founders
  {
    FounderAccountsNamed(hash);
    ReplaceAllUnique(users, FounderRows(hash));
    ReplaceAllHolds(users, FounderRows(hash));
    ReplaceAllKeeps(users, FounderRows(hash));
    ReplaceAllAddsOnly(users, FounderRows(hash));
    forall a | a in FounderAccounts ensures HoldsOnly(ReplaceAll(users, FounderRows(hash)), AccountRow(hash, a)) {
      var i :| 0 <= i < |FounderAccounts| && FounderAccounts[i] == a;
      assert FounderRows(hash)[i] == AccountRow(hash, a);
    }
  }

  /** After the reset every founder can log in with the fixed password, as an administrator. */
  lemma FoundersLogIn(hash: string -> string, users: Table<UserRow>, i: nat, found: seq<nat>)
    requires Tables.Valid(users) && UniqueUsernames(users) && i < |FounderAccounts|
    requires UniqueUsernames(ReplaceAll(users, FounderRows(hash)))
    requires Lists(ReplaceAll(users, FounderRows(hash)), ActiveNamed(FounderAccounts[i].username), found)
    ensures IsAdmin(LoginUser(hash, ReplaceAll(users, FounderRows(hash)), found,
                              FounderAccounts[i].username, FounderAccounts[i].password, false))
    ensures IsFounder(LoginUser(hash, ReplaceAll(users, FounderRows(hash)), found,
                                FounderAccounts[i].username, FounderAccounts[i].password, false))
  {
    var rows := FounderRows(hash);
    var u := ReplaceAll(users, rows);
    FounderAccountsNamed(hash);
    ReplaceAllHolds(users, rows);
    var a := FounderAccounts[i];
    assert rows[i] == AccountRow(hash, a);
    assert UsernamesOf(rows)[i] == a.username;
    assert HoldsOnly(u, rows[i]);
    StoredAdminLogsIn(hash, u, found, a.username, a.password, a.fullName);
  }

  // cleanup_users.py

  /** WHERE username NOT IN ('james', 'joe', 'jake'). */
  function NotFounder(): UserRow -> bool {
    (u: UserRow) => u.username !in Founders
  }

  /**
   * cleanup_users: with no database file nothing happens and no count is
   * reported; otherwise every non-founder row is deleted and the reported
   * count is the number of rows the DELETE removed.
   */
  method CleanupUsers(db: SchoolDb, dbExists: bool) returns (deletedCount: Option<nat>)
    requires db.Valid()
    modifies db`users
    ensures db.Valid()
    ensures deletedCount.None? <==> !dbExists
    ensures !dbExists ==> db.users == old(db.users)
    ensures dbExists ==> db.users == DeleteWhere(old(db.users), NotFounder())
    ensures dbExists ==> deletedCount == Some(|Ids(old(db.users), NotFounder())|)
  {
    if !dbExists {
      return None;
    }
    deletedCount := Some(|Ids(db.users, NotFounder())|);
    db.users := DeleteWhere(db.users, NotFounder());
  }

  /** After the cleanup only founders remain, and each founder row is kept with its id. */
  lemma CleanupKeepsFounders(users: Table<UserRow>)
    ensures forall k :: k in DeleteWhere(users, NotFounder()).rows ==>
      DeleteWhere(users, NotFounder()).rows[k].username in Founders
    ensures forall k :: k in users.rows && users.rows[k].username in Founders ==>
      k in DeleteWhere(users, NotFounder()).rows && DeleteWhere(users, NotFounder()).rows[k] == users.rows[k]
  {
  }

  /** The reported count is the number of rows that left the table. */
  lemma CleanupCount(users: Table<UserRow>)
    ensures |Ids(users, NotFounder())| == |users.rows.Keys| - |DeleteWhere(users, NotFounder()).rows.Keys|
  {
    assert Ids(users, NotFounder()) <= users.rows.Keys;
  }

  /** A second run finds no non-founder, deletes nothing and changes nothing. */
  lemma CleanupIdempotent(users: Table<UserRow>)
    ensures |Ids(DeleteWhere(users, NotFounder()), NotFounder())| == 0
    ensures DeleteWhere(DeleteWhere(users, NotFounder()), NotFounder()) == DeleteWhere(users, NotFounder())
  {
    var u := DeleteWhere(users, NotFounder());
    assert Ids(u, NotFounder()) == {};
    assert DeleteWhere(u, NotFounder()).rows == u.rows;
  }

  /**
   * After the cleanup there is no row named 'admin' (it is not a founder), so
   * the admin panel's lookup of the stored admin hash finds nothing: the
   * as-written read cannot be made, while the corrected password change
   * reports NoAdminRow.
   */
  lemma CleanupRemovesAdmin(users: Table<UserRow>, found: seq<nat>)
    requires Lists(DeleteWhere(users, NotFounder()), Named("admin"), found)
    ensures found == []
    ensures !UsernameTaken(DeleteWhere(users, NotFounder()), "admin")
  {
    var u := DeleteWhere(users, NotFounder());
    assert Ids(u, Named("admin")) == {};
    ListsCount(u, Named("admin"), found);
  }
}
