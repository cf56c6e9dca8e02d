/**
 * The admin panel (pages/admin_panel.py): adding a teacher, deactivating a
 * user, the active-teacher count, changing the admin password, and the
 * confirmed reset of every table except the accounts.
 */
module Admin {
  import opened Wrappers
  import opened Tables
  import opened Schema
  import opened Auth

  /** What "Add Teacher" reports. */
  datatype AddOutcome = AddDenied | FieldsMissing | TeacherAdded(id: nat) | TeacherNotAdded

  /**
   * "Add Teacher": the panel stops for anyone but james; create_user runs
   * only when username, password and full name are all filled in.
   */
  method AddTeacher(db: SchoolDb, user: Option<UserInfo>, hash: string -> string, username: string,
                    password: string, fullName: string, role: Role) returns (outcome: AddOutcome)
    requires db.Valid()
    modifies db`users
    ensures db.Valid()
    ensures outcome.AddDenied? <==> !IsJames(user)
    ensures outcome.FieldsMissing? <==> IsJames(user) && (username == [] || password == [] || fullName == [])
    ensures outcome.TeacherNotAdded? <==>
      IsJames(user) && username != [] && password != [] && fullName != [] && UsernameTaken(old(db.users), username)
    ensures !outcome.TeacherAdded? ==> db.users == old(db.users)
    ensures outcome.TeacherAdded? ==> outcome.id == NextId(old(db.users))
    ensures outcome.TeacherAdded? ==>
      db.users == Insert(old(db.users), UserRow(username, HashPassword(hash, password), fullName, role, true))
  {
    if !IsJames(user) {
      outcome := AddDenied;
    } else if username != [] && password != [] && fullName != [] {
      var id := CreateUser(db, hash, username, password, fullName, role);
      outcome := if id.Some? then TeacherAdded(id.value) else TeacherNotAdded;
    } else {
      outcome := FieldsMissing;
    }
  }

  /** The "Deactivate User" choices: active users other than 'admin'. */
  predicate Deactivatable(u: UserRow) {
    u.isActive && u.username != "admin"
  }

  /** SET is_active = 0. */
  function Deactivated(u: UserRow): UserRow {
    u.(isActive := false)
  }

  /** "Deactivate User": for james only, UPDATE users SET is_active = 0 WHERE id = ?. */
  method Deactivate(db: SchoolDb, user: Option<UserInfo>, id: nat) returns (done: bool)
    requires db.Valid()
    modifies db`users
    ensures db.Valid()
    ensures done <==> IsJames(user)
    ensures !done ==> db.users == old(db.users)
    ensures done ==> db.users == UpdateId(old(db.users), id, Deactivated)
  {
    done := IsJames(user);
    if done {
      DeactivateKeepsUsernames(db.users, id);
      db.users := UpdateId(db.users, id, Deactivated);
    }
  }

  /** Deactivation touches no username, so usernames stay unique. */
  lemma DeactivateKeepsUsernames(users: Table<UserRow>, id: nat)
    requires UniqueUsernames(users)
    ensures UniqueUsernames(UpdateId(users, id, Deactivated))
  {
    var u := UpdateId(users, id, Deactivated);
    assert forall k :: k in u.rows ==> u.rows[k].username == users.rows[k].username;
  }

  /**
   * After deactivation the user drops out of the choices and can no longer
   * log in under any name; every other row is as it was.
   */
  lemma DeactivateEffect(users: Table<UserRow>, id: nat)
    requires id in users.rows
    ensures Ids(UpdateId(users, id, Deactivated), Deactivatable) == Ids(users, Deactivatable) - {id}
    ensures forall name :: !ActiveNamed(name)(UpdateId(users, id, Deactivated).rows[id])
    ensures forall k :: k in users.rows && k != id ==> UpdateId(users, id, Deactivated).rows[k] == users.rows[k]
  {
  }

  /** The "Teachers" metric's WHERE clause: role teacher and active. */
  predicate ActiveTeacher(u: UserRow) {
    u.role == Teacher && u.isActive
  }

  /** SELECT COUNT(*) FROM users WHERE role = 'teacher' AND is_active = 1. */
  function TeacherCount(users: Table<UserRow>): nat {
    |Ids(users, ActiveTeacher)|
  }

  /** Deactivating an active teacher lowers the teacher count by one; deactivating anyone else leaves it. */
  lemma DeactivateTeacherCount(users: Table<UserRow>, id: nat)
    requires id in users.rows
    ensures TeacherCount(UpdateId(users, id, Deactivated)) ==
      TeacherCount(users) - (if ActiveTeacher(users.rows[id]) then 1 else 0)
  {
    var u := UpdateId(users, id, Deactivated);
    assert Ids(u, ActiveTeacher) == Ids(users, ActiveTeacher) - {id};
  }

  /** WHERE username = ?. */
  function Named(username: string): UserRow -> bool {
    (u: UserRow) => u.username == username
  }

  /** SET password_hash = ?. */
  function WithHash(h: string): UserRow -> UserRow {
    (u: UserRow) => u.(passwordHash := h)
  }

  /** Usernames are unique, so a lookup by username returns at most the one row with that name. */
  lemma NamedAtMostOne(users: Table<UserRow>, found: seq<nat>, username: string)
    requires UniqueUsernames(users) && Lists(users, Named(username), found)
    ensures |found| <= 1
    ensures forall k :: k in users.rows && users.rows[k].username == username ==> found == [k]
  {
    forall i | 0 <= i < |found| ensures found[i] == found[0] {
      assert users.rows[found[i]].username == users.rows[found[0]].username;
    }
    if |found| > 0 {
      DistinctCard(found);
      assert AsSet(found) == {found[0]};
    }
  }

  /** The branches of "Change Password". */
  datatype PasswordOutcome = PasswordDenied | EmptyField | NoAdminRow | WrongCurrent | NoMatch | Changed

  /** There is a row named 'admin' whose stored hash is the hash of `password`. */
  predicate AdminAccepts(hash: string -> string, users: Table<UserRow>, password: string) {
    exists k :: k in users.rows && users.rows[k].username == "admin" &&
      VerifyPassword(hash, password, users.rows[k].passwordHash)
  }

  /**
   * "Change Password": the panel stops for anyone but james; every field must be filled in; the current password
   * must hash to the stored admin hash; the new password and its confirmation
   * must agree; only then does the admin row get the new hash. Every refusal
   * leaves the table as it was. `found` is what the lookup of the 'admin' row
   * returned; with no such row the outcome is NoAdminRow.
   */
  method ChangeAdminPassword(db: SchoolDb, user: Option<UserInfo>, hash: string -> string, found: seq<nat>,
                             current: string, newPassword: string, confirm: string)
    returns (outcome: PasswordOutcome)
    requires db.Valid() && Lists(db.users, Named("admin"), found)
    modifies db`users
    ensures db.Valid()
    ensures outcome.PasswordDenied? <==> !IsJames(user)
    ensures outcome.EmptyField? <==> IsJames(user) && (current == [] || newPassword == [] || confirm == [])
    ensures outcome.NoAdminRow? <==>
      IsJames(user) && current != [] && newPassword != [] && confirm != [] && !UsernameTaken(old(db.users), "admin")
    ensures outcome.Changed? <==>
      IsJames(user) && current != [] && newPassword != [] && confirm != [] &&
      AdminAccepts(hash, old(db.users), current) && newPassword == confirm
    ensures !outcome.Changed? ==> db.users == old(db.users)
    ensures outcome.Changed? ==>
      db.users == UpdateWhere(old(db.users), Named("admin"), WithHash(HashPassword(hash, newPassword)))
    ensures outcome.Changed? ==> AdminAccepts(hash, db.users, newPassword)
  {
    if !IsJames(user) {
      outcome := PasswordDenied;
    } else if current != [] && newPassword != [] && confirm != [] {
      NamedAtMostOne(db.users, found, "admin");
      if found == [] {
        outcome := NoAdminRow;
      } else if VerifyPassword(hash, current, db.users.rows[found[0]].passwordHash) {
        if newPassword == confirm {
          var k := found[0];
          ChangeKeepsUsernames(db.users, "admin", HashPassword(hash, newPassword));
          db.users := UpdateWhere(db.users, Named("admin"), WithHash(HashPassword(hash, newPassword)));
          assert db.users.rows[k].passwordHash == HashPassword(hash, newPassword);
          outcome := Changed;
        } else {
          outcome := NoMatch;
        }
      } else {
        outcome := WrongCurrent;
      }
    } else {
      outcome := EmptyField;
    }
  }

  /**
   * The stored admin hash as the page reads it: the first column of the first
   * row the lookup returned. The page indexes without checking, so the read is
   * defined only when the lookup found a row; with none it raises IndexError.
   */
  function StoredAdminHash(users: Table<UserRow>, found: seq<nat>): (h: string)
    requires Lists(users, Named("admin"), found) && |found| > 0
    ensures exists k :: k in users.rows && users.rows[k].username == "admin" && users.rows[k].passwordHash == h
  {
    users.rows[found[0]].passwordHash
  }

  /** Setting a hash touches no username, so usernames stay unique. */
  lemma ChangeKeepsUsernames(users: Table<UserRow>, username: string, h: string)
    requires UniqueUsernames(users)
    ensures UniqueUsernames(UpdateWhere(users, Named(username), WithHash(h)))
  {
    var u := UpdateWhere(users, Named(username), WithHash(h));
    assert forall k :: k in u.rows ==> u.rows[k].username == users.rows[k].username;
  }

  /** tables_to_clear, in the order the reset deletes them; users and todos are not among them. */
  const TablesToClear: seq<SchoolTable> := [
    HomeworkTable, CommentsTable, DictationTasksTable, DictationScoresTable, SpellingTestsTable,
    GrammarErrorsTable, EssayMarksTable, StudentsTable, ClassesTable]

  /** The text the reset asks for. */
  const ResetConfirmation: string := "DELETE ALL DATA"

  /** DELETE FROM t: that table loses its rows and keeps its AUTOINCREMENT counter; no other table changes. */
  method ClearTable(db: SchoolDb, t: SchoolTable)
    requires db.Valid()
    modifies db`users, db`classes, db`students, db`homework, db`comments, db`dictationTasks,
      db`dictationScores, db`spellingTests, db`grammarErrors, db`todos, db`essayMarks
    ensures db.Valid()
    ensures db.Snapshot() == old(db.Snapshot()).Delete(t)
  {
    match t
    case UsersTable => db.users := Clear(db.users);
    case ClassesTable => db.classes := Clear(db.classes);
    case StudentsTable => db.students := Clear(db.students);
    case HomeworkTable => db.homework := Clear(db.homework);
    case CommentsTable => db.comments := Clear(db.comments);
    case DictationTasksTable => db.dictationTasks := Clear(db.dictationTasks);
    case DictationScoresTable => db.dictationScores := Clear(db.dictationScores);
    case SpellingTestsTable => db.spellingTests := Clear(db.spellingTests);
    case GrammarErrorsTable => db.grammarErrors := Clear(db.grammarErrors);
    case TodosTable => db.todos := Clear(db.todos);
    case EssayMarksTable => db.essayMarks := Clear(db.essayMarks);
  }

  /** The DELETE statements of a list of tables, one after another. */
  function DeleteAll(c: Contents, ts: seq<SchoolTable>): Contents
    decreases |ts|
  {
    if ts == [] then c else DeleteAll(c, ts[..|ts| - 1]).Delete(ts[|ts| - 1])
  }

  /**
   * After deleting from a list of tables each of them is empty, every counter
   * is kept, and every table not in the list holds what it held.
   */
  lemma {:induction false} DeleteAllEffect(c: Contents, ts: seq<SchoolTable>)
    ensures forall t :: t in ts ==> DeleteAll(c, ts).Empty(t)
    ensures forall t :: DeleteAll(c, ts).LastId(t) == c.LastId(t)
    ensures forall t :: t !in ts ==> DeleteAll(c, ts).Same(c, t)
    decreases |ts|
  {
    if ts != [] {
      var init := ts[..|ts| - 1];
      var last := ts[|ts| - 1];
      var d := DeleteAll(c, init);
      DeleteAllEffect(c, init);
      DeleteEffect(d, last);
      assert ts == init + [last];
      forall t | t !in ts ensures d.Delete(last).Same(c, t) {
        SameTrans(d.Delete(last), d, c, t);
      }
    }
  }

  /** Agreeing on a table is transitive. */
  lemma SameTrans(a: Contents, b: Contents, c: Contents, t: SchoolTable)
    requires a.Same(b, t) && b.Same(c, t)
    ensures a.Same(c, t)
  {
  }

  /**
   * "Reset All Data": for james only, after the exact confirmation text and
   * the button, the listed tables are deleted from in order; otherwise
   * nothing changes.
   */
  method ResetData(db: SchoolDb, user: Option<UserInfo>, confirmation: string, pressed: bool) returns (reset: bool)
    requires db.Valid()
    modifies db`users, db`classes, db`students, db`homework, db`comments, db`dictationTasks,
      db`dictationScores, db`spellingTests, db`grammarErrors, db`todos, db`essayMarks
    ensures db.Valid()
    ensures reset <==> IsJames(user) && confirmation == ResetConfirmation && pressed
    ensures reset ==> db.Snapshot() == DeleteAll(old(db.Snapshot()), TablesToClear)
    ensures !reset ==> db.Snapshot() == old(db.Snapshot())
  {
    reset := IsJames(user) && confirmation == ResetConfirmation && pressed;
    if reset {
      for i := 0 to |TablesToClear|
        invariant db.Valid()
        invariant db.Snapshot() == DeleteAll(old(db.Snapshot()), TablesToClear[..i])
      {
        assert TablesToClear[..i + 1][..i] == TablesToClear[..i];
        ClearTable(db, TablesToClear[i]);
      }
      assert TablesToClear[..|TablesToClear|] == TablesToClear;
    }
  }

  /**
   * What the reset leaves: all nine listed tables empty, every AUTOINCREMENT
   * counter kept (so no id is reused), and the users and todos tables as
   * they were.
   */
  lemma ResetEffect(c: Contents)
    ensures forall t :: t in TablesToClear ==> DeleteAll(c, TablesToClear).Empty(t)
    ensures forall t :: DeleteAll(c, TablesToClear).LastId(t) == c.LastId(t)
    ensures DeleteAll(c, TablesToClear).users == c.users && DeleteAll(c, TablesToClear).todos == c.todos
  {
    DeleteAllEffect(c, TablesToClear);
    assert DeleteAll(c, TablesToClear).Same(c, UsersTable) && DeleteAll(c, TablesToClear).Same(c, TodosTable);
  }
}
