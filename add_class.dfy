/**
 * Class management (pages/add_class.py): creating a class for the current
 * teacher, parsing the pasted list of student names, and inserting them one
 * by one, each insert on its own so that one failure does not stop the rest.
 */
module AddClass {
  import opened Text
  import opened Tables
  import opened Schema

  /** What the "Create Class" form reports. */
  datatype CreateOutcome = NotSubmitted | Created | CreateFailed

  /** A class with this name already exists (class names are unique across all teachers). */
  predicate NameTaken(t: Table<ClassRow>, name: string) {
    exists k :: k in t.rows && t.rows[k].name == name
  }

  /**
   * The "Create Class" handler: a non-empty name is inserted for the teacher;
   * the UNIQUE name makes a taken name fail, which is reported and changes nothing.
   */
  method CreateClass(db: SchoolDb, className: string, teacherId: nat) returns (outcome: CreateOutcome)
    requires db.Valid()
    modifies db`classes
    ensures db.Valid()
    ensures className == [] <==> outcome == NotSubmitted
    ensures outcome == CreateFailed <==> className != [] && NameTaken(old(db.classes), className)
    ensures outcome != Created ==> db.classes == old(db.classes)
    ensures outcome == Created ==> db.classes == Insert(old(db.classes), ClassRow(className, teacherId))
  {
    if className != [] {
      var inserted := InsertClass(db.classes, ClassRow(className, teacherId));
      if inserted.Some? {
        db.classes := inserted.value;
        outcome := Created;
      } else {
        outcome := CreateFailed;
      }
    } else {
      outcome := NotSubmitted;
    }
  }

  /** [name.strip() for name in lines if name.strip()]. */
  function CleanNames(lines: seq<string>): (names: seq<string>)
    ensures |names| <= |lines|
    ensures forall i :: 0 <= i < |names| ==> names[i] != [] && Trimmed(names[i])
  {
    if lines == [] then []
    else
      var name, rest := Strip(lines[0]), CleanNames(lines[1..]);
      StripTrimmed(lines[0]);
      if name != [] then [name] + rest else rest
  }

  /** The names of the text area: its lines, stripped, blank ones dropped. */
  function ParseNames(text: string): seq<string> {
    CleanNames(Split(text, "\n"))
  }

  /** Names that are already clean are kept, all of them, in order. */
  lemma {:induction false} CleanNamesKeeps(names: seq<string>)
    requires forall i :: 0 <= i < |names| ==> names[i] != [] && Trimmed(names[i])
    ensures CleanNames(names) == names
  {
    if names != [] {
      StripTrimmed(names[0]);
      CleanNamesKeeps(names[1..]);
    }
  }

  /**
   * Typing names one per line gives back exactly those names, in order, as
   * long as each is non-empty, has no surrounding whitespace and no line break.
   */
  lemma ParseTypedNames(names: seq<string>)
    requires names != []
    requires forall i :: 0 <= i < |names| ==> names[i] != [] && Trimmed(names[i]) && !Contains(names[i], "\n")
    ensures ParseNames(Join(names, "\n")) == names
  {
    SplitJoin(names, "\n");
    CleanNamesKeeps(names);
  }

  /** Blank lines, and lines of whitespace only, add no name. */
  lemma BlankLinesDropped(line: string, rest: seq<string>)
    requires forall i :: 0 <= i < |line| ==> IsSpace(line[i])
    ensures CleanNames([line] + rest) == CleanNames(rest)
  {
    StripEmpty(line);
    assert ([line] + rest)[1..] == rest;
  }

  /** The number of inserts among the first `n` that succeed; `fails(i)` says whether insert i raises. */
  function Successes(fails: nat -> bool, n: nat): (c: nat)
    ensures c <= n
  {
    if n == 0 then 0 else Successes(fails, n - 1) + (if fails(n - 1) then 0 else 1)
  }

  /** The names whose insert raised, in the order tried: the names the form reports with an error. */
  function Failed(names: seq<string>, fails: nat -> bool): (f: seq<string>)
    ensures |f| + Successes(fails, |names|) == |names|
    ensures forall i :: 0 <= i < |names| && fails(i) ==> names[i] in f
    ensures forall x :: x in f ==> exists i :: 0 <= i < |names| && fails(i) && names[i] == x
    decreases |names|
  {
    if names == [] then []
    else
      var prev := Failed(names[..|names| - 1], fails);
      assert forall i :: 0 <= i < |names| - 1 ==> names[..|names| - 1][i] == names[i];
      if fails(|names| - 1) then prev + [names[|names| - 1]] else prev
  }

  /** The students table after the loop has tried the names in order. */
  function ImportAll(t: Table<StudentRow>, names: seq<string>, className: string, teacherId: nat,
                     fails: nat -> bool): (u: Table<StudentRow>)
    requires Valid(t)
    ensures Valid(u)
    decreases |names|
  {
    if names == [] then t
    else
      var prev := ImportAll(t, names[..|names| - 1], className, teacherId, fails);
      if fails(|names| - 1) then prev else Insert(prev, StudentRow(names[|names| - 1], className, teacherId))
  }

  /**
   * Earlier rows stay as they were; the successful names are added in order
   * under consecutive fresh ids, so that exactly added_count rows are new and
   * a failure skips only its own name.
   */
  lemma {:induction false} ImportAllEffect(t: Table<StudentRow>, names: seq<string>, className: string,
                                           teacherId: nat, fails: nat -> bool)
    requires Valid(t)
    ensures var u := ImportAll(t, names, className, teacherId, fails);
      && u.lastId == t.lastId + Successes(fails, |names|)
      && (forall k :: k in t.rows ==> k in u.rows && u.rows[k] == t.rows[k])
      && (forall k :: k in u.rows ==> k in t.rows || t.lastId < k)
      && (forall k :: t.lastId < k <= u.lastId ==> k in u.rows)
    decreases |names|
  {
    if names != [] {
      ImportAllEffect(t, names[..|names| - 1], className, teacherId, fails);
    }
  }

  /** The i-th name, when its insert succeeds, is the row with id lastId + (successes before it) + 1. */
  lemma {:induction false} ImportedAt(t: Table<StudentRow>, names: seq<string>, className: string,
                                      teacherId: nat, fails: nat -> bool, i: nat)
    requires Valid(t) && i < |names| && !fails(i)
    ensures t.lastId + Successes(fails, i) + 1 in ImportAll(t, names, className, teacherId, fails).rows
    ensures ImportAll(t, names, className, teacherId, fails).rows[t.lastId + Successes(fails, i) + 1] ==
      StudentRow(names[i], className, teacherId)
    decreases |names|
  {
    var n := |names| - 1;
    var init := names[..n];
    ImportAllEffect(t, init, className, teacherId, fails);
    if i < n {
      ImportedAt(t, init, className, teacherId, fails, i);
      assert init[i] == names[i];
    }
  }

  /** What the "Add Students" form reports. */
  datatype ImportOutcome = Skipped | Imported(addedCount: nat, failed: seq<string>)

  /** The success message is shown only when something was added. */
  predicate ShowsSuccess(o: ImportOutcome) {
    o.Imported? && o.addedCount > 0
  }

  /**
   * The "Add Students" handler. Nothing happens unless both the text and the
   * class are given; then each parsed name is inserted on its own, a failing
   * insert (`fails(i)`) is reported and the loop moves on, and added_count
   * counts the inserts that succeeded.
   */
  method ImportStudents(db: SchoolDb, text: string, className: string, teacherId: nat, fails: nat -> bool)
    returns (outcome: ImportOutcome)
    requires db.Valid()
    modifies db`students
    ensures db.Valid()
    ensures text == [] || className == [] ==> outcome == Skipped && db.students == old(db.students)
    ensures text != [] && className != [] ==>
      && outcome.Imported? && outcome.addedCount == Successes(fails, |ParseNames(text)|)
      && outcome.addedCount <= |ParseNames(text)|
      && outcome.addedCount + |outcome.failed| == |ParseNames(text)|
      && outcome.failed == Failed(ParseNames(text), fails)
      && db.students == ImportAll(old(db.students), ParseNames(text), className, teacherId, fails)
  {
    if text == [] || className == [] {
      return Skipped;
    }
    var names := ParseNames(text);
    var addedCount, failed := InsertNames(db, names, className, teacherId, fails);
    outcome := Imported(addedCount, failed);
  }

  /** The loop over the parsed names: one INSERT each, a raising insert reported and skipped. */
  method InsertNames(db: SchoolDb, names: seq<string>, className: string, teacherId: nat, fails: nat -> bool)
    returns (addedCount: nat, failed: seq<string>)
    requires db.Valid()
    modifies db`students
    ensures db.Valid()
    ensures addedCount == Successes(fails, |names|) && addedCount + |failed| == |names|
    ensures failed == Failed(names, fails)
    ensures db.students == ImportAll(old(db.students), names, className, teacherId, fails)
  {
    ghost var t0 := db.students;
    addedCount := 0;
    failed := [];
    var i := 0;
    while i < |names|
      invariant 0 <= i <= |names|
      invariant db.Valid()
      invariant addedCount == Successes(fails, i) && addedCount + |failed| == i
      invariant failed == Failed(names[..i], fails)
      invariant db.students == ImportAll(t0, names[..i], className, teacherId, fails)
    {
      ImportNext(t0, names, className, teacherId, fails, i);
      if fails(i) {
        failed := failed + [names[i]];
      } else {
        db.students := Insert(db.students, StudentRow(names[i], className, teacherId));
        addedCount := addedCount + 1;
      }
      i := i + 1;
    }
    assert names[..i] == names;
  }

  /** One more name tried: its insert is appended unless it fails, and then its name is reported. */
  lemma ImportNext(t: Table<StudentRow>, names: seq<string>, className: string, teacherId: nat,
                   fails: nat -> bool, i: nat)
    requires Valid(t) && i < |names|
    ensures ImportAll(t, names[..i + 1], className, teacherId, fails) ==
      var prev := ImportAll(t, names[..i], className, teacherId, fails);
      if fails(i) then prev else Insert(prev, StudentRow(names[i], className, teacherId))
    ensures Failed(names[..i + 1], fails) ==
      if fails(i) then Failed(names[..i], fails) + [names[i]] else Failed(names[..i], fails)
  {
    assert names[..i + 1][..i] == names[..i];
  }

  /** The class list and each class's student list select by the current teacher's id. */
  function OfTeacher(teacherId: nat): ClassRow -> bool {
    (c: ClassRow) => c.teacherId == teacherId
  }

  function StudentsOf(className: string, teacherId: nat): StudentRow -> bool {
    (s: StudentRow) => s.className == className && s.teacherId == teacherId
  }

  /** Every class and student the page lists belongs to the current teacher, and all of them are listed. */
  lemma TeacherListing(classes: Table<ClassRow>, classIds: seq<nat>, students: Table<StudentRow>,
                       className: string, studentIds: seq<nat>, teacherId: nat)
    requires Lists(classes, OfTeacher(teacherId), classIds)
    requires Lists(students, StudentsOf(className, teacherId), studentIds)
    ensures forall i :: 0 <= i < |classIds| ==> classes.rows[classIds[i]].teacherId == teacherId
    ensures forall i :: 0 <= i < |studentIds| ==> students.rows[studentIds[i]].teacherId == teacherId
    ensures |studentIds| == |Ids(students, StudentsOf(className, teacherId))|
  {
    ListsCount(students, StudentsOf(className, teacherId), studentIds);
    forall i | 0 <= i < |classIds| ensures classes.rows[classIds[i]].teacherId == teacherId {
      assert OfTeacher(teacherId)(classes.rows[classIds[i]]);
    }
    forall i | 0 <= i < |studentIds| ensures students.rows[studentIds[i]].teacherId == teacherId {
      assert StudentsOf(className, teacherId)(students.rows[studentIds[i]]);
    }
  }
}
