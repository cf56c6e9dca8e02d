/**
 * The school database (utils/database.py): the CHECK-constrained columns as
 * datatypes, one row type per table, the database itself as an object holding
 * one table per field, the UNIQUE constraints, and the statement dispatch of
 * execute_query.
 */
module Schema {
  import opened Wrappers
  import opened Text
  import opened Tables

  /** Calendar dates and timestamps as ordinals; their ISO text compares in the same order. */
  type Date = int
  type Timestamp = int

  /** homework.status: CHECK(status IN ('on_time', 'late', 'absent')). */
  datatype HomeworkStatus = OnTime | Late | Absent {
    function Text(): string {
      match this
      case OnTime => "on_time"
      case Late => "late"
      case Absent => "absent"
    }
  }

  /** The CHECK constraint as a parser: exactly the three listed texts are accepted. */
  function ParseHomeworkStatus(s: string): (r: Option<HomeworkStatus>)
    ensures r.Some? ==> r.value.Text() == s
    ensures r.None? ==> forall x: HomeworkStatus :: x.Text() != s
  {
    if s == "on_time" then Some(OnTime)
    else if s == "late" then Some(Late)
    else if s == "absent" then Some(Absent)
    else None
  }

  /** comments.category: CHECK(category IN ('English', 'UOI', 'General Behaviour')). */
  datatype Category = English | Uoi | GeneralBehaviour {
    function Text(): string {
      match this
      case English => "English"
      case Uoi => "UOI"
      case GeneralBehaviour => "General Behaviour"
    }
  }

  function ParseCategory(s: string): (r: Option<Category>)
    ensures r.Some? ==> r.value.Text() == s
    ensures r.None? ==> forall x: Category :: x.Text() != s
  {
    if s == "English" then Some(English)
    else if s == "UOI" then Some(Uoi)
    else if s == "General Behaviour" then Some(GeneralBehaviour)
    else None
  }

  /** grammar_errors.error_type: the seven values of its CHECK constraint. */
  datatype ErrorType =
    | SubjectVerbAgreement | VerbTense | Articles | Prepositions
    | WordOrder | Plurals | Pronouns
  {
    function Text(): string {
      match this
      case SubjectVerbAgreement => "subject-verb agreement"
      case VerbTense => "verb tense"
      case Articles => "articles"
      case Prepositions => "prepositions"
      case WordOrder => "word order"
      case Plurals => "plurals"
      case Pronouns => "pronouns"
    }
  }

  function ParseErrorType(s: string): (r: Option<ErrorType>)
    ensures r.Some? ==> r.value.Text() == s
    ensures r.None? ==> forall x: ErrorType :: x.Text() != s
  {
    if s == "subject-verb agreement" then Some(SubjectVerbAgreement)
    else if s == "verb tense" then Some(VerbTense)
    else if s == "articles" then Some(Articles)
    else if s == "prepositions" then Some(Prepositions)
    else if s == "word order" then Some(WordOrder)
    else if s == "plurals" then Some(Plurals)
    else if s == "pronouns" then Some(Pronouns)
    else None
  }

  /** todos.status: CHECK(status IN ('pending', 'in_progress', 'done')) DEFAULT 'pending'. */
  datatype TodoStatus = Pending | InProgress | Done {
    function Text(): string {
      match this
      case Pending => "pending"
      case InProgress => "in_progress"
      case Done => "done"
    }
  }

  function ParseTodoStatus(s: string): (r: Option<TodoStatus>)
    ensures r.Some? ==> r.value.Text() == s
    ensures r.None? ==> forall x: TodoStatus :: x.Text() != s
  {
    if s == "pending" then Some(Pending)
    else if s == "in_progress" then Some(InProgress)
    else if s == "done" then Some(Done)
    else None
  }

  /** The status a todo row receives when the INSERT names only its task. */
  const DefaultTodoStatus: TodoStatus := Pending

  /** essay_marks.essay_type: CHECK(essay_type IN ('opinion_argumentative', 'creative_narrative')). */
  datatype EssayType = OpinionArgumentative | CreativeNarrative {
    function Text(): string {
      match this
      case OpinionArgumentative => "opinion_argumentative"
      case CreativeNarrative => "creative_narrative"
    }
  }

  function ParseEssayType(s: string): (r: Option<EssayType>)
    ensures r.Some? ==> r.value.Text() == s
    ensures r.None? ==> forall x: EssayType :: x.Text() != s
  {
    if s == "opinion_argumentative" then Some(OpinionArgumentative)
    else if s == "creative_narrative" then Some(CreativeNarrative)
    else None
  }

  /** users.role: CHECK(role IN ('teacher', 'admin')) DEFAULT 'teacher'. */
  datatype Role = Teacher | Admin {
    function Text(): string {
      match this
      case Teacher => "teacher"
      case Admin => "admin"
    }
  }

  function ParseRole(s: string): (r: Option<Role>)
    ensures r.Some? ==> r.value.Text() == s
    ensures r.None? ==> forall x: Role :: x.Text() != s
  {
    if s == "teacher" then Some(Teacher)
    else if s == "admin" then Some(Admin)
    else None
  }

  // One row type per table; the `id` column is the table's key.

  datatype UserRow = UserRow(username: string, passwordHash: string, fullName: string, role: Role, isActive: bool)
  datatype ClassRow = ClassRow(name: string, teacherId: nat)
  datatype StudentRow = StudentRow(name: string, className: string, teacherId: nat)
  datatype HomeworkRow = HomeworkRow(studentId: nat, date: Date, status: HomeworkStatus)
  datatype CommentRow = CommentRow(studentId: nat, category: Category, comment: string, evidence: string, createdAt: Timestamp)
  datatype DictationTaskRow = DictationTaskRow(name: string, transcript: string, audioFile: Option<string>, createdAt: Timestamp)
  datatype DictationScoreRow = DictationScoreRow(
    studentId: nat, taskId: nat, studentText: string, score: real,
    feedbackEn: string, feedbackZh: string, createdAt: Timestamp)
  datatype SpellingRow = SpellingRow(studentId: nat, score: int, maxScore: int, weekDate: Date, percentage: real)
  datatype GrammarErrorRow = GrammarErrorRow(studentId: nat, errorType: ErrorType, example: string, createdAt: Timestamp)
  datatype TodoRow = TodoRow(task: string, status: TodoStatus, createdAt: Timestamp, updatedAt: Timestamp)
  datatype EssayMarkRow = EssayMarkRow(
    studentId: nat, title: string, essayType: EssayType, essayText: string, score: int,
    feedbackEn: string, feedbackZh: string, criteriaBreakdown: string, createdAt: Timestamp)

  /** users.username is UNIQUE. */
  ghost predicate UniqueUsernames(t: Table<UserRow>) {
    forall a, b :: a in t.rows && b in t.rows && a != b ==> t.rows[a].username != t.rows[b].username
  }

  /** classes.name is UNIQUE across the whole table (not per teacher). */
  ghost predicate UniqueClassNames(t: Table<ClassRow>) {
    forall a, b :: a in t.rows && b in t.rows && a != b ==> t.rows[a].name != t.rows[b].name
  }

  /** Some row of `t` already has this username. */
  predicate UsernameTaken(t: Table<UserRow>, username: string) {
    exists k :: k in t.rows && t.rows[k].username == username
  }

  /** INSERT INTO users: rejected with an IntegrityError (None) when the username is taken. */
  function InsertUser(t: Table<UserRow>, row: UserRow): (r: Option<Table<UserRow>>)
    requires Tables.Valid(t) && UniqueUsernames(t)
    ensures r.None? <==> UsernameTaken(t, row.username)
    ensures r.Some? ==> Tables.Valid(r.value) && UniqueUsernames(r.value)
    ensures r.Some? ==> r.value == Insert(t, row)
  {
    if UsernameTaken(t, row.username) then None else Some(Insert(t, row))
  }

  /** INSERT INTO classes: rejected with an IntegrityError (None) when the name is taken. */
  function InsertClass(t: Table<ClassRow>, row: ClassRow): (r: Option<Table<ClassRow>>)
    requires Tables.Valid(t) && UniqueClassNames(t)
    ensures r.None? <==> exists k :: k in t.rows && t.rows[k].name == row.name
    ensures r.Some? ==> Tables.Valid(r.value) && UniqueClassNames(r.value)
    ensures r.Some? ==> r.value == Insert(t, row)
  {
    if exists k :: k in t.rows && t.rows[k].name == row.name then None else Some(Insert(t, row))
  }

  /** The tables of the SQLite file. */
  datatype SchoolTable =
    | UsersTable | ClassesTable | StudentsTable | HomeworkTable | CommentsTable | DictationTasksTable
    | DictationScoresTable | SpellingTestsTable | GrammarErrorsTable | TodosTable | EssayMarksTable
  {
    /** The table's name in sqlite_master. */
    function Name(): string {
      match this
      case UsersTable => "users"
      case ClassesTable => "classes"
      case StudentsTable => "students"
      case HomeworkTable => "homework"
      case CommentsTable => "comments"
      case DictationTasksTable => "dictation_tasks"
      case DictationScoresTable => "dictation_scores"
      case SpellingTestsTable => "spelling_tests"
      case GrammarErrorsTable => "grammar_errors"
      case TodosTable => "todos"
      case EssayMarksTable => "essay_marks"
    }
  }

  /** The SQLite file: one table per field, each keyed by its AUTOINCREMENT id. */
  class SchoolDb {
    var users: Table<UserRow>
    var classes: Table<ClassRow>
    var students: Table<StudentRow>
    var homework: Table<HomeworkRow>
    var comments: Table<CommentRow>
    var dictationTasks: Table<DictationTaskRow>
    var dictationScores: Table<DictationScoreRow>
    var spellingTests: Table<SpellingRow>
    var grammarErrors: Table<GrammarErrorRow>
    var todos: Table<TodoRow>
    var essayMarks: Table<EssayMarkRow>

    /** Every table is well formed and the UNIQUE columns hold no duplicates. */
    ghost predicate Valid()
      reads this
    {
      && Tables.Valid(users) && Tables.Valid(classes) && Tables.Valid(students)
      && Tables.Valid(homework) && Tables.Valid(comments) && Tables.Valid(dictationTasks)
      && Tables.Valid(dictationScores) && Tables.Valid(spellingTests) && Tables.Valid(grammarErrors)
      && Tables.Valid(todos) && Tables.Valid(essayMarks)
      && UniqueUsernames(users) && UniqueClassNames(classes)
    }

    /** init_database on a fresh file: every table exists and is empty. */
    constructor ()
      ensures Valid()
      ensures users.rows == map[] && classes.rows == map[] && students.rows == map[]
      ensures homework.rows == map[] && comments.rows == map[] && dictationTasks.rows == map[]
      ensures dictationScores.rows == map[] && spellingTests.rows == map[]
      ensures grammarErrors.rows == map[] && todos.rows == map[] && essayMarks.rows == map[]
    {
      users := Table(map[], 0);
      classes := Table(map[], 0);
      students := Table(map[], 0);
      homework := Table(map[], 0);
      comments := Table(map[], 0);
      dictationTasks := Table(map[], 0);
      dictationScores := Table(map[], 0);
      spellingTests := Table(map[], 0);
      grammarErrors := Table(map[], 0);
      todos := Table(map[], 0);
      essayMarks := Table(map[], 0);
    }

    /** The rows and counters of every table, as one value. */
    function Snapshot(): Contents
      reads this
    {
      Contents(users, classes, students, homework, comments, dictationTasks, dictationScores,
               spellingTests, grammarErrors, todos, essayMarks)
    }
  }

  /** The rows and AUTOINCREMENT counters of every table at one moment. */
  datatype Contents = Contents(
    users: Table<UserRow>, classes: Table<ClassRow>, students: Table<StudentRow>,
    homework: Table<HomeworkRow>, comments: Table<CommentRow>, dictationTasks: Table<DictationTaskRow>,
    dictationScores: Table<DictationScoreRow>, spellingTests: Table<SpellingRow>,
    grammarErrors: Table<GrammarErrorRow>, todos: Table<TodoRow>, essayMarks: Table<EssayMarkRow>)
  {
    /** SELECT COUNT(*) FROM t. */
    function RowCount(t: SchoolTable): nat {
      match t
      case UsersTable => |users.rows.Keys|
      case ClassesTable => |classes.rows.Keys|
      case StudentsTable => |students.rows.Keys|
      case HomeworkTable => |homework.rows.Keys|
      case CommentsTable => |comments.rows.Keys|
      case DictationTasksTable => |dictationTasks.rows.Keys|
      case DictationScoresTable => |dictationScores.rows.Keys|
      case SpellingTestsTable => |spellingTests.rows.Keys|
      case GrammarErrorsTable => |grammarErrors.rows.Keys|
      case TodosTable => |todos.rows.Keys|
      case EssayMarksTable => |essayMarks.rows.Keys|
    }

    /** The table's AUTOINCREMENT counter in sqlite_sequence. */
    function LastId(t: SchoolTable): nat {
      match t
      case UsersTable => users.lastId
      case ClassesTable => classes.lastId
      case StudentsTable => students.lastId
      case HomeworkTable => homework.lastId
      case CommentsTable => comments.lastId
      case DictationTasksTable => dictationTasks.lastId
      case DictationScoresTable => dictationScores.lastId
      case SpellingTestsTable => spellingTests.lastId
      case GrammarErrorsTable => grammarErrors.lastId
      case TodosTable => todos.lastId
      case EssayMarksTable => essayMarks.lastId
    }

    /** The table has no rows. */
    predicate Empty(t: SchoolTable) {
      match t
      case UsersTable => users.rows == map[]
      case ClassesTable => classes.rows == map[]
      case StudentsTable => students.rows == map[]
      case HomeworkTable => homework.rows == map[]
      case CommentsTable => comments.rows == map[]
      case DictationTasksTable => dictationTasks.rows == map[]
      case DictationScoresTable => dictationScores.rows == map[]
      case SpellingTestsTable => spellingTests.rows == map[]
      case GrammarErrorsTable => grammarErrors.rows == map[]
      case TodosTable => todos.rows == map[]
      case EssayMarksTable => essayMarks.rows == map[]
    }

    /** Table t holds the same rows and counter here as in `other`. */
    predicate Same(other: Contents, t: SchoolTable) {
      match t
      case UsersTable => users == other.users
      case ClassesTable => classes == other.classes
      case StudentsTable => students == other.students
      case HomeworkTable => homework == other.homework
      case CommentsTable => comments == other.comments
      case DictationTasksTable => dictationTasks == other.dictationTasks
      case DictationScoresTable => dictationScores == other.dictationScores
      case SpellingTestsTable => spellingTests == other.spellingTests
      case GrammarErrorsTable => grammarErrors == other.grammarErrors
      case TodosTable => todos == other.todos
      case EssayMarksTable => essayMarks == other.essayMarks
    }

    /** DELETE FROM t (no WHERE clause). */
    function Delete(t: SchoolTable): Contents {
      match t
      case UsersTable => this.(users := Clear(users))
      case ClassesTable => this.(classes := Clear(classes))
      case StudentsTable => this.(students := Clear(students))
      case HomeworkTable => this.(homework := Clear(homework))
      case CommentsTable => this.(comments := Clear(comments))
      case DictationTasksTable => this.(dictationTasks := Clear(dictationTasks))
      case DictationScoresTable => this.(dictationScores := Clear(dictationScores))
      case SpellingTestsTable => this.(spellingTests := Clear(spellingTests))
      case GrammarErrorsTable => this.(grammarErrors := Clear(grammarErrors))
      case TodosTable => this.(todos := Clear(todos))
      case EssayMarksTable => this.(essayMarks := Clear(essayMarks))
    }
  }

  /**
   * DELETE FROM t empties t and keeps its counter; every other table keeps
   * its rows and counter, and a table that was empty stays empty.
   */
  lemma DeleteEffect(c: Contents, t: SchoolTable)
    ensures c.Delete(t).Empty(t)
    ensures forall u :: c.Delete(t).LastId(u) == c.LastId(u)
    ensures forall u :: u != t ==> c.Delete(t).Same(c, u)
    ensures forall u :: c.Empty(u) ==> c.Delete(t).Empty(u)
  {
  }

  /** execute_query's test: after strip() and upper(), does the statement start with SELECT? */
  predicate IsSelect(query: string) {
    StartsWith(Upper(Strip(query)), "SELECT")
  }

  /** What execute_query hands back: a SELECT's fetched rows, or the cursor's lastrowid. */
  datatype QueryResult<Row> = Fetched(rows: seq<Row>) | LastRowId(id: Option<int>)

  /**
   * The value execute_query returns for `query`, given what the cursor holds
   * after executing it: the fetched rows for a SELECT, else lastrowid (None
   * on a cursor that has inserted nothing).
   */
  function QueryAnswer<Row>(query: string, cursorRows: seq<Row>, cursorLastRowId: Option<int>): (r: QueryResult<Row>)
    ensures r.Fetched? <==> IsSelect(query)
    ensures r.Fetched? ==> r.rows == cursorRows
    ensures r.LastRowId? ==> r.id == cursorLastRowId
  {
    if IsSelect(query) then Fetched(cursorRows) else LastRowId(cursorLastRowId)
  }

  /** One execute_query call: a connection that is opened, used once and closed. */
  class Connection {
    var isOpen: bool
    var committed: bool

    /** get_connection(). */
    constructor ()
      ensures isOpen && !committed
    {
      isOpen := true;
      committed := false;
    }

    /**
     * Executes `query` (the engine's answer is given as `cursorRows` and
     * `cursorLastRowId`), then fetches and closes for a SELECT, and commits
     * and closes for anything else.
     */
    method ExecuteQuery<Row>(query: string, cursorRows: seq<Row>, cursorLastRowId: Option<int>) returns (r: QueryResult<Row>)
      requires isOpen
      modifies this
      ensures !isOpen
      ensures committed == (old(committed) || !IsSelect(query))
      ensures r == QueryAnswer(query, cursorRows, cursorLastRowId)
    {
      if StartsWith(Upper(Strip(query)), "SELECT") {
        r := Fetched(cursorRows);
        isOpen := false;
      } else {
        committed := true;
        isOpen := false;
        r := LastRowId(cursorLastRowId);
      }
    }
  }

  /** The PRAGMA the table browser issues is not a SELECT: it is committed and yields no rows. */
  lemma PragmaIsNotSelect(table: string)
    ensures !IsSelect("PRAGMA table_info(" + table + ")")
  {
    var q := "PRAGMA table_info(" + table + ")";
    assert TrimStart(q) == q;
    var t := TrimEnd(q);
    assert |t| >= 1 by {
      assert q[|q| - 1] == ')';
    }
    assert t[..6] == q[..6];
    assert Upper(Strip(q))[0] == 'P';
  }

  /**
   * Leading blanks and letter case do not hide a SELECT from the dispatch:
   * blanks, then "select" in any mix of cases, then anything, is fetched.
   */
  lemma {:induction false} SelectInAnyCase(pad: string, keyword: string, rest: string)
    requires forall i :: 0 <= i < |pad| ==> IsSpace(pad[i])
    requires Upper(keyword) == "SELECT"
    ensures IsSelect(pad + keyword + rest)
  {
    var s := keyword + rest;
    KeywordEnds(keyword);
    assert s[0] == keyword[0] && s[5] == keyword[5];
    TrimStartBlanks(pad, s);
    assert pad + keyword + rest == pad + s;
    TrimEndKeeps(s, 6);
    UpperPrefix(TrimEnd(s), keyword);
  }

  /** A spelling of SELECT has six letters, and neither end is a blank. */
  lemma KeywordEnds(keyword: string)
    requires Upper(keyword) == "SELECT"
    ensures |keyword| == 6 && !IsSpace(keyword[0]) && !IsSpace(keyword[5])
  {
    assert UpperChar(keyword[0]) == 'S' && UpperChar(keyword[5]) == 'T';
  }

  /** rstrip() does not cut into a prefix that ends with a non-blank. */
  lemma TrimEndKeeps(s: string, n: nat)
    requires 0 < n <= |s| && !IsSpace(s[n - 1])
    ensures |TrimEnd(s)| >= n && TrimEnd(s)[..n] == s[..n]
  {
  }

  /** Upper-casing a text that starts with `p` gives a text that starts with `p` upper-cased. */
  lemma UpperPrefix(r: string, p: string)
    requires |p| <= |r| && r[..|p|] == p
    ensures StartsWith(Upper(r), Upper(p))
  {
    assert Upper(r)[..|p|] == Upper(p);
  }

  /** Blanks in front of a text that starts with a non-blank are all that lstrip() removes. */
  lemma {:induction false} TrimStartBlanks(pad: string, s: string)
    requires forall i :: 0 <= i < |pad| ==> IsSpace(pad[i])
    requires s != [] && !IsSpace(s[0])
    ensures TrimStart(pad + s) == s
    decreases |pad|
  {
    if pad != [] {
      assert (pad + s)[1..] == pad[1..] + s;
      TrimStartBlanks(pad[1..], s);
    } else {
      assert pad + s == s;
    }
  }
}
