/**
 * The table viewer (pages/database_viewer.py): the access gate, the
 * pagination arithmetic and the column lookup of the raw-data tab, the
 * sample rows of the schema tab, the row counts of the statistics tab, and
 * the SELECT-only guard of the custom-query tab.
 */
module Viewer {
  import opened Wrappers
  import opened Text
  import opened Tables
  import opened Schema
  import opened Auth
  import Admin

  /** The "Rows per page" choices. */
  const PageSizes: seq<nat> := [10, 25, 50, 100]

  /** total_pages: (total_rows - 1) // page_size + 1 for a non-empty table, else 1. */
  function TotalPages(totalRows: nat, pageSize: nat): (pages: nat)
    requires pageSize > 0
  {
    if totalRows > 0 then (totalRows - 1) / pageSize + 1 else 1
  }

  /** There is always a page, and for a non-empty table the pages are the fewest that hold every row. */
  lemma TotalPagesIsCeiling(totalRows: nat, pageSize: nat)
    requires pageSize > 0
    ensures TotalPages(totalRows, pageSize) >= 1
    ensures totalRows > 0 ==>
      (TotalPages(totalRows, pageSize) - 1) * pageSize < totalRows <= TotalPages(totalRows, pageSize) * pageSize
  {
    if totalRows > 0 {
      var q := (totalRows - 1) / pageSize;
      var r := (totalRows - 1) % pageSize;
      assert totalRows - 1 == q * pageSize + r;
      assert (q + 1) * pageSize == q * pageSize + pageSize;
    }
  }

  /** offset: the 1-based page number from the input, minus one, times the page size. */
  function Offset(page: nat, pageSize: nat): nat
    requires page >= 1
  {
    (page - 1) * pageSize
  }

  /** On a page the input allows, the offset points inside a non-empty table. */
  lemma OffsetInside(totalRows: nat, pageSize: nat, page: nat)
    requires pageSize > 0 && 1 <= page <= TotalPages(totalRows, pageSize)
    ensures totalRows > 0 ==> Offset(page, pageSize) < totalRows
  {
    TotalPagesIsCeiling(totalRows, pageSize);
    if totalRows > 0 {
      MulMonotone(page - 1, TotalPages(totalRows, pageSize) - 1, pageSize);
    }
  }

  lemma MulMonotone(a: nat, b: nat, c: nat)
    requires a <= b
    ensures a * c <= b * c
  {
  }

  /** What a page of the raw-data tab shows: no rows past the end, else the caption's range. */
  datatype PageView = NoData | Showing(first: nat, last: nat, total: nat)

  /**
   * SELECT * ... LIMIT page_size OFFSET offset: no rows past the end, else the
   * caption "Showing rows offset+1 - min(offset+page_size, total_rows)".
   */
  function View(totalRows: nat, pageSize: nat, page: nat): (v: PageView)
    requires pageSize > 0 && page >= 1
  {
    var offset := Offset(page, pageSize);
    if offset < totalRows then
      Showing(offset + 1, if offset + pageSize <= totalRows then offset + pageSize else totalRows, totalRows)
    else NoData
  }

  /**
   * For any offered page size and any page the input allows, a non-empty
   * table has a range that starts inside the table, ends no later than its
   * last row, and spans at most one page; an empty table has no data.
   */
  lemma ViewInRange(totalRows: nat, pageSize: nat, page: nat)
    requires pageSize in PageSizes && 1 <= page <= TotalPages(totalRows, pageSize)
    ensures totalRows == 0 <==> View(totalRows, pageSize, page).NoData?
    ensures View(totalRows, pageSize, page).Showing? ==>
      var v := View(totalRows, pageSize, page);
      1 <= v.first <= v.last <= totalRows && v.last - v.first + 1 <= pageSize && v.total == totalRows
  {
    OffsetInside(totalRows, pageSize, page);
  }

  /** One row of PRAGMA table_info: the column's position and name (the other fields are not used). */
  datatype ColumnInfo = ColumnInfo(cid: nat, name: string)

  /** The statement that asks for a table's columns. */
  function TableInfoQuery(table: string): string {
    "PRAGMA table_info(" + table + ")"
  }

  /**
   * `[col[1] for col in schema] if schema else []`: a fetched listing gives
   * its names; a lastrowid of None or 0 is falsy and gives no names; any
   * other lastrowid is an int, iterating it raises, and the result is None.
   */
  function ColumnNames(schema: QueryResult<ColumnInfo>): (names: Option<seq<string>>)
    ensures schema.Fetched? ==>
      names.Some? && |names.value| == |schema.rows| &&
      forall i :: 0 <= i < |schema.rows| ==> names.value[i] == schema.rows[i].name
    ensures schema.LastRowId? ==> (names == Some([]) <==> schema.id in {None, Some(0)})
    ensures schema.LastRowId? ==> (names.None? <==> schema.id !in {None, Some(0)})
  {
    match schema
    case Fetched(rows) => Some(seq(|rows|, i requires 0 <= i < |rows| => rows[i].name))
    case LastRowId(id) => if id == None || id == Some(0) then Some([]) else None
  }

  /** What the raw-data tab shows. */
  datatype RawData = TabDenied | TableEmpty | TabError | ColumnsMissing | Displayed(columns: seq<string>, view: PageView)

  /**
   * The raw-data tab for one page of one table: the page stops for anyone but
   * james; a page without rows says the table has no data; otherwise the
   * column names are taken from `schema`, the answer to the PRAGMA, and the
   * page is displayed only when there are some.
   */
  function RawDataTab(user: Option<UserInfo>, totalRows: nat, pageSize: nat, page: nat,
                      schema: QueryResult<ColumnInfo>): RawData
    requires pageSize in PageSizes && 1 <= page <= TotalPages(totalRows, pageSize)
  {
    if !IsJames(user) then TabDenied
    else
      var v := View(totalRows, pageSize, page);
      if v.NoData? then TableEmpty
      else match ColumnNames(schema)
        case None => TabError
        case Some(columns) => if columns == [] then ColumnsMissing else Displayed(columns, v)
  }

  /**
   * The schema tab's sample: shown when the table has rows, the sample query
   * returned some, and `schema`, the answer to the PRAGMA, names columns.
   */
  function SampleShown(count: nat, sampleRows: nat, schema: QueryResult<ColumnInfo>): bool {
    count > 0 && sampleRows > 0 && ColumnNames(schema).Some? && ColumnNames(schema).value != []
  }

  /**
   * As written, the PRAGMA goes through execute_query, which does not fetch
   * it and hands back lastrowid instead: the raw-data tab never displays a
   * page, a fresh cursor's None makes it report missing column information
   * for every table with rows, and the schema tab never shows a sample.
   */
  lemma RawDataNeverDisplayed(user: Option<UserInfo>, table: string, totalRows: nat, pageSize: nat, page: nat,
                              listing: seq<ColumnInfo>, lastRowId: Option<int>, count: nat, sampleRows: nat)
    requires pageSize in PageSizes && 1 <= page <= TotalPages(totalRows, pageSize)
    ensures !RawDataTab(user, totalRows, pageSize, page, QueryAnswer(TableInfoQuery(table), listing, lastRowId)).Displayed?
    ensures IsJames(user) && totalRows > 0 && lastRowId.None? ==>
      RawDataTab(user, totalRows, pageSize, page, QueryAnswer(TableInfoQuery(table), listing, lastRowId)) == ColumnsMissing
    ensures !SampleShown(count, sampleRows, QueryAnswer(TableInfoQuery(table), listing, lastRowId))
  {
    PragmaIsNotSelect(table);
    ViewInRange(totalRows, pageSize, page);
  }

  /**
   * With the column listing fetched, every page with rows is displayed with
   * the table's column names and the caption's range, and a table with rows
   * shows its sample.
   */
  lemma RawDataFetchedShowsPage(user: Option<UserInfo>, totalRows: nat, pageSize: nat, page: nat,
                                listing: seq<ColumnInfo>, sampleRows: nat)
    requires pageSize in PageSizes && 1 <= page <= TotalPages(totalRows, pageSize) && listing != []
    ensures IsJames(user) && totalRows > 0 ==>
      RawDataTab(user, totalRows, pageSize, page, Fetched(listing)).Displayed? &&
      RawDataTab(user, totalRows, pageSize, page, Fetched(listing)).columns == ColumnNames(Fetched(listing)).value &&
      RawDataTab(user, totalRows, pageSize, page, Fetched(listing)).view == View(totalRows, pageSize, page) &&
      View(totalRows, pageSize, page).Showing?
    ensures totalRows > 0 && sampleRows > 0 ==> SampleShown(totalRows, sampleRows, Fetched(listing))
  {
    ViewInRange(totalRows, pageSize, page);
  }

  /**
   * The statistics tab's row counts, one SELECT COUNT(*) per listed table in
   * listing order; the page stops for anyone but james.
   */
  method TableStats(db: SchoolDb, user: Option<UserInfo>, tables: seq<SchoolTable>)
    returns (stats: Option<seq<(string, nat)>>)
    ensures stats.None? <==> !IsJames(user)
    ensures stats.Some? ==> |stats.value| == |tables|
    ensures stats.Some? ==> forall i :: 0 <= i < |tables| ==>
      stats.value[i] == (tables[i].Name(), db.Snapshot().RowCount(tables[i]))
  {
    if !IsJames(user) {
      return None;
    }
    var rows: seq<(string, nat)> := [];
    for i := 0 to |tables|
      invariant |rows| == i
      invariant forall j :: 0 <= j < i ==> rows[j] == (tables[j].Name(), db.Snapshot().RowCount(tables[j]))
    {
      rows := rows + [(tables[i].Name(), db.Snapshot().RowCount(tables[i]))];
    }
    stats := Some(rows);
  }

  /** A table's count is zero exactly when it has no rows. */
  lemma CountZeroIffEmpty(c: Contents, t: SchoolTable)
    ensures c.RowCount(t) == 0 <==> c.Empty(t)
  {
    match t
    case UsersTable => MapEmpty(c.users.rows);
    case ClassesTable => MapEmpty(c.classes.rows);
    case StudentsTable => MapEmpty(c.students.rows);
    case HomeworkTable => MapEmpty(c.homework.rows);
    case CommentsTable => MapEmpty(c.comments.rows);
    case DictationTasksTable => MapEmpty(c.dictationTasks.rows);
    case DictationScoresTable => MapEmpty(c.dictationScores.rows);
    case SpellingTestsTable => MapEmpty(c.spellingTests.rows);
    case GrammarErrorsTable => MapEmpty(c.grammarErrors.rows);
    case TodosTable => MapEmpty(c.todos.rows);
    case EssayMarksTable => MapEmpty(c.essayMarks.rows);
  }

  /** A map has no keys exactly when it is empty. */
  lemma MapEmpty<R>(m: map<nat, R>)
    ensures |m.Keys| == 0 <==> m == map[]
  {
    if |m.Keys| == 0 {
      assert forall k :: k !in m.Keys;
    }
  }

  /**
   * After "Reset All Data" the statistics tab counts zero rows for each of
   * the nine cleared tables, and the users and todos counts are unchanged.
   */
  lemma StatsAfterReset(c: Contents)
    ensures forall t :: t in Admin.TablesToClear ==> Admin.DeleteAll(c, Admin.TablesToClear).RowCount(t) == 0
    ensures Admin.DeleteAll(c, Admin.TablesToClear).RowCount(UsersTable) == c.RowCount(UsersTable)
    ensures Admin.DeleteAll(c, Admin.TablesToClear).RowCount(TodosTable) == c.RowCount(TodosTable)
  {
    var d := Admin.DeleteAll(c, Admin.TablesToClear);
    Admin.ResetEffect(c);
    forall t | t in Admin.TablesToClear ensures d.RowCount(t) == 0 {
      CountZeroIffEmpty(d, t);
    }
  }

  /** What "Execute Query" does with the text. */
  datatype QueryAction = QueryDenied | Blank | Rejected | Run(query: string)

  /**
   * The custom-query guard: the page stops for anyone but james; blank text
   * is refused, and so is text that does not start with SELECT once
   * upper-cased and trimmed.
   */
  function CustomQuery(user: Option<UserInfo>, query: string): QueryAction {
    if !IsJames(user) then QueryDenied
    else if Strip(query) == [] then Blank
    else if !StartsWith(Strip(Upper(query)), "SELECT") then Rejected
    else Run(query)
  }

  /**
   * The guard agrees with execute_query's own test: a query it runs is one
   * execute_query fetches rows for, and a non-blank query it refuses is one
   * that would have been executed and committed.
   */
  lemma GuardMatchesDispatch(user: Option<UserInfo>, query: string)
    ensures CustomQuery(user, query).Run? ==> IsSelect(query) && CustomQuery(user, query).query == query
    ensures CustomQuery(user, query).Rejected? ==> !IsSelect(query)
    ensures CustomQuery(user, query).Blank? <==> IsJames(user) && forall i :: 0 <= i < |query| ==> IsSpace(query[i])
    ensures IsJames(user) && IsSelect(query) ==> CustomQuery(user, query) == Run(query)
  {
    StripUpperCommute(query);
    StripEmpty(query);
  }

  /**
   * The page opens for the logged-in user james alone, a founder: for anyone
   * else the raw-data tab, the statistics tab and the custom-query tab all
   * stop before touching the database, and for james none of them stops.
   */
  lemma GateIsJamesOnly(user: Option<UserInfo>, totalRows: nat, pageSize: nat, page: nat,
                        schema: QueryResult<ColumnInfo>, query: string)
    requires pageSize in PageSizes && 1 <= page <= TotalPages(totalRows, pageSize)
    ensures !RawDataTab(user, totalRows, pageSize, page, schema).TabDenied? <==>
      user.Some? && user.value.username == "james"
    ensures IsJames(user) ==> IsFounder(user)
    ensures RawDataTab(user, totalRows, pageSize, page, schema).TabDenied? <==> !IsJames(user)
    ensures CustomQuery(user, query).QueryDenied? <==> !IsJames(user)
  {
    RolePredicates(user);
  }
}
