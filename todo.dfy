/**
 * The todo page (pages/todo.py): adding a task, the per-task buttons of each
 * status group, the two bulk actions, and the grouped listing with its counts.
 */
module Todo {
  import opened Tables
  import opened Schema

  /** The single-task buttons. */
  datatype Action = StartWork | MarkDone | MoveToPending | Delete

  /** The buttons the page draws next to a task of each status. */
  function Offered(s: TodoStatus): set<Action> {
    match s
    case InProgress => {MarkDone, MoveToPending}
    case Pending => {StartWork, MarkDone, Delete}
    case Done => {MoveToPending, Delete}
  }

  /** The status a button's UPDATE sets; Delete has none. */
  function Target(a: Action): TodoStatus
    requires a != Delete
  {
    match a
    case StartWork => InProgress
    case MarkDone => Done
    case MoveToPending => Pending
  }

  /**
   * The state machine the buttons draw: pending goes to in_progress or done or
   * is deleted; in_progress goes to done or back to pending and cannot be
   * deleted; done goes back to pending or is deleted; no button keeps the status.
   */
  lemma Transitions()
    ensures forall a :: a in Offered(Pending) && a != Delete ==> Target(a) in {InProgress, Done}
    ensures Delete in Offered(Pending) && Delete !in Offered(InProgress) && Delete in Offered(Done)
    ensures forall a :: a in Offered(InProgress) ==> a != Delete && Target(a) in {Done, Pending}
    ensures forall a :: a in Offered(Done) && a != Delete ==> Target(a) == Pending
    ensures forall s, a :: a in Offered(s) && a != Delete ==> Target(a) != s
  {
  }

  /** The SET clause of the status UPDATEs: new status, updated_at = CURRENT_TIMESTAMP. */
  function SetStatus(s: TodoStatus, now: Timestamp): TodoRow -> TodoRow {
    (r: TodoRow) => r.(status := s, updatedAt := now)
  }

  /** The "Add Task" form: a non-empty description becomes a new pending row. */
  method AddTask(db: SchoolDb, task: string, now: Timestamp)
    requires db.Valid()
    modifies db`todos
    ensures db.Valid()
    ensures task == [] ==> db.todos == old(db.todos)
    ensures task != [] ==> db.todos == Insert(old(db.todos), TodoRow(task, DefaultTodoStatus, now, now))
  {
    if task != [] {
      db.todos := Insert(db.todos, TodoRow(task, DefaultTodoStatus, now, now));
    }
  }

  /**
   * One button pressed next to task `id`, which is shown in the group of its
   * status. Only that row changes: it leaves the table, or takes the button's
   * status and the current time.
   */
  method Press(db: SchoolDb, id: nat, a: Action, now: Timestamp)
    requires db.Valid() && id in db.todos.rows && a in Offered(db.todos.rows[id].status)
    modifies db`todos
    ensures db.Valid() && db.todos.lastId == old(db.todos.lastId)
    ensures forall k :: k in old(db.todos.rows) && k != id ==> k in db.todos.rows && db.todos.rows[k] == old(db.todos.rows[k])
    ensures a == Delete ==> db.todos.rows.Keys == old(db.todos.rows.Keys) - {id}
    ensures a != Delete ==> db.todos.rows.Keys == old(db.todos.rows.Keys)
    ensures a != Delete ==> db.todos.rows[id] == old(db.todos.rows[id]).(status := Target(a), updatedAt := now)
  {
    if a == Delete {
      db.todos := DeleteId(db.todos, id);
    } else {
      db.todos := UpdateId(db.todos, id, SetStatus(Target(a), now));
    }
  }

  function IsPending(r: TodoRow): bool { r.status == Pending }
  function IsDone(r: TodoRow): bool { r.status == Done }

  /** "Mark All Pending as Done": every pending row becomes done; the others are untouched. */
  method MarkAllPendingDone(db: SchoolDb, now: Timestamp)
    requires db.Valid()
    modifies db`todos
    ensures db.Valid() && db.todos.lastId == old(db.todos.lastId)
    ensures db.todos.rows.Keys == old(db.todos.rows.Keys)
    ensures forall k :: k in old(db.todos.rows) && old(db.todos.rows[k]).status == Pending ==>
      db.todos.rows[k] == old(db.todos.rows[k]).(status := Done, updatedAt := now)
    ensures forall k :: k in old(db.todos.rows) && old(db.todos.rows[k]).status != Pending ==>
      db.todos.rows[k] == old(db.todos.rows[k])
    ensures forall k :: k in db.todos.rows ==> db.todos.rows[k].status != Pending
  {
    db.todos := UpdateWhere(db.todos, IsPending, SetStatus(Done, now));
  }

  /** "Delete All Completed Tasks": exactly the done rows leave. */
  method DeleteAllCompleted(db: SchoolDb)
    requires db.Valid()
    modifies db`todos
    ensures db.Valid() && db.todos.lastId == old(db.todos.lastId)
    ensures db.todos.rows.Keys == old(db.todos.rows.Keys) - Ids(old(db.todos), IsDone)
    ensures forall k :: k in db.todos.rows ==> db.todos.rows[k] == old(db.todos.rows[k]) && db.todos.rows[k].status != Done
  {
    db.todos := DeleteWhere(db.todos, IsDone);
  }

  /** One row of the listing query: its id and its columns. */
  datatype Item = Item(id: nat, row: TodoRow)

  /** The list comprehension selecting one status, keeping the query's order. */
  function Group(l: seq<Item>, s: TodoStatus): (g: seq<Item>)
    ensures |g| <= |l|
    ensures forall i :: 0 <= i < |g| ==> g[i].row.status == s
  {
    if l == [] then []
    else if l[0].row.status == s then [l[0]] + Group(l[1..], s)
    else Group(l[1..], s)
  }

  /** The three groups partition the listing: their sizes add up to "Total Tasks". */
  lemma {:induction false} GroupCounts(l: seq<Item>)
    ensures |Group(l, InProgress)| + |Group(l, Pending)| + |Group(l, Done)| == |l|
  {
    if l != [] {
      GroupCounts(l[1..]);
    }
  }

  /** The CASE expression of the ORDER BY. */
  function Rank(s: TodoStatus): int {
    match s
    case InProgress => 1
    case Pending => 2
    case Done => 3
  }

  /** ORDER BY status rank, then created_at DESC. */
  ghost predicate ListingOrdered(l: seq<Item>) {
    forall i, j :: 0 <= i < j < |l| ==>
      Rank(l[i].row.status) < Rank(l[j].row.status) ||
      (Rank(l[i].row.status) == Rank(l[j].row.status) && l[i].row.createdAt >= l[j].row.createdAt)
  }

  /** Newest first. */
  ghost predicate NewestFirst(g: seq<Item>) {
    forall i, j :: 0 <= i < j < |g| ==> g[i].row.createdAt >= g[j].row.createdAt
  }

  /** The rows after the first are still in listing order, and none ranks before the first. */
  lemma OrderedTail(l: seq<Item>)
    requires ListingOrdered(l) && l != []
    ensures ListingOrdered(l[1..])
    ensures forall i :: 0 <= i < |l[1..]| ==> Rank(l[0].row.status) <= Rank(l[1..][i].row.status)
    ensures forall i :: 0 <= i < |l[1..]| && l[1..][i].row.status == l[0].row.status ==>
      l[0].row.createdAt >= l[1..][i].row.createdAt
  {
    var rest := l[1..];
    forall i, j | 0 <= i < j < |rest| ensures
      Rank(rest[i].row.status) < Rank(rest[j].row.status) ||
      (Rank(rest[i].row.status) == Rank(rest[j].row.status) && rest[i].row.createdAt >= rest[j].row.createdAt)
    {
      assert rest[i] == l[i + 1] && rest[j] == l[j + 1];
    }
    forall i | 0 <= i < |rest| ensures Rank(l[0].row.status) <= Rank(rest[i].row.status) {
      assert rest[i] == l[i + 1];
    }
  }

  lemma {:induction false} GroupOfAbsent(l: seq<Item>, s: TodoStatus)
    requires forall i :: 0 <= i < |l| ==> l[i].row.status != s
    ensures Group(l, s) == []
  {
    if l != [] {
      GroupOfAbsent(l[1..], s);
    }
  }

  /**
   * Under the query's ORDER BY, the page shows the listing itself: the
   * in-progress group, then the pending group, then the done group.
   */
  lemma {:induction false} GroupsFollowListing(l: seq<Item>)
    requires ListingOrdered(l)
    ensures l == Group(l, InProgress) + Group(l, Pending) + Group(l, Done)
  {
    if l != [] {
      var x, rest := l[0], l[1..];
      OrderedTail(l);
      GroupsFollowListing(rest);
      if x.row.status != InProgress {
        GroupOfAbsent(rest, InProgress);
      }
      if x.row.status == Done {
        GroupOfAbsent(rest, Pending);
      }
      ConsGroups(l);
    }
  }

  /** The step of GroupsFollowListing: the first row joins the front of its own group. */
  lemma ConsGroups(l: seq<Item>)
    requires l != []
    requires l[1..] == Group(l[1..], InProgress) + Group(l[1..], Pending) + Group(l[1..], Done)
    requires l[0].row.status != InProgress ==> Group(l[1..], InProgress) == []
    requires l[0].row.status == Done ==> Group(l[1..], Pending) == []
    ensures l == Group(l, InProgress) + Group(l, Pending) + Group(l, Done)
  {
    var x, rest := l[0], l[1..];
    var a, b, c := Group(rest, InProgress), Group(rest, Pending), Group(rest, Done);
    assert l == [x] + rest;
    if x.row.status == InProgress {
      assert Group(l, InProgress) == [x] + a && Group(l, Pending) == b && Group(l, Done) == c;
      Regroup(x, a, b, c);
    } else if x.row.status == Pending {
      assert Group(l, InProgress) == a && Group(l, Pending) == [x] + b && Group(l, Done) == c;
      Regroup(x, [], b, c);
    } else {
      assert Group(l, InProgress) == a && Group(l, Pending) == b && Group(l, Done) == [x] + c;
      Regroup(x, [], [], c);
    }
  }

  /** Putting `x` in front of the first non-empty part of a + b + c puts it in front of the whole. */
  lemma Regroup(x: Item, a: seq<Item>, b: seq<Item>, c: seq<Item>)
    ensures ([x] + a) + b + c == [x] + (a + b + c)
    ensures a == [] ==> a + ([x] + b) + c == [x] + (a + b + c)
    ensures a == [] && b == [] ==> a + b + ([x] + c) == [x] + (a + b + c)
  {
  }

  /** A bound on the creation times of a status's rows bounds its group too. */
  lemma {:induction false} GroupBounded(l: seq<Item>, s: TodoStatus, newest: Timestamp)
    requires forall i :: 0 <= i < |l| && l[i].row.status == s ==> l[i].row.createdAt <= newest
    ensures forall j :: 0 <= j < |Group(l, s)| ==> Group(l, s)[j].row.createdAt <= newest
  {
    if l != [] {
      GroupBounded(l[1..], s, newest);
    }
  }

  /** Within each group the to-do items are newest first. */
  lemma {:induction false} GroupNewestFirst(l: seq<Item>, s: TodoStatus)
    requires ListingOrdered(l)
    ensures NewestFirst(Group(l, s))
  {
    if l != [] {
      var x, rest := l[0], l[1..];
      OrderedTail(l);
      GroupNewestFirst(rest, s);
      if x.row.status == s {
        GroupBounded(rest, s, x.row.createdAt);
        ConsNewest(x, Group(rest, s));
      }
    }
  }

  /** A row no younger than every row of a newest-first group can go in front of it. */
  lemma ConsNewest(x: Item, g: seq<Item>)
    requires NewestFirst(g)
    requires forall j :: 0 <= j < |g| ==> g[j].row.createdAt <= x.row.createdAt
    ensures NewestFirst([x] + g)
  {
    var h := [x] + g;
    forall i, j | 0 <= i < j < |h| ensures h[i].row.createdAt >= h[j].row.createdAt {
      assert h[j] == g[j - 1];
      if i > 0 {
        assert h[i] == g[i - 1];
      }
    }
  }

  /** The ids of a listing, in order. */
  function IdsOf(l: seq<Item>): seq<nat> {
    seq(|l|, i requires 0 <= i < |l| => l[i].id)
  }

  function AnyTodo(r: TodoRow): bool { true }

  /** The listing shows every row of the table once, with its current columns. */
  ghost predicate ListsTable(t: Table<TodoRow>, l: seq<Item>) {
    && Lists(t, AnyTodo, IdsOf(l))
    && forall i :: 0 <= i < |l| ==> l[i].id in t.rows && t.rows[l[i].id] == l[i].row
  }

  /** "Total Tasks" is the number of rows in the table. */
  lemma TotalIsTableSize(t: Table<TodoRow>, l: seq<Item>)
    requires ListsTable(t, l)
    ensures |l| == |t.rows|
  {
    ListsCount(t, AnyTodo, IdsOf(l));
    assert Ids(t, AnyTodo) == t.rows.Keys;
  }
}
