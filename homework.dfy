/**
 * The homework tracker (pages/homework_tracker.py): the form's default
 * status, the save loop that updates or inserts one row per (student, date),
 * and the history listing with its status counts.
 */
module Homework {
  import opened Tables
  import opened Schema

  /** The WHERE clause student_id = ? AND date = ?. */
  function Key(studentId: nat, date: Date): HomeworkRow -> bool {
    (r: HomeworkRow) => r.studentId == studentId && r.date == date
  }

  /**
   * The status the form shows for a student: the stored status of the first
   * row the lookup `found` returned, or on_time when there is none.
   */
  function CurrentStatus(t: Table<HomeworkRow>, studentId: nat, date: Date, found: seq<nat>): (s: HomeworkStatus)
    requires Lists(t, Key(studentId, date), found)
    ensures Ids(t, Key(studentId, date)) == {} ==> s == OnTime
    ensures Ids(t, Key(studentId, date)) != {} ==>
      exists k :: k in Ids(t, Key(studentId, date)) && t.rows[k].status == s
  {
    ListsCount(t, Key(studentId, date), found);
    if |found| > 0 then
      assert found[0] in Ids(t, Key(studentId, date));
      t.rows[found[0]].status
    else OnTime
  }

  /** One entry of the form's homework_data: a student and the chosen status. */
  datatype Entry = Entry(studentId: nat, status: HomeworkStatus)

  /** The form has one entry per student of the class: student ids are distinct. */
  ghost predicate DistinctStudents(entries: seq<Entry>) {
    forall i, j :: 0 <= i < j < |entries| ==> entries[i].studentId != entries[j].studentId
  }

  /** The SET clause status = ?. */
  function SetStatus(s: HomeworkStatus): HomeworkRow -> HomeworkRow {
    (r: HomeworkRow) => r.(status := s)
  }

  /** One iteration of the save loop: update the (student, date) rows if any exist, else insert. */
  function SaveOne(t: Table<HomeworkRow>, date: Date, e: Entry): (u: Table<HomeworkRow>)
    requires Valid(t)
    ensures Valid(u)
  {
    UpsertMatches(t, Key(e.studentId, date), SetStatus(e.status), HomeworkRow(e.studentId, date, e.status));
    Upsert(t, Key(e.studentId, date), SetStatus(e.status), HomeworkRow(e.studentId, date, e.status))
  }

  /** The table after the save loop has handled `entries` in order. */
  function SaveAll(t: Table<HomeworkRow>, date: Date, entries: seq<Entry>): (u: Table<HomeworkRow>)
    requires Valid(t)
    ensures Valid(u)
    decreases |entries|
  {
    if entries == [] then t
    else SaveOne(SaveAll(t, date, entries[..|entries| - 1]), date, entries[|entries| - 1])
  }

  /** The "Save Homework Status" handler. */
  method SaveHomework(db: SchoolDb, date: Date, entries: seq<Entry>)
    requires db.Valid()
    modifies db`homework
    ensures db.Valid()
    ensures db.homework == SaveAll(old(db.homework), date, entries)
  {
    var i := 0;
    while i < |entries|
      invariant 0 <= i <= |entries|
      invariant db.Valid()
      invariant db.homework == SaveAll(old(db.homework), date, entries[..i])
    {
      assert entries[..i + 1][..i] == entries[..i];
      db.homework := SaveOne(db.homework, date, entries[i]);
      i := i + 1;
    }
    assert entries[..i] == entries;
  }

  /** After a save, entry `e`'s pair has at least one row and every such row carries e's status. */
  ghost predicate Saved(u: Table<HomeworkRow>, date: Date, e: Entry) {
    && Ids(u, Key(e.studentId, date)) != {}
    && forall k :: k in Ids(u, Key(e.studentId, date)) ==> u.rows[k].status == e.status
  }

  /** A pair that had rows keeps exactly those rows; a pair that had none now has one. */
  ghost predicate KeptOrAdded(t: Table<HomeworkRow>, u: Table<HomeworkRow>, date: Date, e: Entry) {
    && (Ids(t, Key(e.studentId, date)) != {} ==> Ids(u, Key(e.studentId, date)) == Ids(t, Key(e.studentId, date)))
    && (Ids(t, Key(e.studentId, date)) == {} ==> |Ids(u, Key(e.studentId, date))| == 1)
  }

  /** Saving one student's status does not touch another student's rows for that date. */
  lemma SaveOneOtherStudent(t: Table<HomeworkRow>, date: Date, e: Entry, other: nat)
    requires Valid(t) && other != e.studentId
    ensures Ids(SaveOne(t, date, e), Key(other, date)) == Ids(t, Key(other, date))
    ensures forall k :: k in Ids(t, Key(other, date)) ==> SaveOne(t, date, e).rows[k] == t.rows[k]
  {
    UpsertOtherKey(t, Key(e.studentId, date), SetStatus(e.status), HomeworkRow(e.studentId, date, e.status), Key(other, date));
  }

  /**
   * After the save every submitted student has rows for the date, all with the
   * submitted status, and no pair that already had rows gets a second one.
   */
  lemma SaveEffect(t: Table<HomeworkRow>, date: Date, entries: seq<Entry>)
    requires Valid(t) && DistinctStudents(entries)
    ensures forall i :: 0 <= i < |entries| ==> Saved(SaveAll(t, date, entries), date, entries[i])
    ensures forall i :: 0 <= i < |entries| ==> KeptOrAdded(t, SaveAll(t, date, entries), date, entries[i])
  {
    forall i | 0 <= i < |entries|
      ensures Saved(SaveAll(t, date, entries), date, entries[i])
      ensures KeptOrAdded(t, SaveAll(t, date, entries), date, entries[i])
    {
      SaveEffectAt(t, date, entries, i);
    }
  }

  /** SaveEffect for the entry at index `i`, by induction on the entries saved. */
  lemma {:induction false} SaveEffectAt(t: Table<HomeworkRow>, date: Date, entries: seq<Entry>, i: nat)
    requires Valid(t) && DistinctStudents(entries) && i < |entries|
    ensures Saved(SaveAll(t, date, entries), date, entries[i])
    ensures KeptOrAdded(t, SaveAll(t, date, entries), date, entries[i])
  {
    var n := |entries| - 1;
    if i < n {
      assert DistinctStudents(entries[..n]);
      SaveEffectAt(t, date, entries[..n], i);
      SaveOther(t, SaveAll(t, date, entries[..n]), date, entries[n], entries[..n][i]);
    } else {
      SaveEffectLast(t, date, entries);
    }
  }

  /** SaveEffect for the entry saved last. */
  lemma SaveEffectLast(t: Table<HomeworkRow>, date: Date, entries: seq<Entry>)
    requires Valid(t) && DistinctStudents(entries) && entries != []
    ensures Saved(SaveAll(t, date, entries), date, entries[|entries| - 1])
    ensures KeptOrAdded(t, SaveAll(t, date, entries), date, entries[|entries| - 1])
  {
    var n := |entries| - 1;
    var init, last := entries[..n], entries[n];
    forall j | 0 <= j < |init| ensures init[j].studentId != last.studentId {
      assert init[j] == entries[j];
    }
    SaveOneOtherKeyFree(t, date, init, last.studentId);
    SaveLast(t, SaveAll(t, date, init), date, last);
  }

  /** An earlier entry stays saved when a later entry for another student is saved. */
  lemma SaveOther(t: Table<HomeworkRow>, mid: Table<HomeworkRow>, date: Date, last: Entry, e: Entry)
    requires Valid(mid) && e.studentId != last.studentId
    requires Saved(mid, date, e) && KeptOrAdded(t, mid, date, e)
    ensures Saved(SaveOne(mid, date, last), date, e) && KeptOrAdded(t, SaveOne(mid, date, last), date, e)
  {
    SaveOneOtherStudent(mid, date, last, e.studentId);
  }

  /** The entry saved last: its pair's rows before the loop are its rows before this step. */
  lemma SaveLast(t: Table<HomeworkRow>, mid: Table<HomeworkRow>, date: Date, e: Entry)
    requires Valid(mid) && Ids(mid, Key(e.studentId, date)) == Ids(t, Key(e.studentId, date))
    ensures Saved(SaveOne(mid, date, e), date, e)
    ensures KeptOrAdded(t, SaveOne(mid, date, e), date, e)
  {
    UpsertMatches(mid, Key(e.studentId, date), SetStatus(e.status), HomeworkRow(e.studentId, date, e.status));
    assert |{NextId(mid)}| == 1;
  }

  /** Entries for other students leave a student's rows for the date as they were. */
  lemma {:induction false} SaveOneOtherKeyFree(t: Table<HomeworkRow>, date: Date, entries: seq<Entry>, sid: nat)
    requires Valid(t)
    requires forall i :: 0 <= i < |entries| ==> entries[i].studentId != sid
    ensures Ids(SaveAll(t, date, entries), Key(sid, date)) == Ids(t, Key(sid, date))
    ensures forall k :: k in Ids(t, Key(sid, date)) ==> SaveAll(t, date, entries).rows[k] == t.rows[k]
  {
    if entries != [] {
      var n := |entries| - 1;
      SaveOneOtherKeyFree(t, date, entries[..n], sid);
      SaveOneOtherStudent(SaveAll(t, date, entries[..n]), date, entries[n], sid);
    }
  }

  /** A student is in the form. */
  predicate InForm(entries: seq<Entry>, sid: nat) {
    exists i :: 0 <= i < |entries| && entries[i].studentId == sid
  }

  /** A row the save of `entries` for `date` is not about. */
  predicate Outside(entries: seq<Entry>, date: Date, r: HomeworkRow) {
    r.date != date || !InForm(entries, r.studentId)
  }

  /** Every row of `t` outside the form is in `u` unchanged, and every new row of `u` is inside it. */
  ghost predicate OnlyFormRows(t: Table<HomeworkRow>, u: Table<HomeworkRow>, date: Date, entries: seq<Entry>) {
    && t.rows.Keys <= u.rows.Keys
    && (forall k :: k in t.rows && Outside(entries, date, t.rows[k]) ==> u.rows[k] == t.rows[k])
    && (forall k :: k in u.rows && k !in t.rows ==> !Outside(entries, date, u.rows[k]))
  }

  /** One step of the loop keeps OnlyFormRows with the entry added to the form. */
  lemma SaveOneOnlyFormRows(t: Table<HomeworkRow>, mid: Table<HomeworkRow>, date: Date, init: seq<Entry>, last: Entry)
    requires Valid(mid) && OnlyFormRows(t, mid, date, init)
    ensures OnlyFormRows(t, SaveOne(mid, date, last), date, init + [last])
  {
    var entries := init + [last];
    var u := SaveOne(mid, date, last);
    var p := Key(last.studentId, date);
    UpsertKeepsOthers(mid, p, SetStatus(last.status), HomeworkRow(last.studentId, date, last.status));
    UpsertMatches(mid, p, SetStatus(last.status), HomeworkRow(last.studentId, date, last.status));
    assert entries[|init|] == last;
    forall sid | InForm(init, sid) ensures InForm(entries, sid) {
      var j :| 0 <= j < |init| && init[j].studentId == sid;
      assert entries[j] == init[j];
    }
    forall k | k in u.rows && k !in t.rows ensures !Outside(entries, date, u.rows[k]) {
      if k in mid.rows && !p(mid.rows[k]) {
        assert u.rows[k] == mid.rows[k];
      } else {
        assert k in Ids(u, p);
      }
    }
  }

  /**
   * Rows for other dates and for students not in the form keep their ids and
   * contents, and every new row belongs to a submitted student and the date.
   */
  lemma {:induction false} SaveKeepsOthers(t: Table<HomeworkRow>, date: Date, entries: seq<Entry>)
    requires Valid(t)
    ensures OnlyFormRows(t, SaveAll(t, date, entries), date, entries)
  {
    if entries != [] {
      var n := |entries| - 1;
      SaveKeepsOthers(t, date, entries[..n]);
      SaveOneOnlyFormRows(t, SaveAll(t, date, entries[..n]), date, entries[..n], entries[n]);
      assert entries[..n] + [entries[n]] == entries;
    }
  }

  /** Saving statuses that every pair already carries changes nothing. */
  lemma {:induction false} SaveAllFixed(u: Table<HomeworkRow>, date: Date, entries: seq<Entry>)
    requires Valid(u)
    requires forall i :: 0 <= i < |entries| ==> Saved(u, date, entries[i])
    ensures SaveAll(u, date, entries) == u
  {
    if entries != [] {
      var n := |entries| - 1;
      SaveAllFixed(u, date, entries[..n]);
      var e := entries[n];
      assert Saved(u, date, e);
      UpsertFixed(u, Key(e.studentId, date), SetStatus(e.status), HomeworkRow(e.studentId, date, e.status));
    }
  }

  /** Saving the same form twice leaves the table as the first save left it. */
  lemma SaveIdempotent(t: Table<HomeworkRow>, date: Date, entries: seq<Entry>)
    requires Valid(t) && DistinctStudents(entries)
    ensures SaveAll(SaveAll(t, date, entries), date, entries) == SaveAll(t, date, entries)
  {
    SaveEffect(t, date, entries);
    SaveAllFixed(SaveAll(t, date, entries), date, entries);
  }

  /** After a save, the form opened again for the date shows each submitted status. */
  lemma PrefillAfterSave(t: Table<HomeworkRow>, date: Date, entries: seq<Entry>, i: nat, found: seq<nat>)
    requires Valid(t) && DistinctStudents(entries) && i < |entries|
    requires Lists(SaveAll(t, date, entries), Key(entries[i].studentId, date), found)
    ensures CurrentStatus(SaveAll(t, date, entries), entries[i].studentId, date, found) == entries[i].status
  {
    SaveEffect(t, date, entries);
    assert Saved(SaveAll(t, date, entries), date, entries[i]);
  }

  /** One line of the history: student name, date and status. */
  datatype HistoryLine = HistoryLine(name: string, date: Date, status: HomeworkStatus)

  /** The history query's JOIN and WHERE: a student of the class, a date in [start, end]. */
  function InHistory(students: Table<StudentRow>, className: string, start: Date, end: Date): HomeworkRow -> bool {
    (r: HomeworkRow) => r.studentId in students.rows && students.rows[r.studentId].className == className
      && start <= r.date <= end
  }

  /** SQLite's BINARY collation on text: code point by code point, a prefix first. */
  predicate TextLe(a: string, b: string) {
    a == [] || (b != [] && (a[0] < b[0] || (a[0] == b[0] && TextLe(a[1..], b[1..]))))
  }

  /** The history as the page receives it: the selected rows, ordered by date, then name. */
  ghost predicate HistoryListing(t: Table<HomeworkRow>, students: Table<StudentRow>, className: string,
                                 start: Date, end: Date, ids: seq<nat>, lines: seq<HistoryLine>) {
    && Lists(t, InHistory(students, className, start, end), ids)
    && |lines| == |ids|
    && (forall i :: 0 <= i < |ids| ==>
         && ids[i] in t.rows && t.rows[ids[i]].studentId in students.rows
         && lines[i] == HistoryLine(students.rows[t.rows[ids[i]].studentId].name, t.rows[ids[i]].date, t.rows[ids[i]].status))
    && (forall i, j :: 0 <= i < j < |lines| ==>
         lines[i].date < lines[j].date || (lines[i].date == lines[j].date && TextLe(lines[i].name, lines[j].name)))
  }

  /** Every history line is a row of the class within the date range, in date order. */
  lemma HistoryInRange(t: Table<HomeworkRow>, students: Table<StudentRow>, className: string,
                       start: Date, end: Date, ids: seq<nat>, lines: seq<HistoryLine>)
    requires HistoryListing(t, students, className, start, end, ids, lines)
    ensures |lines| == |Ids(t, InHistory(students, className, start, end))|
    ensures forall i :: 0 <= i < |lines| ==> start <= lines[i].date <= end
    ensures forall i, j :: 0 <= i < j < |lines| ==> lines[i].date <= lines[j].date
  {
    ListsCount(t, InHistory(students, className, start, end), ids);
    forall i | 0 <= i < |lines| ensures start <= lines[i].date <= end {
      assert InHistory(students, className, start, end)(t.rows[ids[i]]);
    }
  }

  /** value_counts().get(status, 0). */
  function CountStatus(lines: seq<HistoryLine>, s: HomeworkStatus): (n: nat)
    ensures n <= |lines|
    ensures n == 0 <==> forall i :: 0 <= i < |lines| ==> lines[i].status != s
  {
    if lines == [] then 0
    else (if lines[0].status == s then 1 else 0) + CountStatus(lines[1..], s)
  }

  /** The three summary metrics add up to the number of history lines. */
  lemma {:induction false} StatusCountsSum(lines: seq<HistoryLine>)
    ensures CountStatus(lines, OnTime) + CountStatus(lines, Late) + CountStatus(lines, Absent) == |lines|
  {
    if lines != [] {
      StatusCountsSum(lines[1..]);
    }
  }
}
