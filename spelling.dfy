/**
 * Weekly spelling tests (pages/spelling_tests.py): the score form, the save
 * loop that skips zero scores and updates or inserts one row per
 * (student, week), and the latest-week summary.
 */
module Spelling {
  import opened Tables
  import opened Schema

  /** One number input of the form: a student and the score entered. */
  datatype ScoreEntry = ScoreEntry(studentId: nat, score: int)

  /** The widget bounds: max_score is at least 1 and every score lies in [0, max_score]. */
  ghost predicate FormBounds(maxScore: int, entries: seq<ScoreEntry>) {
    maxScore >= 1 && forall i :: 0 <= i < |entries| ==> 0 <= entries[i].score <= maxScore
  }

  /** One entry per student of the class. */
  ghost predicate DistinctStudents(entries: seq<ScoreEntry>) {
    forall i, j :: 0 <= i < j < |entries| ==> entries[i].studentId != entries[j].studentId
  }

  /** (score / max_score) * 100, as an exact real. */
  function Percentage(score: int, maxScore: int): (p: real)
    requires maxScore >= 1
    ensures 0 < score <= maxScore ==> 0.0 < p <= 100.0
    ensures score == maxScore ==> p == 100.0
    ensures p * maxScore as real == score as real * 100.0
  {
    (score as real / maxScore as real) * 100.0
  }

  /** The WHERE clause student_id = ? AND week_date = ?. */
  function Key(studentId: nat, week: Date): SpellingRow -> bool {
    (r: SpellingRow) => r.studentId == studentId && r.weekDate == week
  }

  /** The SET clause score = ?, max_score = ?, percentage = ?. */
  function SetScore(score: int, maxScore: int, percentage: real): SpellingRow -> SpellingRow {
    (r: SpellingRow) => r.(score := score, maxScore := maxScore, percentage := percentage)
  }

  /** The row a saved entry leaves for its (student, week). */
  function RowFor(e: ScoreEntry, maxScore: int, week: Date): SpellingRow
    requires maxScore >= 1
  {
    SpellingRow(e.studentId, e.score, maxScore, week, Percentage(e.score, maxScore))
  }

  /** One iteration of the save loop: a zero score is skipped, any other is upserted. */
  function SaveOne(t: Table<SpellingRow>, week: Date, maxScore: int, e: ScoreEntry): (u: Table<SpellingRow>)
    requires Valid(t) && maxScore >= 1
    ensures Valid(u)
  {
    if e.score > 0 then
      var pct := Percentage(e.score, maxScore);
      UpsertMatches(t, Key(e.studentId, week), SetScore(e.score, maxScore, pct), RowFor(e, maxScore, week));
      Upsert(t, Key(e.studentId, week), SetScore(e.score, maxScore, pct), RowFor(e, maxScore, week))
    else t
  }

  /** The table after the save loop has handled `entries` in order. */
  function SaveAll(t: Table<SpellingRow>, week: Date, maxScore: int, entries: seq<ScoreEntry>): (u: Table<SpellingRow>)
    requires Valid(t) && maxScore >= 1
    ensures Valid(u)
    decreases |entries|
  {
    if entries == [] then t
    else SaveOne(SaveAll(t, week, maxScore, entries[..|entries| - 1]), week, maxScore, entries[|entries| - 1])
  }

  /** The "Save Scores" handler. */
  method SaveScores(db: SchoolDb, week: Date, maxScore: int, entries: seq<ScoreEntry>)
    requires db.Valid() && FormBounds(maxScore, entries)
    modifies db`spellingTests
    ensures db.Valid()
    ensures db.spellingTests == SaveAll(old(db.spellingTests), week, maxScore, entries)
  {
    var i := 0;
    while i < |entries|
      invariant 0 <= i <= |entries|
      invariant db.Valid()
      invariant db.spellingTests == SaveAll(old(db.spellingTests), week, maxScore, entries[..i])
    {
      assert entries[..i + 1][..i] == entries[..i];
      var e := entries[i];
      if e.score > 0 {
        var percentage := (e.score as real / maxScore as real) * 100.0;
        var key := Key(e.studentId, week);
        if Ids(db.spellingTests, key) != {} {
          db.spellingTests := UpdateWhere(db.spellingTests, key, SetScore(e.score, maxScore, percentage));
        } else {
          db.spellingTests := Insert(db.spellingTests, SpellingRow(e.studentId, e.score, maxScore, week, percentage));
        }
      }
      i := i + 1;
    }
    assert entries[..i] == entries;
  }

  /** After a save, each row of the entry's (student, week) holds exactly the entered score. */
  ghost predicate Saved(u: Table<SpellingRow>, week: Date, maxScore: int, e: ScoreEntry)
    requires maxScore >= 1
  {
    && Ids(u, Key(e.studentId, week)) != {}
    && forall k :: k in Ids(u, Key(e.studentId, week)) ==> u.rows[k] == RowFor(e, maxScore, week)
  }

  /** A pair's rows before and after: the same ids if it had some, exactly one if it had none. */
  ghost predicate KeptOrAdded(t: Table<SpellingRow>, u: Table<SpellingRow>, week: Date, e: ScoreEntry) {
    && (Ids(t, Key(e.studentId, week)) != {} ==> Ids(u, Key(e.studentId, week)) == Ids(t, Key(e.studentId, week)))
    && (Ids(t, Key(e.studentId, week)) == {} ==> |Ids(u, Key(e.studentId, week))| == 1)
  }

  /** A pair's rows are untouched: the same ids with the same contents. */
  ghost predicate Untouched(t: Table<SpellingRow>, u: Table<SpellingRow>, week: Date, sid: nat) {
    && Ids(u, Key(sid, week)) == Ids(t, Key(sid, week))
    && forall k :: k in Ids(t, Key(sid, week)) ==> u.rows[k] == t.rows[k]
  }

  /** The effect a save has on an entry's pair. */
  ghost predicate EntryEffect(t: Table<SpellingRow>, u: Table<SpellingRow>, week: Date, maxScore: int, e: ScoreEntry)
    requires maxScore >= 1
  {
    if e.score > 0 then Saved(u, week, maxScore, e) && KeptOrAdded(t, u, week, e)
    else Untouched(t, u, week, e.studentId)
  }

  /** Saving one entry leaves another student's rows for the week untouched. */
  lemma SaveOneOtherStudent(t: Table<SpellingRow>, week: Date, maxScore: int, e: ScoreEntry, other: nat)
    requires Valid(t) && maxScore >= 1 && other != e.studentId
    ensures Untouched(t, SaveOne(t, week, maxScore, e), week, other)
  {
    if e.score > 0 {
      var pct := Percentage(e.score, maxScore);
      UpsertOtherKey(t, Key(e.studentId, week), SetScore(e.score, maxScore, pct), RowFor(e, maxScore, week), Key(other, week));
    }
  }

  /** Untouched composes. */
  lemma UntouchedTrans(a: Table<SpellingRow>, b: Table<SpellingRow>, c: Table<SpellingRow>, week: Date, sid: nat)
    requires Untouched(a, b, week, sid) && Untouched(b, c, week, sid)
    ensures Untouched(a, c, week, sid)
  {
  }

  /** Entries for other students leave a student's rows for the week untouched. */
  lemma {:induction false} SaveAllOtherStudents(t: Table<SpellingRow>, week: Date, maxScore: int, entries: seq<ScoreEntry>, sid: nat)
    requires Valid(t) && maxScore >= 1
    requires forall i :: 0 <= i < |entries| ==> entries[i].studentId != sid
    ensures Untouched(t, SaveAll(t, week, maxScore, entries), week, sid)
  {
    if entries != [] {
      var n := |entries| - 1;
      SaveAllOtherStudents(t, week, maxScore, entries[..n], sid);
      SaveOneOtherStudent(SaveAll(t, week, maxScore, entries[..n]), week, maxScore, entries[n], sid);
      UntouchedTrans(t, SaveAll(t, week, maxScore, entries[..n]), SaveAll(t, week, maxScore, entries), week, sid);
    }
  }

  /** The step for the entry saved last, given that its pair was untouched before. */
  lemma SaveLast(t: Table<SpellingRow>, mid: Table<SpellingRow>, week: Date, maxScore: int, e: ScoreEntry)
    requires Valid(mid) && maxScore >= 1 && Untouched(t, mid, week, e.studentId)
    ensures EntryEffect(t, SaveOne(mid, week, maxScore, e), week, maxScore, e)
  {
    if e.score > 0 {
      var pct := Percentage(e.score, maxScore);
      UpsertMatches(mid, Key(e.studentId, week), SetScore(e.score, maxScore, pct), RowFor(e, maxScore, week));
      assert |{NextId(mid)}| == 1;
    }
  }

  /** The step for an earlier entry: a later entry for another student keeps its effect. */
  lemma SaveOther(t: Table<SpellingRow>, mid: Table<SpellingRow>, week: Date, maxScore: int, last: ScoreEntry, e: ScoreEntry)
    requires Valid(mid) && maxScore >= 1 && e.studentId != last.studentId
    requires EntryEffect(t, mid, week, maxScore, e)
    ensures EntryEffect(t, SaveOne(mid, week, maxScore, last), week, maxScore, e)
  {
    SaveOneOtherStudent(mid, week, maxScore, last, e.studentId);
  }

  /** The last entry of the form has its effect after the whole save. */
  lemma SaveEffectLast(t: Table<SpellingRow>, week: Date, maxScore: int, entries: seq<ScoreEntry>)
    requires Valid(t) && maxScore >= 1 && DistinctStudents(entries) && entries != []
    ensures EntryEffect(t, SaveAll(t, week, maxScore, entries), week, maxScore, entries[|entries| - 1])
  {
    var n := |entries| - 1;
    var init, last := entries[..n], entries[n];
    forall j | 0 <= j < |init| ensures init[j].studentId != last.studentId {
      assert init[j] == entries[j];
    }
    SaveAllOtherStudents(t, week, maxScore, init, last.studentId);
    SaveLast(t, SaveAll(t, week, maxScore, init), week, maxScore, last);
  }

  /** Entry `i` has its effect after the whole save. */
  lemma {:induction false} SaveEffectAt(t: Table<SpellingRow>, week: Date, maxScore: int, entries: seq<ScoreEntry>, i: nat)
    requires Valid(t) && maxScore >= 1 && DistinctStudents(entries) && i < |entries|
    ensures EntryEffect(t, SaveAll(t, week, maxScore, entries), week, maxScore, entries[i])
  {
    var n := |entries| - 1;
    if i < n {
      assert DistinctStudents(entries[..n]);
      SaveEffectAt(t, week, maxScore, entries[..n], i);
      SaveOther(t, SaveAll(t, week, maxScore, entries[..n]), week, maxScore, entries[n], entries[..n][i]);
    } else {
      SaveEffectLast(t, week, maxScore, entries);
    }
  }

  /**
   * After the save: a non-zero entry's (student, week) rows hold exactly that
   * score, max_score and percentage, with no second row for a pair that had
   * one; a zero entry leaves its pair's rows as they were.
   */
  lemma SaveEffect(t: Table<SpellingRow>, week: Date, maxScore: int, entries: seq<ScoreEntry>)
    requires Valid(t) && maxScore >= 1 && DistinctStudents(entries)
    ensures forall i :: 0 <= i < |entries| ==> EntryEffect(t, SaveAll(t, week, maxScore, entries), week, maxScore, entries[i])
  {
    forall i | 0 <= i < |entries|
      ensures EntryEffect(t, SaveAll(t, week, maxScore, entries), week, maxScore, entries[i])
    {
      SaveEffectAt(t, week, maxScore, entries, i);
    }
  }

  /** Every percentage the save writes lies in (0, 100]. */
  lemma {:induction false} SavedPercentages(t: Table<SpellingRow>, week: Date, maxScore: int, entries: seq<ScoreEntry>)
    requires Valid(t) && FormBounds(maxScore, entries)
    requires forall k :: k in t.rows ==> 0.0 < t.rows[k].percentage <= 100.0
    ensures forall k :: k in SaveAll(t, week, maxScore, entries).rows ==>
      0.0 < SaveAll(t, week, maxScore, entries).rows[k].percentage <= 100.0
  {
    if entries != [] {
      var n := |entries| - 1;
      assert FormBounds(maxScore, entries[..n]);
      SavedPercentages(t, week, maxScore, entries[..n]);
      var mid := SaveAll(t, week, maxScore, entries[..n]);
      var e := entries[n];
      if e.score > 0 {
        var pct := Percentage(e.score, maxScore);
        UpsertKeepsOthers(mid, Key(e.studentId, week), SetScore(e.score, maxScore, pct), RowFor(e, maxScore, week));
        UpsertMatches(mid, Key(e.studentId, week), SetScore(e.score, maxScore, pct), RowFor(e, maxScore, week));
      }
    }
  }

  /** One row of the analysis query. */
  datatype Line = Line(name: string, score: int, maxScore: int, percentage: real, weekDate: Date)

  /** The analysis query's JOIN and WHERE: only rows of students in the class. */
  function InClass(students: Table<StudentRow>, className: string): SpellingRow -> bool {
    (r: SpellingRow) => r.studentId in students.rows && students.rows[r.studentId].className == className
  }

  /** The analysis rows: the class's rows, one line each. */
  ghost predicate ClassListing(t: Table<SpellingRow>, students: Table<StudentRow>, className: string,
                               ids: seq<nat>, lines: seq<Line>) {
    && Lists(t, InClass(students, className), ids)
    && |lines| == |ids|
    && forall i :: 0 <= i < |ids| ==>
         && ids[i] in t.rows && t.rows[ids[i]].studentId in students.rows
         && lines[i] == Line(students.rows[t.rows[ids[i]].studentId].name, t.rows[ids[i]].score,
                             t.rows[ids[i]].maxScore, t.rows[ids[i]].percentage, t.rows[ids[i]].weekDate)
  }

  /** The analysis shows one line per row of the class's students and no other. */
  lemma ListingIsClassRows(t: Table<SpellingRow>, students: Table<StudentRow>, className: string,
                           ids: seq<nat>, lines: seq<Line>)
    requires ClassListing(t, students, className, ids, lines)
    ensures |lines| == |Ids(t, InClass(students, className))|
    ensures forall i :: 0 <= i < |lines| ==> students.rows[t.rows[ids[i]].studentId].className == className
  {
    ListsCount(t, InClass(students, className), ids);
    forall i | 0 <= i < |lines| ensures students.rows[t.rows[ids[i]].studentId].className == className {
      assert InClass(students, className)(t.rows[ids[i]]);
    }
  }

  /** df['Week Date'].max(). */
  function LatestWeek(lines: seq<Line>): (w: Date)
    requires lines != []
    ensures forall i :: 0 <= i < |lines| ==> lines[i].weekDate <= w
    ensures exists i :: 0 <= i < |lines| && lines[i].weekDate == w
  {
    if |lines| == 1 then lines[0].weekDate
    else
      var rest := LatestWeek(lines[1..]);
      assert forall i :: 1 <= i < |lines| ==> lines[i] == lines[1..][i - 1];
      if lines[0].weekDate >= rest then lines[0].weekDate else rest
  }

  /** The number of lines of week `w`. */
  function WeekCount(lines: seq<Line>, w: Date): nat {
    if lines == [] then 0 else (if lines[0].weekDate == w then 1 else 0) + WeekCount(lines[1..], w)
  }

  /** "Students >= 80%": the lines of week `w` whose percentage is at least 80. */
  function CountAtLeast80(lines: seq<Line>, w: Date): (n: nat)
    ensures n <= WeekCount(lines, w)
  {
    if lines == [] then 0
    else (if lines[0].weekDate == w && lines[0].percentage >= 80.0 then 1 else 0) + CountAtLeast80(lines[1..], w)
  }

  /** A week some line has is counted at least once. */
  lemma {:induction false} WeekCountPositive(lines: seq<Line>, i: nat)
    requires i < |lines|
    ensures WeekCount(lines, lines[i].weekDate) >= 1
  {
    if i > 0 {
      WeekCountPositive(lines[1..], i - 1);
      assert lines[1..][i - 1] == lines[i];
    }
  }

  /** With any data at all, the latest week has lines, so the summary is shown. */
  lemma LatestWeekShown(lines: seq<Line>)
    requires lines != []
    ensures WeekCount(lines, LatestWeek(lines)) >= 1
  {
    var i :| 0 <= i < |lines| && lines[i].weekDate == LatestWeek(lines);
    WeekCountPositive(lines, i);
  }
}
