/**
 * Student comments (pages/comments.py): adding a comment, the filtered view
 * whose WHERE clause and parameter list grow condition by condition, and the
 * per-student report that sorts comments into the three category buckets.
 */
module Comments {
  import opened Tables
  import opened Schema

  /** The "Add Comment" form: a non-empty comment is inserted; the evidence may be empty. */
  method AddComment(db: SchoolDb, studentId: nat, category: Category, comment: string, evidence: string, now: Timestamp)
    requires db.Valid()
    modifies db`comments
    ensures db.Valid()
    ensures comment == [] ==> db.comments == old(db.comments)
    ensures comment != [] ==> db.comments == Insert(old(db.comments), CommentRow(studentId, category, comment, evidence, now))
  {
    if comment != [] {
      db.comments := Insert(db.comments, CommentRow(studentId, category, comment, evidence, now));
    }
  }

  /** The two filter boxes: "All Students" or one name, "All Categories" or one category. */
  datatype StudentFilter = AllStudents | OneStudent(name: string)
  datatype CategoryFilter = AllCategories | OneCategory(category: Category)

  /**
   * The conditions of the WHERE clause, in the order they are appended; each
   * carries exactly one `?` placeholder.
   */
  datatype Cond = ClassIs | NameIs | CategoryIs

  /** A comment joined with its student, as the view query sees it. */
  datatype Joined = Joined(studentName: string, className: string, category: Category, comment: string,
                           evidence: string, createdAt: Timestamp)

  /** One condition, with the parameter bound to its placeholder, holds of a joined row. */
  predicate Holds(c: Cond, param: string, j: Joined) {
    match c
    case ClassIs => j.className == param
    case NameIs => j.studentName == param
    case CategoryIs => j.category.Text() == param
  }

  /** The whole WHERE clause: every condition holds with its own parameter. */
  predicate Selects(conds: seq<Cond>, params: seq<string>, j: Joined)
    requires |conds| == |params|
  {
    forall i :: 0 <= i < |conds| ==> Holds(conds[i], params[i], j)
  }

  /** What the filters mean: the class, the student unless all, the category unless all. */
  predicate Wanted(className: string, sf: StudentFilter, cf: CategoryFilter, j: Joined) {
    && j.className == className
    && (sf.OneStudent? ==> j.studentName == sf.name)
    && (cf.OneCategory? ==> j.category == cf.category)
  }

  /** Distinct categories have distinct texts, so comparing texts compares categories. */
  lemma CategoryTextInjective(a: Category, b: Category)
    ensures a.Text() == b.Text() <==> a == b
  {
  }

  /**
   * The query construction: start with the class condition and its
   * parameter, then append one condition and one parameter per active filter.
   * There are as many placeholders as parameters, and the clause selects
   * exactly the rows the filters describe.
   */
  method BuildFilter(className: string, sf: StudentFilter, cf: CategoryFilter)
    returns (conds: seq<Cond>, params: seq<string>)
    ensures |conds| == |params| && 1 <= |conds| <= 3
    ensures conds[0] == ClassIs && params[0] == className
    ensures forall j :: Selects(conds, params, j) <==> Wanted(className, sf, cf, j)
  {
    conds := [ClassIs];
    params := [className];
    if sf.OneStudent? {
      conds := conds + [NameIs];
      params := params + [sf.name];
    }
    if cf.OneCategory? {
      conds := conds + [CategoryIs];
      params := params + [cf.category.Text()];
    }
    forall j ensures Selects(conds, params, j) <==> Wanted(className, sf, cf, j) {
      if cf.OneCategory? {
        CategoryTextInjective(j.category, cf.category);
        assert Holds(conds[|conds| - 1], params[|params| - 1], j) <==> j.category == cf.category;
      }
      if sf.OneStudent? {
        assert Holds(conds[1], params[1], j) <==> j.studentName == sf.name;
      }
      assert Holds(conds[0], params[0], j) <==> j.className == className;
    }
  }

  /** One row of the report query, in its order (created_at DESC). */
  datatype ReportRow = ReportRow(category: Category, comment: string, evidence: string, createdAt: Timestamp)

  /** The entry a bucket receives. */
  datatype ReportItem = ReportItem(comment: string, evidence: string, createdAt: Timestamp)

  function ItemOf(r: ReportRow): ReportItem {
    ReportItem(r.comment, r.evidence, r.createdAt)
  }

  /** The bucket of category `c`: that category's rows, in query order. */
  function Bucket(rows: seq<ReportRow>, c: Category): (b: seq<ReportItem>)
    ensures |b| <= |rows|
  {
    if rows == [] then []
    else Bucket(rows[..|rows| - 1], c) + (if rows[|rows| - 1].category == c then [ItemOf(rows[|rows| - 1])] else [])
  }

  /** Each row lands in exactly one bucket: the bucket sizes add up to the number of rows. */
  lemma {:induction false} BucketsPartition(rows: seq<ReportRow>)
    ensures |Bucket(rows, English)| + |Bucket(rows, Uoi)| + |Bucket(rows, GeneralBehaviour)| == |rows|
  {
    if rows != [] {
      BucketsPartition(rows[..|rows| - 1]);
    }
  }

  /** The three buckets, one per category, as the report dictionary holds them. */
  const Categories: seq<Category> := [English, Uoi, GeneralBehaviour]

  /** Taking one more row adds it to its own category's bucket and to no other. */
  lemma BucketSnoc(rows: seq<ReportRow>, i: nat, c: Category)
    requires i < |rows|
    ensures Bucket(rows[..i + 1], c) ==
      Bucket(rows[..i], c) + (if rows[i].category == c then [ItemOf(rows[i])] else [])
  {
    assert rows[..i + 1][..i] == rows[..i];
  }

  /** The report loop: each row is appended to its category's bucket. */
  method GroupByCategory(rows: seq<ReportRow>) returns (buckets: map<Category, seq<ReportItem>>)
    ensures buckets.Keys == {English, Uoi, GeneralBehaviour}
    ensures forall c :: c in buckets ==> buckets[c] == Bucket(rows, c)
  {
    buckets := map[English := [], Uoi := [], GeneralBehaviour := []];
    for i := 0 to |rows|
      invariant buckets.Keys == {English, Uoi, GeneralBehaviour}
      invariant forall c :: c in buckets ==> buckets[c] == Bucket(rows[..i], c)
    {
      var r := rows[i];
      assert r.category in buckets by {
        assert r.category.English? || r.category.Uoi? || r.category.GeneralBehaviour?;
      }
      buckets := buckets[r.category := buckets[r.category] + [ItemOf(r)]];
      forall c | c in buckets ensures buckets[c] == Bucket(rows[..i + 1], c) {
        BucketSnoc(rows, i, c);
      }
    }
    assert rows[..|rows|] == rows;
  }

  /** The headings the report prints: each non-empty bucket, with its size, in the order of `cats` (the dictionary's order). */
  function Sections(buckets: map<Category, seq<ReportItem>>, cats: seq<Category>): (s: seq<(Category, nat)>)
    requires forall i :: 0 <= i < |cats| ==> cats[i] in buckets
    ensures |s| <= |cats|
    ensures forall i :: 0 <= i < |s| ==> s[i].0 in buckets && s[i].1 == |buckets[s[i].0]| > 0
    ensures forall i :: 0 <= i < |cats| && |buckets[cats[i]]| > 0 ==> exists j :: 0 <= j < |s| && s[j].0 == cats[i]
  {
    if cats == [] then []
    else
      var rest := Sections(buckets, cats[1..]);
      assert forall i :: 1 <= i < |cats| ==> cats[i] == cats[1..][i - 1];
      if |buckets[cats[0]]| > 0 then
        var s := [(cats[0], |buckets[cats[0]]|)] + rest;
        assert forall i :: 1 <= i <= |rest| ==> s[i] == rest[i - 1];
        assert s[0].0 == cats[0];
        assert forall i :: 1 <= i < |cats| && |buckets[cats[i]]| > 0 ==> exists j :: 0 <= j < |s| && s[j].0 == cats[i] by {
          forall i | 1 <= i < |cats| && |buckets[cats[i]]| > 0 ensures exists j :: 0 <= j < |s| && s[j].0 == cats[i] {
            var j :| 0 <= j < |rest| && rest[j].0 == cats[1..][i - 1];
            assert s[j + 1].0 == cats[i];
          }
        }
        s
      else rest
  }

  /** `xs` is `ys` with some elements left out, the rest kept in order. */
  ghost predicate SubsequenceOf(xs: seq<Category>, ys: seq<Category>)
    decreases |ys|
  {
    xs == [] ||
    (ys != [] && ((xs[0] == ys[0] && SubsequenceOf(xs[1..], ys[1..])) || SubsequenceOf(xs, ys[1..])))
  }

  /** The categories of the headings, in the order printed. */
  function Headings(s: seq<(Category, nat)>): (h: seq<Category>)
    ensures |h| == |s| && forall i :: 0 <= i < |s| ==> h[i] == s[i].0
  {
    seq(|s|, i requires 0 <= i < |s| => s[i].0)
  }

  /** The headings follow the order the categories are iterated in. */
  lemma {:induction false} SectionsFollowCategories(buckets: map<Category, seq<ReportItem>>, cats: seq<Category>)
    requires forall i :: 0 <= i < |cats| ==> cats[i] in buckets
    ensures SubsequenceOf(Headings(Sections(buckets, cats)), cats)
  {
    if cats != [] {
      SectionsFollowCategories(buckets, cats[1..]);
      var rest := Sections(buckets, cats[1..]);
      var s := Sections(buckets, cats);
      if |buckets[cats[0]]| > 0 {
        assert Headings(s) == [cats[0]] + Headings(rest);
      } else {
        assert s == rest;
      }
    }
  }

  /** Every heading is one of the iterated categories. */
  lemma {:induction false} SectionsInCategories(buckets: map<Category, seq<ReportItem>>, cats: seq<Category>)
    requires forall i :: 0 <= i < |cats| ==> cats[i] in buckets
    ensures forall x :: x in Headings(Sections(buckets, cats)) ==> x in cats
  {
    if cats != [] {
      SectionsInCategories(buckets, cats[1..]);
      var rest := Sections(buckets, cats[1..]);
      var s := Sections(buckets, cats);
      if |buckets[cats[0]]| > 0 {
        assert Headings(s) == [cats[0]] + Headings(rest);
      } else {
        assert s == rest;
      }
    }
  }

  /** When no category is listed twice, no heading repeats. */
  lemma {:induction false} SectionsDistinct(buckets: map<Category, seq<ReportItem>>, cats: seq<Category>)
    requires forall i :: 0 <= i < |cats| ==> cats[i] in buckets
    requires forall i, j :: 0 <= i < j < |cats| ==> cats[i] != cats[j]
    ensures forall i, j :: 0 <= i < j < |Headings(Sections(buckets, cats))| ==>
      Headings(Sections(buckets, cats))[i] != Headings(Sections(buckets, cats))[j]
  {
    if cats != [] {
      SectionsDistinct(buckets, cats[1..]);
      SectionsInCategories(buckets, cats[1..]);
      var rest := Headings(Sections(buckets, cats[1..]));
      var h := Headings(Sections(buckets, cats));
      if |buckets[cats[0]]| > 0 {
        assert h == [cats[0]] + rest;
        assert cats[0] !in cats[1..];
        assert cats[0] !in rest;
      } else {
        assert h == rest;
      }
    }
  }

  /** The report's headings: English, then UOI, then General Behaviour, each at most once. */
  lemma ReportHeadingOrder(buckets: map<Category, seq<ReportItem>>)
    requires buckets.Keys == {English, Uoi, GeneralBehaviour}
    ensures SubsequenceOf(Headings(Sections(buckets, Categories)), Categories)
    ensures forall i, j :: 0 <= i < j < |Sections(buckets, Categories)| ==>
      Sections(buckets, Categories)[i].0 != Sections(buckets, Categories)[j].0
  {
    assert forall i :: 0 <= i < |Categories| ==> Categories[i] in buckets;
    SectionsFollowCategories(buckets, Categories);
    SectionsDistinct(buckets, Categories);
    var s := Sections(buckets, Categories);
    assert forall i :: 0 <= i < |s| ==> Headings(s)[i] == s[i].0;
  }

  /** The report's section sizes add up to the number of the student's comments. */
  lemma ReportCountsAll(rows: seq<ReportRow>, buckets: map<Category, seq<ReportItem>>)
    requires buckets.Keys == {English, Uoi, GeneralBehaviour}
    requires forall c :: c in buckets ==> buckets[c] == Bucket(rows, c)
    ensures |buckets[English]| + |buckets[Uoi]| + |buckets[GeneralBehaviour]| == |rows|
  {
    BucketsPartition(rows);
  }
}
