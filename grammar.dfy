/**
 * Grammar-error tracking (pages/grammar_errors.py): the fixed list of error
 * types, recording an error, the per-type counts of the class and of one
 * student, the top three, the recommendation lookup and the class summary.
 */
module Grammar {
  import opened Wrappers
  import opened Tables
  import opened Schema

  /** ERROR_TYPES, in the order the select box offers them. */
  const ErrorTypes: seq<ErrorType> :=
    [SubjectVerbAgreement, VerbTense, Articles, Prepositions, WordOrder, Plurals, Pronouns]

  /** The select box offers each of the seven types exactly once, and every one of them is accepted by the column's CHECK. */
  lemma ErrorTypesComplete()
    ensures |ErrorTypes| == 7
    ensures forall e: ErrorType :: e in ErrorTypes
    ensures forall i, j :: 0 <= i < j < |ErrorTypes| ==> ErrorTypes[i] != ErrorTypes[j]
    ensures forall i :: 0 <= i < |ErrorTypes| ==> ParseErrorType(ErrorTypes[i].Text()) == Some(ErrorTypes[i])
  {
    forall e: ErrorType ensures e in ErrorTypes {
      match e
      case SubjectVerbAgreement => assert ErrorTypes[0] == e;
      case VerbTense => assert ErrorTypes[1] == e;
      case Articles => assert ErrorTypes[2] == e;
      case Prepositions => assert ErrorTypes[3] == e;
      case WordOrder => assert ErrorTypes[4] == e;
      case Plurals => assert ErrorTypes[5] == e;
      case Pronouns => assert ErrorTypes[6] == e;
    }
  }

  /** The "Record Error" form: inserted only when the example text is non-empty. */
  method RecordError(db: SchoolDb, studentId: nat, errorType: ErrorType, example: string, now: Timestamp)
    requires db.Valid()
    modifies db`grammarErrors
    ensures db.Valid()
    ensures example == [] ==> db.grammarErrors == old(db.grammarErrors)
    ensures example != [] ==> db.grammarErrors == Insert(old(db.grammarErrors), GrammarErrorRow(studentId, errorType, example, now))
  {
    if example != [] {
      db.grammarErrors := Insert(db.grammarErrors, GrammarErrorRow(studentId, errorType, example, now));
    }
  }

  /** One row of the class's analysis query. */
  datatype Line = Line(student: string, errorType: ErrorType, example: string, createdAt: Timestamp)

  /** How many lines have error type `e`. */
  function Count(lines: seq<Line>, e: ErrorType): (n: nat)
    ensures n <= |lines|
  {
    if lines == [] then 0 else (if lines[0].errorType == e then 1 else 0) + Count(lines[1..], e)
  }

  /** The counts of the listed types added up. */
  function SumCounts(lines: seq<Line>, types: seq<ErrorType>): nat {
    if types == [] then 0 else Count(lines, types[0]) + SumCounts(lines, types[1..])
  }

  /** Removing the first line takes one off the count of its type, once per occurrence of that type. */
  lemma {:induction false} SumCountsStep(lines: seq<Line>, types: seq<ErrorType>)
    requires lines != []
    ensures SumCounts(lines, types) == SumCounts(lines[1..], types) + multiset(types)[lines[0].errorType]
  {
    if types != [] {
      SumCountsStep(lines, types[1..]);
      assert types == [types[0]] + types[1..];
    }
  }

  /** Each error type occurs once in ERROR_TYPES. */
  lemma OnceEach(e: ErrorType)
    ensures multiset(ErrorTypes)[e] == 1
  {
  }

  /** With no lines every count is zero. */
  lemma {:induction false} SumCountsEmpty(types: seq<ErrorType>)
    ensures SumCounts([], types) == 0
  {
    if types != [] {
      SumCountsEmpty(types[1..]);
    }
  }

  /** The per-type counts add up to the number of lines (value_counts covers every row). */
  lemma {:induction false} CountsSum(lines: seq<Line>)
    ensures SumCounts(lines, ErrorTypes) == |lines|
  {
    if lines != [] {
      CountsSum(lines[1..]);
      SumCountsStep(lines, ErrorTypes);
      OnceEach(lines[0].errorType);
    } else {
      SumCountsEmpty(ErrorTypes);
    }
  }

  /** student_data: the lines of one student, in the query's order. */
  function StudentLines(lines: seq<Line>, student: string): (s: seq<Line>)
    ensures |s| <= |lines|
    ensures forall i :: 0 <= i < |s| ==> s[i].student == student
  {
    if lines == [] then []
    else if lines[0].student == student then [lines[0]] + StudentLines(lines[1..], student)
    else StudentLines(lines[1..], student)
  }

  /** A student's breakdown is part of the class's: each type's count is at most the class count. */
  lemma {:induction false} StudentCountsBounded(lines: seq<Line>, student: string, e: ErrorType)
    ensures Count(StudentLines(lines, student), e) <= Count(lines, e)
  {
    if lines != [] {
      StudentCountsBounded(lines[1..], student, e);
      if lines[0].student == student {
        assert ([lines[0]] + StudentLines(lines[1..], student))[1..] == StudentLines(lines[1..], student);
      }
    }
  }

  /** The student's breakdown adds up to "Total Errors Recorded" for that student. */
  lemma StudentCountsSum(lines: seq<Line>, student: string)
    ensures SumCounts(StudentLines(lines, student), ErrorTypes) == |StudentLines(lines, student)|
  {
    CountsSum(StudentLines(lines, student));
  }

  /** Counts never increase along the list. */
  ghost predicate Descending(vc: seq<(ErrorType, nat)>) {
    forall i, j :: 0 <= i < j < |vc| ==> vc[i].1 >= vc[j].1
  }

  /** No error type is listed twice. */
  ghost predicate KeysDistinct(vc: seq<(ErrorType, nat)>) {
    forall i, j :: 0 <= i < j < |vc| ==> vc[i].0 != vc[j].0
  }

  /** Put a pair into a descending list after every pair with a count at least as large. */
  function InsertByCount(p: (ErrorType, nat), vc: seq<(ErrorType, nat)>): (r: seq<(ErrorType, nat)>)
    requires Descending(vc)
    ensures |r| == |vc| + 1 && (r[0] == p || (vc != [] && r[0] == vc[0]))
    ensures Descending(r)
    ensures forall x :: x in r <==> x in vc || x == p
    ensures multiset(r) == multiset(vc) + multiset{p}
  {
    if vc == [] then [p]
    else if p.1 > vc[0].1 then [p] + vc
    else
      var rest := InsertByCount(p, vc[1..]);
      assert vc[0].1 >= rest[0].1;
      assert vc == [vc[0]] + vc[1..];
      [vc[0]] + rest
  }

  /** Inserting a pair whose type is not yet listed keeps every type listed once. */
  lemma {:induction false} InsertKeepsDistinct(p: (ErrorType, nat), vc: seq<(ErrorType, nat)>)
    requires Descending(vc) && KeysDistinct(vc)
    requires forall x :: x in vc ==> x.0 != p.0
    ensures KeysDistinct(InsertByCount(p, vc))
  {
    if vc != [] && p.1 <= vc[0].1 {
      InsertKeepsDistinct(p, vc[1..]);
      var rest := InsertByCount(p, vc[1..]);
      forall j | 0 <= j < |rest| ensures vc[0].0 != rest[j].0 {
        assert rest[j] in rest;
        if rest[j] != p {
          var k :| 1 <= k < |vc| && vc[k] == rest[j];
        }
      }
    }
  }

  /** The (type, count) pairs of the types that occur, in ERROR_TYPES order. */
  function Pairs(lines: seq<Line>, types: seq<ErrorType>): (ps: seq<(ErrorType, nat)>)
    ensures forall x :: x in ps ==> x.1 == Count(lines, x.0) > 0 && x.0 in types
    ensures forall e :: e in types && Count(lines, e) > 0 ==> (e, Count(lines, e)) in ps
    ensures (forall i, j :: 0 <= i < j < |types| ==> types[i] != types[j]) ==> KeysDistinct(ps)
  {
    if types == [] then []
    else if Count(lines, types[0]) > 0 then [(types[0], Count(lines, types[0]))] + Pairs(lines, types[1..])
    else Pairs(lines, types[1..])
  }

  /** Sort pairs by count, largest first. */
  function SortByCount(ps: seq<(ErrorType, nat)>): (r: seq<(ErrorType, nat)>)
    ensures Descending(r)
    ensures forall x :: x in r <==> x in ps
    ensures multiset(r) == multiset(ps)
  {
    if ps == [] then []
    else
      assert ps == [ps[0]] + ps[1..];
      InsertByCount(ps[0], SortByCount(ps[1..]))
  }

  /** Sorting lists each type as often as before: once, if it was listed once. */
  lemma {:induction false} SortKeepsDistinct(ps: seq<(ErrorType, nat)>)
    requires KeysDistinct(ps)
    ensures KeysDistinct(SortByCount(ps))
  {
    if ps != [] {
      SortKeepsDistinct(ps[1..]);
      var rest := SortByCount(ps[1..]);
      forall x | x in rest ensures x.0 != ps[0].0 {
        var k :| 1 <= k < |ps| && ps[k] == x;
      }
      InsertKeepsDistinct(ps[0], rest);
    }
  }

  /** value_counts(): each occurring type once, with its count, largest count first. */
  function ValueCounts(lines: seq<Line>): (vc: seq<(ErrorType, nat)>)
    ensures Descending(vc)
    ensures forall i, j :: 0 <= i < j < |vc| ==> vc[i].0 != vc[j].0
    ensures forall x :: x in vc ==> x.1 == Count(lines, x.0) > 0
    ensures forall e: ErrorType :: Count(lines, e) > 0 ==> (e, Count(lines, e)) in vc
  {
    ErrorTypesComplete();
    SortKeepsDistinct(Pairs(lines, ErrorTypes));
    SortByCount(Pairs(lines, ErrorTypes))
  }

  /** head(3) of value_counts(). */
  function TopThree(lines: seq<Line>): (top: seq<(ErrorType, nat)>)
    ensures |top| <= 3
    ensures forall i, j :: 0 <= i < j < |top| ==> top[i].0 != top[j].0
  {
    var vc := ValueCounts(lines);
    if |vc| <= 3 then vc else vc[..3]
  }

  /**
   * The "Most Common Errors" list and the focus areas: at most three types, each
   * shown once with its true count, largest first, and no type left out has a larger count
   * than any type shown.
   */
  lemma TopThreeIsTop(lines: seq<Line>)
    ensures Descending(TopThree(lines))
    ensures KeysDistinct(TopThree(lines))
    ensures forall x :: x in TopThree(lines) ==> x.1 == Count(lines, x.0) > 0
    ensures forall i, e :: 0 <= i < |TopThree(lines)| && (forall j :: 0 <= j < |TopThree(lines)| ==> TopThree(lines)[j].0 != e) ==>
      Count(lines, e) <= TopThree(lines)[i].1
  {
    var vc := ValueCounts(lines);
    var top := TopThree(lines);
    assert forall i :: 0 <= i < |top| ==> top[i] == vc[i];
    LeftOutNotLarger(lines);
  }

  /** A type missing from the top three occurs at most as often as any type shown. */
  lemma LeftOutNotLarger(lines: seq<Line>)
    ensures forall i, e :: 0 <= i < |TopThree(lines)| && (forall j :: 0 <= j < |TopThree(lines)| ==> TopThree(lines)[j].0 != e) ==>
      Count(lines, e) <= TopThree(lines)[i].1
  {
    var vc := ValueCounts(lines);
    var top := TopThree(lines);
    assert forall i :: 0 <= i < |top| ==> top[i] == vc[i];
    forall i, e | 0 <= i < |top| && (forall j :: 0 <= j < |top| ==> top[j].0 != e)
      ensures Count(lines, e) <= top[i].1
    {
      if Count(lines, e) > 0 {
        var k :| 0 <= k < |vc| && vc[k] == (e, Count(lines, e));
        assert k >= |top|;
      }
    }
  }

  /** The "Most Common Error" metric: the first type of value_counts, which has the highest count. */
  lemma MostCommonIsMax(lines: seq<Line>, e: ErrorType)
    requires lines != []
    ensures |ValueCounts(lines)| > 0
    ensures Count(lines, e) <= ValueCounts(lines)[0].1
  {
    var vc := ValueCounts(lines);
    CountsSum(lines);
    var l := lines[0].errorType;
    assert Count(lines, l) > 0;
    assert (l, Count(lines, l)) in vc;
    if Count(lines, e) > 0 {
      var k :| 0 <= k < |vc| && vc[k] == (e, Count(lines, e));
    }
  }

  /** A line of "Focus Areas for Improvement": the advice for one error type, or the fallback. */
  datatype Advice = Specific(errorType: ErrorType) | General {
    function Text(): string {
      match this
      case General => "Practice this grammar area."
      case Specific(SubjectVerbAgreement) => "Practice matching subjects with correct verb forms. Focus on singular/plural distinctions."
      case Specific(VerbTense) => "Review past, present, and future tense formations. Practice timeline exercises."
      case Specific(Articles) => "Study when to use \"a\", \"an\", \"the\", or no article. Practice with countable/uncountable nouns."
      case Specific(Prepositions) => "Learn common preposition patterns (in/on/at for time/place). Practice with phrasal verbs."
      case Specific(WordOrder) => "Practice basic sentence patterns: Subject + Verb + Object. Review question formation."
      case Specific(Plurals) => "Learn regular and irregular plural forms. Practice count vs. non-count nouns."
      case Specific(Pronouns) => "Review subject, object, and possessive pronouns. Practice pronoun agreement."
    }
  }

  /**
   * recommendations.get(key, fallback): a key of the table gets the advice of
   * the error type it names, and only an unknown key gets the fallback.
   */
  function Recommendation(key: string): (r: Advice)
    ensures r.Specific? <==> exists e: ErrorType :: e.Text() == key
    ensures r.Specific? ==> r.errorType.Text() == key
  {
    match ParseErrorType(key)
    case Some(e) => Specific(e)
    case None => General
  }

  /** The students named in the lines. */
  function Names(lines: seq<Line>): set<string> {
    set i | 0 <= i < |lines| :: lines[i].student
  }

  /** A set drawn from a list is no larger than the list. */
  lemma {:induction false} SetOfListBounded(xs: seq<string>, s: set<string>)
    requires forall x :: x in s ==> x in xs
    ensures |s| <= |xs|
  {
    if xs != [] {
      SetOfListBounded(xs[1..], s - {xs[0]});
    } else {
      assert s == {};
    }
  }

  /**
   * "Students with Errors" never exceeds the class size: every line belongs to
   * a student of the class, and the class list is non-empty on this page, so the
   * average per student divides by a positive count.
   */
  lemma StudentsWithErrorsBounded(lines: seq<Line>, classStudents: seq<string>)
    requires classStudents != []
    requires forall i :: 0 <= i < |lines| ==> lines[i].student in classStudents
    ensures |Names(lines)| <= |classStudents|
  {
    SetOfListBounded(classStudents, Names(lines));
  }
}
