/**
 * Essay marking (pages/essay_marking.py): the rubric choice, the marking
 * call whose every failure yields no result, the submit guard, and the save
 * that stores the adjusted score with the four criterion scores written as
 * JSON and read back for display.
 */
module Essay {
  import opened Wrappers
  import opened Text
  import opened Tables
  import opened Schema
  import opened Replies
  import opened Numerals

  /** The two ISA Year 4 rubrics the prompt can carry. */
  datatype Rubric = OpinionRubric | CreativeRubric

  /** The rubric for the type the form sends. */
  function RubricFor(essayType: string): Rubric {
    if essayType == "opinion_argumentative" then OpinionRubric else CreativeRubric
  }

  /** opinion_argumentative gets the opinion rubric; every other type, creative_narrative included, the creative one. */
  lemma RubricChoice(e: EssayType, other: string)
    ensures RubricFor(e.Text()) == (if e.OpinionArgumentative? then OpinionRubric else CreativeRubric)
    ensures other != OpinionArgumentative.Text() ==> RubricFor(other) == CreativeRubric
  {
  }

  /** One criterion of the reply: a score out of 25 and its comments. */
  datatype Criterion = Criterion(score: int, comments: string)

  /** The decoded reply of the marking call. */
  datatype EssayResult = EssayResult(
    totalScore: int, contentIdeas: Criterion, organization: Criterion, languageUse: Criterion,
    conventions: Criterion, feedbackEn: string, feedbackZh: string,
    strengths: seq<string>, areasForImprovement: seq<string>, nextSteps: string)

  /**
   * mark_essay_with_ai: no client gives None, an exception gives None, and a
   * reply gives its cleaned text decoded (None when json.loads fails); there is
   * no fallback scorer.
   */
  function MarkEssay(call: AiCall, decode: string -> Option<EssayResult>): (r: Option<EssayResult>)
    ensures call.NoClient? || call.Raised? ==> r.None?
    ensures r.Some? <==> call.Replied? && decode(StripFence(call.content)).Some?
    ensures r.Some? ==> r.value == decode(StripFence(call.content)).value
  {
    match call
    case NoClient => None
    case Raised => None
    case Replied(content) => decode(StripFence(content))
  }

  /** The criteria_breakdown column: the four criterion scores. */
  datatype Breakdown = Breakdown(contentIdeas: int, organization: int, languageUse: int, conventions: int)

  /** The four scores copied out of the reply. */
  function BreakdownOf(r: EssayResult): Breakdown {
    Breakdown(r.contentIdeas.score, r.organization.score, r.languageUse.score, r.conventions.score)
  }

  const ContentKey: string := "{\"content_ideas\": "
  const OrganizationKey: string := ", \"organization\": "
  const LanguageKey: string := ", \"language_use\": "
  const ConventionsKey: string := ", \"conventions\": "
  const Close: string := "}"

  /** json.dumps of the breakdown dict, keys in insertion order and the default separators. */
  function EncodeBreakdown(b: Breakdown): string {
    ContentKey + (IntToString(b.contentIdeas) +
    (OrganizationKey + (IntToString(b.organization) +
    (LanguageKey + (IntToString(b.languageUse) +
    (ConventionsKey + (IntToString(b.conventions) + Close)))))))
  }

  /** The text after a literal prefix, if `s` starts with it. */
  function Expect(s: string, prefix: string): (r: Option<string>)
    ensures r.Some? <==> StartsWith(s, prefix)
    ensures r.Some? ==> s == prefix + r.value
  {
    if StartsWith(s, prefix) then Some(s[|prefix|..]) else None
  }

  /** A key followed by an integer value. */
  function Field(s: string, key: string): Option<(int, string)> {
    match Expect(s, key)
    case None => None
    case Some(after) => ReadInt(after)
  }

  /**
   * json.loads of a breakdown, for the layout json.dumps writes. Only that layout is
   * claimed: integers are read more leniently than JSON allows (leading zeros, "-0"),
   * so some text json.loads rejects decodes here too.
   */
  function DecodeBreakdown(s: string): Option<Breakdown> {
    match Field(s, ContentKey)
    case None => None
    case Some((a, r1)) =>
      match Field(r1, OrganizationKey)
      case None => None
      case Some((b, r2)) =>
        match Field(r2, LanguageKey)
        case None => None
        case Some((c, r3)) =>
          match Field(r3, ConventionsKey)
          case None => None
          case Some((d, r4)) =>
            if r4 == Close then Some(Breakdown(a, b, c, d)) else None
  }

  /** A literal prefix is recognised and removed. */
  lemma ExpectPrefix(prefix: string, rest: string)
    ensures Expect(prefix + rest, prefix) == Some(rest)
  {
    assert (prefix + rest)[..|prefix|] == prefix;
    assert (prefix + rest)[|prefix|..] == rest;
  }

  /** A key and a written integer are read back, when what follows does not start with a digit. */
  lemma FieldRoundTrip(key: string, n: int, rest: string)
    requires rest == [] || !IsDigit(rest[0])
    ensures Field(key + (IntToString(n) + rest), key) == Some((n, rest))
  {
    ExpectPrefix(key, IntToString(n) + rest);
    ReadIntRoundTrip(n, rest);
  }

  /** The breakdown written on save is read back to the same four scores for display. */
  lemma {:induction false} BreakdownRoundTrip(b: Breakdown)
    ensures DecodeBreakdown(EncodeBreakdown(b)) == Some(b)
  {
    var r4 := Close;
    var r3 := ConventionsKey + (IntToString(b.conventions) + r4);
    var r2 := LanguageKey + (IntToString(b.languageUse) + r3);
    var r1 := OrganizationKey + (IntToString(b.organization) + r2);
    assert r4[0] == '}' && r3[0] == ',' && r2[0] == ',' && r1[0] == ',';
    FieldRoundTrip(ContentKey, b.contentIdeas, r1);
    FieldRoundTrip(OrganizationKey, b.organization, r2);
    FieldRoundTrip(LanguageKey, b.languageUse, r3);
    FieldRoundTrip(ConventionsKey, b.conventions, r4);
  }

  /** The history view: a stored breakdown is shown only when the column is non-empty. */
  function ShownBreakdown(column: string): (r: Option<Breakdown>)
    ensures column == [] ==> r.None?
  {
    if column == [] then None else DecodeBreakdown(column)
  }

  /** st.session_state.essay_result: the marked essay waiting to be saved. */
  datatype Submission = Submission(
    result: EssayResult, studentName: string, studentId: nat, title: string,
    essayType: EssayType, essayText: string)

  /** The page's session state. */
  class EssayPage {
    var pending: Option<Submission>

    constructor ()
      ensures pending.None?
    {
      pending := None;
    }

    /**
     * "Mark Essay with AI": marked only with both a text and a title; a result
     * replaces the pending one, and no result leaves it as it was.
     */
    method Submit(studentName: string, studentId: nat, title: string, essayType: EssayType, essayText: string,
                  call: AiCall, decode: string -> Option<EssayResult>)
      modifies this
      ensures essayText == [] || title == [] ==> pending == old(pending)
      ensures essayText != [] && title != [] && MarkEssay(call, decode).None? ==> pending == old(pending)
      ensures essayText != [] && title != [] && MarkEssay(call, decode).Some? ==>
        pending == Some(Submission(MarkEssay(call, decode).value, studentName, studentId, title, essayType, essayText))
    {
      if essayText != [] && title != [] {
        var result := MarkEssay(call, decode);
        if result.Some? {
          pending := Some(Submission(result.value, studentName, studentId, title, essayType, essayText));
        }
      }
    }

    /**
     * "Save Essay Mark": stores the teacher's final score from the 0-100 input
     * (nothing ties it to the criterion scores), the reply's feedback and the
     * encoded breakdown; the pending result is then cleared.
     */
    method Save(db: SchoolDb, finalScore: int, now: Timestamp)
      requires db.Valid() && pending.Some?
      requires 0 <= finalScore <= 100
      modifies this, db`essayMarks
      ensures db.Valid() && pending.None?
      ensures db.essayMarks == Insert(old(db.essayMarks), EssayMarkRow(
        old(pending).value.studentId, old(pending).value.title, old(pending).value.essayType,
        old(pending).value.essayText, finalScore, old(pending).value.result.feedbackEn,
        old(pending).value.result.feedbackZh, EncodeBreakdown(BreakdownOf(old(pending).value.result)), now))
    {
      var p := pending.value;
      db.essayMarks := Insert(db.essayMarks, EssayMarkRow(
        p.studentId, p.title, p.essayType, p.essayText, finalScore, p.result.feedbackEn,
        p.result.feedbackZh, EncodeBreakdown(BreakdownOf(p.result)), now));
      pending := None;
    }
  }

  /** A saved row shows exactly the four criterion scores of the reply it was saved from. */
  lemma SavedRowShowsCriteria(r: EssayResult)
    ensures ShownBreakdown(EncodeBreakdown(BreakdownOf(r))) == Some(BreakdownOf(r))
  {
    BreakdownRoundTrip(BreakdownOf(r));
  }
}
