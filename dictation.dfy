/**
 * Dictation scoring (pages/dictation.py): task creation, the normalisation
 * and similarity score of the basic scorer, the five feedback bands, the
 * choice between the language-model reply and the basic score, and the
 * calculate-then-save flow of the page.
 */
module Dictation {
  import opened Wrappers
  import opened Text
  import opened Tables
  import opened Schema
  import opened Replies

  /** The "Create Task" form: saved only with a name and a transcript; an upload is stored under database/audio/. */
  method CreateTask(db: SchoolDb, name: string, transcript: string, upload: Option<string>, now: Timestamp)
    requires db.Valid()
    modifies db`dictationTasks
    ensures db.Valid()
    ensures name == [] || transcript == [] ==> db.dictationTasks == old(db.dictationTasks)
    ensures name != [] && transcript != [] ==>
      db.dictationTasks == Insert(old(db.dictationTasks), DictationTaskRow(name, transcript, AudioPath(name, upload), now))
  {
    if name != [] && transcript != [] {
      db.dictationTasks := Insert(db.dictationTasks, DictationTaskRow(name, transcript, AudioPath(name, upload), now));
    }
  }

  /** Where an uploaded audio file is written: database/audio/<task>_<file name>; nothing without an upload. */
  function AudioPath(name: string, upload: Option<string>): (p: Option<string>)
    ensures upload.None? <==> p.None?
    ensures p.Some? ==> StartsWith(p.value, "database/audio/" + name + "_")
  {
    match upload
    case None => None
    case Some(file) => Some("database/audio/" + name + "_" + file)
  }

  /** The regular-expression class \w on the ASCII range; characters beyond it are taken as letters. */
  predicate IsWordChar(c: char) {
    ('a' <= c <= 'z') || ('A' <= c <= 'Z') || ('0' <= c <= '9') || c == '_' || c as int > 127
  }

  /** Kept by re.sub(r'[^\w\s]', '', ...). */
  predicate Kept(c: char) {
    IsWordChar(c) || IsSpace(c)
  }

  /** re.sub(r'[^\w\s]', '', s): every character that is neither a word character nor whitespace deleted. */
  function DropPunctuation(s: string): (r: string)
    ensures |r| <= |s|
    ensures forall i :: 0 <= i < |r| ==> Kept(r[i])
  {
    if s == [] then []
    else if Kept(s[0]) then [s[0]] + DropPunctuation(s[1..])
    else DropPunctuation(s[1..])
  }

  /** The deletion works character by character, so it distributes over concatenation. */
  lemma {:induction false} DropPunctuationAppend(a: string, b: string)
    ensures DropPunctuation(a + b) == DropPunctuation(a) + DropPunctuation(b)
  {
    if a != [] {
      assert (a + b)[1..] == a[1..] + b;
      DropPunctuationAppend(a[1..], b);
    } else {
      assert a + b == b;
    }
  }

  /** A text made only of kept characters is left as it is. */
  lemma {:induction false} DropPunctuationKeepsClean(s: string)
    requires forall i :: 0 <= i < |s| ==> Kept(s[i])
    ensures DropPunctuation(s) == s
  {
    if s != [] {
      DropPunctuationKeepsClean(s[1..]);
    }
  }

  /** The basic scorer's cleaning: strip, lower-case, then delete punctuation. */
  function Normalize(s: string): (r: string)
    ensures |r| <= |s|
    ensures forall i :: 0 <= i < |r| ==> Kept(r[i]) && !('A' <= r[i] <= 'Z')
  {
    var lowered := Lower(Strip(s));
    LowerIsLower(lowered, Strip(s));
    DropLower(lowered);
    DropPunctuation(lowered)
  }

  lemma LowerIsLower(l: string, s: string)
    requires l == Lower(s)
    ensures forall i :: 0 <= i < |l| ==> !('A' <= l[i] <= 'Z')
  {
  }

  /** Deleting characters never brings an upper-case letter in. */
  lemma {:induction false} DropLower(s: string)
    requires forall i :: 0 <= i < |s| ==> !('A' <= s[i] <= 'Z')
    ensures forall i :: 0 <= i < |DropPunctuation(s)| ==> !('A' <= DropPunctuation(s)[i] <= 'Z')
  {
    if s != [] {
      DropLower(s[1..]);
    }
  }

  /**
   * The trim comes before the deletion, so a space next to deleted punctuation
   * survives: "Hi !" is cleaned to "hi ", and cleaning that again gives "hi".
   */
  lemma SpaceBeforePunctuationSurvives()
    ensures Normalize("Hi !") == "hi "
    ensures Normalize(Normalize("Hi !")) == "hi"
  {
    PunctuationLeavesSpace();
    TrailingSpaceTrimmed();
  }

  /** "Hi !" is trimmed (nothing to trim), lower-cased, and loses only the "!". */
  lemma PunctuationLeavesSpace()
    ensures Normalize("Hi !") == "hi "
  {
    assert TrimStart("Hi !") == "Hi !";
    assert TrimEnd("Hi !") == "Hi !";
    assert Lower("Hi !") == "hi !";
    assert DropPunctuation("!") == "";
    assert DropPunctuation(" !") == " ";
    assert DropPunctuation("i !") == "i ";
  }

  /** "hi " loses its trailing space to the trim and keeps its letters. */
  lemma TrailingSpaceTrimmed()
    ensures Normalize("hi ") == "hi"
  {
    assert TrimStart("hi ") == "hi ";
    assert TrimEnd("hi ") == "hi" by {
      assert "hi "[..2] == "hi";
    }
    assert Lower("hi") == "hi";
    assert DropPunctuation("i") == "i";
  }

  /** One entry of the language model's error list. */
  datatype ErrorNote = ErrorNote(kind: string, correct: string, student: string, explanation: string)

  /** The scorer's result: score, the two feedback texts and the error list. */
  datatype ScoreResult = ScoreResult(score: real, feedbackEn: string, feedbackZh: string, errors: seq<ErrorNote>)

  /** The five feedback bands of generate_feedback_en and generate_feedback_zh. */
  datatype Band = Excellent | Good | Fair | SomeWords | KeepPractising {
    /** Position from the best band down. */
    function Rank(): nat {
      match this
      case Excellent => 0
      case Good => 1
      case Fair => 2
      case SomeWords => 3
      case KeepPractising => 4
    }
  }

  /** generate_feedback_en's choice: the highest of the thresholds 90, 80, 70, 60 that the score meets. */
  function EnglishBand(score: real): Band {
    if score >= 90.0 then Excellent
    else if score >= 80.0 then Good
    else if score >= 70.0 then Fair
    else if score >= 60.0 then SomeWords
    else KeepPractising
  }

  /** The lower threshold of a band. */
  function Threshold(b: Band): real {
    match b
    case Excellent => 90.0
    case Good => 80.0
    case Fair => 70.0
    case SomeWords => 60.0
    case KeepPractising => 0.0
  }

  /**
   * Exactly one band is chosen: the score meets its threshold and falls short
   * of the threshold of every better band; and a higher score never gets a
   * worse band.
   */
  lemma EnglishBandIsHighestMet(score: real, other: real)
    requires score >= 0.0
    ensures score >= Threshold(EnglishBand(score))
    ensures forall b: Band :: b.Rank() < EnglishBand(score).Rank() ==> score < Threshold(b)
    ensures score <= other ==> EnglishBand(other).Rank() <= EnglishBand(score).Rank()
  {
  }

  /** The Chinese band text. */
  function ChineseText(b: Band): string {
    match b
    case Excellent => "听写很准确！你听懂了几乎所有的单词。"
    case Good => "听力不错！大部分单词都听对了。"
    case Fair => "听写还可以。多练习听力，注意听清楚每个单词。"
    case SomeWords => "继续练习听力！专心听每个单词的发音。"
    case KeepPractising => "多练习听写！仔细听，慢慢写。"
  }

  /** generate_feedback_zh, with its own chain of thresholds. */
  function ChineseFeedback(score: real): string {
    if score >= 90.0 then "听写很准确！你听懂了几乎所有的单词。"
    else if score >= 80.0 then "听力不错！大部分单词都听对了。"
    else if score >= 70.0 then "听写还可以。多练习听力，注意听清楚每个单词。"
    else if score >= 60.0 then "继续练习听力！专心听每个单词的发音。"
    else "多练习听写！仔细听，慢慢写。"
  }

  /** The Chinese feedback always belongs to the same band as the English feedback. */
  lemma ChineseMatchesEnglish(score: real)
    ensures ChineseFeedback(score) == ChineseText(EnglishBand(score))
  {
  }

  /**
   * _basic_dictation_score: the similarity of the two cleaned texts times 100,
   * banded feedback and no error list. `ratio` is SequenceMatcher's ratio and
   * `render` the English f-string for a band (its word-count estimate is not modelled).
   */
  function BasicScore(correct: string, student: string, ratio: (string, string) -> real,
                      render: (Band, real, string) -> string): (r: ScoreResult)
    requires 0.0 <= ratio(Normalize(correct), Normalize(student)) <= 1.0
    ensures 0.0 <= r.score <= 100.0 && r.errors == []
    ensures r.score == ratio(Normalize(correct), Normalize(student)) * 100.0
    ensures r.feedbackEn == render(EnglishBand(r.score), r.score, correct)
    ensures r.feedbackZh == ChineseText(EnglishBand(r.score))
  {
    var score := ratio(Normalize(correct), Normalize(student)) * 100.0;
    ChineseMatchesEnglish(score);
    ScoreResult(score, render(EnglishBand(score), score, correct), ChineseFeedback(score), [])
  }

  /**
   * calculate_dictation_score_ai: with AI on and a client, the decoded cleaned
   * reply; the basic score when AI is off, there is no client, the call
   * raises or the reply does not decode. `decode` is json.loads with the key lookups.
   */
  function CalculateScore(correct: string, student: string, useAi: bool, call: AiCall,
                          decode: string -> Option<ScoreResult>, ratio: (string, string) -> real,
                          render: (Band, real, string) -> string): (r: ScoreResult)
    requires 0.0 <= ratio(Normalize(correct), Normalize(student)) <= 1.0
    ensures AiAnswered(useAi, call, decode) ==> r == decode(StripFence(call.content)).value
    ensures !AiAnswered(useAi, call, decode) ==> r == BasicScore(correct, student, ratio, render)
  {
    if useAi && call.Replied? then
      match decode(StripFence(call.content))
      case Some(result) => result
      case None => BasicScore(correct, student, ratio, render)
    else BasicScore(correct, student, ratio, render)
  }

  /** The language model's answer is used: AI on, a client, a reply, and the cleaned reply decodes. */
  predicate AiAnswered(useAi: bool, call: AiCall, decode: string -> Option<ScoreResult>) {
    useAi && call.Replied? && decode(StripFence(call.content)).Some?
  }

  /** Without a usable answer from the model the score is the basic one, so it lies in [0, 100] and has no error list. */
  lemma FallbackBounded(correct: string, student: string, useAi: bool, call: AiCall,
                        decode: string -> Option<ScoreResult>, ratio: (string, string) -> real,
                        render: (Band, real, string) -> string)
    requires 0.0 <= ratio(Normalize(correct), Normalize(student)) <= 1.0
    requires !useAi || call.NoClient? || call.Raised?
    ensures 0.0 <= CalculateScore(correct, student, useAi, call, decode, ratio, render).score <= 100.0
    ensures CalculateScore(correct, student, useAi, call, decode, ratio, render).errors == []
  {
  }

  /** st.session_state.score_result: the scored attempt waiting to be saved. */
  datatype ScoredAttempt = ScoredAttempt(result: ScoreResult, studentText: string, studentId: nat, taskId: nat)

  /** The page's session state. */
  class DictationPage {
    var pending: Option<ScoredAttempt>

    constructor ()
      ensures pending.None?
    {
      pending := None;
    }

    /** "Calculate Score": only a non-empty attempt is scored, and its result replaces the pending one. */
    method Calculate(correct: string, studentText: string, studentId: nat, taskId: nat, useAi: bool, call: AiCall,
                     decode: string -> Option<ScoreResult>, ratio: (string, string) -> real,
                     render: (Band, real, string) -> string)
      requires 0.0 <= ratio(Normalize(correct), Normalize(studentText)) <= 1.0
      modifies this
      ensures studentText == [] ==> pending == old(pending)
      ensures studentText != [] ==> pending == Some(ScoredAttempt(
        CalculateScore(correct, studentText, useAi, call, decode, ratio, render), studentText, studentId, taskId))
    {
      if studentText != [] {
        var result := CalculateScore(correct, studentText, useAi, call, decode, ratio, render);
        pending := Some(ScoredAttempt(result, studentText, studentId, taskId));
      }
    }

    /**
     * "Save Score": the row stores the teacher's final score from the
     * 0-100 input, not the computed one, with the computed feedback; the
     * pending result is then cleared.
     */
    method Save(db: SchoolDb, finalScore: real, now: Timestamp)
      requires db.Valid() && pending.Some?
      requires 0.0 <= finalScore <= 100.0
      modifies this, db`dictationScores
      ensures db.Valid() && pending.None?
      ensures db.dictationScores == Insert(old(db.dictationScores), DictationScoreRow(
        old(pending).value.studentId, old(pending).value.taskId, old(pending).value.studentText, finalScore,
        old(pending).value.result.feedbackEn, old(pending).value.result.feedbackZh, now))
    {
      var p := pending.value;
      db.dictationScores := Insert(db.dictationScores, DictationScoreRow(
        p.studentId, p.taskId, p.studentText, finalScore, p.result.feedbackEn, p.result.feedbackZh, now));
      pending := None;
    }
  }

  /** Every score the page stores lies in [0, 100]. */
  ghost predicate ScoresBounded(t: Table<DictationScoreRow>) {
    forall k :: k in t.rows ==> 0.0 <= t.rows[k].score <= 100.0
  }

  /** Saving keeps every stored score within [0, 100]. */
  lemma SaveKeepsScoresBounded(t: Table<DictationScoreRow>, row: DictationScoreRow)
    requires Tables.Valid(t) && ScoresBounded(t) && 0.0 <= row.score <= 100.0
    ensures ScoresBounded(Insert(t, row))
  {
  }
}
