/**
 * Post-processing of a language-model reply before it is parsed as JSON
 * (pages/dictation.py and pages/essay_marking.py): a literal split on the
 * triple-backtick markers, not a Markdown parser.
 */
module Replies {
  import opened Wrappers
  import opened Text

  /** What came of asking the language model: no client, an exception, or a reply. */
  datatype AiCall = NoClient | Raised | Replied(content: string)

  const JsonFence: string := "```json"
  const Fence: string := "```"

  /** The text of `s` before the first `sep`, or all of `s` when there is none. */
  function Before(s: string, sep: string): (r: string)
    requires |sep| > 0
    ensures |r| <= |s| && r == s[..|r|]
    ensures r == s || OccursAt(s, sep, |r|)
    ensures forall j: nat :: j < |r| ==> !OccursAt(s, sep, j)
  {
    match Find(s, sep)
    case None => s
    case Some(i) => s[..i]
  }

  /** The first piece of a split is the text before the first separator, and the second piece is the first piece of the rest. */
  lemma SplitPieces(s: string, sep: string)
    requires |sep| > 0
    ensures Split(s, sep)[0] == Before(s, sep)
    ensures Find(s, sep).Some? ==>
      |Split(s, sep)| >= 2 && Split(s, sep)[1] == Before(s[Find(s, sep).value + |sep|..], sep)
  {
    match Find(s, sep)
    case None =>
    case Some(i) =>
      SplitPieces(s[i + |sep|..], sep);
  }

  /** `content.split(open)[1].split(close)[0].strip()`. */
  function Between(content: string, open: string, close: string): string
    requires |open| > 0 && |close| > 0 && Contains(content, open)
  {
    SplitPieces(content, open);
    Strip(Split(Split(content, open)[1], close)[0])
  }

  /**
   * The split expression keeps the text after the first `open` up to the next
   * `open` (or the end), cut again at its first `close`, and trimmed.
   */
  lemma BetweenIs(content: string, open: string, close: string)
    requires |open| > 0 && |close| > 0 && Contains(content, open)
    ensures Between(content, open, close) ==
      Strip(Before(Before(content[Find(content, open).value + |open|..], open), close))
  {
    SplitPieces(content, open);
    SplitPieces(Split(content, open)[1], close);
  }

  /** Cutting twice at the same separator is cutting once. */
  lemma BeforeTwice(s: string, sep: string)
    requires |sep| > 0
    ensures Before(Before(s, sep), sep) == Before(s, sep)
  {
    BeforeFree(s, sep);
  }

  /** The reply cleaning of the two pages, written as the split calls are. */
  function StripFence(content: string): string {
    if Contains(content, JsonFence) then Between(content, JsonFence, Fence)
    else if Contains(content, Fence) then Between(content, Fence, Fence)
    else content
  }

  /** With a "```json" fence, the cleaning keeps what follows it up to the next "```json", cut at its first "```", trimmed. */
  lemma StripFenceJson(content: string)
    requires Find(content, JsonFence).Some?
    ensures StripFence(content) ==
      Strip(Before(Before(content[Find(content, JsonFence).value + |JsonFence|..], JsonFence), Fence))
  {
    BetweenIs(content, JsonFence, Fence);
  }

  /** With only plain fences, the cleaning keeps the text between the first two "```", trimmed. */
  lemma StripFenceBare(content: string)
    requires Find(content, JsonFence).None? && Find(content, Fence).Some?
    ensures StripFence(content) == Strip(Before(content[Find(content, Fence).value + |Fence|..], Fence))
  {
    var x := content[Find(content, Fence).value + |Fence|..];
    BetweenIs(content, Fence, Fence);
    BeforeTwice(x, Fence);
  }

  /** A reply without any fence is kept as it is. */
  lemma StripFenceNone(content: string)
    requires Find(content, Fence).None?
    ensures StripFence(content) == content
  {
    JsonFenceIsFence(content);
  }

  /** A "```json" is also a "```", so a reply without any fence has no "```json" either. */
  lemma JsonFenceIsFence(content: string)
    ensures Find(content, JsonFence).Some? ==> Find(content, Fence).Some?
  {
    if Find(content, JsonFence).Some? {
      var i := Find(content, JsonFence).value;
      assert content[i..i + 3] == content[i..i + 7][..3];
      assert OccursAt(content, Fence, i);
    }
  }

  /** Trimming a text without `sep` leaves a text without `sep`. */
  lemma StrippedFree(b: string, sep: string)
    requires |sep| > 0
    requires forall j: nat :: !OccursAt(b, sep, j)
    ensures !Contains(Strip(b), sep)
  {
    var t := TrimStart(b);
    var r := TrimEnd(t);
    var a := |b| - |t|;
    assert r == b[a..a + |r|];
    forall j: nat ensures !OccursAt(r, sep, j) {
      OccursInSlice(b, a, |r|, sep, j);
    }
  }

  /** An occurrence inside a slice is an occurrence in the whole text, shifted by the slice's start. */
  lemma OccursInSlice(b: string, a: nat, n: nat, p: string, j: nat)
    requires a + n <= |b|
    ensures OccursAt(b[a..a + n], p, j) ==> OccursAt(b, p, a + j)
  {
    var s := b[a..a + n];
    if j + |p| <= n {
      var x := s[j..j + |p|];
      var y := b[a + j..a + j + |p|];
      forall i | 0 <= i < |p| ensures x[i] == y[i] {
        assert x[i] == s[j + i];
      }
    }
  }

  /** The text before the first `sep` has no `sep` in it. */
  lemma BeforeFree(s: string, sep: string)
    requires |sep| > 0
    ensures forall j: nat :: !OccursAt(Before(s, sep), sep, j)
  {
    var b := Before(s, sep);
    assert b == s[0..|b|];
    forall j: nat ensures !OccursAt(b, sep, j) {
      OccursInSlice(s, 0, |b|, sep, j);
    }
  }

  /** Cutting at the first `sep` and trimming leaves a trimmed text without `sep`. */
  lemma {:induction false} CutClean(x: string, sep: string)
    requires |sep| > 0
    ensures !Contains(Strip(Before(x, sep)), sep)
    ensures Trimmed(Strip(Before(x, sep)))
  {
    BeforeFree(x, sep);
    StrippedFree(Before(x, sep), sep);
    StripTrimmed(Before(x, sep));
  }

  /** The text between `open` and the next `close` contains no `close`, and comes back trimmed. */
  lemma {:induction false} BetweenClean(content: string, open: string, close: string)
    requires |open| > 0 && |close| > 0 && Contains(content, open)
    ensures !Contains(Between(content, open, close), close)
    ensures Trimmed(Between(content, open, close))
  {
    SplitPieces(content, open);
    var x := Split(content, open)[1];
    SplitPieces(x, close);
    CutClean(x, close);
  }

  /** The cleaned text of a fenced reply contains no fence, and comes back trimmed. */
  lemma {:induction false} FencedResultClean(content: string)
    requires Contains(content, Fence)
    ensures !Contains(StripFence(content), Fence)
    ensures Trimmed(StripFence(content))
  {
    if Contains(content, JsonFence) {
      BetweenClean(content, JsonFence, Fence);
    } else {
      BetweenClean(content, Fence, Fence);
    }
  }
}
