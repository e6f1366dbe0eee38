/** The review pipeline: numbering and tagging the submitted lines, stripping
    Markdown fences from the suggested rewrite, marking the reviewed lines,
    and the fixed results for blank input and for failures. The three
    language-model chains are parameters that may fail. */
module AiReview {
  import opened Wrappers
  import opened Text
  import opened AgentUtils

  // ---------------------------------------------------------------------
  // Formatting the submitted code

  /** The text of each numbered line. */
  function Contents(lines: seq<CodeLine>): (texts: seq<string>)
    ensures |texts| == |lines|
  {
    seq(|lines|, i requires 0 <= i < |lines| => lines[i].content)
  }

  /** One record per line of `code`, numbered from 1, none reviewed yet. */
  function FormatCodeWithLineNumbers(code: string): (lines: seq<CodeLine>)
    ensures code == [] ==> lines == []
    ensures Contents(lines) == SplitLines(code)
    ensures forall i :: 0 <= i < |lines| ==> lines[i].lineNumber == i + 1 && !lines[i].hasReview
  {
    if code == [] then []
    else
      var texts := SplitLines(code);
      seq(|texts|, i requires 0 <= i < |texts| => CodeLine(i + 1, texts[i], false))
  }

  /** Joining the numbered lines' texts with "\n" gives the code back, up to
      a final newline, when "\n" is its only kind of line break. */
  lemma NumberedLinesRebuildCode(code: string)
    requires OnlyNewlines(code)
    ensures Join("\n", Contents(FormatCodeWithLineNumbers(code))) == WithoutFinalNewline(code)
  {
    JoinOfSplitLines(code);
  }

  /** A line as the review chain sees it: "N: text". */
  function Tag(n: nat, line: string): string {
    NatToString(n) + ": " + line
  }

  function TagLines(lines: seq<string>): (tagged: seq<string>)
    ensures |tagged| == |lines|
  {
    seq(|lines|, i requires 0 <= i < |lines| => Tag(i + 1, lines[i]))
  }

  /** The code with "N: " in front of every line, joined by "\n". */
  function FormatCodeWithLineTags(code: string): (tagged: string)
    ensures code == [] ==> tagged == []
  {
    Join("\n", TagLines(SplitLines(code)))
  }

  lemma TagHasNoBreaks(n: nat, line: string)
    requires NoBreaks(line)
    ensures NoBreaks(Tag(n, line)) && Tag(n, line) != []
  {
    var d := NatToString(n);
    var t := Tag(n, line);
    forall k | 0 <= k < |t| ensures !IsLineBreak(t[k]) {
      if k < |d| {
        assert t[k] == d[k];
      } else if k >= |d| + 2 {
        assert t[k] == line[k - |d| - 2];
      }
    }
  }

  /** The tagged text splits back into exactly one tagged line per line of
      the code, and line i carries the number the i-th numbered record has:
      the line numbers the review chain sees are those of the records. */
  lemma LineTagsMatchLineNumbers(code: string)
    ensures var lines := FormatCodeWithLineNumbers(code);
      var tagged := SplitLines(FormatCodeWithLineTags(code));
      |tagged| == |lines| &&
      forall i :: 0 <= i < |lines| ==> tagged[i] == NatToString(lines[i].lineNumber) + ": " + lines[i].content
  {
    var texts := SplitLines(code);
    var tagged := TagLines(texts);
    forall j | 0 <= j < |tagged| ensures NoBreaks(tagged[j]) && tagged[j] != [] {
      TagHasNoBreaks(j + 1, texts[j]);
    }
    SplitLinesOfJoin(tagged);
    var lines := FormatCodeWithLineNumbers(code);
    forall i | 0 <= i < |lines|
      ensures tagged[i] == NatToString(lines[i].lineNumber) + ": " + lines[i].content
    {
      assert Contents(lines)[i] == lines[i].content;
    }
  }

  // ---------------------------------------------------------------------
  // Cleaning the suggested rewrite

  /** The text between the first "```" and the next one, or the end:
      element 1 of splitting on "```". */
  function FenceSegment(code: string): (segment: string)
    requires Contains(code, Fence)
    ensures var i := FirstIndex(code, Fence).value;
      i + 3 + |segment| <= |code| && segment == code[i + 3..i + 3 + |segment|]
    ensures !Contains(segment, Fence)
    ensures var end := FirstIndex(code, Fence).value + 3 + |segment|;
      end == |code| || OccursAt(code, Fence, end)
  {
    var i := FirstIndex(code, Fence).value;
    match FirstIndex(code[i + 3..], Fence)
    case None =>
      NoFenceToEnd(code, i + 3);
      code[i + 3..]
    case Some(j) =>
      SegmentBeforeFence(code, i + 3, j);
      code[i + 3..i + 3 + j]
  }

  /** When no fence follows offset `a`, the rest of the text holds none. */
  lemma NoFenceToEnd(code: string, a: nat)
    requires a <= |code| && FirstIndex(code[a..], Fence).None?
    ensures !Contains(code[a..], Fence) && code[a..] == code[a..a + |code[a..]|]
  {
  }

  /** When the first fence after offset `a` is `j` characters in, the text
      in between holds no fence and is followed by one. */
  lemma SegmentBeforeFence(code: string, a: nat, j: nat)
    requires a <= |code| && FirstIndex(code[a..], Fence) == Some(j)
    ensures a + j + 3 <= |code| && OccursAt(code, Fence, a + j)
    ensures !Contains(code[a..a + j], Fence)
  {
    var rest := code[a..];
    forall k | OccursAt(rest[..j], Fence, k) ensures false {
      OccursInPrefix(rest, Fence, j, k);
    }
    OccursInSuffix(code, Fence, a, j);
    assert rest[..j] == code[a..a + j];
  }

  const IndexErrorMessage: string := "list index out of range"

  /** Strip a Markdown fence and a language line from the rewrite. Without
      a fence the text is only trimmed. With one, the first fenced segment
      is kept; when the lower-cased language occurs anywhere in it, the
      segment is cut after its first "\n", and a segment without "\n" then
      fails with an index error. */
  function CleanRefactoredCode(code: string, language: string): (r: Result<string, string>)
    ensures !Contains(code, Fence) ==> r == Ok(Strip(code))
    ensures r.Err? <==> (Contains(code, Fence)
      && Contains(Lower(FenceSegment(code)), Lower(language))
      && !Contains(FenceSegment(code), "\n"))
    ensures r.Err? ==> r.error == IndexErrorMessage
    ensures r.Ok? ==> !Contains(r.value, Fence) && |r.value| <= |code|
    ensures Contains(code, Fence) && r.Ok? ==>
      var segment := FenceSegment(code);
      r.value == Strip(if Contains(Lower(segment), Lower(language))
                       then segment[FirstIndex(segment, "\n").value + 1..]
                       else segment)
  {
    if !Contains(code, Fence) then
      StripHasNoFence(code);
      Ok(Strip(code))
    else
      var segment := FenceSegment(code);
      if Contains(Lower(segment), Lower(language)) then
        match FirstIndex(segment, "\n")
        case None => Err(IndexErrorMessage)
        case Some(k) =>
          NotContainsSlice(segment, Fence, k + 1, |segment|);
          assert segment[k + 1..|segment|] == segment[k + 1..];
          StripHasNoFence(segment[k + 1..]);
          Ok(Strip(segment[k + 1..]))
      else
        StripHasNoFence(segment);
        Ok(Strip(segment))
  }

  /** A rewrite sent back as one fenced block whose first line names the
      language comes out as the trimmed body of the block. */
  lemma FencedBlockIsUnwrapped(language: string, body: string)
    requires '`' !in language && '`' !in body && '\n' !in language
    ensures CleanRefactoredCode(Fence + language + "\n" + body + Fence, language) == Ok(Strip(body))
  {
    var segment := language + "\n" + body;
    assert Fence + language + "\n" + body + Fence == Fence + segment + Fence;
    FenceSegmentOfBlock(segment);
    LanguageLineIsCut(language, body);
  }

  /** The first line of `language + "\n" + body` names the language and
      ends at the first "\n". */
  lemma LanguageLineIsCut(language: string, body: string)
    requires '\n' !in language
    ensures var segment := language + "\n" + body;
      Contains(Lower(segment), Lower(language)) && Contains(segment, "\n")
      && FirstIndex(segment, "\n") == Some(|language|) && segment[|language| + 1..] == body
  {
    var segment := language + "\n" + body;
    assert Lower(segment)[..|language|] == Lower(language);
    assert OccursAt(Lower(segment), Lower(language), 0);
    assert segment[|language|..|language| + 1] == "\n";
    assert OccursAt(segment, "\n", |language|);
    forall j | 0 <= j < |language| ensures !OccursAt(segment, "\n", j) {
      assert segment[j] == language[j];
    }
  }

  /** The text between an opening and a closing fence is that block's
      segment, when it holds no backquote. */
  lemma FenceSegmentOfBlock(segment: string)
    requires '`' !in segment
    ensures Contains(Fence + segment + Fence, Fence)
    ensures FenceSegment(Fence + segment + Fence) == segment
  {
    var code := Fence + segment + Fence;
    BlockFences(segment);
    assert FirstIndex(code, Fence) == Some(0);
    var found := FenceSegment(code);
    assert 3 + |found| != |code|;
    assert found == code[3..3 + |segment|];
  }

  /** In a block, the only fence after the opening one is the closing one. */
  lemma BlockFences(segment: string)
    requires '`' !in segment
    ensures var code := Fence + segment + Fence;
      OccursAt(code, Fence, 0) && code[3..3 + |segment|] == segment
      && OccursAt(code[3..], Fence, |segment|)
      && forall k :: 3 <= k && OccursAt(code, Fence, k) ==> k == 3 + |segment|
  {
    var code := Fence + segment + Fence;
    assert code[0..3] == Fence;
    assert code[3..3 + |segment|] == segment;
    assert code[3..][|segment|..|segment| + 3] == Fence;
    forall k | 3 <= k && OccursAt(code, Fence, k) ensures k == 3 + |segment| {
      assert code[k] == code[k..k + 3][0];
    }
  }

  lemma StripHasNoFence(s: string)
    requires !Contains(s, Fence)
    ensures !Contains(Strip(s), Fence)
  {
    var a := |s| - |TrimStart(s)|;
    var r := Strip(s);
    assert a + |r| <= |s| && r == s[a..a + |r|];
    NotContainsSlice(s, Fence, a, a + |r|);
  }

  // ---------------------------------------------------------------------
  // Marking reviewed lines

  /** Some review points at line `n`. */
  predicate Targets(reviews: seq<CodeReview>, n: int) {
    exists j :: 0 <= j < |reviews| && reviews[j].lineNumber == n
  }

  /** Mark line `n` (1-based) as reviewed when it is in range. */
  function MarkLine(lines: seq<CodeLine>, n: int): seq<CodeLine> {
    if 0 < n <= |lines| then lines[n - 1 := lines[n - 1].(hasReview := true)] else lines
  }

  /** The lines after applying every review in order: a line is marked iff
      it was already or some review names it; out-of-range numbers mark
      nothing, and nothing else about a line changes. */
  function MarkReviewed(lines: seq<CodeLine>, reviews: seq<CodeReview>): (marked: seq<CodeLine>)
    ensures |marked| == |lines|
    ensures forall i :: 0 <= i < |lines| ==>
      marked[i].lineNumber == lines[i].lineNumber && marked[i].content == lines[i].content
      && (marked[i].hasReview <==> lines[i].hasReview || Targets(reviews, i + 1))
    decreases |reviews|
  {
    if reviews == [] then lines
    else
      var front := reviews[..|reviews| - 1];
      var last := reviews[|reviews| - 1];
      assert forall n :: Targets(reviews, n) <==> Targets(front, n) || last.lineNumber == n by {
        forall n ensures Targets(reviews, n) <==> Targets(front, n) || last.lineNumber == n {
          if Targets(front, n) {
            var j :| 0 <= j < |front| && front[j].lineNumber == n;
            assert reviews[j] == front[j];
          }
          if Targets(reviews, n) && last.lineNumber != n {
            var j :| 0 <= j < |reviews| && reviews[j].lineNumber == n;
            assert front[j] == reviews[j];
          }
        }
      }
      MarkLine(MarkReviewed(lines, front), last.lineNumber)
  }

  // ---------------------------------------------------------------------
  // The review pipeline

  /** The three language-model chains; each may fail with a message. */
  datatype Chains = Chains(
    detect: string -> Result<string, string>,
    review: (string, string) -> Result<CodeReviewList, string>,
    refactor: (string, string, string) -> Result<string, string>)

  /** The review comments handed to the rewrite chain: "- advice" lines. */
  function ReviewsText(reviews: seq<CodeReview>): string {
    Join("\n", seq(|reviews|, i requires 0 <= i < |reviews| => "- " + reviews[i].review))
  }

  const EmptyResult: CodeReviewResult := CodeReviewResult("", [], [], "")

  /** The result reported when any step fails with `message`. */
  function Fallback(code: string, message: string): (result: CodeReviewResult)
    ensures result.language == "unknown" && result.refactoredCode == code
    ensures result.codeLines == FormatCodeWithLineNumbers(code)
    ensures |result.reviews| == 1 && result.reviews[0].lineNumber == 1
      && result.reviews[0].review == message
    ensures code != [] ==> result.reviews[0].code == "1: " + SplitLines(code)[0]
  {
    var first := if code == [] then "" else SplitLines(code)[0];
    CodeReviewResult("unknown", FormatCodeWithLineNumbers(code),
      [CodeReview("1: " + first, message, 1)], code)
  }

  /** The steps of a review of non-blank code, stopping at the first
      failure with its message. */
  function ReviewSteps(code: string, chains: Chains): Result<CodeReviewResult, string> {
    match chains.detect(code)
    case Err(e) => Err(e)
    case Ok(detected) =>
      var language := Strip(detected);
      match chains.review(FormatCodeWithLineTags(code), language)
      case Err(e) => Err(e)
      case Ok(list) =>
        match chains.refactor(code, language, ReviewsText(list.reviews))
        case Err(e) => Err(e)
        case Ok(rewrite) =>
          match CleanRefactoredCode(rewrite, language)
          case Err(e) => Err(e)
          case Ok(cleaned) =>
            Ok(CodeReviewResult(language, MarkReviewed(FormatCodeWithLineNumbers(code), list.reviews),
              list.reviews, cleaned))
  }

  /** What a review of `code` reports, and whether it succeeded: blank code
      is answered at once; any failure becomes the fallback result. */
  function ReviewCodeSpec(code: string, chains: Chains): (CodeReviewResult, bool) {
    if Strip(code) == [] then (EmptyResult, true)
    else
      match ReviewSteps(code, chains)
      case Err(e) => (Fallback(code, e), false)
      case Ok(result) => (result, true)
  }

  /** Whitespace-only code is answered with empty fields and success,
      whatever the chains would do. */
  lemma BlankCodeIsEmptySuccess(code: string, chains: Chains)
    requires forall i :: 0 <= i < |code| ==> IsSpace(code[i])
    ensures ReviewCodeSpec(code, chains) == (CodeReviewResult("", [], [], ""), true)
  {
  }

  /** A failed review reports "unknown", the numbered lines, the input as
      the rewrite and one comment on line 1 quoting the first line. */
  lemma FailureIsFallback(code: string, chains: Chains)
    requires !ReviewCodeSpec(code, chains).1
    ensures var r := ReviewCodeSpec(code, chains).0;
      r.language == "unknown" && r.codeLines == FormatCodeWithLineNumbers(code)
      && r.refactoredCode == code
      && |r.reviews| == 1 && r.reviews[0].lineNumber == 1
      && r.reviews[0].code == "1: " + SplitLines(code)[0]
  {
    assert code != [];
  }

  /** A review succeeds iff the code is blank or every chain and the
      clean-up succeed. */
  lemma SuccessIff(code: string, chains: Chains)
    ensures ReviewCodeSpec(code, chains).1 <==>
      Strip(code) == [] ||
      (chains.detect(code).Ok? &&
       var language := Strip(chains.detect(code).value);
       var reviewed := chains.review(FormatCodeWithLineTags(code), language);
       reviewed.Ok? &&
       var rewrite := chains.refactor(code, language, ReviewsText(reviewed.value.reviews));
       rewrite.Ok? && CleanRefactoredCode(rewrite.value, language).Ok?)
  {
  }

  /** A successful review of non-blank code keeps every comment in order,
      reports one record per line with the right number and text, marks
      exactly the lines some comment names, and returns a fence-free rewrite. */
  lemma SuccessShape(code: string, chains: Chains)
    requires Strip(code) != [] && ReviewCodeSpec(code, chains).1
    ensures var r := ReviewCodeSpec(code, chains).0;
      var texts := SplitLines(code);
      r.language == Strip(chains.detect(code).value)
      && r.reviews == chains.review(FormatCodeWithLineTags(code), r.language).value.reviews
      && |r.codeLines| == |texts|
      && (forall i :: 0 <= i < |texts| ==>
            r.codeLines[i].lineNumber == i + 1 && r.codeLines[i].content == texts[i]
            && (r.codeLines[i].hasReview <==> Targets(r.reviews, i + 1)))
      && !Contains(r.refactoredCode, Fence)
  {
    var lines := FormatCodeWithLineNumbers(code);
    forall i | 0 <= i < |lines| ensures lines[i].content == SplitLines(code)[i] {
      assert Contents(lines)[i] == lines[i].content;
    }
  }

  /** The comment loop of `review_code`: every comment is appended in
      order, and the line it names is marked in place when in range. */
  method CollectReviews(lines: seq<CodeLine>, comments: seq<CodeReview>)
    returns (marked: seq<CodeLine>, reviews: seq<CodeReview>)
    ensures marked == MarkReviewed(lines, comments)
    ensures reviews == comments
  {
    var codeLines := new CodeLine[|lines|](i requires 0 <= i < |lines| => lines[i]);
    reviews := [];
    var k := 0;
    while k < |comments|
      invariant 0 <= k <= |comments|
      invariant reviews == comments[..k]
      invariant codeLines[..] == MarkReviewed(lines, comments[..k])
    {
      var comment := comments[k];
      reviews := reviews + [comment];
      if 0 < comment.lineNumber <= codeLines.Length {
        codeLines[comment.lineNumber - 1] := codeLines[comment.lineNumber - 1].(hasReview := true);
      }
      assert comments[..k + 1][..k] == comments[..k];
      k := k + 1;
    }
    assert comments[..k] == comments;
    marked := codeLines[..];
  }

  /** `review_code`: the steps in order, any failure turned into the
      fallback result. */
  method ReviewCode(code: string, chains: Chains) returns (result: CodeReviewResult, ok: bool)
    ensures (result, ok) == ReviewCodeSpec(code, chains)
  {
    if Strip(code) == [] {
      return EmptyResult, true;
    }
    var detected := chains.detect(code);
    if detected.Err? {
      return Fallback(code, detected.error), false;
    }
    var language := Strip(detected.value);
    var reviewed := chains.review(FormatCodeWithLineTags(code), language);
    if reviewed.Err? {
      return Fallback(code, reviewed.error), false;
    }
    var codeLines, reviews := CollectReviews(FormatCodeWithLineNumbers(code), reviewed.value.reviews);
    var rewrite := chains.refactor(code, language, ReviewsText(reviewed.value.reviews));
    if rewrite.Err? {
      return Fallback(code, rewrite.error), false;
    }
    var cleaned := CleanRefactoredCode(rewrite.value, language);
    if cleaned.Err? {
      return Fallback(code, cleaned.error), false;
    }
    return CodeReviewResult(language, codeLines, reviews, cleaned.value), true;
  }
}
