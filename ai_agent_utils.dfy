/** The record shapes exchanged with the language-model chains, and the
    tolerant parser for the review chain's JSON output. */
module AgentUtils {
  import opened Wrappers
  import opened Text

  /** One line of the submitted code; `hasReview` says whether some review
      comment points at it. */
  datatype CodeLine = CodeLine(lineNumber: int, content: string, hasReview: bool)

  /** One review comment: the quoted code ("N: text"), the advice, and the line. */
  datatype CodeReview = CodeReview(code: string, review: string, lineNumber: int)

  datatype CodeReviewList = CodeReviewList(reviews: seq<CodeReview>)

  /** The complete answer of a review: detected language, numbered lines,
      comments, and the suggested rewrite. */
  datatype CodeReviewResult = CodeReviewResult(
    language: string,
    codeLines: seq<CodeLine>,
    reviews: seq<CodeReview>,
    refactoredCode: string)

  /** Raised when neither the raw nor the cleaned output parses. */
  datatype ParseError = OutputParserException(message: string)

  /** A Markdown code fence. */
  const Fence: string := "```"

  // ---------------------------------------------------------------------
  // Cleaning of fenced JSON

  lemma ReplaceHead(u: string, pattern: string, with: string)
    requires pattern != [] && u != []
    requires |u| < |pattern| || u[..|pattern|] != pattern
    ensures Replace(u, pattern, with) == [u[0]] + Replace(u[1..], pattern, with)
  {
  }

  lemma OccursInCons(c: char, u: string, t: string, i: int)
    requires 1 <= i
    ensures OccursAt([c] + u, t, i) <==> OccursAt(u, t, i - 1)
  {
    OccursShift([c] + u, t, i - 1);
    assert ([c] + u)[1..] == u;
  }

  /** Removing every "```" in one left-to-right pass leaves none behind: a
      backtick that survives is never followed by two more surviving ones. */
  lemma {:induction false} RemoveFencesLeavesNone(s: string)
    ensures !Contains(Replace(s, Fence, ""), Fence)
    decreases |s|
  {
    var r := Replace(s, Fence, "");
    if |s| < 3 {
    } else if s[..3] == Fence {
      RemoveFencesLeavesNone(s[3..]);
      assert r == Replace(s[3..], Fence, "");
    } else {
      var t := s[1..];
      RemoveFencesLeavesNone(t);
      ReplaceHead(s, Fence, "");
      var rt := Replace(t, Fence, "");
      assert r == [s[0]] + rt;
      forall i ensures !OccursAt(r, Fence, i) {
        if i >= 1 {
          OccursInCons(s[0], rt, Fence, i);
        } else if i == 0 && s[0] == '`' {
          ReplaceHead(t, Fence, "");
          if s[1] != '`' {
            assert r[1] == s[1];
          } else {
            ReplaceHead(t[1..], Fence, "");
            assert r[2] == s[2];
          }
        }
      }
    }
  }

  lemma CollapseHead(u: string)
    requires Replace(u, "\n\n", "\n") != []
    requires Replace(u, "\n\n", "\n")[0] != '\n'
    ensures u != [] && u[0] == Replace(u, "\n\n", "\n")[0]
    ensures Replace(u, "\n\n", "\n")[1..] == Replace(u[1..], "\n\n", "\n")
  {
    if u != [] && !(|u| < 2) && u[..2] != "\n\n" {
      assert Replace(u, "\n\n", "\n") == [u[0]] + Replace(u[1..], "\n\n", "\n");
    }
  }

  /** Collapsing "\n\n" into "\n" cannot create a fence: it never brings two
      characters other than newlines together. */
  lemma {:induction false} CollapseKeepsNoFence(s: string)
    requires !Contains(s, Fence)
    ensures !Contains(Replace(s, "\n\n", "\n"), Fence)
    decreases |s|
  {
    var r := Replace(s, "\n\n", "\n");
    if |s| < 2 {
    } else if s[..2] == "\n\n" {
      NotContainsSlice(s, Fence, 2, |s|);
      assert s[2..|s|] == s[2..];
      CollapseKeepsNoFence(s[2..]);
      var rt := Replace(s[2..], "\n\n", "\n");
      assert r == ['\n'] + rt;
      forall i ensures !OccursAt(r, Fence, i) {
        if i >= 1 {
          OccursInCons('\n', rt, Fence, i);
        } else if i == 0 && |r| >= 3 {
          assert r[0] != Fence[0];
        }
      }
    } else {
      NotContainsSlice(s, Fence, 1, |s|);
      assert s[1..|s|] == s[1..];
      CollapseKeepsNoFence(s[1..]);
      var rt := Replace(s[1..], "\n\n", "\n");
      assert r == [s[0]] + rt;
      forall i ensures !OccursAt(r, Fence, i) {
        if i >= 1 {
          OccursInCons(s[0], rt, Fence, i);
        } else if i == 0 && |r| >= 3 && r[0] == '`' && r[1] == '`' {
          assert !OccursAt(s, Fence, 0);
          CollapseHead(s[1..]);
          assert s[1..][1..] == s[2..];
          if r[2] != '\n' {
            CollapseHead(s[2..]);
          }
        }
      }
    }
  }

  /** The clean-up applied after a failed first parse: trim, drop every
      "```json", then every "```", then collapse "\n\n" into "\n" in one
      left-to-right pass. No fence survives it. */
  function CleanOutput(output: string): (cleaned: string)
    ensures !Contains(cleaned, Fence)
  {
    var unfenced := Replace(Replace(Strip(output), "```json", ""), Fence, "");
    RemoveFencesLeavesNone(Replace(Strip(output), "```json", ""));
    CollapseKeepsNoFence(unfenced);
    Replace(unfenced, "\n\n", "\n")
  }

  /** Three newlines become two: the collapse is a single pass. */
  lemma CollapseIsSinglePass()
    ensures Replace("\n\n\n", "\n\n", "\n") == "\n\n"
  {
    assert Replace("\n", "\n\n", "\n") == "\n";
  }

  /** "a\n\n\nb" has no backtick and no space at its ends, so only the
      collapse changes it. */
  lemma CleanFirstPass()
    ensures CleanOutput("a\n\n\nb") == "a\n\nb"
  {
    var s := "a\n\n\nb";
    StripNoEdgeSpace(s);
    ReplaceAbsent(s, "```json", "");
    ReplaceAbsent(s, Fence, "");
    CollapseSteps();
  }

  lemma CollapseSteps()
    ensures Replace("a\n\n\nb", "\n\n", "\n") == "a\n\nb"
  {
    assert Replace("b", "\n\n", "\n") == "b";
    assert "\nb"[..2] != "\n\n" by { assert "\nb"[1] == 'b'; }
    ReplaceHead("\nb", "\n\n", "\n");
    assert "\nb"[1..] == "b";
    assert Replace("\nb", "\n\n", "\n") == "\nb";
    assert Replace("\n\n\nb", "\n\n", "\n") == "\n\nb";
    assert Replace("a\n\n\nb", "\n\n", "\n") == "a\n\nb";
  }

  lemma CleanSecondPass()
    ensures CleanOutput("a\n\nb") == "a\nb"
  {
    var s := "a\n\nb";
    StripNoEdgeSpace(s);
    ReplaceAbsent(s, "```json", "");
    ReplaceAbsent(s, Fence, "");
    assert Replace("b", "\n\n", "\n") == "b";
    assert Replace("\nb", "\n\n", "\n") == "\nb";
    assert Replace("\n\nb", "\n\n", "\n") == "\nb";
    assert Replace("a\n\nb", "\n\n", "\n") == "a\nb";
  }

  /** Cleaning twice can change the text again, so cleaning is not idempotent. */
  lemma CleaningIsNotIdempotent()
    ensures CleanOutput(CleanOutput("a\n\n\nb")) != CleanOutput("a\n\n\nb")
  {
    CleanFirstPass();
    CleanSecondPass();
  }

  // ---------------------------------------------------------------------
  // Parsing

  /** Parse the review chain's output with `validate` (the JSON schema check
      of CodeReviewList, whose error text is its `Err`). The raw text is
      tried first and returned untouched when it validates; only otherwise
      is the cleaned text tried, and its failure becomes the parser exception. */
  function SafeParseReviewOutput(output: string, validate: string -> Result<CodeReviewList, string>)
    : (r: Result<CodeReviewList, ParseError>)
    ensures r.Ok? <==> validate(output).Ok? || validate(CleanOutput(output)).Ok?
    ensures validate(output).Ok? ==> r == Ok(validate(output).value)
    ensures !validate(output).Ok? && r.Ok? ==> r.value == validate(CleanOutput(output)).value
    ensures r.Err? ==> r.error.message == "Failed to parse model output: " + validate(CleanOutput(output)).error
  {
    match validate(output)
    case Ok(list) => Ok(list)
    case Err(_) =>
      match validate(CleanOutput(output))
      case Ok(list) => Ok(list)
      case Err(inner) => Err(OutputParserException("Failed to parse model output: " + inner))
  }
}
