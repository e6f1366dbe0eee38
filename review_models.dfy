/** The two stored record kinds: a reviewed version of a file, and one
    review comment on it, with their dictionary views and the language
    check applied when a record's language is set. */
module ReviewModels {
  import opened Wrappers
  import opened Text
  import Config

  /** A stored version of a reviewed file. `parentId` names the version it
      superseded; `contentHash` is the digest of `originalCode`. */
  datatype History = History(
    id: nat,
    filename: string,
    language: string,
    originalCode: string,
    refactoredCode: string,
    contentHash: string,
    version: int,
    createdAt: string,
    parentId: Option<nat>,
    userId: nat)

  /** A stored review comment, attached to the record `historyId`. */
  datatype Comment = Comment(id: nat, historyId: nat, lineNumber: int, code: string, review: string)

  /** The dictionary view of a comment. */
  datatype CommentDict = CommentDict(lineNumber: int, code: string, review: string)

  /** The dictionary view of a record. */
  datatype HistoryDict = HistoryDict(
    id: nat,
    filename: string,
    language: string,
    createdAt: string,
    version: int,
    hasPreviousVersion: bool,
    reviews: seq<CommentDict>,
    refactoredCode: string)

  // ---------------------------------------------------------------------
  // Language validation

  /** How the allowed keys print inside the error message. */
  const AllowedKeysText: string := "dict_keys(['python', 'javascript', 'typescript'])"

  lemma LanguageKeys()
    ensures Config.LanguageMapping.Keys == {"python", "javascript", "typescript"}
  {
  }

  /** A language is accepted iff its lower-case form is a key of the
      language mapping; the value is then kept exactly as given. */
  function ValidateLanguage(value: string): (r: Result<string, string>)
    ensures r.Ok? <==> Lower(value) in {"python", "javascript", "typescript"}
    ensures r.Ok? ==> r.value == value
    ensures r.Err? ==> r.error == "Invalid language: " + value + ". Allowed: " + AllowedKeysText
  {
    LanguageKeys();
    if Lower(value) in Config.LanguageMapping then Ok(value)
    else Err("Invalid language: " + value + ". Allowed: " + AllowedKeysText)
  }

  lemma CppIsRejected()
    ensures ValidateLanguage("CPP").Err?
  {
    assert Lower("CPP") == "cpp";
  }

  lemma CapitalisedPythonIsKept()
    ensures ValidateLanguage("Python") == Ok("Python")
  {
    assert Lower("Python") == "python";
  }

  /** The empty language, which a blank-code review reports, is rejected. */
  lemma EmptyLanguageIsRejected()
    ensures ValidateLanguage("").Err?
  {
    assert Lower("") == "";
  }

  // ---------------------------------------------------------------------
  // Dictionary views

  function CommentToDict(c: Comment): (d: CommentDict)
    ensures d.lineNumber == c.lineNumber && d.code == c.code && d.review == c.review
  {
    CommentDict(c.lineNumber, c.code, c.review)
  }

  /** The comments attached to record `historyId`, in stored order. */
  function CommentsOf(comments: seq<Comment>, historyId: nat): (mine: seq<Comment>)
    ensures |mine| <= |comments|
    decreases |comments|
  {
    if comments == [] then []
    else
      var rest := CommentsOf(comments[..|comments| - 1], historyId);
      var last := comments[|comments| - 1];
      assert comments == comments[..|comments| - 1] + [last];
      if last.historyId == historyId then rest + [last] else rest
  }

  /** A record's comments are exactly the stored comments that carry its id. */
  lemma {:induction false} CommentsOfMembers(comments: seq<Comment>, historyId: nat)
    ensures forall c :: c in CommentsOf(comments, historyId) <==> c in comments && c.historyId == historyId
    decreases |comments|
  {
    if comments != [] {
      var front, last := comments[..|comments| - 1], comments[|comments| - 1];
      CommentsOfMembers(front, historyId);
      assert comments == front + [last];
    }
  }

  /** One more comment extends the list of its own record only. */
  lemma CommentsOfSnoc(comments: seq<Comment>, c: Comment, historyId: nat)
    ensures CommentsOf(comments + [c], historyId)
      == if c.historyId == historyId then CommentsOf(comments, historyId) + [c] else CommentsOf(comments, historyId)
  {
    var all := comments + [c];
    assert all[..|all| - 1] == comments;
  }

  /** Comments appended after the last one of a record do not change its
      comment list when they belong elsewhere, and extend it otherwise. */
  lemma {:induction false} CommentsOfAppend(comments: seq<Comment>, more: seq<Comment>, historyId: nat)
    ensures CommentsOf(comments + more, historyId)
      == CommentsOf(comments, historyId) + CommentsOf(more, historyId)
    decreases |more|
  {
    if more == [] {
      assert comments + more == comments;
    } else {
      var front, last := more[..|more| - 1], more[|more| - 1];
      assert more == front + [last];
      assert comments + more == (comments + front) + [last];
      CommentsOfAppend(comments, front, historyId);
      CommentsOfSnoc(comments + front, last, historyId);
      CommentsOfSnoc(front, last, historyId);
      var a, b := CommentsOf(comments, historyId), CommentsOf(front, historyId);
      assert (a + b) + [last] == a + (b + [last]);
    }
  }

  /** The dictionary view of a record and its comments. */
  function ToDict(h: History, comments: seq<Comment>): (d: HistoryDict)
    ensures d.id == h.id && d.filename == h.filename && d.language == h.language
      && d.version == h.version && d.refactoredCode == h.refactoredCode && d.createdAt == h.createdAt
    ensures d.hasPreviousVersion <==> h.parentId.Some?
    ensures |d.reviews| == |CommentsOf(comments, h.id)|
    ensures forall i :: 0 <= i < |d.reviews| ==> d.reviews[i] == CommentToDict(CommentsOf(comments, h.id)[i])
  {
    var mine := CommentsOf(comments, h.id);
    HistoryDict(h.id, h.filename, h.language, h.createdAt, h.version, h.parentId.Some?,
      seq(|mine|, i requires 0 <= i < |mine| => CommentToDict(mine[i])), h.refactoredCode)
  }

  /** `repr` of a comment: "<Review {id} for line {line}>". */
  function ReviewRepr(c: Comment): string {
    "<Review " + IntToString(c.id) + " for line " + IntToString(c.lineNumber) + ">"
  }

  /** The first space of `x + rest` is where `rest` starts, when `x` has none
      and `rest` starts with one. */
  lemma FirstSpaceAfter(x: string, rest: string)
    requires forall k :: 0 <= k < |x| ==> x[k] != ' '
    requires rest != [] && rest[0] == ' '
    ensures FirstIndex(x + rest, " ") == Some(|x|)
  {
    var s := x + rest;
    assert OccursAt(s, " ", |x|) by { assert s[|x|..|x| + 1] == [s[|x|]]; }
    forall j | 0 <= j < |x| ensures !OccursAt(s, " ", j) {
      assert s[j..j + 1][0] == x[j];
    }
  }

  /** Two texts that each start with a space-free part followed by a space
      split at the same place. */
  lemma SplitAtFirstSpace(x1: string, rest1: string, x2: string, rest2: string)
    requires forall k :: 0 <= k < |x1| ==> x1[k] != ' '
    requires forall k :: 0 <= k < |x2| ==> x2[k] != ' '
    requires rest1 != [] && rest1[0] == ' ' && rest2 != [] && rest2[0] == ' '
    requires x1 + rest1 == x2 + rest2
    ensures x1 == x2 && rest1 == rest2
  {
    FirstSpaceAfter(x1, rest1);
    FirstSpaceAfter(x2, rest2);
    assert x1 == (x1 + rest1)[..|x1|];
    assert x2 == (x2 + rest2)[..|x2|];
    assert rest1 == (x1 + rest1)[|x1|..];
    assert rest2 == (x2 + rest2)[|x2|..];
  }

  /** What follows a comment id in its printed form. */
  function LineSuffix(line: int): string {
    " for line " + IntToString(line) + ">"
  }

  lemma ReprSplits(c: Comment)
    ensures ReviewRepr(c)[8..] == IntToString(c.id) + LineSuffix(c.lineNumber)
  {
    var t := IntToString(c.id) + LineSuffix(c.lineNumber);
    assert ReviewRepr(c) == "<Review " + t;
  }

  lemma LineSuffixInjective(a: int, b: int)
    requires LineSuffix(a) == LineSuffix(b)
    ensures a == b
  {
    var sa, sb := LineSuffix(a), LineSuffix(b);
    assert IntToString(a) == sa[10..|sa| - 1];
    assert IntToString(b) == sb[10..|sb| - 1];
    IntToStringInjective(a, b);
  }

  /** The printed form tells the comment id and line apart: equal forms
      mean equal ids and equal lines. */
  lemma ReviewReprInjective(a: Comment, b: Comment)
    requires ReviewRepr(a) == ReviewRepr(b)
    ensures a.id == b.id && a.lineNumber == b.lineNumber
  {
    ReprSplits(a);
    ReprSplits(b);
    SplitAtFirstSpace(IntToString(a.id), LineSuffix(a.lineNumber), IntToString(b.id), LineSuffix(b.lineNumber));
    IntToStringInjective(a.id, b.id);
    LineSuffixInjective(a.lineNumber, b.lineNumber);
  }
}
