/** The versioned review store: every submission of a file either matches
    the latest stored version (and is answered from it) or becomes a new
    version, linked to the one it supersedes, with one stored comment per
    review comment. The database is an in-memory table; a failure leaves it
    as it was. */
module CodeReviewService {
  import opened Wrappers
  import opened Text
  import opened AgentUtils
  import opened AiReview
  import opened ReviewModels

  /** The AI review service's `review_code`: the review and whether it
      succeeded. AiReview.ReviewCodeSpec, for some chains, is the one the
      application uses. */
  type Reviewer = string -> (CodeReviewResult, bool)

  /** The service's exception: a message and a status code. */
  datatype ServiceError = ReviewServiceError(message: string, code: int)

  /** The table of records, the table of comments, the registered users,
      and the next identifiers the database will hand out. */
  datatype Db = Db(rows: seq<History>, comments: seq<Comment>, users: set<nat>, nextId: nat, nextCommentId: nat)

  function Ids(rows: seq<History>): set<nat> {
    set k | 0 <= k < |rows| :: rows[k].id
  }

  /** A record as the database keeps it: a positive id below the next
      one, a version from 1, a validated language, an existing owner. */
  predicate RowValid(db: Db, h: History) {
    1 <= h.id < db.nextId && h.version >= 1 && ValidateLanguage(h.language).Ok? && h.userId in db.users
  }

  predicate IdsIncreasing(rows: seq<History>) {
    forall i, j :: 0 <= i < j < |rows| ==> rows[i].id < rows[j].id
  }

  /** No two records share a file name and a version. */
  predicate VersionsUnique(rows: seq<History>) {
    forall i, j :: 0 <= i < j < |rows| ==> rows[i].filename != rows[j].filename || rows[i].version != rows[j].version
  }

  /** A comment has an id below the next one and belongs to a stored record. */
  predicate CommentValid(db: Db, c: Comment) {
    c.id < db.nextCommentId && c.historyId in Ids(db.rows)
  }

  /** What the database guarantees between requests. */
  predicate DbValid(db: Db) {
    db.nextId >= 1
    && (forall h :: h in db.rows ==> RowValid(db, h))
    && IdsIncreasing(db.rows) && VersionsUnique(db.rows)
    && (forall c :: c in db.comments ==> CommentValid(db, c))
  }

  /** The empty store a fresh database holds. */
  function EmptyDb(users: set<nat>): (db: Db)
    ensures DbValid(db)
  {
    Db([], [], users, 1, 1)
  }

  // ---------------------------------------------------------------------
  // Queries

  /** `get_latest_version`: the record of `filename` with the greatest
      version, if there is one. */
  function GetLatestVersion(rows: seq<History>, filename: string): (latest: Option<History>)
    ensures latest.Some? ==> (latest.value in rows && latest.value.filename == filename
      && forall h :: h in rows && h.filename == filename ==> h.version <= latest.value.version)
    ensures latest.None? ==> forall h :: h in rows ==> h.filename != filename
    decreases |rows|
  {
    if rows == [] then None
    else
      var front := rows[..|rows| - 1];
      var last := rows[|rows| - 1];
      assert rows == front + [last];
      var rest := GetLatestVersion(front, filename);
      if last.filename == filename && (rest.None? || rest.value.version < last.version) then Some(last)
      else rest
  }

  /** Primary-key lookup. */
  function FindById(rows: seq<History>, id: nat): (found: Option<History>)
    ensures found.Some? ==> found.value in rows && found.value.id == id
    ensures found.None? ==> forall h :: h in rows ==> h.id != id
    decreases |rows|
  {
    if rows == [] then None
    else if rows[0].id == id then Some(rows[0])
    else
      assert forall h :: h in rows ==> h == rows[0] || h in rows[1..];
      FindById(rows[1..], id)
  }

  /** With distinct ids the lookup finds the one record holding the id. */
  lemma {:induction false} FindByIdFinds(rows: seq<History>, k: nat)
    requires k < |rows|
    requires forall i, j :: 0 <= i < j < |rows| ==> rows[i].id < rows[j].id
    ensures FindById(rows, rows[k].id) == Some(rows[k])
    decreases |rows|
  {
    if k > 0 {
      assert rows[0].id < rows[k].id;
      FindByIdFinds(rows[1..], k - 1);
    }
  }

  /** `get_review_by_id`. */
  function GetReviewById(db: Db, id: nat): (view: Option<HistoryDict>)
    ensures view.Some? ==> exists h :: h in db.rows && h.id == id && view == Some(ToDict(h, db.comments))
    ensures view.None? ==> forall h :: h in db.rows ==> h.id != id
  {
    match FindById(db.rows, id)
    case None => None
    case Some(h) => Some(ToDict(h, db.comments))
  }

  /** Position of the first record with this file name and version. */
  function FindVersion(rows: seq<History>, filename: string, version: int): (index: Option<nat>)
    ensures index.Some? ==> (index.value < |rows|
      && rows[index.value].filename == filename && rows[index.value].version == version
      && forall i :: 0 <= i < index.value ==> !(rows[i].filename == filename && rows[i].version == version))
    ensures index.None? ==> forall i :: 0 <= i < |rows| ==> !(rows[i].filename == filename && rows[i].version == version)
    decreases |rows|
  {
    if rows == [] then None
    else if rows[0].filename == filename && rows[0].version == version then Some(0)
    else
      match FindVersion(rows[1..], filename, version)
      case None => None
      case Some(i) => Some(i + 1)
  }

  /** `get_review_by_filename`: the latest version when none is named,
      otherwise that exact version; 404 when there is no such record. */
  function GetReviewByFilename(db: Db, filename: string, version: Option<int>): (r: Result<HistoryDict, ServiceError>)
    ensures r.Ok? <==>
      exists h :: h in db.rows && h.filename == filename && (version.Some? ==> h.version == version.value)
    ensures r.Ok? ==> exists h :: h in db.rows && h.filename == filename && r.value == ToDict(h, db.comments)
    ensures r.Ok? ==> (r.value.filename == filename
      && (version.Some? ==> r.value.version == version.value)
      && (version.None? ==> forall h :: h in db.rows && h.filename == filename ==> h.version <= r.value.version))
    ensures r.Err? ==> r.error == ReviewServiceError("Review not found for " + filename + " version "
      + (if version.Some? then IntToString(version.value) else "None"), 404)
  {
    var found := match version
      case None => GetLatestVersion(db.rows, filename)
      case Some(v) => match FindVersion(db.rows, filename, v)
        case None => None
        case Some(i) => Some(db.rows[i]);
    match found
    case Some(h) => Ok(ToDict(h, db.comments))
    case None =>
      var shown := if version.Some? then IntToString(version.value) else "None";
      assert version.Some? ==> forall h :: h in db.rows ==> !(h.filename == filename && h.version == version.value) by {
        if version.Some? {
          forall h | h in db.rows ensures !(h.filename == filename && h.version == version.value) {
            var i :| 0 <= i < |db.rows| && db.rows[i] == h;
          }
        }
      }
      Err(ReviewServiceError("Review not found for " + filename + " version " + shown, 404))
  }

  // ---------------------------------------------------------------------
  // History of a user

  /** History order: file name ascending, then version descending. */
  predicate HistoryOrdered(a: History, b: History) {
    StrLess(a.filename, b.filename) || (a.filename == b.filename && a.version >= b.version)
  }

  predicate SortedHistory(s: seq<History>) {
    forall i :: 0 <= i < |s| - 1 ==> HistoryOrdered(s[i], s[i + 1])
  }

  lemma HistoryOrderedTotal(a: History, b: History)
    ensures HistoryOrdered(a, b) || HistoryOrdered(b, a)
  {
    if a.filename != b.filename {
      StrLessTotal(a.filename, b.filename);
    }
  }

  lemma HistoryOrderedTransitive(a: History, b: History, c: History)
    requires HistoryOrdered(a, b) && HistoryOrdered(b, c)
    ensures HistoryOrdered(a, c)
  {
    if StrLess(a.filename, b.filename) && StrLess(b.filename, c.filename) {
      StrLessTransitive(a.filename, b.filename, c.filename);
    }
  }

  /** In a sorted history every earlier record comes before every later one. */
  lemma {:induction false} SortedHistoryAllPairs(s: seq<History>, i: nat, j: nat)
    requires SortedHistory(s) && i < j < |s|
    ensures HistoryOrdered(s[i], s[j])
    decreases j - i
  {
    if i + 1 < j {
      SortedHistoryAllPairs(s, i + 1, j);
      HistoryOrderedTransitive(s[i], s[i + 1], s[j]);
    }
  }

  function Insert(x: History, s: seq<History>): (r: seq<History>)
    requires SortedHistory(s)
    ensures SortedHistory(r)
    ensures multiset(r) == multiset(s) + multiset{x}
    ensures r != [] && (r[0] == x || (s != [] && r[0] == s[0]))
    decreases |s|
  {
    if s == [] || HistoryOrdered(x, s[0]) then [x] + s
    else
      HistoryOrderedTotal(x, s[0]);
      assert s == [s[0]] + s[1..];
      [s[0]] + Insert(x, s[1..])
  }

  /** The records in history order. */
  function SortHistory(s: seq<History>): (r: seq<History>)
    ensures SortedHistory(r)
    ensures multiset(r) == multiset(s)
    decreases |s|
  {
    if s == [] then []
    else
      assert s == [s[0]] + s[1..];
      Insert(s[0], SortHistory(s[1..]))
  }

  /** The records owned by `userId`, in table order. */
  function RowsOf(rows: seq<History>, userId: nat): (mine: seq<History>)
    ensures forall h :: h in mine <==> h in rows && h.userId == userId
    ensures |mine| <= |rows|
    decreases |rows|
  {
    if rows == [] then []
    else
      assert forall h :: h in rows ==> h == rows[0] || h in rows[1..];
      if rows[0].userId == userId then [rows[0]] + RowsOf(rows[1..], userId) else RowsOf(rows[1..], userId)
  }

  /** `get_file_history`: 404 for an unknown user; otherwise the user's
      records, each exactly once, ordered by file name and then newest
      version first. */
  function GetFileHistory(db: Db, userId: nat): (r: Result<seq<HistoryDict>, ServiceError>)
    ensures r.Err? <==> userId !in db.users
    ensures r.Err? ==> r.error == ReviewServiceError("User " + IntToString(userId) + " not found", 404)
    ensures r.Ok? ==> exists ordered: seq<History> ::
      multiset(ordered) == multiset(RowsOf(db.rows, userId)) && SortedHistory(ordered)
      && |r.value| == |ordered|
      && forall i :: 0 <= i < |ordered| ==> r.value[i] == ToDict(ordered[i], db.comments)
  {
    if userId !in db.users then
      Err(ReviewServiceError("User " + IntToString(userId) + " not found", 404))
    else
      var ordered := SortHistory(RowsOf(db.rows, userId));
      Ok(seq(|ordered|, i requires 0 <= i < |ordered| => ToDict(ordered[i], db.comments)))
  }

  // ---------------------------------------------------------------------
  // Creating a version

  /** What a review-service exception prints as when two arguments were
      given and the message holds no quote or backslash: the tuple form. */
  function ExceptionText(message: string, code: int): string {
    "('" + message + "', " + IntToString(code) + ")"
  }

  const ReviewFailedMessage: string := "Failed to generate AI review for the code"

  /** Python truthiness of the parent id. */
  predicate Truthy(parent: Option<nat>) {
    parent.Some? && parent.value != 0
  }

  /** The answer to a submission: the stored view of the unchanged latest
      version, or the fresh review with the new record's id and version. */
  datatype Created =
    | Existing(record: Option<HistoryDict>)
    | New(result: CodeReviewResult, id: nat, createdAt: string, version: int, hasPreviousVersion: bool)

  /** The comment records stored for a new record, numbered from `firstId`. */
  function NewComments(firstId: nat, historyId: nat, reviews: seq<CodeReview>): (stored: seq<Comment>)
    ensures |stored| == |reviews|
  {
    seq(|reviews|, i requires 0 <= i < |reviews| =>
      Comment(firstId + i, historyId, reviews[i].lineNumber, reviews[i].code, reviews[i].review))
  }

  /** `create_or_update_review` on the store `db`: the content digest, the
      review pipeline and the clock are parameters. Returns the new store
      and the answer or the error. */
  function CreateSpec(db: Db, digest: string -> string, reviewer: Reviewer,
                      userId: nat, filename: string, code: string, now: string)
    : (Db, Result<(Created, bool), ServiceError>)
  {
    var hash := digest(code);
    var latest := GetLatestVersion(db.rows, filename);
    if latest.Some? && latest.value.contentHash == hash then
      (db, Ok((Existing(GetReviewById(db, latest.value.id)), false)))
    else
      var (result, success) := reviewer(code);
      if !success then
        (db, Err(ReviewServiceError(ExceptionText(ReviewFailedMessage, 500), 500)))
      else
        var version := if latest.Some? then latest.value.version + 1 else 1;
        var parent := if latest.Some? then Some(latest.value.id) else None;
        if userId !in db.users then
          (db, Err(ReviewServiceError(ExceptionText("User " + IntToString(userId) + " not found", 404), 500)))
        else
          match ValidateLanguage(result.language)
          case Err(message) => (db, Err(ReviewServiceError(message, 500)))
          case Ok(language) =>
            var row := History(db.nextId, filename, language, code, result.refactoredCode,
              hash, version, now, parent, userId);
            var stored := NewComments(db.nextCommentId, row.id, result.reviews);
            (Db(db.rows + [row], db.comments + stored, db.users, db.nextId + 1, db.nextCommentId + |stored|),
             Ok((New(result, row.id, now, version, Truthy(parent)), true)))
  }

  /** Submitting code whose digest equals that of the latest version of the
      file returns that version's stored view, marked not new, and changes
      nothing, whoever submits it and whatever the reviewer would say. */
  lemma UnchangedCodeReturnsLatest(db: Db, digest: string -> string, reviewer: Reviewer,
                                   userId: nat, filename: string, code: string, now: string)
    requires DbValid(db)
    requires GetLatestVersion(db.rows, filename).Some?
    requires GetLatestVersion(db.rows, filename).value.contentHash == digest(code)
    ensures CreateSpec(db, digest, reviewer, userId, filename, code, now)
      == (db, Ok((Existing(Some(ToDict(GetLatestVersion(db.rows, filename).value, db.comments))), false)))
  {
    var latest := GetLatestVersion(db.rows, filename).value;
    var k :| 0 <= k < |db.rows| && db.rows[k] == latest;
    FindByIdFinds(db.rows, k);
  }

  /** A submission is answered from the store exactly when the latest
      version's digest matches; an older version with the same digest does
      not count. */
  lemma ExistingIffLatestMatches(db: Db, digest: string -> string, reviewer: Reviewer,
                                 userId: nat, filename: string, code: string, now: string)
    ensures var response := CreateSpec(db, digest, reviewer, userId, filename, code, now).1;
      (response.Ok? && !response.value.1) <==>
      (GetLatestVersion(db.rows, filename).Some?
       && GetLatestVersion(db.rows, filename).value.contentHash == digest(code))
  {
  }

  /** Every failure leaves the store unchanged and surfaces with code 500. */
  lemma CreateFailureKeepsStore(db: Db, digest: string -> string, reviewer: Reviewer,
                                userId: nat, filename: string, code: string, now: string)
    ensures var (db', response) := CreateSpec(db, digest, reviewer, userId, filename, code, now);
      response.Err? ==> db' == db && response.error.code == 500
  {
  }

  /** A submission fails exactly when it is not answered from the store and
      the review fails, the user is unknown, or the reported language fails
      validation. */
  lemma CreateFailsIff(db: Db, digest: string -> string, reviewer: Reviewer,
                       userId: nat, filename: string, code: string, now: string)
    ensures var response := CreateSpec(db, digest, reviewer, userId, filename, code, now).1;
      var latest := GetLatestVersion(db.rows, filename);
      response.Err? <==>
        (!(latest.Some? && latest.value.contentHash == digest(code))
         && (!reviewer(code).1 || userId !in db.users
             || ValidateLanguage(reviewer(code).0.language).Err?))
  {
  }

  lemma StatusTexts()
    ensures IntToString(500) == "500" && IntToString(404) == "404"
  {
    assert NatToString(50) == "50";
    assert NatToString(40) == "40";
  }

  /** A failed review is re-raised from its printed form. */
  lemma ReviewFailureMessage(db: Db, digest: string -> string, reviewer: Reviewer,
                             userId: nat, filename: string, code: string, now: string)
    requires var latest := GetLatestVersion(db.rows, filename);
      !(latest.Some? && latest.value.contentHash == digest(code))
    requires !reviewer(code).1
    ensures CreateSpec(db, digest, reviewer, userId, filename, code, now).1
      == Err(ReviewServiceError("('" + ReviewFailedMessage + "', 500)", 500))
  {
    ReviewFailedText();
  }

  lemma ReviewFailedText()
    ensures ExceptionText(ReviewFailedMessage, 500) == "('" + ReviewFailedMessage + "', 500)"
  {
    StatusTexts();
  }

  /** An unknown user's 404 is re-raised with code 500, the 404 printed
      inside the message. */
  lemma UnknownUserMessage(db: Db, digest: string -> string, reviewer: Reviewer,
                           userId: nat, filename: string, code: string, now: string)
    requires var latest := GetLatestVersion(db.rows, filename);
      !(latest.Some? && latest.value.contentHash == digest(code))
    requires reviewer(code).1 && userId !in db.users
    ensures CreateSpec(db, digest, reviewer, userId, filename, code, now).1
      == Err(ReviewServiceError("('User " + IntToString(userId) + " not found', 404)", 500))
  {
    UnknownUserText(userId);
  }

  lemma UnknownUserText(userId: nat)
    ensures ExceptionText("User " + IntToString(userId) + " not found", 404)
      == "('User " + IntToString(userId) + " not found', 404)"
  {
    StatusTexts();
  }

  /** Blank code is never stored: its review reports the empty language,
      which validation refuses. */
  lemma BlankCodeIsNeverStored(db: Db, digest: string -> string, reviewer: Reviewer, chains: Chains,
                               userId: nat, filename: string, code: string, now: string)
    requires forall i :: 0 <= i < |code| ==> IsSpace(code[i])
    requires reviewer(code) == ReviewCodeSpec(code, chains)
    ensures var (db', response) := CreateSpec(db, digest, reviewer, userId, filename, code, now);
      db' == db && (response.Err? || !response.value.1)
  {
    BlankCodeIsEmptySuccess(code, chains);
    EmptyLanguageIsRejected();
  }

  /** A new version extends the table by one record holding the submitted
      code, its digest, the reviewed language and rewrite, the next version
      number (1 for a new file) and a link to the superseded version; the
      answer reports a previous version exactly when there was one. */
  lemma NewVersionRecord(db: Db, digest: string -> string, reviewer: Reviewer,
                         userId: nat, filename: string, code: string, now: string)
    requires DbValid(db)
    requires var response := CreateSpec(db, digest, reviewer, userId, filename, code, now).1;
      response.Ok? && response.value.1
    ensures var (db', response) := CreateSpec(db, digest, reviewer, userId, filename, code, now);
      var latest := GetLatestVersion(db.rows, filename);
      var review := reviewer(code).0;
      |db'.rows| == |db.rows| + 1 && db'.rows[..|db.rows|] == db.rows
      && db'.comments[..|db.comments|] == db.comments && db'.users == db.users
      && (latest.None? || latest.value.contentHash != digest(code))
      && var row := db'.rows[|db.rows|];
      row.id == db.nextId && row.filename == filename && row.userId == userId
      && row.originalCode == code && row.contentHash == digest(code)
      && row.language == review.language && row.refactoredCode == review.refactoredCode
      && row.version == (if latest.Some? then latest.value.version + 1 else 1)
      && row.parentId == (if latest.Some? then Some(latest.value.id) else None)
      && response.value.0 == New(review, row.id, now, row.version, latest.Some?)
  {
    var latest := GetLatestVersion(db.rows, filename);
    if latest.Some? {
      var k :| 0 <= k < |db.rows| && db.rows[k] == latest.value;
    }
    var db' := CreateSpec(db, digest, reviewer, userId, filename, code, now).0;
    assert db'.rows[..|db.rows|] == db.rows;
    assert db'.comments[..|db.comments|] == db.comments;
  }

  function ReviewToDict(r: CodeReview): CommentDict {
    CommentDict(r.lineNumber, r.code, r.review)
  }

  lemma {:induction false} CommentsOfNew(firstId: nat, historyId: nat, reviews: seq<CodeReview>)
    ensures CommentsOf(NewComments(firstId, historyId, reviews), historyId) == NewComments(firstId, historyId, reviews)
    decreases |reviews|
  {
    if reviews != [] {
      var front := reviews[..|reviews| - 1];
      CommentsOfNew(firstId, historyId, front);
      var all := NewComments(firstId, historyId, reviews);
      assert all[..|all| - 1] == NewComments(firstId, historyId, front);
    }
  }

  lemma {:induction false} CommentsOfAbsent(comments: seq<Comment>, historyId: nat)
    requires forall i :: 0 <= i < |comments| ==> comments[i].historyId != historyId
    ensures CommentsOf(comments, historyId) == []
    decreases |comments|
  {
    if comments != [] {
      CommentsOfAbsent(comments[..|comments| - 1], historyId);
    }
  }

  /** The new record's view lists exactly the reviewer's comments, in
      order, with their line, quoted code and advice. */
  lemma NewVersionComments(db: Db, digest: string -> string, reviewer: Reviewer,
                           userId: nat, filename: string, code: string, now: string)
    requires DbValid(db)
    requires var response := CreateSpec(db, digest, reviewer, userId, filename, code, now).1;
      response.Ok? && response.value.1
    ensures var db' := CreateSpec(db, digest, reviewer, userId, filename, code, now).0;
      var reviews := reviewer(code).0.reviews;
      ToDict(db'.rows[|db.rows|], db'.comments).reviews
        == seq(|reviews|, i requires 0 <= i < |reviews| => ReviewToDict(reviews[i]))
  {
    var db' := CreateSpec(db, digest, reviewer, userId, filename, code, now).0;
    var reviews := reviewer(code).0.reviews;
    var stored := NewComments(db.nextCommentId, db.nextId, reviews);
    assert db'.comments == db.comments + stored;
    assert db'.rows[|db.rows|].id == db.nextId;
    NoCommentsForNextId(db);
    CommentsOfNewRecord(db.comments, db.nextCommentId, db.nextId, reviews);
    DictOfNewRecord(db'.rows[|db.rows|], db'.comments, db.nextCommentId, reviews);
  }

  /** No stored comment belongs to the id the next record will get. */
  lemma NoCommentsForNextId(db: Db)
    requires DbValid(db)
    ensures CommentsOf(db.comments, db.nextId) == []
  {
    forall i | 0 <= i < |db.comments| ensures db.comments[i].historyId != db.nextId {
      assert db.comments[i] in db.comments;
      var hid := db.comments[i].historyId;
      var k :| 0 <= k < |db.rows| && db.rows[k].id == hid;
      assert db.rows[k] in db.rows;
    }
    CommentsOfAbsent(db.comments, db.nextId);
  }

  lemma CommentsOfNewRecord(comments: seq<Comment>, firstId: nat, historyId: nat, reviews: seq<CodeReview>)
    requires CommentsOf(comments, historyId) == []
    ensures CommentsOf(comments + NewComments(firstId, historyId, reviews), historyId)
      == NewComments(firstId, historyId, reviews)
  {
    var stored := NewComments(firstId, historyId, reviews);
    CommentsOfAppend(comments, stored, historyId);
    CommentsOfNew(firstId, historyId, reviews);
    assert [] + stored == stored;
  }

  lemma DictOfNewRecord(h: History, comments: seq<Comment>, firstId: nat, reviews: seq<CodeReview>)
    requires CommentsOf(comments, h.id) == NewComments(firstId, h.id, reviews)
    ensures ToDict(h, comments).reviews == seq(|reviews|, i requires 0 <= i < |reviews| => ReviewToDict(reviews[i]))
  {
  }

  /** Appending a record with the next id, a version above every version
      of its file, and comments that belong to it keeps the store valid. */
  lemma AppendRowValid(db: Db, row: History, stored: seq<Comment>)
    requires DbValid(db)
    requires row.id == db.nextId && row.version >= 1
    requires ValidateLanguage(row.language).Ok? && row.userId in db.users
    requires forall h :: h in db.rows && h.filename == row.filename ==> h.version < row.version
    requires forall c :: c in stored ==> c.historyId == row.id && c.id < db.nextCommentId + |stored|
    ensures DbValid(Db(db.rows + [row], db.comments + stored, db.users, db.nextId + 1, db.nextCommentId + |stored|))
  {
    var db' := Db(db.rows + [row], db.comments + stored, db.users, db.nextId + 1, db.nextCommentId + |stored|);
    forall h | h in db'.rows ensures RowValid(db', h) {
      if h != row { assert h in db.rows && RowValid(db, h); }
    }
    forall i, j | 0 <= i < j < |db'.rows|
      ensures db'.rows[i].id < db'.rows[j].id
      ensures db'.rows[i].filename != db'.rows[j].filename || db'.rows[i].version != db'.rows[j].version
    {
      assert db'.rows[i] == db.rows[i] && db.rows[i] in db.rows;
      assert RowValid(db, db.rows[i]);
    }
    assert Ids(db.rows) <= Ids(db'.rows) by {
      forall id | id in Ids(db.rows) ensures id in Ids(db'.rows) {
        var k :| 0 <= k < |db.rows| && db.rows[k].id == id;
        assert db'.rows[k] == db.rows[k];
      }
    }
    assert row.id in Ids(db'.rows) by { assert db'.rows[|db.rows|] == row; }
    forall c | c in db'.comments ensures CommentValid(db', c) {
      if c in db.comments { assert CommentValid(db, c); }
    }
  }

  /** Creating a version keeps the store valid. */
  lemma CreatePreservesValid(db: Db, digest: string -> string, reviewer: Reviewer,
                             userId: nat, filename: string, code: string, now: string)
    requires DbValid(db)
    ensures DbValid(CreateSpec(db, digest, reviewer, userId, filename, code, now).0)
  {
    var (db', response) := CreateSpec(db, digest, reviewer, userId, filename, code, now);
    if response.Ok? && response.value.1 {
      NewVersionRecord(db, digest, reviewer, userId, filename, code, now);
      var result := reviewer(code).0;
      var row := db'.rows[|db.rows|];
      var stored := NewComments(db.nextCommentId, db.nextId, result.reviews);
      assert db' == Db(db.rows + [row], db.comments + stored, db.users, db.nextId + 1, db.nextCommentId + |stored|);
      forall c | c in stored ensures c.historyId == row.id && c.id < db.nextCommentId + |stored| {
        var i :| 0 <= i < |stored| && stored[i] == c;
      }
      AppendRowValid(db, row, stored);
    }
  }

  // ---------------------------------------------------------------------
  // Removing a version

  /** What a removal reports: the removed record's id, file name and version. */
  datatype Removal = Removal(id: nat, filename: string, version: int)

  /** The comments that do not belong to record `historyId`, in order. */
  function DropComments(comments: seq<Comment>, historyId: nat): (kept: seq<Comment>)
    ensures |kept| <= |comments|
    ensures forall c :: c in kept <==> c in comments && c.historyId != historyId
    decreases |comments|
  {
    if comments == [] then []
    else
      assert forall c :: c in comments ==> c == comments[0] || c in comments[1..];
      var rest := DropComments(comments[1..], historyId);
      if comments[0].historyId == historyId then rest else [comments[0]] + rest
  }

  /** `remove_review_by_filename_version`: nothing happens when no record
      has this file name and version; otherwise that record and, by
      cascade, its comments are deleted. */
  function RemoveSpec(db: Db, filename: string, version: int): (Db, (Option<Removal>, bool)) {
    match FindVersion(db.rows, filename, version)
    case None => (db, (None, false))
    case Some(i) =>
      var h := db.rows[i];
      (db.(rows := db.rows[..i] + db.rows[i + 1..], comments := DropComments(db.comments, h.id)),
       (Some(Removal(h.id, filename, version)), true))
  }

  /** Removing a version that does not exist reports ({}, false) and
      changes nothing. */
  lemma RemoveMissingIsNoop(db: Db, filename: string, version: int)
    requires forall i :: 0 <= i < |db.rows| ==> !(db.rows[i].filename == filename && db.rows[i].version == version)
    ensures RemoveSpec(db, filename, version) == (db, (None, false))
  {
  }

  /** Cutting one record out of a table with distinct ids leaves exactly
      the other records, still in increasing id order and with distinct
      versions. */
  lemma RemoveAt(s: seq<History>, i: nat)
    requires i < |s| && IdsIncreasing(s) && VersionsUnique(s)
    ensures var s' := s[..i] + s[i + 1..];
      (forall g :: g in s' <==> g in s && g != s[i])
      && IdsIncreasing(s') && VersionsUnique(s')
      && Ids(s') == Ids(s) - {s[i].id}
  {
    RemoveAtIndex(s, i);
    RemoveAtMembers(s, i);
    RemoveAtOrder(s, i);
    RemoveAtIds(s, i);
  }

  lemma RemoveAtIndex(s: seq<History>, i: nat)
    requires i < |s|
    ensures var s' := s[..i] + s[i + 1..];
      |s'| == |s| - 1 && forall j :: 0 <= j < |s'| ==> s'[j] == s[if j < i then j else j + 1]
  {
  }

  lemma RemoveAtMembers(s: seq<History>, i: nat)
    requires i < |s| && IdsIncreasing(s)
    ensures forall g :: g in s[..i] + s[i + 1..] <==> g in s && g != s[i]
  {
    RemoveAtMembersKept(s, i);
    RemoveAtMembersGone(s, i);
  }

  lemma RemoveAtMembersKept(s: seq<History>, i: nat)
    requires i < |s|
    ensures forall g :: g in s && g != s[i] ==> g in s[..i] + s[i + 1..]
  {
    var s' := s[..i] + s[i + 1..];
    RemoveAtIndex(s, i);
    forall g | g in s && g != s[i] ensures g in s' {
      var j :| 0 <= j < |s| && s[j] == g;
      assert s'[if j < i then j else j - 1] == g;
    }
  }

  lemma RemoveAtMembersGone(s: seq<History>, i: nat)
    requires i < |s| && IdsIncreasing(s)
    ensures forall g :: g in s[..i] + s[i + 1..] ==> g in s && g != s[i]
  {
    var s' := s[..i] + s[i + 1..];
    RemoveAtIndex(s, i);
    forall g | g in s' ensures g in s && g != s[i] {
      var j :| 0 <= j < |s'| && s'[j] == g;
      var j0 := if j < i then j else j + 1;
      assert s[j0] == g && s[j0].id != s[i].id;
    }
  }

  lemma RemoveAtOrder(s: seq<History>, i: nat)
    requires i < |s| && IdsIncreasing(s) && VersionsUnique(s)
    ensures IdsIncreasing(s[..i] + s[i + 1..]) && VersionsUnique(s[..i] + s[i + 1..])
  {
    var s' := s[..i] + s[i + 1..];
    RemoveAtIndex(s, i);
    forall p, q | 0 <= p < q < |s'|
      ensures s'[p].id < s'[q].id
      ensures s'[p].filename != s'[q].filename || s'[p].version != s'[q].version
    {
      var p0 := if p < i then p else p + 1;
      var q0 := if q < i then q else q + 1;
      assert s'[p] == s[p0] && s'[q] == s[q0] && p0 < q0;
    }
  }

  lemma RemoveAtIds(s: seq<History>, i: nat)
    requires i < |s| && IdsIncreasing(s)
    ensures Ids(s[..i] + s[i + 1..]) == Ids(s) - {s[i].id}
  {
    RemoveAtIdsKept(s, i);
    RemoveAtIdsGone(s, i);
  }

  lemma RemoveAtIdsGone(s: seq<History>, i: nat)
    requires i < |s| && IdsIncreasing(s)
    ensures forall id :: id in Ids(s[..i] + s[i + 1..]) ==> id in Ids(s) && id != s[i].id
  {
    var s' := s[..i] + s[i + 1..];
    RemoveAtIndex(s, i);
    forall id | id in Ids(s') ensures id in Ids(s) && id != s[i].id {
      var j :| 0 <= j < |s'| && s'[j].id == id;
      var j0 := if j < i then j else j + 1;
      assert s[j0].id == id && s[j0].id != s[i].id;
    }
  }

  lemma RemoveAtIdsKept(s: seq<History>, i: nat)
    requires i < |s|
    ensures forall id :: id in Ids(s) && id != s[i].id ==> id in Ids(s[..i] + s[i + 1..])
  {
    var s' := s[..i] + s[i + 1..];
    RemoveAtIndex(s, i);
    forall id | id in Ids(s) && id != s[i].id ensures id in Ids(s') {
      var j :| 0 <= j < |s| && s[j].id == id;
      assert s'[if j < i then j else j - 1].id == id;
    }
  }

  /** Removing an existing version deletes exactly that record and its
      comments, keeps every other record and comment, and reports the
      record's id with true. */
  lemma RemoveDeletesExactlyOne(db: Db, filename: string, version: int, h: History)
    requires DbValid(db)
    requires h in db.rows && h.filename == filename && h.version == version
    ensures var (db', response) := RemoveSpec(db, filename, version);
      response == (Some(Removal(h.id, filename, version)), true)
      && |db'.rows| == |db.rows| - 1
      && (forall g :: g in db'.rows <==> g in db.rows && g != h)
      && (forall g :: g in db'.rows ==> !(g.filename == filename && g.version == version))
      && (forall c :: c in db'.comments <==> c in db.comments && c.historyId != h.id)
      && db'.users == db.users && db'.nextId == db.nextId && db'.nextCommentId == db.nextCommentId
  {
    var k :| 0 <= k < |db.rows| && db.rows[k] == h;
    var i := FindVersion(db.rows, filename, version).value;
    assert i == k;
    RemoveAt(db.rows, i);
    var rows' := db.rows[..i] + db.rows[i + 1..];
    forall g | g in rows' ensures !(g.filename == filename && g.version == version) {
      var j :| 0 <= j < |db.rows| && db.rows[j] == g;
      if j < i {
        assert db.rows[j].filename != db.rows[i].filename || db.rows[j].version != db.rows[i].version;
      } else if j > i {
        assert db.rows[i].filename != db.rows[j].filename || db.rows[i].version != db.rows[j].version;
      }
    }
  }

  /** Removing a version keeps the store valid. */
  lemma RemovePreservesValid(db: Db, filename: string, version: int)
    requires DbValid(db)
    ensures DbValid(RemoveSpec(db, filename, version).0)
  {
    match FindVersion(db.rows, filename, version)
    case None =>
    case Some(i) =>
      var h := db.rows[i];
      var db' := RemoveSpec(db, filename, version).0;
      RemoveAt(db.rows, i);
      forall g | g in db'.rows ensures RowValid(db', g) {
        assert RowValid(db, g);
      }
      forall c | c in db'.comments ensures CommentValid(db', c) {
        assert CommentValid(db, c);
      }
  }

  // ---------------------------------------------------------------------
  // The service object

  /** The review service over its database: submissions add versions and
      comments, removals delete them. */
  class CodeReviewerService {
    var db: Db
    const digest: string -> string
    const reviewer: Reviewer

    /** The table invariant the database keeps between requests. */
    predicate Valid()
      reads this
    {
      DbValid(db)
    }

    constructor (users: set<nat>, digest: string -> string, reviewer: Reviewer)
      ensures Valid()
      ensures db == EmptyDb(users) && this.digest == digest && this.reviewer == reviewer
    {
      db := EmptyDb(users);
      this.digest := digest;
      this.reviewer := reviewer;
    }

    /** `create_or_update_review`: a new record is added and given the next
        id, then its comments are added. */
    method CreateOrUpdateReview(userId: nat, filename: string, code: string, now: string)
      returns (response: Result<(Created, bool), ServiceError>)
      requires Valid()
      modifies this
      ensures Valid()
      ensures (db, response) == CreateSpec(old(db), digest, reviewer, userId, filename, code, now)
    {
      CreatePreservesValid(db, digest, reviewer, userId, filename, code, now);
      var hash := digest(code);
      var latest := GetLatestVersion(db.rows, filename);
      if latest.Some? && latest.value.contentHash == hash {
        return Ok((Existing(GetReviewById(db, latest.value.id)), false));
      }
      var (result, success) := reviewer(code);
      if !success {
        return Err(ReviewServiceError(ExceptionText(ReviewFailedMessage, 500), 500));
      }
      var version := if latest.Some? then latest.value.version + 1 else 1;
      var parent := if latest.Some? then Some(latest.value.id) else None;
      if userId !in db.users {
        return Err(ReviewServiceError(ExceptionText("User " + IntToString(userId) + " not found", 404), 500));
      }
      var language := ValidateLanguage(result.language);
      if language.Err? {
        return Err(ReviewServiceError(language.error, 500));
      }
      var row := History(db.nextId, filename, language.value, code, result.refactoredCode,
        hash, version, now, parent, userId);
      db := db.(rows := db.rows + [row], nextId := db.nextId + 1);
      AddComments(row.id, result.reviews);
      return Ok((New(result, row.id, now, version, Truthy(parent)), true));
    }

    /** The comment loop: one comment record per review comment, in order,
        each with the next comment id. */
    method AddComments(historyId: nat, reviews: seq<CodeReview>)
      modifies this
      ensures db == old(db).(comments := old(db).comments + NewComments(old(db).nextCommentId, historyId, reviews),
                             nextCommentId := old(db).nextCommentId + |reviews|)
    {
      var k := 0;
      while k < |reviews|
        invariant 0 <= k <= |reviews|
        invariant db == old(db).(comments := old(db).comments + NewComments(old(db).nextCommentId, historyId, reviews[..k]),
                                 nextCommentId := old(db).nextCommentId + k)
      {
        var review := reviews[k];
        db := db.(comments := db.comments + [Comment(db.nextCommentId, historyId, review.lineNumber, review.code, review.review)],
                  nextCommentId := db.nextCommentId + 1);
        assert NewComments(old(db).nextCommentId, historyId, reviews[..k + 1])
          == NewComments(old(db).nextCommentId, historyId, reviews[..k])
             + [Comment(old(db).nextCommentId + k, historyId, review.lineNumber, review.code, review.review)];
        k := k + 1;
      }
      assert reviews[..k] == reviews;
    }

    /** `remove_review_by_filename_version`. */
    method RemoveReviewByFilenameVersion(filename: string, version: int)
      returns (removed: Option<Removal>, ok: bool)
      requires Valid()
      modifies this
      ensures Valid()
      ensures (db, (removed, ok)) == RemoveSpec(old(db), filename, version)
    {
      RemovePreservesValid(db, filename, version);
      var found := FindVersion(db.rows, filename, version);
      if found.None? {
        return None, false;
      }
      var h := db.rows[found.value];
      db := db.(rows := db.rows[..found.value] + db.rows[found.value + 1..],
                comments := DropComments(db.comments, h.id));
      return Some(Removal(h.id, filename, version)), true;
    }
  }
}
