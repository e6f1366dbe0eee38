# CodeCriticAI backend core in Dafny

This project models the code-review backend of CodeCriticAI, a Flask service.
A user submits source code as JSON or as an uploaded file. The AI review
service numbers and tags the lines, asks three language-model chains for:

- the language;
- review comments on tagged lines;
- a refactored version.

It then cleans the answers and marks the reviewed lines. The review store
keeps every submission of a filename as a numbered version, deduplicated by a
content hash. It also answers lookups, per-user history and removal. A small
registry tracks background tasks.

Modules, one per source file, plus shared helpers:

- `Wrappers`: `Option` and `Result`.
- `Text`: the Python string operations the code relies on. These are
  `strip`, ASCII `lower`, `splitlines`, `in`/`find`, `rfind` of a
  character, `replace`, `join`, `str(int)` and code-point string order.
- `Config`: the constant extension set and language mapping.
- `AgentUtils` (`ai_agent_utils.py`): the record shapes and the fallback
  parser for model output.
- `AiReview` (`ai_review_service.py`): the formatters, fence stripping,
  line marking and the `review_code` pipeline over abstract chains.
- `ReviewModels` (`models/review.py`): records, language validation and the
  dictionary views.
- `CodeReviewService` (`code_review_service.py`): the store as a value
  `Db`, with specification functions for every operation. The class
  `CodeReviewerService` holds the `Db` in a field; its methods update it and
  are proved equal to the specification functions.
- `RequestUtils` (`utils/request_utils.py`): request extraction and chunked
  reading over a byte stream.
- `FileUtils` (`utils/file_utils.py`): `allowed_file`.
- `Utf8`: strict UTF-8 decoding. It is used for the chunk-boundary finding.
- `TaskManagerService` (`services/task_manager_service.py`): the class
  `TaskManager` with its task map, plus map functions that specify it.

Several outside inputs become parameters:

- The language-model chains, the review-list validator, the SHA-256 digest,
  the reviewer used by the store and the byte decoder are function-typed
  parameters.
- The creation timestamp and the fresh task id are also parameters.

## Model

| member | source | states |
|---|---|---|
| AgentUtils.CleanOutput | backend/app/utils/ai_agent_utils.py:326-331 | after stripping and removing every "```json" and then every "```", and then collapsing "\n\n", the cleaned text contains no "```" |
| AgentUtils.RemoveFencesLeavesNone | backend/app/utils/ai_agent_utils.py:329 | replacing every "```" by "" leaves no "```" behind, even inside longer backtick runs |
| AgentUtils.CollapseKeepsNoFence | backend/app/utils/ai_agent_utils.py:330 | the "\n\n"→"\n" pass cannot create a fence |
| AgentUtils.CollapseIsSinglePass | backend/app/utils/ai_agent_utils.py:330 | the replacement is one left-to-right pass: three newlines become two |
| AgentUtils.CleanFirstPass | backend/app/utils/ai_agent_utils.py:326-331 | cleaning "a\n\n\nb" gives "a\n\nb" |
| AgentUtils.CleanSecondPass | backend/app/utils/ai_agent_utils.py:326-331 | cleaning "a\n\nb" gives "a\nb" |
| AgentUtils.CleaningIsNotIdempotent | backend/app/utils/ai_agent_utils.py:326-331 | cleaning twice differs from cleaning once |
| AgentUtils.SafeParseReviewOutput | backend/app/utils/ai_agent_utils.py:319-337 | succeeds iff the raw or the cleaned text validates; raw-valid output is returned uncleaned; otherwise the cleaned parse; the error text is "Failed to parse model output: " + the inner error |
| AiReview.FormatCodeWithLineNumbers | backend/app/services/ai_review_service.py:39-48 | empty code gives no lines; one record per `splitlines()` line with that line as content, number index+1, not reviewed |
| AiReview.NumberedLinesRebuildCode | backend/app/services/ai_review_service.py:42-48 | for "\n"-only line breaks, joining the contents with "\n" gives back the code without its final newline |
| AiReview.FormatCodeWithLineTags | backend/app/services/ai_review_service.py:60-62 | empty code gives "" |
| AiReview.LineTagsMatchLineNumbers | backend/app/services/ai_review_service.py:51-62 | the tagged text splits into exactly one line per numbered line, and line i is its number, ": " and its content |
| AiReview.FenceSegment | backend/app/services/ai_review_service.py:79 | `split("```")[1]` is the text right after the first fence, fence-free, ending at the next fence or the end |
| AiReview.CleanRefactoredCode | backend/app/services/ai_review_service.py:65-85 | no fence: the stripped input; with a fence: the stripped segment, cut after its first newline when it holds the lowercased language; an IndexError exactly when it holds the language but no newline; every success is fence-free and no longer than the input |
| AiReview.FencedBlockIsUnwrapped | backend/app/services/ai_review_service.py:75-85 | a block "```" + language + "\n" + body + "```" without other backquotes cleans to the stripped body |
| AiReview.MarkReviewed | backend/app/services/ai_review_service.py:179-185 | line i is marked iff it was marked or some review names line i+1; out-of-range numbers mark nothing; numbers and contents unchanged |
| AiReview.Fallback | backend/app/services/ai_review_service.py:214-227 | language "unknown", the numbered input lines, one review on line 1 tagged with the first line and carrying the error text, the input as refactored code |
| AiReview.BlankCodeIsEmptySuccess | backend/app/services/ai_review_service.py:150-156 | whitespace-only input gives the empty result with success, whatever the chains do |
| AiReview.FailureIsFallback | backend/app/services/ai_review_service.py:214-227 | an unsuccessful review is exactly the fallback shape |
| AiReview.SuccessIff | backend/app/services/ai_review_service.py:150-227 | success iff the input is blank or every chain call and the fence cleanup succeed |
| AiReview.SuccessShape | backend/app/services/ai_review_service.py:158-212 | a successful review carries the stripped language and the review list in order; its lines are numbered and marked exactly where a review points; its refactored code has no fence |
| AiReview.CollectReviews | backend/app/services/ai_review_service.py:177-185 | the loop keeps every review in order and marks the lines as `MarkReviewed` does |
| AiReview.ReviewCode | backend/app/services/ai_review_service.py:136-227 | the method computes exactly the specified result and success flag |
| ReviewModels.LanguageKeys | backend/app/config.py:43-47 | the mapping's keys are exactly python, javascript and typescript |
| ReviewModels.ValidateLanguage | backend/app/models/review.py:61-69 | accepted iff the lowercased value is a key; the accepted value keeps its case; the error text names the value and the keys view |
| ReviewModels.CppIsRejected | backend/app/models/review.py:61-69 | "CPP" is rejected |
| ReviewModels.CapitalisedPythonIsKept | backend/app/models/review.py:61-69 | "Python" is accepted unchanged |
| ReviewModels.EmptyLanguageIsRejected | backend/app/models/review.py:61-69 | "" is rejected |
| ReviewModels.CommentToDict | backend/app/models/review.py:129-139 | exposes exactly line number, code and review |
| ReviewModels.CommentsOfMembers | backend/app/models/review.py:96 | exactly the stored comments that belong to that history record |
| ReviewModels.CommentsOfAppend | backend/app/models/review.py:96 | filtering distributes over appended comments |
| ReviewModels.ToDict | backend/app/models/review.py:83-98 | copies the fields; `has_previous_version` iff a parent id is set; review entry i is the dictionary of the record's i-th comment |
| ReviewModels.ReviewReprInjective | backend/app/models/review.py:141-147 | "<Review {id} for line {n}>" determines both id and line number |
| CodeReviewService.EmptyDb | backend/app/services/code_review_service.py:44-47 | an empty store satisfies the store invariant |
| CodeReviewService.GetLatestVersion | backend/app/services/code_review_service.py:144-166 | a record of that filename with the greatest version, or none iff no record has that filename |
| CodeReviewService.FindByIdFinds | backend/app/services/code_review_service.py:168-182 | with increasing ids, lookup by a stored id finds that record |
| CodeReviewService.GetReviewById | backend/app/services/code_review_service.py:168-182 | the dictionary of the record with that id, or none iff no record has it |
| CodeReviewService.FindVersion | backend/app/services/code_review_service.py:232-240 | the first record with that filename and version, or none iff there is none |
| CodeReviewService.GetReviewByFilename | backend/app/services/code_review_service.py:217-249 | found iff a record matches the filename (and the version, when given); without a version the latest; otherwise 404 "Review not found for {filename} version {version}" |
| CodeReviewService.HistoryOrderedTotal | backend/app/services/code_review_service.py:201-209 | the history order (filename ascending, version descending) relates every two records |
| CodeReviewService.HistoryOrderedTransitive | backend/app/services/code_review_service.py:201-209 | the history order is transitive |
| CodeReviewService.SortedHistoryAllPairs | backend/app/services/code_review_service.py:201-209 | adjacent order implies order between every earlier and later record |
| CodeReviewService.SortHistory | backend/app/services/code_review_service.py:201-209 | the result is sorted and a permutation of the input |
| CodeReviewService.RowsOf | backend/app/services/code_review_service.py:201-204 | exactly the records of that user |
| CodeReviewService.GetFileHistory | backend/app/services/code_review_service.py:184-215 | 404 "User {id} not found" iff the user is unknown; otherwise the dictionaries of a sorted permutation of the user's records |
| CodeReviewService.NewComments | backend/app/services/code_review_service.py:112-119 | one stored comment per review |
| CodeReviewService.UnchangedCodeReturnsLatest | backend/app/services/code_review_service.py:72-77 | when the latest version's hash equals the code's, the store is unchanged and the latest record is returned with is_new false |
| CodeReviewService.ExistingIffLatestMatches | backend/app/services/code_review_service.py:72-77 | an existing record is returned iff the latest version of the filename has the same hash, so older versions are never compared |
| CodeReviewService.CreateFailureKeepsStore | backend/app/services/code_review_service.py:133-142 | every failure leaves the store unchanged and carries code 500 |
| CodeReviewService.CreateFailsIff | backend/app/services/code_review_service.py:70-142 | creation fails iff no dedup hit and then the reviewer fails, the user is unknown or the language is invalid |
| CodeReviewService.ReviewFailureMessage | backend/app/services/code_review_service.py:80-84 | a reviewer failure surfaces as "('Failed to generate AI review for the code', 500)" with code 500 |
| CodeReviewService.UnknownUserMessage | backend/app/services/code_review_service.py:92-95 | an unknown user surfaces as "('User {id} not found', 404)" re-wrapped with code 500 |
| CodeReviewService.BlankCodeIsNeverStored | backend/app/services/code_review_service.py:79-84 | with the AI reviewer, whitespace-only code never adds a record |
| CodeReviewService.NewVersionRecord | backend/app/services/code_review_service.py:86-131 | a new record is appended with the next id, version latest+1 or 1, the latest record as parent, the code, hash and reviewer output; nothing else changes; the response reports id, version and a previous version iff one existed |
| CodeReviewService.NewVersionComments | backend/app/services/code_review_service.py:112-119 | the new record's reviews are the reviewer's comments, in order, with line number, code and review |
| CodeReviewService.AppendRowValid | backend/app/services/code_review_service.py:97-119 | appending a well-formed record and its comments keeps the store invariant |
| CodeReviewService.CreatePreservesValid | backend/app/services/code_review_service.py:49-142 | creation keeps the store invariant |
| CodeReviewService.DropComments | backend/app/models/review.py:54-59 | the cascade keeps exactly the comments of other records |
| CodeReviewService.RemoveMissingIsNoop | backend/app/services/code_review_service.py:268-274 | removing a missing (filename, version) changes nothing and answers ({}, false) |
| CodeReviewService.RemoveDeletesExactlyOne | backend/app/services/code_review_service.py:268-283 | removal deletes exactly the matching record and its comments, keeps all else, and reports its id, filename and version |
| CodeReviewService.RemovePreservesValid | backend/app/services/code_review_service.py:251-288 | removal keeps the store invariant |
| CodeReviewService.CodeReviewerService.constructor | backend/app/services/code_review_service.py:44-47 | the service starts with an empty store, which satisfies the store invariant |
| CodeReviewService.CodeReviewerService.CreateOrUpdateReview | backend/app/services/code_review_service.py:49-142 | the new store and the response are those of the creation specification; the store invariant is kept |
| CodeReviewService.CodeReviewerService.AddComments | backend/app/services/code_review_service.py:112-119 | the loop appends one comment per review, in order, with consecutive ids |
| CodeReviewService.CodeReviewerService.RemoveReviewByFilenameVersion | backend/app/services/code_review_service.py:251-288 | the new store and the answer are those of the removal specification; the store invariant is kept |
| FileUtils.LastDotExtension | backend/app/utils/file_utils.py:33-36 | none iff the name has no dot; otherwise the dot-free text after some dot, that is the last one |
| FileUtils.AllowedFile | backend/app/utils/file_utils.py:23-41 | false without a dot or without the configuration; otherwise true iff the lowercased last-dot extension is allowed |
| FileUtils.UpperCaseExtensionAccepted | backend/app/utils/file_utils.py:36-37 | "A.PY" is accepted |
| FileUtils.OnlyLastDotCounts | backend/app/utils/file_utils.py:36-37 | "archive.py.txt" is refused and "archive.txt.py" accepted |
| FileUtils.TrailingDotRejected | backend/app/utils/file_utils.py:36-37 | any name ending in a dot is refused |
| RequestUtils.CreateErrorResponse | backend/app/utils/request_utils.py:27-39 | the response carries the message and the status, 400 by default |
| RequestUtils.ExtractCodeFromJson | backend/app/utils/request_utils.py:72-103 | unparsable body → "Invalid JSON format"; falsy body → "No JSON data provided"; success iff an object whose code is a non-blank string; the stripped code and the filename field, default "unnamed_file.txt"; all errors 400 |
| RequestUtils.BlankCodeIsEmpty | backend/app/utils/request_utils.py:92-94 | a missing or whitespace-only code field gives "Code provided is empty" |
| RequestUtils.ResubmittingIsStable | backend/app/utils/request_utils.py:92-97 | sending back the extracted code yields the same code |
| RequestUtils.StrippedCodeIsKept | backend/app/utils/request_utils.py:92-97 | code without edge whitespace comes back as it is, under the default filename |
| RequestUtils.PathName | backend/app/utils/request_utils.py:127 | the final path component contains no slash |
| RequestUtils.PathNameIsLastComponent | backend/app/utils/request_utils.py:127 | `Path(name).name` is the last component that is neither empty nor "."; it is "" only when every component is empty or "." |
| RequestUtils.UploadExtension | backend/app/utils/request_utils.py:127 | `Path.suffix[1:]`: non-empty iff the final component has a dot that is neither its first nor its last character; then the dot-free text after the last such dot, else "" |
| RequestUtils.UploadRuleAgreesWithAllowedFile | backend/app/utils/request_utils.py:127-133 | on names without "/" whose last dot is not the first character, the upload rule and `allowed_file` accept the same names |
| RequestUtils.DotFileRuleDiffers | backend/app/utils/request_utils.py:127-133 | ".py" passes `allowed_file` but has no upload extension |
| RequestUtils.DirectoryIsIgnored | backend/app/utils/request_utils.py:127 | "src.d/main.py" and "main.py/" have the upload extension "py" |
| RequestUtils.ReadFileInChunks | backend/app/utils/request_utils.py:148-179 | the loop returns the in-order join of the separately decoded chunks, or a decode failure, and consumes the stream |
| RequestUtils.ChunkedDecodeOfAscii | backend/app/utils/request_utils.py:167-173 | on ASCII content the chunked reading equals one decode of the whole content |
| RequestUtils.ChunkBoundaryRejectsValidText | backend/app/utils/request_utils.py:167-173 | a valid UTF-8 upload with a character across the 8192-byte boundary is refused by the chunked reading |
| RequestUtils.ReadFileWhole | backend/app/utils/request_utils.py:148-179 | the corrected reading returns the decode of the whole content and consumes the stream |
| RequestUtils.ExtractCodeFromFile | backend/app/utils/request_utils.py:106-145 | no "filepath" part → "No file found to review"; empty name → "Empty file submitted"; success iff the upload extension is allowed and the content decodes; returns text and name; all errors 400 |
| RequestUtils.DotFileUploadRefused | backend/app/utils/request_utils.py:127-133 | an upload named ".py" is refused for its type |
| RequestUtils.ToResponse | backend/app/utils/request_utils.py:65-66 | a request error becomes a response with its message and status |
| RequestUtils.ExtractCodeFromRequest | backend/app/utils/request_utils.py:42-69 | JSON goes to the JSON route, its errors become responses unchanged; a multipart request gets exactly the file route's text and name, or its error as a response; else "Unsupported content type" 400; status 500 "Internal server error" iff not JSON and no content type |
| RequestUtils.PythonUploadAccepted | backend/app/utils/request_utils.py:57-61 | a multipart upload "main.py" whose bytes decode is answered with the decoded text and the name "main.py" |
| RequestUtils.JsonTakesPrecedence | backend/app/utils/request_utils.py:57-58 | a JSON request's content type and files are never consulted |
| TaskManagerService.Lookup | backend/app/services/task_manager_service.py:86 | the stored record, or status "not_found" with no result |
| TaskManagerService.Registered | backend/app/services/task_manager_service.py:42-43 | the id is added as "starting" with no result; other records unchanged |
| TaskManagerService.WithStatus | backend/app/services/task_manager_service.py:59-60 | same ids; a known id gets the new status and keeps its result; others unchanged |
| TaskManagerService.WithResult | backend/app/services/task_manager_service.py:70-72 | same ids; a known id becomes "done" with the result; others unchanged |
| TaskManagerService.UnknownIdIsIgnored | backend/app/services/task_manager_service.py:51-72 | updates and completion of an unknown id change nothing, and the id stays not found |
| TaskManagerService.TaskLifecycle | backend/app/services/task_manager_service.py:27-72 | after registration and any updates, a task has the last status and no result; once completed it is "done" with its result |
| TaskManagerService.UpdatesKeepResult | backend/app/services/task_manager_service.py:59-60 | status updates keep the ids and the stored result |
| TaskManagerService.OtherTasksUnaffected | backend/app/services/task_manager_service.py:51-72 | updating or completing one task never changes another's lookup |
| TaskManagerService.TaskManager.constructor | backend/app/services/task_manager_service.py:19-25 | a new manager has no tasks |
| TaskManagerService.TaskManager.StartTask | backend/app/services/task_manager_service.py:27-49 | returns the given id; the map is the registration of it |
| TaskManagerService.TaskManager.UpdateStatus | backend/app/services/task_manager_service.py:51-60 | the map becomes its status update |
| TaskManagerService.TaskManager.Complete | backend/app/services/task_manager_service.py:62-72 | the map becomes its completion |
| TaskManagerService.TaskManager.GetTaskStatus | backend/app/services/task_manager_service.py:74-86 | the stored record, or ("not_found", None), with nothing registered |

## Left out

- Language-model chains and their setup (prompts, the OpenAI client, the fixing parser) are outside calls. Each chain is a possibly failing function parameter.
- Pydantic validation of the review JSON is a function parameter.
- SHA-256 in `calculate_hash` is a function parameter. Determinism is all deduplication needs.
- SQLAlchemy is replaced by an in-memory table of records and comments. Sessions, flush, commit, refresh and rollback are not modelled. A failure leaves the table unchanged, as rollback does. `SQLAlchemyError` paths and the 500 errors of the read operations are not modelled.
- Record ids come from a counter and are never reused. A SQLite rowid may be reused after the highest row is deleted.
- Removing a record does not clear `parent_id` links that point at it. The foreign key is not enforced, so such a link may dangle.
- `created_at` is a text passed in by the caller, not a datetime. The view functions copy it rather than calling `isoformat()`.
- User ids are natural numbers. The user table is a set of ids; accounts, passwords and JWT handling are not modelled.
- Comments of a record are listed in insertion order. The relationship itself has no declared order.
- The `CodeReviewerService` reviewer is a parameter of type `string -> (result, success)`. `BlankCodeIsNeverStored` ties it to the modelled `review_code`.
- Flask routes, `jsonify`, the app factory and `run_app.py` are not modelled. The error response is a (message, status) pair.
- `Lower` folds ASCII letters only. Python's `str.lower` also maps a few non-ASCII characters to text with ASCII letters ("İ" becomes "i" followed by a combining dot, the Kelvin sign becomes "k"). None of these results equals "python", "javascript", "typescript", "py", "js", "jsx", "ts" or "tsx", so the equality tests against those keys agree with Python.
- AiReview.CleanRefactoredCode: the substring test "language in code" uses the ASCII-only `Lower`, so it can differ from Python on non-ASCII letters. For the code "```é\nx```" and the language "É", Python lowers both to "é", cuts the first line and returns "x"; the model keeps the segment and returns "é\nx".
- JSON numbers are reals; the literals NaN and Infinity (truthy in Python) are not modelled. A non-string code field that has a `strip` method cannot occur in parsed JSON.
- The order in which the allowed-extension set lists itself in "Invalid file type" depends on string hashing. It is a parameter (`extensionOrder`).
- `Path.suffix` follows the rule that the last dot of the final component counts only when it is neither its first nor its last character.
- I/O errors while reading an upload and a missing `ALLOWED_EXTENSIONS` key in `extract_code_from_file` (both answered "Failed to process file upload") are not modelled.
- `RequestUtils.ExtractCodeFromFile` takes the reading of the upload as the function parameter `decode` applied to the uploaded bytes. The corrected reading that decodes the whole upload once is `RequestUtils.ReadFileWhole` (see Findings); the chunked reading as written is `RequestUtils.ReadFileInChunks`.
- `start_task` takes the fresh task id as a parameter instead of a UUID, and the worker thread is not started. Concurrent updates from worker threads are not modelled.
- `get_task_status` returns the stored dictionary itself, so later updates show through it. The model returns a copy of the record.
- File saving, reading and deletion in `file_utils.py`, logging and debug output are not modelled.
- `MAX_CONTENT_LENGTH` is enforced by Flask before these functions run, so the model has no size limit.
- Client-side token refresh is not part of the backend sources modelled here.

## Findings

| source | as written | input that shows it | evidently intended | confidence | as-written member | corrected member |
|---|---|---|---|---|---|---|
| backend/app/utils/request_utils.py:167-173 | every 8192-byte chunk is decoded as UTF-8 on its own, so a multi-byte character cut by a chunk boundary makes the decode fail | an upload of 8191 bytes 0x61 followed by 0xC3 0xA9 ("a"×8191 + "é"), which is valid UTF-8, is answered "File could not be decoded as UTF-8 text" | the upload is decoded as one text, whatever the chunk size | high; not executed | RequestUtils.ChunkBoundaryRejectsValidText | RequestUtils.ReadFileWhole |
