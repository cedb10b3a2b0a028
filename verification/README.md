# EduEvaluationPlatform — evaluation core, modelled in Dafny

EduEvaluationPlatform lets instructors publish assignments and students hand in
written answers. An external analysis service scores each answer and checks it
for plagiarism. This project models the part of the system that holds that
together:

- the two MongoDB collections. `Submission` has a status enum, an evaluation
  sub-document and a unique (assignment, student) index. `Assignment` has
  validators and `trim` setters. Both are modelled as one store: a table from id
  to record, the natural insertion order, and a counter that hands out fresh ids
  and creation stamps (module `Store`, class `Store.Database`);
- the submission and assignment controllers (`SubmissionController`,
  `AssignmentController`). Each handler is a pure function from the store it
  starts in to its reply and the store it leaves. The four handlers that write,
  `createSubmission`, `createAssignment`, `updateAssignment` and
  `deleteAssignment`, are also imperative methods on `Database` that perform
  the same Mongoose calls one at a time. Each method is proved equal to its
  function. The read-only handlers exist only as functions;
- `evaluateSubmission` and `getEvaluation` (`EvaluationController`). The
  analysis service is a parameter: any function from request to outcome. A
  30-second timeout, a transport error or a non-2xx answer is one of its
  outcomes, `CallFailed(message)`. The method records every document it saves
  in a ghost log, so its two writes are visible in its contract;
- the scoring rubric the analysis service applies, `generate_feedback` in
  `ml-service/utils/feedback.py` (`Feedback`). It is written as pure
  functions over the string primitives it uses, which live in `Text`:
  `strip`, `split()`, `split(sep)`, `join`, `lower` and `in`.

Python's arithmetic is taken exactly. Ratios are compared by
cross-multiplication (`5 * m >= 4 * n` for `m / n >= 0.8`). `round` rounds
the exact quotient, with a tie going to the even neighbour.

Where the code and the system's design description disagree, the model follows
the code:

- **No guard against a second trigger.** The design has an atomic
  "Pending or Failed to Evaluating" transition that answers Conflict when
  another trigger holds the submission. The handler instead reads the status,
  checks only that it is not `evaluated`, and writes `evaluating`. A trigger
  that arrives while another call is in flight therefore sends the same request
  again (`EvaluationController.InFlightTriggerIsNotBlocked`). There is no
  Conflict reply.
- **The score is not clamped.** The score is stored as the service returns it,
  even above the assignment's `maxScore`
  (`EvaluationController.ScoreIsNotClamped`).
- **A deleted assignment gives 500, not "not found".** The assignment
  reference is populated, so a submission whose assignment was deleted fails
  with a 500 at `submission.assignment._id` (evaluationController.js line 29),
  before any write (`EvaluationController.OrphanedSubmissionFails`).
- **The evaluation sub-document is always present.** It holds its schema
  defaults until an evaluation succeeds. "Has an evaluation" therefore means
  "its `evaluatedAt` is set".
- **The grade thresholds are absolute.** The grade uses 80, 65 and 50
  whatever the maximum score. For a maximum below 50, every report is graded
  "Needs Improvement" (`Feedback.GradeIgnoresMaximum`).

## Model

| member | source | states |
|---|---|---|
| Common.JsonOr | backend/controllers/evaluationController.js:65 | `details \|\| {}`: a document (object or array) is kept, a missing, null or false value becomes the default, and the result is always one of the two |
| Common.NumberOr | backend/controllers/evaluationController.js:62-63 | `x \|\| 0`: a missing number becomes the default, a non-zero one is kept; with a zero default it only fills in a missing number |
| Common.StringOr | backend/controllers/evaluationController.js:64 | `s \|\| ''`: a missing string becomes the default, a non-empty one is kept; with an empty default it only fills in a missing string |
| Common.IntOr | backend/controllers/assignmentController.js:63 | `maxScore \|\| 100`: a missing or zero value becomes the default, any other is kept |
| SubmissionModel.ParseStatus | backend/models/Submission.js:26-30 | the enum accepts a string only if it is the stored name of the status it yields |
| SubmissionModel.StatusName | backend/models/Submission.js:26-30 | the stored names of the four statuses, the ones the enum lists (a definition; see `ParseStatus` and `StatusRoundTrip`) |
| SubmissionModel.StatusRoundTrip | backend/models/Submission.js:26-30 | every status is stored under a name the enum accepts and reads back as itself |
| SubmissionModel.NewSubmission | backend/models/Submission.js:14-37 | creation stores the given id, assignment, student and stamp, and the supplied text, file URL and file name, each '' when absent; the status is `pending` and the evaluation holds its defaults; the new record is consistent |
| SubmissionModel.Consistent | backend/models/Submission.js:26-37 | the status/evaluation link every write keeps; in a consistent record the status is `evaluated` exactly when `evaluatedAt` is set |
| SubmissionModel.UniquePairs | backend/models/Submission.js:44-45 | the unique index on (assignment, student): no two stored submissions share the pair (a definition, kept by `InsertKeepsUniquePairs`) |
| SubmissionModel.InsertKeepsUniquePairs | backend/models/Submission.js:44-45 | adding a record whose (assignment, student) pair is new keeps the unique index |
| AssignmentModel.Trim | backend/models/Assignment.js:8 | `trim` leaves a string no longer than the input that neither starts nor ends with whitespace |
| AssignmentModel.ValidAssignment | backend/models/Assignment.js:5-37 | the schema validators, checked after the setters (a definition; see `NewAssignmentValid` and `ValidAssignmentIsTrimmed`) |
| AssignmentModel.ValidAssignmentIsTrimmed | backend/models/Assignment.js:8-37 | a record that passes the validators has a title and keywords that `trim` leaves unchanged |
| AssignmentModel.TrimmedIff | backend/models/Assignment.js:8 | `trim` leaves exactly the strings with no whitespace at either end unchanged, and its result has none |
| AssignmentModel.TrimAll | backend/models/Assignment.js:34-37 | every keyword passes through the `trim` setter, position by position, and comes out trimmed |
| AssignmentModel.NewAssignment | backend/models/Assignment.js:4-41 | creation trims title and keywords, copies the other fields and sets `isActive` to true |
| AssignmentModel.NewAssignmentValid | backend/models/Assignment.js:5-24 | the validators accept a creation exactly when the trimmed title is non-empty and at most 200 characters, the description non-empty and at most 5000, the subject non-empty and `maxScore` at least 1 |
| Store.Select | backend/controllers/submissionController.js:57 | `find(filter)`: exactly the ids of the collection whose record matches, never more than the collection holds |
| Store.SelectAscending | backend/controllers/submissionController.js:57 | a query keeps the collection's natural order |
| Store.ReverseDescending | backend/controllers/submissionController.js:60 | read back to front, increasing creation stamps strictly decrease |
| Store.NewestFirst | backend/controllers/submissionController.js:57-60 | `find(filter).sort({createdAt: -1})`: exactly the matching records, with strictly decreasing creation stamps |
| Store.Wf | backend/models/Submission.js:26-45 | the store invariant: each collection holds exactly the ids of its natural order with increasing stamps below the counter, the unique (assignment, student) index holds, every submission's status agrees with its evaluation, and every assignment passes the schema validators (a definition; kept by every `...KeepsWf` lemma) |
| Store.SaveKeepsWf | backend/controllers/evaluationController.js:36-38 | saving a submission with its pair and stamp unchanged and its status consistent with its evaluation keeps the store invariant |
| Store.ReplaceAssignmentKeepsWf | backend/controllers/assignmentController.js:96-100 | replacing an assignment by a valid one with the same stamp keeps the store invariant |
| Store.AppendAssignmentKeepsWf | backend/controllers/assignmentController.js:59-67 | inserting a valid assignment under a fresh id keeps the store invariant |
| Store.AppendSubmissionKeepsWf | backend/controllers/submissionController.js:45 | inserting a consistent submission with a new (assignment, student) pair under a fresh id keeps the store invariant, the unique index included |
| Store.Without | backend/controllers/assignmentController.js:129 | removing an id from an order keeps exactly the other ids |
| Store.RemoveKeepsCollectionWf | backend/controllers/assignmentController.js:129 | deleting a record keeps its collection well formed |
| Store.WithoutAscending | backend/controllers/assignmentController.js:129 | deleting a record keeps the remaining order ascending by creation stamp |
| Store.Database.constructor | backend/config/db.js:3-14 | a freshly connected, empty database satisfies the store invariant and has logged no save |
| Store.Database.CreateSubmission | backend/controllers/submissionController.js:45 | `Submission.create` gives the record the counter's value as id and stamp, appends it, advances the counter and changes nothing else |
| Store.Database.SaveSubmission | backend/controllers/evaluationController.js:38 | `submission.save()` replaces the stored record under its id, changes nothing else and logs the save |
| Store.Database.CreateAssignment | backend/controllers/assignmentController.js:59-67 | `Assignment.create` appends the record under the counter's value and advances the counter |
| Store.Database.UpdateAssignment | backend/controllers/assignmentController.js:96-100 | `findByIdAndUpdate` replaces the stored assignment under its id and changes nothing else |
| Store.Database.DeleteAssignment | backend/controllers/assignmentController.js:129 | `deleteOne` removes that assignment from the table and from the order and leaves the submissions alone |
| SubmissionController.Submit | backend/controllers/submissionController.js:9-48 | a missing assignment id is a 400, an unknown assignment a 404, an existing (assignment, caller) submission a 400, each changing nothing; otherwise a 201 with a `pending` record carrying the caller, the text or '', and the upload's URL and name, appended under a fresh id |
| SubmissionController.SubmissionFields | backend/controllers/submissionController.js:33-43 | the data handed to `Submission.create`: the assignment, the caller, the text or '', and, when a file came, its `/uploads/` URL and original name (a definition; see `Submit`) |
| SubmissionController.PairQuery | backend/controllers/submissionController.js:23-26 | an id is listed exactly when a stored submission has that assignment and student |
| SubmissionController.SubmitSucceedsIff | backend/controllers/submissionController.js:12-31 | a submission goes through exactly when the assignment id is given, names an assignment, and the caller has no submission for it |
| SubmissionController.SubmitKeepsWf | backend/controllers/submissionController.js:23-45 | `createSubmission` keeps the store invariant, the unique index in particular |
| SubmissionController.CreateSubmission | backend/controllers/submissionController.js:9-48 | the handler's Mongoose calls, one at a time, reply and leave the store exactly as `Submit` says, keep the invariant and save no existing document |
| SubmissionController.Listed | backend/controllers/submissionController.js:53-55 | the `getSubmissions` filter: a student sees only their own submissions, and an assignment id, when given, keeps only that assignment's (a definition; see `ListSubmissions`) |
| SubmissionController.ListSubmissions | backend/controllers/submissionController.js:52-63 | a student gets exactly their own submissions, anyone else all of them, filtered by assignment when one is given, newest first |
| SubmissionController.GetSubmission | backend/controllers/submissionController.js:67-84 | an unknown id is a 404; a student asking for someone else's submission is a 403; otherwise a 200 with the stored record; it succeeds exactly in that last case |
| AssignmentController.Shown | backend/controllers/assignmentController.js:6-8 | the `getAssignments` filter: an instructor sees their own assignments, anyone else the active ones (a definition; see `ListAssignments`) |
| AssignmentController.ListAssignments | backend/controllers/assignmentController.js:4-25 | an instructor gets exactly their own assignments, anyone else exactly the active ones, newest first |
| AssignmentController.GetAssignment | backend/controllers/assignmentController.js:27-46 | a 404 exactly for an unknown id, otherwise a 200 with the stored assignment, active or not |
| AssignmentController.Given | backend/controllers/assignmentController.js:52 | the presence check `!field` fails exactly for a missing or empty string (a definition; see `Publish` and `PublishSucceedsIff`) |
| AssignmentController.CreationFields | backend/controllers/assignmentController.js:59-67 | the fields handed to `Assignment.create`: the body's title, description, subject and due date, `maxScore \|\| 100`, `keywords \|\| []` and the caller as instructor (a definition; see `Publish`) |
| AssignmentController.Publish | backend/controllers/assignmentController.js:48-76 | a missing or empty title, description or subject, or a missing due date, is a 400 changing nothing; a record the validators reject is a 500 changing nothing; otherwise a 201 with the trimmed, valid, active record of the caller, with `maxScore \|\| 100`, appended under a fresh id |
| AssignmentController.PublishSucceedsIff | backend/controllers/assignmentController.js:52-67 | a creation succeeds exactly when the four fields are given, the trimmed title is non-empty and at most 200 characters, the description at most 5000 and `maxScore \|\| 100` at least 1 |
| AssignmentController.BlankTitleIsServerError | backend/controllers/assignmentController.js:52-75 | a title made only of whitespace passes the presence check and is rejected by the schema: a 500, not a 400 |
| AssignmentController.PublishKeepsWf | backend/controllers/assignmentController.js:59-67 | `createAssignment` keeps the store invariant |
| AssignmentController.CreateAssignment | backend/controllers/assignmentController.js:48-76 | the handler's Mongoose calls, one at a time, reply and leave the store exactly as `Publish` says and keep the invariant |
| AssignmentController.Patched | backend/controllers/assignmentController.js:96-100 | the update keeps id and creation stamp; each field the body sets takes the body's value (the title and keywords through `trim`), and each field it does not set keeps its stored value |
| AssignmentController.EmptyPatchIsIdentity | backend/controllers/assignmentController.js:96-100 | an update with an empty body changes nothing |
| AssignmentController.Amend | backend/controllers/assignmentController.js:78-109 | an unknown id is a 404 and another instructor's assignment a 403, each changing nothing. For the owner it succeeds exactly when the patched record passes the validators, replacing the stored record with a 200; otherwise, when the patched record fails the validators, a 500 changing nothing |
| AssignmentController.AmendKeepsWf | backend/controllers/assignmentController.js:96-100 | `updateAssignment` keeps the store invariant |
| AssignmentController.UpdateAssignment | backend/controllers/assignmentController.js:78-109 | the handler's Mongoose calls, one at a time, reply and leave the store exactly as `Amend` says and keep the invariant |
| AssignmentController.Retract | backend/controllers/assignmentController.js:111-137 | an unknown id is a 404 and another instructor's assignment a 403, each changing nothing; it succeeds exactly for the owner, removing only that assignment and leaving every submission (its own included), the submission order and the id counter |
| AssignmentController.RetractKeepsWf | backend/controllers/assignmentController.js:129 | `deleteAssignment` keeps the store invariant |
| AssignmentController.DeleteAssignment | backend/controllers/assignmentController.js:111-137 | the handler's Mongoose calls, one at a time, reply and leave the store exactly as `Retract` says and keep the invariant |
| EvaluationController.Peer | backend/controllers/evaluationController.js:28-31 | the corpus filter: the same assignment, another id and non-empty text (a definition; see `PeerIds` and `CorpusIsPeerTexts`) |
| EvaluationController.PeerIds | backend/controllers/evaluationController.js:28-32 | the corpus query finds exactly the other submissions of the same assignment with non-empty text |
| EvaluationController.Corpus | backend/controllers/evaluationController.js:34 | the corpus is the text of each peer, in the query's order |
| EvaluationController.CorpusIsPeerTexts | backend/controllers/evaluationController.js:28-34 | the corpus holds the text of every peer and no other text; the empty string is never in it |
| EvaluationController.Normalise | backend/controllers/evaluationController.js:61-67 | the stored evaluation takes the service's risk and score (0 when missing), its summary ('' when missing), its details (`{}` when missing or falsy) and the current date |
| EvaluationController.RequestFor | backend/controllers/evaluationController.js:41-49 | the payload carries the submission's id and text, the corpus, the assignment's keywords and `maxScore \|\| 100` |
| EvaluationController.Evaluate | backend/controllers/evaluationController.js:8-94 | unknown id: 404. Evaluated: the stored record with no call and no write. Assignment gone: 500 with no write. Otherwise a request is sent and exactly two writes are made; whenever no request is sent, nothing changes |
| EvaluationController.Settle | backend/controllers/evaluationController.js:60-79 | an answer makes the submission `evaluated` with the normalised result; a failed call makes it `failed` and leaves its evaluation as it was; nothing else changes, and consistency is kept |
| EvaluationController.OutcomeReply | backend/controllers/evaluationController.js:71-84 | a 200 with the saved record exactly when the service answered; otherwise a 500 whose message is "ML evaluation failed: " followed by the error |
| EvaluationController.EvaluateCallsService | backend/controllers/evaluationController.js:27-85 | on a stored, unevaluated submission whose assignment exists, whatever its status: the service is called once with that payload, `evaluating` is saved first, then the outcome, and only that submission changes |
| EvaluationController.EvaluateKeepsWf | backend/controllers/evaluationController.js:36-79 | every trigger keeps the store invariant: `evaluated` exactly when the evaluation carries a date, and the defaults otherwise |
| EvaluationController.EvaluatedIsTerminal | backend/controllers/evaluationController.js:20-25 | no trigger, on any id, changes an evaluated submission |
| EvaluationController.EvaluateTouchesOnlyItsSubmission | backend/controllers/evaluationController.js:36-79 | a trigger changes no assignment and no other submission, and adds or removes none |
| EvaluationController.SecondTriggerAfterSuccess | backend/controllers/evaluationController.js:20-25 | after a successful trigger, a second one returns the same reply with no call and no write |
| EvaluationController.RetryAfterFailure | backend/controllers/evaluationController.js:76-79 | after a failed call the submission is `failed`; a new trigger marks it `evaluating` again and sends the very same request |
| EvaluationController.PeersUnchanged | backend/controllers/evaluationController.js:28-34 | rewriting only a submission's status changes neither its peers nor the corpus |
| EvaluationController.InFlightTriggerIsNotBlocked | backend/controllers/evaluationController.js:20-38 | while a first trigger waits with the submission `evaluating`, a second trigger sends the same request again |
| EvaluationController.OrphanedSubmissionFails | backend/controllers/evaluationController.js:28-29 | once its owner deletes its assignment (`AssignmentController.Retract`), triggering an unevaluated submission is a 500 and changes nothing |
| EvaluationController.EvaluateSubmission | backend/controllers/evaluationController.js:8-94 | the handler's reads, saves and service call, one at a time, give the reply, the request, the final store and the sequence of saved documents that `Evaluate` gives, and keep the invariant |
| EvaluationController.GetEvaluation | backend/controllers/evaluationController.js:98-125 | a 404 exactly for an unknown id; otherwise a 200 with the id and the stored status and evaluation of that submission; in a well-formed store, `evaluated` exactly when the evaluation has a date, and defaults otherwise |
| EvaluationController.ReadAfterSuccess | backend/controllers/evaluationController.js:98-117 | after a successful trigger, reading shows `evaluated` and the normalised answer of the service |
| EvaluationController.ScoreIsNotClamped | backend/controllers/evaluationController.js:55-63 | a service scoring above the assignment's maximum gets that score stored |
| Feedback.IsBlank | ml-service/utils/feedback.py:7 | `not text or not text.strip()`: the text strips to nothing (a definition; see `WordsIffNotBlank`, `ParagraphsIffNotBlank` and `GenerateFeedback`) |
| Feedback.Words | ml-service/utils/feedback.py:15 | `text.split()`: one word for each place where a run of non-whitespace begins, every word non-empty and free of whitespace; where each word lies in the text is stated by `Text.FieldsAreRuns` |
| Feedback.WordsIffNotBlank | ml-service/utils/feedback.py:7-16 | `text.split()` has a word exactly when the text does not strip to nothing |
| Feedback.Periods | ml-service/utils/feedback.py:17 | replacing `!` and `?` by `.` keeps the length, puts `.` at every position that held `!` or `?`, leaves no `!` or `?`, and keeps every other character |
| Feedback.Sentences | ml-service/utils/feedback.py:17 | the sentences are the non-blank stripped pieces of the text split at `.`, `!` and `?` (a definition; its properties are those of `Periods`, `SplitOn` and `StripNonEmpty`) |
| Feedback.Paragraphs | ml-service/utils/feedback.py:19 | the paragraphs are the non-blank stripped pieces between blank lines (a definition; see `ParagraphsIffNotBlank`) |
| Feedback.ParagraphsIffNotBlank | ml-service/utils/feedback.py:7-20 | a text has a paragraph exactly when it does not strip to nothing, so every report counts at least one |
| Feedback.Round | ml-service/utils/feedback.py:65 | `round(num / den)` is within half of the quotient, and a tie goes to the even neighbour |
| Feedback.RoundWithin | ml-service/utils/feedback.py:65 | rounding stays within any integer bounds of the quotient |
| Feedback.RoundMonotone | ml-service/utils/feedback.py:94 | a larger numerator never rounds lower |
| Feedback.RoundExact | ml-service/utils/feedback.py:94 | an exact quotient rounds to itself |
| Feedback.LengthScore | ml-service/utils/feedback.py:26-37 | the length score lies between 4 and 25 |
| Feedback.LengthScoreMonotone | ml-service/utils/feedback.py:26-37 | more words never lower the length score |
| Feedback.ParagraphScore | ml-service/utils/feedback.py:40-48 | the paragraph part is 0, 6 or 10 |
| Feedback.SentenceScore | ml-service/utils/feedback.py:50-56 | the sentence part is 10 exactly when the average sentence has 10 to 25 words, otherwise 5 |
| Feedback.BalancedSentences | ml-service/utils/feedback.py:50-51 | `10 <= word_count / max(sentence_count, 1) <= 25`, compared without division (a definition; see `SentenceScore` and `StructureScore`) |
| Feedback.StructureScore | ml-service/utils/feedback.py:39-58 | the structure score lies between 5 and 20, and is 20 exactly with three paragraphs or more and balanced sentences |
| Feedback.Mentions | ml-service/utils/feedback.py:63 | `kw.lower() in text.lower()` holds exactly when the lower-cased keyword occurs as a block of the lower-cased text |
| Feedback.Which | ml-service/utils/feedback.py:63-73 | `matched` and `missed` hold exactly the keywords the lower-cased text does or does not contain, each as many times as it occurs in the keyword list |
| Feedback.Matched | ml-service/utils/feedback.py:63 | `matched`: the keywords the text mentions (a definition; see `Which` and `MatchedAndMissed`) |
| Feedback.Missed | ml-service/utils/feedback.py:70-73 | `missed`: the keywords the text does not mention (a definition; see `Which` and `MatchedAndMissed`) |
| Feedback.MatchedAndMissed | ml-service/utils/feedback.py:63-73 | the matched and missed keywords add up to the keyword count |
| Feedback.KeywordScore | ml-service/utils/feedback.py:61-76 | 20 without keywords; otherwise between 0 and 35, 35 when all match, 0 when none does, and within half a point of 35 × matched / total |
| Feedback.KeywordScoreMonotone | ml-service/utils/feedback.py:63-65 | more matched keywords never lower the keyword score |
| Feedback.Take | ml-service/utils/feedback.py:71-74 | `xs[:n]` is the prefix of `xs` of length `min(n, len(xs))` |
| Feedback.KeywordPoints | ml-service/utils/feedback.py:61-76 | a keyword feedback point is given exactly when there are keywords |
| Feedback.Normalised | ml-service/utils/feedback.py:79 | `w.lower().strip('.,!?;:')` (a definition; see `NormalisedWords` and `UniqueWords`) |
| Feedback.NormalisedWords | ml-service/utils/feedback.py:79 | each word is lower-cased and stripped of `.,!?;:`, in order |
| Feedback.Elements | ml-service/utils/feedback.py:79 | the set of a sequence holds exactly its elements and is no larger than it |
| Feedback.UniqueWords | ml-service/utils/feedback.py:79-80 | the unique words are exactly the normalised words, and there are never more of them than words |
| Feedback.VocabularyScore | ml-service/utils/feedback.py:78-90 | the vocabulary score is 7, 13 or 20 |
| Feedback.VocabularyScoreMonotone | ml-service/utils/feedback.py:79-90 | more distinct words never lower the vocabulary score |
| Feedback.RawScore | ml-service/utils/feedback.py:93 | `sum(scores.values())`: the four component scores added up (a definition; bounded by `Assess`) |
| Feedback.FinalScore | ml-service/utils/feedback.py:93-95 | the final score lies between 0 and the maximum (0 for a negative maximum), and equals the raw score when the maximum is 100 |
| Feedback.FinalScoreMonotone | ml-service/utils/feedback.py:93-95 | a higher raw score never gives a lower final score |
| Feedback.Rank | ml-service/utils/feedback.py:98-109 | ranks the four grades in increasing order, from 0 to 3 |
| Feedback.GradeFor | ml-service/utils/feedback.py:98-109 | the grade thresholds 80, 65 and 50 (a definition; see `GradeMonotone` and `GradeIgnoresMaximum`) |
| Feedback.GradeMonotone | ml-service/utils/feedback.py:98-109 | a higher final score never gets a lower grade |
| Feedback.Assess | ml-service/utils/feedback.py:14-93 | the breakdown counts the words, sentences and paragraphs of the text; its length, structure, keyword and vocabulary scores are the rubric's scores of those counts, of the matched keywords and of the unique words; the components add up to between 16 and 100 |
| Feedback.Points | ml-service/utils/feedback.py:23-90 | four feedback points, five with keywords; the last is the vocabulary point |
| Feedback.GenerateFeedback | ml-service/utils/feedback.py:3-125 | a blank text gets the no-content result exactly, with score 0 and the summary "No content submitted." (`SummaryOf`); otherwise the breakdown and the feedback points are those of the text (`Assess`, `Points`), the text has a word and a paragraph, the score is the scaled, clamped raw score (the raw score itself for a maximum of 100), the grade is that score's grade, and the summary is the grade's opening followed by the last feedback point; the score always lies between 0 and the maximum |
| Feedback.GradeIgnoresMaximum | ml-service/utils/feedback.py:94-109 | below a maximum of 80 no score is graded "Excellent"; below 50 every score is "Needs Improvement" |
| Text.StripStart | ml-service/utils/feedback.py:17 | `lstrip`: the suffix left after exactly the leading dropped characters |
| Text.StripEnd | ml-service/utils/feedback.py:17 | `rstrip`: the prefix left before exactly the trailing dropped characters |
| Text.Strip | ml-service/utils/feedback.py:17 | `strip`: `rstrip` after `lstrip` (a definition; see `StripEnds`, `StripIdempotent`, `StripEmptyIff`) |
| Text.StripEnds | ml-service/utils/feedback.py:17 | a stripped string neither starts nor ends with a dropped character |
| Text.StripIdempotent | ml-service/utils/feedback.py:17 | stripping twice strips nothing more |
| Text.StripEmptyIff | ml-service/utils/feedback.py:7 | a string strips to nothing exactly when all its characters are dropped |
| Text.Token | ml-service/utils/feedback.py:15 | the longest separator-free prefix |
| Text.Fields | ml-service/utils/feedback.py:15 | `split()` on a separator predicate (a definition; see `FieldsAreFields`, `FieldsCount`, `FieldsKeepText`) |
| Text.FieldsAreFields | ml-service/utils/feedback.py:15 | every word of `split()` is non-empty and free of whitespace |
| Text.FieldsKeepText | ml-service/utils/feedback.py:15 | `split()` loses exactly the whitespace: its words put back together are the text without its whitespace |
| Text.FieldsCount | ml-service/utils/feedback.py:15 | `split()` gives exactly one word for each position where a non-separator follows a separator or starts the text |
| Text.FieldsAreRuns | ml-service/utils/feedback.py:15 | each word of `split()` is a maximal run of non-whitespace: it is the text at its start position, preceded by whitespace or the start and followed by whitespace or the end, and the start positions (`FieldStarts`) strictly increase with at least one character between consecutive words |
| Text.NoFieldsIff | ml-service/utils/feedback.py:15 | `split()` gives no word exactly when the text is all whitespace |
| Text.SplitOn | ml-service/utils/feedback.py:19 | `split(sep)` always gives at least one piece, the first piece is a prefix of the string, and no piece contains `sep` |
| Text.Join | ml-service/utils/feedback.py:19 | `sep.join(parts)` (a definition; see `JoinSplitOn`) |
| Text.JoinSplitOn | ml-service/utils/feedback.py:19 | `sep.join(s.split(sep)) == s` |
| Text.StripNonEmpty | ml-service/utils/feedback.py:17-19 | `[p.strip() for p in parts if p.strip()]` is no longer than the parts and holds no empty string |
| Text.StripNonEmptyKeeps | ml-service/utils/feedback.py:17-19 | the surviving parts are the stripped parts, each as many times as it occurs, except the empty string |
| Text.StripNonEmptyIff | ml-service/utils/feedback.py:17-19 | nothing survives exactly when every part is all dropped characters |
| Text.JoinStripNonEmpty | ml-service/utils/feedback.py:19 | split on a separator of dropped characters, some piece survives stripping exactly when the whole string does |
| Text.ContainsIff | ml-service/utils/feedback.py:63 | `needle in hay` holds exactly when the needle occurs as a block at some position |
| Text.ContainsEmpty | ml-service/utils/feedback.py:63 | the empty string occurs in every string |
| Text.LowerChar | ml-service/utils/feedback.py:62-63 | upper-case ASCII letters map to their lower-case letters, every other character to itself |
| Text.Lower | ml-service/utils/feedback.py:62-63 | `lower()` keeps the length and folds every character |
| Text.LowerIdempotent | ml-service/utils/feedback.py:62-63 | lower-casing twice changes nothing more, and leaves no upper-case ASCII letter |
| Text.NatToString | ml-service/utils/feedback.py:68 | `str(n)`: non-empty decimal digits without a leading zero, whose decimal value is `n` |

## Left out

- backend/middleware/errorMiddleware.js is not part of this model. A thrown
  error is taken to reply with the status the handler set just before
  throwing, and with the error's message.
- Concurrency: every handler runs from start to finish on one store.
  Interleavings are represented only by the states they leave;
  `EvaluationController.InFlightTriggerIsNotBlocked` starts from the state a
  first trigger leaves while its call is in flight.
- Store failures: a Mongoose call that throws for I/O reasons, a crash
  between the `evaluating` write and the outcome write, and the cast error
  for a malformed ObjectId are not modelled. Every store call succeeds.
- Dates: `createdAt` and `submittedAt` are a creation stamp from the store's
  counter, which grows with every insertion. `now` is a parameter of the
  evaluation.
- Populate joins (`populate('student' …)`, `populate('instructor' …)`),
  authentication and role checks in the routes, file storage, and the
  `success` and `count` fields of the JSON replies are not modelled. A reply
  carries a status code and a body.
- The schema's validation messages are collapsed into one 500 reply with a
  fixed message.
- `maxScore` is an integer. A fractional or string maximum, and Mongoose's
  casting of request fields, are not modelled.
- Text.LowerChar: folds ASCII letters only. Python's `str.lower` also folds
  other alphabets, so keyword matching on non-ASCII text may differ.
- Text.Lower: inherits the ASCII-only folding of `Text.LowerChar`.
- Text.SplitOn: the contract does not say which occurrence of a
  self-overlapping separator (`"\n\n"` in a run of three or more newlines)
  the split takes; the definition takes the leftmost, as Python does.
- Text.StripNonEmptyKeeps: states the surviving parts as a multiset, not
  their order. The rubric uses only their number.
- Feedback.Round: rounds the exact rational quotient. Python divides in
  binary floating point first, so a quotient that lies at a tie only in exact
  arithmetic, or only in floating point, may round the other way.
- Feedback.BalancedSentences and Feedback.VocabularyScore: compare the
  ratios exactly by cross-multiplication, where Python compares floating-point
  quotients. They can differ only where a float quotient lands on the wrong
  side of 10, 25, 0.4 or 0.6.
- Lengths are counted in code points. JavaScript's `maxlength` counts UTF-16
  code units, so a title or description with characters outside the Basic
  Multilingual Plane may be accepted here and rejected there.
- AssignmentController.Patched: a null value in the update body, and fields
  the schema does not know, are not modelled. A patch sets a field or leaves
  it alone.
- ml-service/utils/plagiarism.py, ml-service/app.py and ml-service/train.py
  are not part of this model. The plagiarism risk arrives in the service's
  answer as an arbitrary number.
