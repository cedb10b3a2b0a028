/** backend/controllers/evaluationController.js: triggering the analysis of
    a submission (`evaluateSubmission`) and reading its result
    (`getEvaluation`). The analysis service is a parameter: any function from
    request to outcome, so every behaviour of the real service, a timeout
    included, is one of its values. */
module EvaluationController {
  import opened Common
  import opened SubmissionModel
  import opened AssignmentModel
  import opened Store
  import AssignmentController

  /** The body the backend posts to the analysis service's `/evaluate` endpoint. */
  datatype AnalysisRequest = AnalysisRequest(
    submissionId: Id,
    text: string,
    corpus: seq<string>,
    keywords: seq<string>,
    maxScore: int)

  /** The fields the backend reads from the service's answer; a missing or null field is `None`. */
  datatype AnalysisResponse = AnalysisResponse(
    plagiarismRiskNumeric: Option<real>,
    score: Option<real>,
    feedbackSummary: Option<string>,
    details: Option<Json>)

  /** A 2xx answer, or a failed call (timeout after 30 s, transport error, non-2xx status) with its message. */
  datatype AnalysisOutcome = Responded(response: AnalysisResponse) | CallFailed(message: string)

  /** The analysis service as the backend sees it. */
  type AnalysisService = AnalysisRequest -> AnalysisOutcome

  /** What one trigger answers, the store it leaves, the request it sent (if
      any), and the submission documents it saved, in order. */
  datatype EvalStep = EvalStep(
    reply: Reply<Submission>,
    after: Tables,
    request: Option<AnalysisRequest>,
    writes: seq<Submission>)

  const SubmissionNotFound := "Submission not found"
  /** The error Node raises at `submission.assignment._id` when the populated assignment is gone. */
  const AssignmentGone := "Cannot read properties of null (reading '_id')"
  const MlFailurePrefix := "ML evaluation failed: "

  /** A peer of `s` for plagiarism comparison: same assignment, another id, non-empty text. */
  predicate Peer(s: Submission, p: Submission) {
    p.assignment == s.assignment && p.id != s.id && p.textContent != ""
  }

  /** The corpus query: the peers of `s`, in natural order. */
  function PeerIds(t: Tables, s: Submission): (ids: seq<Id>)
    ensures forall id :: id in ids <==> id in t.submissionOrder && id in t.submissions && Peer(s, t.submissions[id])
  {
    Select(t.submissionOrder, t.submissions, (p: Submission) => Peer(s, p))
  }

  /** The plagiarism corpus: the texts of the peers of `s`, in natural order. */
  function Corpus(t: Tables, s: Submission): (corpus: seq<string>)
    ensures |corpus| == |PeerIds(t, s)|
    ensures forall i :: 0 <= i < |corpus| ==> PeerIds(t, s)[i] in t.submissions
    ensures forall i :: 0 <= i < |corpus| ==> corpus[i] == t.submissions[PeerIds(t, s)[i]].textContent
  {
    var ids := PeerIds(t, s);
    seq(|ids|, i requires 0 <= i < |ids| => t.submissions[ids[i]].textContent)
  }

  /** The corpus holds the text of every peer of `s` and no other text; the
      empty string is never in it. */
  lemma CorpusIsPeerTexts(t: Tables, s: Submission)
    requires Wf(t)
    ensures forall x :: x in Corpus(t, s) <==>
      exists id :: id in t.submissions && Peer(s, t.submissions[id]) && t.submissions[id].textContent == x
    ensures "" !in Corpus(t, s)
  {
    var ids := PeerIds(t, s);
    var corpus := Corpus(t, s);
    forall x, id | id in t.submissions && Peer(s, t.submissions[id]) && t.submissions[id].textContent == x
      ensures x in corpus
    {
      assert id in ids;
      var i :| 0 <= i < |ids| && ids[i] == id;
      assert corpus[i] == x;
    }
  }

  /** The stored evaluation built from the service's answer with the controller's
      `|| 0`, `|| ''` and `|| {}` defaults. The score is kept as it came: it is
      not clamped to the assignment's `maxScore`. */
  function Normalise(resp: AnalysisResponse, now: Date): (e: Evaluation)
    ensures e.plagiarismRisk == Some(resp.plagiarismRiskNumeric.GetOr(0.0))
    ensures e.score == Some(resp.score.GetOr(0.0))
    ensures e.feedbackSummary == resp.feedbackSummary.GetOr("")
    ensures e.details == JsonOr(resp.details, EmptyObject)
    ensures resp.details.None? ==> e.details == EmptyObject
    ensures e.evaluatedAt == Some(now)
  {
    Evaluation(
      Some(NumberOr(resp.plagiarismRiskNumeric, 0.0)),
      Some(NumberOr(resp.score, 0.0)),
      StringOr(resp.feedbackSummary, ""),
      JsonOr(resp.details, EmptyObject),
      Some(now))
  }

  /** The payload for `s` of assignment `a`: its text, the corpus, the
      keywords, and `maxScore || 100`. */
  function RequestFor(t: Tables, s: Submission, a: Assignment): (req: AnalysisRequest)
    ensures req.submissionId == s.id && req.text == s.textContent && req.corpus == Corpus(t, s)
    ensures req.keywords == a.keywords
    ensures a.maxScore != 0 ==> req.maxScore == a.maxScore
    ensures a.maxScore == 0 ==> req.maxScore == DefaultMaxScore
  {
    AnalysisRequest(s.id, s.textContent, Corpus(t, s), a.keywords, IntOr(Some(a.maxScore), DefaultMaxScore))
  }

  /** `evaluateSubmission` as a function of the store it starts from, the service and the clock. */
  function Evaluate(t: Tables, id: Id, service: AnalysisService, now: Date): (r: EvalStep)
    // an unknown id: 404, nothing read further, nothing written
    ensures id !in t.submissions ==> r == EvalStep(Err(404, SubmissionNotFound), t, None, [])
    // already evaluated: the stored record, no corpus, no call, no write
    ensures id in t.submissions && t.submissions[id].status == Evaluated ==>
              r == EvalStep(Ok(200, t.submissions[id]), t, None, [])
    // the assignment was deleted: the populated reference is null and the handler fails before any write
    ensures id in t.submissions && t.submissions[id].status != Evaluated && t.submissions[id].assignment !in t.assignments ==>
              r == EvalStep(Err(500, AssignmentGone), t, None, [])
    // otherwise a request was sent, and two writes made
    ensures r.request.Some? <==> |r.writes| == 2
    ensures r.request.None? ==> r.after == t && r.writes == []
  {
    if id !in t.submissions then EvalStep(Err(404, SubmissionNotFound), t, None, [])
    else
      var s := t.submissions[id];
      if s.status == Evaluated then EvalStep(Ok(200, s), t, None, [])
      else if s.assignment !in t.assignments then EvalStep(Err(500, AssignmentGone), t, None, [])
      else
        var req := RequestFor(t, s, t.assignments[s.assignment]);
        var evaluating := s.(status := Evaluating);
        var outcome := service(req);
        var settled := Settle(evaluating, outcome, now);
        EvalStep(OutcomeReply(settled, outcome), t.(submissions := t.submissions[id := settled]), Some(req), [evaluating, settled])
  }

  /** The write that records the outcome of the call: on an answer the
      submission is evaluated with the normalised result; on a failed call it
      is marked failed and its evaluation is left as it was. */
  function Settle(s: Submission, outcome: AnalysisOutcome, now: Date): (w: Submission)
    ensures w == s.(status := w.status, evaluation := w.evaluation)
    ensures outcome.Responded? ==> w.status == Evaluated && w.evaluation == Normalise(outcome.response, now)
    ensures outcome.CallFailed? ==> w.status == Failed && w.evaluation == s.evaluation
    ensures Consistent(s) && s.status != Evaluated ==> Consistent(w)
  {
    match outcome
    case Responded(resp) => s.(status := Evaluated, evaluation := Normalise(resp, now))
    case CallFailed(_) => s.(status := Failed)
  }

  /** The answer to the client: 200 with the evaluated record, or 500 with the
      service's error message. */
  function OutcomeReply(w: Submission, outcome: AnalysisOutcome): (r: Reply<Submission>)
    ensures r.Ok? <==> outcome.Responded?
    ensures r.Ok? ==> r == Ok(200, w)
    ensures outcome.CallFailed? ==> r == Err(500, MlFailurePrefix + outcome.message)
  {
    match outcome
    case Responded(_) => Ok(200, w)
    case CallFailed(msg) => Err(500, MlFailurePrefix + msg)
  }

  /** A trigger on a stored, unevaluated submission whose assignment exists,
      whatever its status (pending, failed, even evaluating): it is marked
      evaluating, the service is called once with the submission's text, its
      corpus, the assignment's keywords and maximum, and the outcome is written. */
  lemma EvaluateCallsService(t: Tables, id: Id, service: AnalysisService, now: Date)
    requires id in t.submissions && t.submissions[id].status != Evaluated && t.submissions[id].assignment in t.assignments
    ensures var r := Evaluate(t, id, service, now);
      var s := t.submissions[id];
      var a := t.assignments[s.assignment];
      && r.request == Some(RequestFor(t, s, a))
      && |r.writes| == 2 && r.writes[0] == s.(status := Evaluating)
      && r.after.assignments == t.assignments
      && r.after.submissionOrder == t.submissionOrder && r.after.next == t.next
      && r.after.submissions == t.submissions[id := r.writes[1]]
      && match service(r.request.value)
         case Responded(resp) =>
           && r.writes[1] == s.(status := Evaluated, evaluation := Normalise(resp, now))
           && r.reply == Ok(200, r.writes[1])
         case CallFailed(msg) =>
           && r.writes[1] == s.(status := Failed)
           && r.reply == Err(500, MlFailurePrefix + msg)
  {
    var s := t.submissions[id];
    var req := RequestFor(t, s, t.assignments[s.assignment]);
    match service(req)
    case Responded(resp) =>
    case CallFailed(msg) =>
  }

  /** Every trigger keeps the store invariant: in particular a submission's
      status is `evaluated` exactly when its evaluation carries a date. */
  lemma EvaluateKeepsWf(t: Tables, id: Id, service: AnalysisService, now: Date)
    requires Wf(t)
    ensures Wf(Evaluate(t, id, service, now).after)
  {
    if id in t.submissions && t.submissions[id].status != Evaluated && t.submissions[id].assignment in t.assignments {
      EvaluateCallsService(t, id, service, now);
      SaveKeepsWf(t, Evaluate(t, id, service, now).writes[1]);
    }
  }

  /** `evaluated` is terminal: a trigger on any id leaves every evaluated submission as it was. */
  lemma EvaluatedIsTerminal(t: Tables, id: Id, service: AnalysisService, now: Date, other: Id)
    requires other in t.submissions && t.submissions[other].status == Evaluated
    ensures var r := Evaluate(t, id, service, now);
      other in r.after.submissions && r.after.submissions[other] == t.submissions[other]
  {
    if id in t.submissions && t.submissions[id].status != Evaluated && t.submissions[id].assignment in t.assignments {
      EvaluateCallsService(t, id, service, now);
    }
  }

  /** Outside the triggered submission, a trigger changes nothing. */
  lemma EvaluateTouchesOnlyItsSubmission(t: Tables, id: Id, service: AnalysisService, now: Date)
    ensures var r := Evaluate(t, id, service, now);
      && r.after.assignments == t.assignments
      && r.after.submissions.Keys == t.submissions.Keys
      && forall k :: k in t.submissions && k != id ==> r.after.submissions[k] == t.submissions[k]
  {
    if id in t.submissions && t.submissions[id].status != Evaluated && t.submissions[id].assignment in t.assignments {
      EvaluateCallsService(t, id, service, now);
    }
  }

  /** Idempotence: once a trigger succeeded, a second trigger returns the same
      record without calling the service and without writing. */
  lemma SecondTriggerAfterSuccess(t: Tables, id: Id, first: AnalysisService, second: AnalysisService, now1: Date, now2: Date)
    requires Evaluate(t, id, first, now1).reply.Ok?
    ensures var r1 := Evaluate(t, id, first, now1);
      Evaluate(r1.after, id, second, now2) == EvalStep(r1.reply, r1.after, None, [])
  {
    if id in t.submissions && t.submissions[id].status != Evaluated && t.submissions[id].assignment in t.assignments {
      EvaluateCallsService(t, id, first, now1);
    }
  }

  /** Retry: after a failed call, a new trigger is accepted, marks the
      submission evaluating again and sends the very same request. */
  lemma RetryAfterFailure(t: Tables, id: Id, first: AnalysisService, second: AnalysisService, now1: Date, now2: Date)
    requires Wf(t)
    requires var r1 := Evaluate(t, id, first, now1); r1.request.Some? && first(r1.request.value).CallFailed?
    ensures var r1 := Evaluate(t, id, first, now1);
      var r2 := Evaluate(r1.after, id, second, now2);
      && r1.after.submissions[id].status == Failed
      && r2.request == r1.request
      && r2.writes[0] == r1.after.submissions[id].(status := Evaluating)
  {
    var r1 := Evaluate(t, id, first, now1);
    EvaluateCallsService(t, id, first, now1);
    var s := t.submissions[id];
    var t1 := r1.after;
    PeersUnchanged(t, t1, s, t1.submissions[id]);
    EvaluateCallsService(t1, id, second, now2);
  }

  /** Rewriting only the status of `s` changes neither its peers nor their texts. */
  lemma {:induction false} PeersUnchanged(t: Tables, t1: Tables, s: Submission, s1: Submission)
    requires s.id in t.submissions && t.submissions[s.id] == s
    requires s1 == s.(status := s1.status)
    requires t1 == t.(submissions := t.submissions[s.id := s1])
    ensures PeerIds(t1, s1) == PeerIds(t, s)
    ensures Corpus(t1, s1) == Corpus(t, s)
  {
    SelectSamePeers(t.submissionOrder, t.submissions, t1.submissions, s, s1);
    var ids := PeerIds(t, s);
    forall i | 0 <= i < |ids|
      ensures Corpus(t1, s1)[i] == Corpus(t, s)[i]
    {
      assert ids[i] != s.id;
    }
  }

  lemma {:induction false} SelectSamePeers(order: seq<Id>, m: map<Id, Submission>, m1: map<Id, Submission>, s: Submission, s1: Submission)
    requires s.id in m && m[s.id] == s
    requires s1 == s.(status := s1.status)
    requires m1 == m[s.id := s1]
    ensures Select(order, m1, (p: Submission) => Peer(s1, p)) == Select(order, m, (p: Submission) => Peer(s, p))
  {
    if order != [] {
      SelectSamePeers(order[1..], m, m1, s, s1);
    }
  }

  /** No guard against a trigger in flight: when a first trigger has marked the
      submission evaluating and is still waiting for the service, a second
      trigger sends the same request again. */
  lemma InFlightTriggerIsNotBlocked(t: Tables, id: Id, service: AnalysisService, now: Date)
    requires Wf(t)
    requires id in t.submissions && t.submissions[id].status == Pending
    requires t.submissions[id].assignment in t.assignments
    ensures var first := Evaluate(t, id, service, now);
      var inFlight := t.(submissions := t.submissions[id := first.writes[0]]);
      var second := Evaluate(inFlight, id, service, now);
      second.request.Some? && second.request == first.request
  {
    var first := Evaluate(t, id, service, now);
    EvaluateCallsService(t, id, service, now);
    var s := t.submissions[id];
    var w := first.writes[0];
    var inFlight := t.(submissions := t.submissions[id := w]);
    PeersUnchanged(t, inFlight, s, w);
    EvaluateCallsService(inFlight, id, service, now);
  }

  /** Deleting an assignment leaves its submissions behind; triggering one that
      is not yet evaluated then fails with a 500 and changes nothing. */
  lemma OrphanedSubmissionFails(t: Tables, caller: User, id: Id, service: AnalysisService, now: Date)
    requires Wf(t)
    requires id in t.submissions && t.submissions[id].status != Evaluated
    requires var aid := t.submissions[id].assignment;
      aid in t.assignments && t.assignments[aid].instructor == caller.id
    ensures var aid := t.submissions[id].assignment;
      var t1 := AssignmentController.Retract(t, caller, aid).after;
      Wf(t1) && Evaluate(t1, id, service, now) == EvalStep(Err(500, AssignmentGone), t1, None, [])
  {
    AssignmentController.RetractKeepsWf(t, caller, t.submissions[id].assignment);
  }

  /** `evaluateSubmission`, one Mongoose call and one service call at a time:
      the corpus is read before the `evaluating` write, as in the handler. */
  method EvaluateSubmission(db: Database, id: Id, service: AnalysisService, now: Date)
    returns (reply: Reply<Submission>, sent: Option<AnalysisRequest>)
    requires db.Valid()
    modifies db
    ensures db.Valid()
    ensures var r := Evaluate(old(db.Snapshot()), id, service, now);
      && reply == r.reply && sent == r.request
      && db.Snapshot() == r.after
      && db.saves == old(db.saves) + r.writes
  {
    ghost var t := db.Snapshot();
    if id !in db.submissions {
      return Err(404, SubmissionNotFound), None;
    }
    var s := db.submissions[id];
    if s.status == Evaluated {
      return Ok(200, s), None;
    }
    if s.assignment !in db.assignments {
      return Err(500, AssignmentGone), None;
    }
    var request := RequestFor(db.Snapshot(), s, db.assignments[s.assignment]);
    var evaluating := s.(status := Evaluating);
    SaveKeepsWf(db.Snapshot(), evaluating);
    db.SaveSubmission(evaluating);
    sent := Some(request);
    var outcome := service(request);
    var settled := Settle(evaluating, outcome, now);
    SaveKeepsWf(db.Snapshot(), settled);
    db.SaveSubmission(settled);
    reply := OutcomeReply(settled, outcome);
    LogTwice(old(db.saves), evaluating, settled);
    SaveTwice(t.submissions, id, evaluating, settled);
  }

  /** What `getEvaluation` answers for a submission. */
  datatype EvaluationView = EvaluationView(submissionId: Id, status: Status, evaluation: Evaluation)

  /** `getEvaluation`: a read of one submission's status and evaluation; 404 for an unknown id. */
  function GetEvaluation(t: Tables, id: Id): (r: Reply<EvaluationView>)
    ensures id !in t.submissions <==> r == Err(404, SubmissionNotFound)
    ensures r.Ok? ==> r.code == 200 && r.body.submissionId == id && id in t.submissions
    ensures r.Ok? ==> r.body.status == t.submissions[id].status && r.body.evaluation == t.submissions[id].evaluation
    ensures Wf(t) && r.Ok? ==> (r.body.status == Evaluated <==> r.body.evaluation.evaluatedAt.Some?)
    ensures Wf(t) && r.Ok? && r.body.status != Evaluated ==> r.body.evaluation == Unevaluated
  {
    if id !in t.submissions then Err(404, SubmissionNotFound)
    else
      var s := t.submissions[id];
      Ok(200, EvaluationView(id, s.status, s.evaluation))
  }

  /** After a successful trigger, reading the evaluation shows `evaluated` and
      the normalised answer of the service. */
  lemma ReadAfterSuccess(t: Tables, id: Id, service: AnalysisService, now: Date)
    requires var r := Evaluate(t, id, service, now); r.request.Some? && service(r.request.value).Responded?
    ensures var r := Evaluate(t, id, service, now);
      GetEvaluation(r.after, id) ==
        Ok(200, EvaluationView(id, Evaluated, Normalise(service(r.request.value).response, now)))
  {
    if id in t.submissions && t.submissions[id].status != Evaluated && t.submissions[id].assignment in t.assignments {
      EvaluateCallsService(t, id, service, now);
    }
  }

  /** The score is passed through unclamped: a service answering more than the
      assignment's `maxScore` gets that score stored. */
  lemma ScoreIsNotClamped(t: Tables, id: Id, now: Date)
    requires Wf(t)
    requires id in t.submissions && t.submissions[id].status != Evaluated
    requires t.submissions[id].assignment in t.assignments
    ensures var max := t.assignments[t.submissions[id].assignment].maxScore;
      var service := (req: AnalysisRequest) => Responded(AnalysisResponse(None, Some(2.0 * max as real), None, None));
      var r := Evaluate(t, id, service, now);
      r.reply.Ok? && r.reply.body.evaluation.score.value > max as real
  {
    var max := t.assignments[t.submissions[id].assignment].maxScore;
    EvaluateCallsService(t, id, (req: AnalysisRequest) => Responded(AnalysisResponse(None, Some(2.0 * max as real), None, None)), now);
  }
}
