/** backend/controllers/submissionController.js: a student hands in an
    assignment (`createSubmission`), and users list and read submissions
    (`getSubmissions`, `getSubmission`). */
module SubmissionController {
  import opened Common
  import opened SubmissionModel
  import opened AssignmentModel
  import opened Store

  /** The uploaded file the upload middleware attaches to a request. */
  datatype Upload = Upload(filename: string, originalName: string)

  /** The body of a submission request: a missing or empty field is `None`. */
  datatype SubmitRequest = SubmitRequest(assignmentId: Option<Id>, textContent: Option<string>, file: Option<Upload>)

  const UploadPrefix := "/uploads/"

  /** The duplicate check's query `{assignment, student}`: the listed submissions of that student for that assignment. */
  function PairQuery(t: Tables, assignment: Id, student: UserId): (ids: seq<Id>)
    ensures forall id :: id in ids <==>
      id in t.submissionOrder && id in t.submissions &&
      t.submissions[id].assignment == assignment && t.submissions[id].student == student
  {
    Select(t.submissionOrder, t.submissions, (s: Submission) => s.assignment == assignment && s.student == student)
  }

  /** The fields the controller passes to `Submission.create`. */
  function SubmissionFields(assignment: Id, caller: User, req: SubmitRequest): SubmissionData {
    SubmissionData(
      assignment, caller.id,
      Some(StringOr(req.textContent, "")),
      if req.file.Some? then Some(UploadPrefix + req.file.value.filename) else None,
      if req.file.Some? then Some(req.file.value.originalName) else None)
  }

  /** `createSubmission`: the three guards in order, then one insertion. */
  function Submit(t: Tables, caller: User, req: SubmitRequest): (r: Step<Submission>)
    requires Wf(t)
    ensures req.assignmentId.None? ==> r == Step(Err(400, "Assignment ID is required"), t)
    ensures req.assignmentId.Some? && req.assignmentId.value !in t.assignments ==>
              r == Step(Err(404, "Assignment not found"), t)
    ensures req.assignmentId.Some? && req.assignmentId.value in t.assignments &&
            (exists id :: id in t.submissions && t.submissions[id].assignment == req.assignmentId.value
                                               && t.submissions[id].student == caller.id) ==>
              r == Step(Err(400, "You have already submitted this assignment"), t)
    ensures r.reply.Err? ==> r.after == t
    ensures r.reply.Ok? ==>
      var s := r.reply.body;
      && req.assignmentId.Some? && req.assignmentId.value in t.assignments
      && r.reply.code == 201
      && s.id == t.next && s.createdAt == t.next
      && r.after == t.(submissions := t.submissions[s.id := s],
                       submissionOrder := t.submissionOrder + [s.id],
                       next := t.next + 1)
      && s.assignment == req.assignmentId.value && s.student == caller.id
      && s.status == Pending && s.evaluation == Unevaluated
      && s.textContent == req.textContent.GetOr("")
      && (req.file.Some? ==> s.fileUrl == UploadPrefix + req.file.value.filename
                             && s.fileName == req.file.value.originalName)
      && (req.file.None? ==> s.fileUrl == "" && s.fileName == "")
  {
    if req.assignmentId.None? then Step(Err(400, "Assignment ID is required"), t)
    else
      var aid := req.assignmentId.value;
      if aid !in t.assignments then Step(Err(404, "Assignment not found"), t)
      else if PairQuery(t, aid, caller.id) != [] then
        Step(Err(400, "You have already submitted this assignment"), t)
      else
        var s := NewSubmission(t.next, SubmissionFields(aid, caller, req), t.next);
        Step(Ok(201, s), t.(submissions := t.submissions[s.id := s],
                            submissionOrder := t.submissionOrder + [s.id],
                            next := t.next + 1))
  }

  /** A submission goes through exactly when the assignment id is given, names
      an assignment, and the caller has no submission for it yet. */
  lemma SubmitSucceedsIff(t: Tables, caller: User, req: SubmitRequest)
    requires Wf(t)
    ensures Submit(t, caller, req).reply.Ok? <==>
      && req.assignmentId.Some? && req.assignmentId.value in t.assignments
      && forall id :: id in t.submissions ==>
           !(t.submissions[id].assignment == req.assignmentId.value && t.submissions[id].student == caller.id)
  {
    if req.assignmentId.Some? && req.assignmentId.value in t.assignments {
      var aid := req.assignmentId.value;
      if PairQuery(t, aid, caller.id) != [] {
        var id := PairQuery(t, aid, caller.id)[0];
        assert id in PairQuery(t, aid, caller.id);
      }
    }
  }

  /** `createSubmission` keeps the store invariant, the unique index in particular. */
  lemma SubmitKeepsWf(t: Tables, caller: User, req: SubmitRequest)
    requires Wf(t)
    ensures Wf(Submit(t, caller, req).after)
  {
    var r := Submit(t, caller, req);
    if r.reply.Ok? {
      SubmitSucceedsIff(t, caller, req);
      AppendSubmissionKeepsWf(t, r.reply.body);
    }
  }

  /** `createSubmission`, one Mongoose call at a time. */
  method CreateSubmission(db: Database, caller: User, req: SubmitRequest) returns (reply: Reply<Submission>)
    requires db.Valid()
    modifies db
    ensures db.Valid()
    ensures Step(reply, db.Snapshot()) == Submit(old(db.Snapshot()), caller, req)
    ensures db.saves == old(db.saves)
  {
    if req.assignmentId.None? {
      return Err(400, "Assignment ID is required");
    }
    var aid := req.assignmentId.value;
    if aid !in db.assignments {
      return Err(404, "Assignment not found");
    }
    var existing := PairQuery(db.Snapshot(), aid, caller.id);
    if existing != [] {
      return Err(400, "You have already submitted this assignment");
    }
    SubmitKeepsWf(db.Snapshot(), caller, req);
    var s := db.CreateSubmission(SubmissionFields(aid, caller, req));
    reply := Ok(201, s);
  }

  /** The query `getSubmissions` builds: a student sees only their own
      submissions, anyone else all of them, optionally for one assignment. */
  predicate Listed(caller: User, assignmentId: Option<Id>, s: Submission) {
    && (caller.role == Student ==> s.student == caller.id)
    && (assignmentId.Some? ==> s.assignment == assignmentId.value)
  }

  /** `getSubmissions`: the matching submissions, newest first. */
  function ListSubmissions(t: Tables, caller: User, assignmentId: Option<Id>): (r: seq<Submission>)
    requires Wf(t)
    ensures forall s :: s in r <==> s in t.submissions.Values && Listed(caller, assignmentId, s)
    ensures forall i, j :: 0 <= i < j < |r| ==> r[i].createdAt > r[j].createdAt
  {
    NewestFirst(t.submissionOrder, t.submissions, (s: Submission) => Listed(caller, assignmentId, s), SubmissionStamp)
  }

  /** `getSubmission`: 404 for an unknown id, 403 for a student asking for someone else's. */
  function GetSubmission(t: Tables, caller: User, id: Id): (r: Reply<Submission>)
    ensures id !in t.submissions ==> r == Err(404, "Submission not found")
    ensures id in t.submissions && caller.role == Student && t.submissions[id].student != caller.id ==>
              r == Err(403, "Access denied")
    ensures r.Ok? <==> id in t.submissions && (caller.role == Student ==> t.submissions[id].student == caller.id)
    ensures r.Ok? ==> r.code == 200 && r.body == t.submissions[id]
  {
    if id !in t.submissions then Err(404, "Submission not found")
    else if caller.role == Student && t.submissions[id].student != caller.id then Err(403, "Access denied")
    else Ok(200, t.submissions[id])
  }
}
