/** The submission record (backend/models/Submission.js): its status enum,
    its field defaults, the evaluation sub-document and the unique
    (assignment, student) index. */
module SubmissionModel {
  import opened Common

  /** The four values the schema's `status` enum admits. */
  datatype Status = Pending | Evaluating | Evaluated | Failed

  /** The string stored for each status. */
  function StatusName(s: Status): string {
    match s
    case Pending => "pending"
    case Evaluating => "evaluating"
    case Evaluated => "evaluated"
    case Failed => "failed"
  }

  /** Enum validation: a stored string is accepted exactly when it names a status. */
  function ParseStatus(name: string): (r: Option<Status>)
    ensures r.Some? ==> StatusName(r.value) == name
  {
    if name == "pending" then Some(Pending)
    else if name == "evaluating" then Some(Evaluating)
    else if name == "evaluated" then Some(Evaluated)
    else if name == "failed" then Some(Failed)
    else None
  }

  /** Every status is stored under a name the enum accepts, and read back as itself. */
  lemma StatusRoundTrip(s: Status)
    ensures ParseStatus(StatusName(s)) == Some(s)
  {
  }

  /** The `evaluation` sub-document. Null numbers are `None`; `details` is a
      free-form document the analysis service produces. */
  datatype Evaluation = Evaluation(
    plagiarismRisk: Option<real>,
    score: Option<real>,
    feedbackSummary: string,
    details: Json,
    evaluatedAt: Option<Date>)

  /** The sub-document's schema defaults, which it keeps until an evaluation succeeds. */
  const Unevaluated: Evaluation := Evaluation(None, None, "", EmptyObject, None)

  /** A stored submission. `createdAt` is the creation stamp the store hands out
      (it stands for the `submittedAt` and `createdAt` dates, which only ever grow). */
  datatype Submission = Submission(
    id: Id,
    assignment: Id,
    student: UserId,
    textContent: string,
    fileUrl: string,
    fileName: string,
    status: Status,
    evaluation: Evaluation,
    createdAt: nat)

  /** What a caller of `Submission.create` supplies; absent fields take the schema defaults. */
  datatype SubmissionData = SubmissionData(
    assignment: Id,
    student: UserId,
    textContent: Option<string>,
    fileUrl: Option<string>,
    fileName: Option<string>)

  /** `Submission.create`: the supplied fields, and the schema defaults for the rest. */
  function NewSubmission(id: Id, d: SubmissionData, stamp: nat): (s: Submission)
    ensures s.id == id && s.assignment == d.assignment && s.student == d.student
    ensures s.status == Pending && s.evaluation == Unevaluated && s.createdAt == stamp
    ensures s.textContent == d.textContent.GetOr("")
    ensures d.fileUrl.Some? ==> s.fileUrl == d.fileUrl.value
    ensures d.fileUrl.None? ==> s.fileUrl == ""
    ensures d.fileName.Some? ==> s.fileName == d.fileName.value
    ensures d.fileName.None? ==> s.fileName == ""
    ensures Consistent(s)
  {
    Submission(id, d.assignment, d.student, d.textContent.GetOr(""),
               d.fileUrl.GetOr(""), d.fileName.GetOr(""), Pending, Unevaluated, stamp)
  }

  /** The link between `status` and `evaluation` that every write keeps: the
      sub-document keeps its defaults until the submission is evaluated, and an
      evaluated submission carries a score, a plagiarism risk and a date. */
  predicate Consistent(s: Submission)
    ensures Consistent(s) ==> (s.status == Evaluated <==> s.evaluation.evaluatedAt.Some?)
  {
    && (s.status != Evaluated ==> s.evaluation == Unevaluated)
    && (s.status == Evaluated ==>
          s.evaluation.evaluatedAt.Some? && s.evaluation.score.Some? && s.evaluation.plagiarismRisk.Some?)
  }

  /** Whether two records describe the same (assignment, student) pair. */
  predicate SamePair(a: Submission, b: Submission) {
    a.assignment == b.assignment && a.student == b.student
  }

  /** The unique index on (assignment, student): no two submissions share the pair. */
  ghost predicate UniquePairs(subs: map<Id, Submission>) {
    forall i, j :: i in subs && j in subs && i != j ==> !SamePair(subs[i], subs[j])
  }

  /** Adding a record whose pair is new keeps the index unique. */
  lemma {:induction false} InsertKeepsUniquePairs(subs: map<Id, Submission>, s: Submission)
    requires UniquePairs(subs)
    requires s.id !in subs
    requires forall i :: i in subs ==> !SamePair(subs[i], s)
    ensures UniquePairs(subs[s.id := s])
  {
    var m := subs[s.id := s];
    forall i, j | i in m && j in m && i != j
      ensures !SamePair(m[i], m[j])
    {
      if i == s.id {
        assert !SamePair(subs[j], s);
      } else if j != s.id {
        assert m[i] == subs[i] && m[j] == subs[j];
      }
    }
  }
}
