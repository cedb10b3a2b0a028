/** backend/controllers/assignmentController.js: listing and reading
    assignments, and an instructor creating, changing and deleting them. */
module AssignmentController {
  import opened Common
  import opened SubmissionModel
  import opened AssignmentModel
  import opened Store
  import opened Text

  /** The body of a creation request: a missing field is `None`. */
  datatype AssignmentRequest = AssignmentRequest(
    title: Option<string>,
    description: Option<string>,
    subject: Option<string>,
    maxScore: Option<int>,
    dueDate: Option<Date>,
    keywords: Option<seq<string>>)

  /** The body of an update request: the schema fields it sets, `None` for those it leaves alone. */
  datatype AssignmentPatch = AssignmentPatch(
    title: Option<string>,
    description: Option<string>,
    subject: Option<string>,
    maxScore: Option<int>,
    dueDate: Option<Date>,
    keywords: Option<seq<string>>,
    isActive: Option<bool>,
    instructor: Option<UserId>)

  const MissingFieldsMessage := "Please provide title, description, subject and dueDate"
  const NotFoundMessage := "Assignment not found"
  const NotOwnerMessage := "Not authorized"
  /** The schema validators' rejection, which the controllers' catch blocks answer with 500. */
  const ValidationMessage := "Assignment validation failed"

  /** Which assignments `getAssignments` shows a caller: an instructor their own, anyone else the active ones. */
  predicate Shown(caller: User, a: Assignment) {
    if caller.role == Instructor then a.instructor == caller.id else a.isActive
  }

  /** `getAssignments`: the assignments shown to the caller, newest first. */
  function ListAssignments(t: Tables, caller: User): (r: seq<Assignment>)
    requires Wf(t)
    ensures forall a :: a in r <==> a in t.assignments.Values && Shown(caller, a)
    ensures forall i, j :: 0 <= i < j < |r| ==> r[i].createdAt > r[j].createdAt
  {
    NewestFirst(t.assignmentOrder, t.assignments, (a: Assignment) => Shown(caller, a), AssignmentStamp)
  }

  /** `getAssignment`: any caller may read any assignment, active or not; an unknown id is a 404. */
  function GetAssignment(t: Tables, id: Id): (r: Reply<Assignment>)
    ensures id !in t.assignments <==> r == Err(404, NotFoundMessage)
    ensures id in t.assignments ==> r == Ok(200, t.assignments[id])
  {
    if id !in t.assignments then Err(404, NotFoundMessage) else Ok(200, t.assignments[id])
  }

  /** A string field passes the controller's `!field` test. */
  predicate Given(s: Option<string>) {
    s.Some? && s.value != ""
  }

  /** The fields `createAssignment` hands to `Assignment.create`. */
  function CreationFields(caller: User, req: AssignmentRequest): AssignmentData
    requires Given(req.title) && Given(req.description) && Given(req.subject) && req.dueDate.Some?
  {
    AssignmentData(req.title.value, req.description.value, req.subject.value,
                   IntOr(req.maxScore, DefaultMaxScore), req.dueDate.value,
                   req.keywords.GetOr([]), caller.id)
  }

  /** `createAssignment`: the presence check (400), then `Assignment.create`,
      whose validators may still reject the record (500). */
  function Publish(t: Tables, caller: User, req: AssignmentRequest): (r: Step<Assignment>)
    requires Wf(t)
    ensures !(Given(req.title) && Given(req.description) && Given(req.subject) && req.dueDate.Some?) ==>
              r == Step(Err(400, MissingFieldsMessage), t)
    ensures r.reply.Err? ==> r.after == t && r.reply.code in {400, 500}
    ensures r.reply.Ok? ==>
      var a := r.reply.body;
      && r.reply.code == 201
      && a.id == t.next && a.createdAt == t.next && ValidAssignment(a)
      && r.after == t.(assignments := t.assignments[a.id := a],
                       assignmentOrder := t.assignmentOrder + [a.id],
                       next := t.next + 1)
      && a.instructor == caller.id && a.isActive
      && a.title == Trim(req.title.value) && a.description == req.description.value
      && a.subject == req.subject.value && a.dueDate == req.dueDate.value
      && a.maxScore == (if req.maxScore.None? || req.maxScore == Some(0) then 100 else req.maxScore.value)
      && a.keywords == TrimAll(req.keywords.GetOr([]))
    ensures Given(req.title) && Given(req.description) && Given(req.subject) && req.dueDate.Some? &&
            !ValidAssignment(NewAssignment(t.next, CreationFields(caller, req), t.next)) ==>
              r == Step(Err(500, ValidationMessage), t)
  {
    if !(Given(req.title) && Given(req.description) && Given(req.subject) && req.dueDate.Some?) then
      Step(Err(400, MissingFieldsMessage), t)
    else
      var a := NewAssignment(t.next, CreationFields(caller, req), t.next);
      if !ValidAssignment(a) then Step(Err(500, ValidationMessage), t)
      else Step(Ok(201, a), t.(assignments := t.assignments[a.id := a],
                               assignmentOrder := t.assignmentOrder + [a.id],
                               next := t.next + 1))
  }

  /** A creation succeeds exactly when the four required fields are given,
      the trimmed title is not blank and at most 200 characters, the
      description at most 5000, and `maxScore || 100` is at least 1. */
  lemma PublishSucceedsIff(t: Tables, caller: User, req: AssignmentRequest)
    requires Wf(t)
    ensures Publish(t, caller, req).reply.Ok? <==>
      && Given(req.title) && Given(req.description) && Given(req.subject) && req.dueDate.Some?
      && Trim(req.title.value) != "" && |Trim(req.title.value)| <= TitleMaxLength
      && |req.description.value| <= DescriptionMaxLength
      && IntOr(req.maxScore, DefaultMaxScore) >= MinMaxScore
  {
    if Given(req.title) && Given(req.description) && Given(req.subject) && req.dueDate.Some? {
      NewAssignmentValid(t.next, CreationFields(caller, req), t.next);
    }
  }

  /** A title of spaces passes the controller's presence check and is then
      rejected by the schema after trimming: a 500, not a 400. */
  lemma BlankTitleIsServerError(t: Tables, caller: User, req: AssignmentRequest)
    requires Wf(t)
    requires Given(req.title) && Given(req.description) && Given(req.subject) && req.dueDate.Some?
    requires All(req.title.value, IsJsSpace)
    ensures Publish(t, caller, req) == Step(Err(500, ValidationMessage), t)
  {
    StripEmptyIff(req.title.value, IsJsSpace);
    PublishSucceedsIff(t, caller, req);
  }

  /** `createAssignment` keeps the store invariant. */
  lemma PublishKeepsWf(t: Tables, caller: User, req: AssignmentRequest)
    requires Wf(t)
    ensures Wf(Publish(t, caller, req).after)
  {
    var r := Publish(t, caller, req);
    if r.reply.Ok? {
      AppendAssignmentKeepsWf(t, r.reply.body);
    }
  }

  /** `createAssignment`, one Mongoose call at a time. */
  method CreateAssignment(db: Database, caller: User, req: AssignmentRequest) returns (reply: Reply<Assignment>)
    requires db.Valid()
    modifies db
    ensures db.Valid()
    ensures Step(reply, db.Snapshot()) == Publish(old(db.Snapshot()), caller, req)
    ensures db.saves == old(db.saves)
  {
    if !(Given(req.title) && Given(req.description) && Given(req.subject) && req.dueDate.Some?) {
      return Err(400, MissingFieldsMessage);
    }
    var a := NewAssignment(db.next, CreationFields(caller, req), db.next);
    if !ValidAssignment(a) {
      return Err(500, ValidationMessage);
    }
    AppendAssignmentKeepsWf(db.Snapshot(), a);
    db.CreateAssignment(a);
    reply := Ok(201, a);
  }

  /** The record `findByIdAndUpdate` produces: the patched fields, through the
      same `trim` setters as on creation; the others unchanged. */
  function Patched(a: Assignment, p: AssignmentPatch): (b: Assignment)
    ensures b.id == a.id && b.createdAt == a.createdAt
    ensures p.title.Some? ==> b.title == Trim(p.title.value)
    ensures p.title.None? ==> b.title == a.title
    ensures p.description.Some? ==> b.description == p.description.value
    ensures p.description.None? ==> b.description == a.description
    ensures p.subject.Some? ==> b.subject == p.subject.value
    ensures p.subject.None? ==> b.subject == a.subject
    ensures p.maxScore.Some? ==> b.maxScore == p.maxScore.value
    ensures p.maxScore.None? ==> b.maxScore == a.maxScore
    ensures p.dueDate.Some? ==> b.dueDate == p.dueDate.value
    ensures p.dueDate.None? ==> b.dueDate == a.dueDate
    ensures p.keywords.Some? ==> b.keywords == TrimAll(p.keywords.value)
    ensures p.keywords.None? ==> b.keywords == a.keywords
    ensures p.isActive.Some? ==> b.isActive == p.isActive.value
    ensures p.isActive.None? ==> b.isActive == a.isActive
    ensures p.instructor.Some? ==> b.instructor == p.instructor.value
    ensures p.instructor.None? ==> b.instructor == a.instructor
  {
    a.(title := if p.title.Some? then Trim(p.title.value) else a.title,
       description := p.description.GetOr(a.description),
       subject := p.subject.GetOr(a.subject),
       maxScore := p.maxScore.GetOr(a.maxScore),
       dueDate := p.dueDate.GetOr(a.dueDate),
       keywords := if p.keywords.Some? then TrimAll(p.keywords.value) else a.keywords,
       isActive := p.isActive.GetOr(a.isActive),
       instructor := p.instructor.GetOr(a.instructor))
  }

  /** An empty patch changes nothing. */
  lemma EmptyPatchIsIdentity(a: Assignment)
    ensures Patched(a, AssignmentPatch(None, None, None, None, None, None, None, None)) == a
  {
  }

  /** `updateAssignment`: existence (404), then ownership (403), then the update with validators (500 on rejection). */
  function Amend(t: Tables, caller: User, id: Id, p: AssignmentPatch): (r: Step<Assignment>)
    requires Wf(t)
    ensures id !in t.assignments ==> r == Step(Err(404, NotFoundMessage), t)
    ensures id in t.assignments && t.assignments[id].instructor != caller.id ==> r == Step(Err(403, NotOwnerMessage), t)
    ensures r.reply.Err? ==> r.after == t
    ensures r.reply.Ok? ==>
      && id in t.assignments && t.assignments[id].instructor == caller.id
      && r.reply.code == 200
      && r.reply.body == Patched(t.assignments[id], p) && ValidAssignment(r.reply.body)
      && r.after == t.(assignments := t.assignments[id := r.reply.body])
    ensures id in t.assignments && t.assignments[id].instructor == caller.id ==>
              (r.reply.Ok? <==> ValidAssignment(Patched(t.assignments[id], p)))
    ensures id in t.assignments && t.assignments[id].instructor == caller.id &&
            !ValidAssignment(Patched(t.assignments[id], p)) ==>
              r == Step(Err(500, ValidationMessage), t)
  {
    if id !in t.assignments then Step(Err(404, NotFoundMessage), t)
    else if t.assignments[id].instructor != caller.id then Step(Err(403, NotOwnerMessage), t)
    else
      var b := Patched(t.assignments[id], p);
      if !ValidAssignment(b) then Step(Err(500, ValidationMessage), t)
      else Step(Ok(200, b), t.(assignments := t.assignments[id := b]))
  }

  /** `updateAssignment` keeps the store invariant. */
  lemma AmendKeepsWf(t: Tables, caller: User, id: Id, p: AssignmentPatch)
    requires Wf(t)
    ensures Wf(Amend(t, caller, id, p).after)
  {
    var r := Amend(t, caller, id, p);
    if r.reply.Ok? {
      ReplaceAssignmentKeepsWf(t, r.reply.body);
    }
  }

  /** `updateAssignment`, one Mongoose call at a time. */
  method UpdateAssignment(db: Database, caller: User, id: Id, p: AssignmentPatch) returns (reply: Reply<Assignment>)
    requires db.Valid()
    modifies db
    ensures db.Valid()
    ensures Step(reply, db.Snapshot()) == Amend(old(db.Snapshot()), caller, id, p)
    ensures db.saves == old(db.saves)
  {
    if id !in db.assignments {
      return Err(404, NotFoundMessage);
    }
    var a := db.assignments[id];
    if a.instructor != caller.id {
      return Err(403, NotOwnerMessage);
    }
    var b := Patched(a, p);
    if !ValidAssignment(b) {
      return Err(500, ValidationMessage);
    }
    AmendKeepsWf(db.Snapshot(), caller, id, p);
    db.UpdateAssignment(b);
    reply := Ok(200, b);
  }

  /** `deleteAssignment`: existence (404), then ownership (403), then removal of
      that one assignment; its submissions stay in the store. */
  function Retract(t: Tables, caller: User, id: Id): (r: Step<string>)
    requires Wf(t)
    ensures id !in t.assignments ==> r == Step(Err(404, NotFoundMessage), t)
    ensures id in t.assignments && t.assignments[id].instructor != caller.id ==> r == Step(Err(403, NotOwnerMessage), t)
    ensures r.reply.Err? ==> r.after == t
    ensures r.reply.Ok? <==> id in t.assignments && t.assignments[id].instructor == caller.id
    ensures r.reply.Ok? ==>
      && r.reply == Ok(200, "Assignment deleted")
      && r.after.assignments.Keys == t.assignments.Keys - {id}
      && (forall k :: k in r.after.assignments ==> r.after.assignments[k] == t.assignments[k])
      && r.after.submissions == t.submissions
      && r.after.next == t.next && r.after.submissionOrder == t.submissionOrder
  {
    if id !in t.assignments then Step(Err(404, NotFoundMessage), t)
    else if t.assignments[id].instructor != caller.id then Step(Err(403, NotOwnerMessage), t)
    else Step(Ok(200, "Assignment deleted"), t.(assignments := t.assignments - {id},
                                                 assignmentOrder := Without(t.assignmentOrder, id)))
  }

  /** `deleteAssignment` keeps the store invariant. */
  lemma RetractKeepsWf(t: Tables, caller: User, id: Id)
    requires Wf(t)
    ensures Wf(Retract(t, caller, id).after)
  {
    if Retract(t, caller, id).reply.Ok? {
      RemoveKeepsCollectionWf(t.assignments, t.assignmentOrder, AssignmentId, AssignmentStamp, t.next, id);
    }
  }

  /** `deleteAssignment`, one Mongoose call at a time. */
  method DeleteAssignment(db: Database, caller: User, id: Id) returns (reply: Reply<string>)
    requires db.Valid()
    modifies db
    ensures db.Valid()
    ensures Step(reply, db.Snapshot()) == Retract(old(db.Snapshot()), caller, id)
    ensures db.saves == old(db.saves)
  {
    if id !in db.assignments {
      return Err(404, NotFoundMessage);
    }
    if db.assignments[id].instructor != caller.id {
      return Err(403, NotOwnerMessage);
    }
    RetractKeepsWf(db.Snapshot(), caller, id);
    db.DeleteAssignment(id);
    reply := Ok(200, "Assignment deleted");
  }
}
