/** The two MongoDB collections the controllers work on, as one store: each
    collection is a table from id to record plus its natural (insertion)
    order; one counter hands out fresh ids and creation stamps. */
module Store {
  import opened Common
  import opened SubmissionModel
  import opened AssignmentModel

  /** A snapshot of the store. */
  datatype Tables = Tables(
    assignments: map<Id, Assignment>,
    assignmentOrder: seq<Id>,
    submissions: map<Id, Submission>,
    submissionOrder: seq<Id>,
    next: nat)

  const EmptyTables := Tables(map[], [], map[], [], 0)

  /** What a controller operation answers, and the store it leaves behind. */
  datatype Step<+T> = Step(reply: Reply<T>, after: Tables)

  /** `Model.find(filter)` in natural order: the ids of `order`, in that order,
      whose record satisfies `keep`. */
  function Select<R>(order: seq<Id>, table: map<Id, R>, keep: R -> bool): (ids: seq<Id>)
    ensures |ids| <= |order|
    ensures forall id :: id in ids <==> id in order && id in table && keep(table[id])
  {
    if order == [] then []
    else
      var rest := Select(order[1..], table, keep);
      if order[0] in table && keep(table[order[0]]) then [order[0]] + rest else rest
  }

  /** The records of `table` at `ids`. */
  function Records<R>(ids: seq<Id>, table: map<Id, R>): (rs: seq<R>)
    requires forall id <- ids :: id in table
    ensures |rs| == |ids| && forall i :: 0 <= i < |ids| ==> rs[i] == table[ids[i]]
  {
    seq(|ids|, i requires 0 <= i < |ids| => table[ids[i]])
  }

  /** `s` back to front. */
  function Reverse<T>(s: seq<T>): (r: seq<T>)
    ensures |r| == |s|
    ensures forall i :: 0 <= i < |s| ==> r[i] == s[|s| - 1 - i]
  {
    if s == [] then [] else Reverse(s[1..]) + [s[0]]
  }

  /** The stamps along `ids` strictly increase. */
  ghost predicate Ascending<R>(ids: seq<Id>, table: map<Id, R>, stamp: R -> int) {
    && (forall id <- ids :: id in table)
    && forall i, j :: 0 <= i < j < |ids| ==> stamp(table[ids[i]]) < stamp(table[ids[j]])
  }

  /** A query keeps the order of the collection it reads. */
  lemma {:induction false} SelectAscending<R>(order: seq<Id>, table: map<Id, R>, keep: R -> bool, stamp: R -> int)
    requires Ascending(order, table, stamp)
    ensures Ascending(Select(order, table, keep), table, stamp)
  {
    if order != [] {
      AscendingTail(order, table, stamp);
      SelectAscending(order[1..], table, keep, stamp);
      if order[0] in table && keep(table[order[0]]) {
        AscendingCons(order, Select(order[1..], table, keep), table, stamp);
      }
    }
  }

  /** The tail of an ascending order is ascending. */
  lemma AscendingTail<R>(order: seq<Id>, table: map<Id, R>, stamp: R -> int)
    requires order != [] && Ascending(order, table, stamp)
    ensures Ascending(order[1..], table, stamp)
  {
    forall i, j | 0 <= i < j < |order[1..]|
      ensures stamp(table[order[1..][i]]) < stamp(table[order[1..][j]])
    {
      assert order[1..][i] == order[i + 1] && order[1..][j] == order[j + 1];
    }
  }

  /** The head of an ascending order, followed by an ascending selection from its tail, is ascending. */
  lemma AscendingCons<R>(order: seq<Id>, rest: seq<Id>, table: map<Id, R>, stamp: R -> int)
    requires order != [] && Ascending(order, table, stamp)
    requires Ascending(rest, table, stamp)
    requires forall id <- rest :: id in order[1..]
    ensures Ascending([order[0]] + rest, table, stamp)
  {
    var o := [order[0]] + rest;
    forall i, j | 0 <= i < j < |o|
      ensures stamp(table[o[i]]) < stamp(table[o[j]])
    {
      if i == 0 {
        assert o[j] == rest[j - 1] && rest[j - 1] in order[1..];
        var k :| 0 <= k < |order[1..]| && order[1..][k] == rest[j - 1];
        assert order[k + 1] == o[j];
      } else {
        assert o[i] == rest[i - 1] && o[j] == rest[j - 1];
      }
    }
  }

  /** Read back to front, strictly increasing stamps strictly decrease: newest first. */
  lemma ReverseDescending<R>(ids: seq<Id>, table: map<Id, R>, stamp: R -> int)
    requires Ascending(ids, table, stamp)
    ensures var r := Reverse(ids);
      && (forall id <- r :: id in table)
      && forall i, j :: 0 <= i < j < |r| ==> stamp(table[r[i]]) > stamp(table[r[j]])
  {
    ReverseElements(ids);
  }

  /** Reversing keeps the elements. */
  lemma ReverseElements<T>(s: seq<T>)
    ensures forall x :: x in Reverse(s) <==> x in s
  {
    var r := Reverse(s);
    forall x | x in r
      ensures x in s
    {
      var i :| 0 <= i < |r| && r[i] == x;
      assert s[|s| - 1 - i] == x;
    }
    forall x | x in s
      ensures x in r
    {
      var i :| 0 <= i < |s| && s[i] == x;
      assert r[|s| - 1 - i] == x;
    }
  }

  /** `Model.find(filter).sort({createdAt: -1})`: the matching records of a
      collection whose stamps increase along its natural order, newest first. */
  function NewestFirst<R(==,!new)>(order: seq<Id>, table: map<Id, R>, keep: R -> bool, stamp: R -> int): (r: seq<R>)
    requires Ascending(order, table, stamp)
    requires forall id :: id in table ==> id in order
    ensures forall x :: x in r <==> x in table.Values && keep(x)
    ensures forall i, j :: 0 <= i < j < |r| ==> stamp(r[i]) > stamp(r[j])
  {
    var ids := Select(order, table, keep);
    SelectAscending(order, table, keep, stamp);
    ReverseDescending(ids, table, stamp);
    ReverseElements(ids);
    RecordsOfSelection(order, table, keep, Reverse(ids));
    Records(Reverse(ids), table)
  }

  /** The records at any arrangement of the selected ids are exactly the matching records. */
  lemma RecordsOfSelection<R(!new)>(order: seq<Id>, table: map<Id, R>, keep: R -> bool, ids: seq<Id>)
    requires forall id :: id in table ==> id in order
    requires forall id :: id in ids <==> id in Select(order, table, keep)
    ensures forall id <- ids :: id in table
    ensures forall x :: x in Records(ids, table) <==> x in table.Values && keep(x)
  {
    var r := Records(ids, table);
    forall x | x in r
      ensures x in table.Values && keep(x)
    {
      var i :| 0 <= i < |r| && r[i] == x;
      assert ids[i] in ids;
    }
    forall x | x in table.Values && keep(x)
      ensures x in r
    {
      var id :| id in table && table[id] == x;
      var k :| 0 <= k < |ids| && ids[k] == id;
      assert r[k] == x;
    }
  }

  /** One collection: its table holds exactly the ids of its order, every
      record carries its own id, ids and stamps lie below the counter, and the
      stamps increase along the natural order (so the order has no repeats). */
  ghost predicate CollectionWf<R>(table: map<Id, R>, order: seq<Id>, idOf: R -> Id, stamp: R -> int, next: nat) {
    && (forall id :: id in table <==> id in order)
    && (forall id <- table :: idOf(table[id]) == id && id < next && 0 <= stamp(table[id]) < next)
    && Ascending(order, table, stamp)
  }

  function SubmissionId(s: Submission): Id { s.id }
  function SubmissionStamp(s: Submission): int { s.createdAt }
  function AssignmentId(a: Assignment): Id { a.id }
  function AssignmentStamp(a: Assignment): int { a.createdAt }

  /** The store invariant: both collections are well formed, the unique
      (assignment, student) index holds, every submission's status agrees with
      its evaluation, and every assignment passes the schema's validators. */
  ghost predicate Wf(t: Tables) {
    && CollectionWf(t.submissions, t.submissionOrder, SubmissionId, SubmissionStamp, t.next)
    && CollectionWf(t.assignments, t.assignmentOrder, AssignmentId, AssignmentStamp, t.next)
    && UniquePairs(t.submissions)
    && (forall id <- t.submissions :: Consistent(t.submissions[id]))
    && (forall id <- t.assignments :: ValidAssignment(t.assignments[id]))
  }

  /** Saving a submission under its own id keeps the store well formed when
      its pair and stamp are unchanged and its status agrees with its evaluation. */
  lemma {:induction false} SaveKeepsWf(t: Tables, s: Submission)
    requires Wf(t)
    requires s.id in t.submissions && SamePair(s, t.submissions[s.id])
    requires s.createdAt == t.submissions[s.id].createdAt
    requires Consistent(s)
    ensures Wf(t.(submissions := t.submissions[s.id := s]))
  {
    ReplaceKeepsCollectionWf(t.submissions, t.submissionOrder, SubmissionId, SubmissionStamp, t.next, s);
    var m := t.submissions[s.id := s];
    forall i, j | i in m && j in m && i != j
      ensures !SamePair(m[i], m[j])
    {
      assert SamePair(m[i], t.submissions[i]) && SamePair(m[j], t.submissions[j]);
    }
    forall k | k in m
      ensures Consistent(m[k])
    {
      if k != s.id {
        assert m[k] == t.submissions[k];
      }
    }
  }

  /** Replacing an assignment under its own id keeps the store well formed
      when its stamp is unchanged and it passes the validators. */
  lemma ReplaceAssignmentKeepsWf(t: Tables, a: Assignment)
    requires Wf(t)
    requires a.id in t.assignments && a.createdAt == t.assignments[a.id].createdAt
    requires ValidAssignment(a)
    ensures Wf(t.(assignments := t.assignments[a.id := a]))
  {
    ReplaceKeepsCollectionWf(t.assignments, t.assignmentOrder, AssignmentId, AssignmentStamp, t.next, a);
    var m := t.assignments[a.id := a];
    forall k | k in m
      ensures ValidAssignment(m[k])
    {
      if k != a.id {
        assert m[k] == t.assignments[k];
      }
    }
  }

  /** Inserting a new assignment under the counter's value keeps the store
      well formed when it passes the validators. */
  lemma AppendAssignmentKeepsWf(t: Tables, a: Assignment)
    requires Wf(t)
    requires a.id == t.next && a.createdAt == t.next
    requires ValidAssignment(a)
    ensures Wf(t.(assignments := t.assignments[a.id := a],
                  assignmentOrder := t.assignmentOrder + [a.id],
                  next := t.next + 1))
  {
    AppendKeepsCollectionWf(t.assignments, t.assignmentOrder, AssignmentId, AssignmentStamp, t.next, a);
    BumpKeepsCollectionWf(t.submissions, t.submissionOrder, SubmissionId, SubmissionStamp, t.next);
    var m := t.assignments[a.id := a];
    forall k | k in m
      ensures ValidAssignment(m[k])
    {
      if k != a.id {
        assert m[k] == t.assignments[k];
      }
    }
  }

  /** Inserting a new submission under the counter's value keeps the store
      well formed when no stored submission has its pair and its status agrees
      with its evaluation. */
  lemma AppendSubmissionKeepsWf(t: Tables, s: Submission)
    requires Wf(t)
    requires s.id == t.next && s.createdAt == t.next
    requires Consistent(s)
    requires forall i :: i in t.submissions ==> !SamePair(t.submissions[i], s)
    ensures Wf(t.(submissions := t.submissions[s.id := s],
                  submissionOrder := t.submissionOrder + [s.id],
                  next := t.next + 1))
  {
    InsertKeepsUniquePairs(t.submissions, s);
    AppendKeepsCollectionWf(t.submissions, t.submissionOrder, SubmissionId, SubmissionStamp, t.next, s);
    BumpKeepsCollectionWf(t.assignments, t.assignmentOrder, AssignmentId, AssignmentStamp, t.next);
    var m := t.submissions[s.id := s];
    forall k | k in m
      ensures Consistent(m[k])
    {
      if k != s.id {
        assert m[k] == t.submissions[k];
      }
    }
  }

  /** A second save under the same id overwrites the first. */
  lemma SaveTwice(m: map<Id, Submission>, id: Id, first: Submission, second: Submission)
    ensures m[id := first][id := second] == m[id := second]
  {
  }

  /** Two saves in a row log both records, in order. */
  lemma LogTwice(log: seq<Submission>, first: Submission, second: Submission)
    ensures log + [first] + [second] == log + [first, second]
  {
  }

  /** Appending a record with the counter's value as id and stamp keeps a collection well formed. */
  lemma AppendKeepsCollectionWf<R>(table: map<Id, R>, order: seq<Id>, idOf: R -> Id, stamp: R -> int, next: nat, r: R)
    requires CollectionWf(table, order, idOf, stamp, next)
    requires idOf(r) == next && stamp(r) == next
    ensures CollectionWf(table[next := r], order + [next], idOf, stamp, next + 1)
  {
    var t', o' := table[next := r], order + [next];
    forall i, j | 0 <= i < j < |o'|
      ensures stamp(t'[o'[i]]) < stamp(t'[o'[j]])
    {
      assert o'[i] in order;
      if j < |order| {
        assert o'[i] == order[i] && o'[j] == order[j];
      }
    }
  }

  /** Advancing the counter keeps a collection well formed. */
  lemma BumpKeepsCollectionWf<R>(table: map<Id, R>, order: seq<Id>, idOf: R -> Id, stamp: R -> int, next: nat)
    requires CollectionWf(table, order, idOf, stamp, next)
    ensures CollectionWf(table, order, idOf, stamp, next + 1)
  {
  }

  /** Replacing a record by one with the same id and stamp keeps a collection well formed. */
  lemma ReplaceKeepsCollectionWf<R>(table: map<Id, R>, order: seq<Id>, idOf: R -> Id, stamp: R -> int, next: nat, r: R)
    requires CollectionWf(table, order, idOf, stamp, next)
    requires idOf(r) in table && stamp(r) == stamp(table[idOf(r)])
    ensures CollectionWf(table[idOf(r) := r], order, idOf, stamp, next)
  {
  }

  /** `s` without the occurrences of `x`. */
  function Without(s: seq<Id>, x: Id): (r: seq<Id>)
    ensures forall y :: y in r <==> y in s && y != x
  {
    if s == [] then [] else (if s[0] == x then [] else [s[0]]) + Without(s[1..], x)
  }

  /** Removing a record keeps a collection well formed. */
  lemma {:induction false} RemoveKeepsCollectionWf<R>(table: map<Id, R>, order: seq<Id>, idOf: R -> Id, stamp: R -> int, next: nat, x: Id)
    requires CollectionWf(table, order, idOf, stamp, next)
    ensures CollectionWf(table - {x}, Without(order, x), idOf, stamp, next)
  {
    WithoutAscending(order, table, stamp, x);
    var t' := table - {x};
    var o := Without(order, x);
    forall k | 0 <= k < |o|
      ensures o[k] in t'
    {
      assert o[k] in o;
    }
    forall i, j | 0 <= i < j < |o|
      ensures stamp(t'[o[i]]) < stamp(t'[o[j]])
    {
      assert t'[o[i]] == table[o[i]] && t'[o[j]] == table[o[j]];
    }
  }

  /** Removing an id from an ascending order leaves it ascending. */
  lemma {:induction false} WithoutAscending<R>(order: seq<Id>, table: map<Id, R>, stamp: R -> int, x: Id)
    requires Ascending(order, table, stamp)
    ensures Ascending(Without(order, x), table, stamp)
  {
    if order != [] {
      AscendingTail(order, table, stamp);
      WithoutAscending(order[1..], table, stamp, x);
      if order[0] != x {
        AscendingCons(order, Without(order[1..], x), table, stamp);
      }
    }
  }

  /** The store the controllers share. Each method is one Mongoose write. */
  class Database {
    var assignments: map<Id, Assignment>
    var assignmentOrder: seq<Id>
    var submissions: map<Id, Submission>
    var submissionOrder: seq<Id>
    var next: nat
    /** Every submission document saved after its creation, in order. */
    ghost var saves: seq<Submission>

    function Snapshot(): Tables
      reads this
    {
      Tables(assignments, assignmentOrder, submissions, submissionOrder, next)
    }

    ghost predicate Valid()
      reads this
    {
      Wf(Snapshot())
    }

    constructor ()
      ensures Valid() && Snapshot() == EmptyTables && saves == []
    {
      assignments, assignmentOrder := map[], [];
      submissions, submissionOrder := map[], [];
      next := 0;
      saves := [];
    }

    /** `Submission.create(data)`: a fresh id and stamp, the schema defaults, appended in natural order. */
    method CreateSubmission(data: SubmissionData) returns (s: Submission)
      modifies this
      ensures s == NewSubmission(old(next), data, old(next))
      ensures Snapshot() == old(Snapshot()).(submissions := old(submissions)[s.id := s],
                                             submissionOrder := old(submissionOrder) + [s.id],
                                             next := old(next) + 1)
      ensures saves == old(saves)
    {
      s := NewSubmission(next, data, next);
      submissions := submissions[s.id := s];
      submissionOrder := submissionOrder + [s.id];
      next := next + 1;
    }

    /** `submission.save()` on a loaded document whose fields were changed. */
    method SaveSubmission(s: Submission)
      requires s.id in submissions
      modifies this
      ensures Snapshot() == old(Snapshot()).(submissions := old(submissions)[s.id := s])
      ensures saves == old(saves) + [s]
    {
      submissions := submissions[s.id := s];
      saves := saves + [s];
    }

    /** `Assignment.create(data)` once the validators accepted the record. */
    method CreateAssignment(a: Assignment)
      requires a.id == next && a.createdAt == next
      modifies this
      ensures Snapshot() == old(Snapshot()).(assignments := old(assignments)[a.id := a],
                                             assignmentOrder := old(assignmentOrder) + [a.id],
                                             next := old(next) + 1)
      ensures saves == old(saves)
    {
      assignments := assignments[a.id := a];
      assignmentOrder := assignmentOrder + [a.id];
      next := next + 1;
    }

    /** `Assignment.findByIdAndUpdate(id, changes)` once the validators accepted the result. */
    method UpdateAssignment(a: Assignment)
      requires a.id in assignments
      modifies this
      ensures Snapshot() == old(Snapshot()).(assignments := old(assignments)[a.id := a])
      ensures saves == old(saves)
    {
      assignments := assignments[a.id := a];
    }

    /** `assignment.deleteOne()`. */
    method DeleteAssignment(id: Id)
      modifies this
      ensures Snapshot() == old(Snapshot()).(assignments := old(assignments) - {id},
                                             assignmentOrder := Without(old(assignmentOrder), id))
      ensures saves == old(saves)
    {
      assignments := assignments - {id};
      assignmentOrder := Without(assignmentOrder, id);
    }
  }
}
