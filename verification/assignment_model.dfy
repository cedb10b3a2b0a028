/** The assignment record (backend/models/Assignment.js): required fields,
    length bounds, the `maxScore` minimum, defaults, and the `trim` setter
    Mongoose applies to the title and to every keyword. */
module AssignmentModel {
  import opened Common
  import opened Text

  /** The characters `String.prototype.trim` removes: ECMAScript WhiteSpace
      (including the Unicode space separators) and LineTerminator. */
  predicate IsJsSpace(c: char) {
    || c == '\t' || c == '\n' || c == '\U{000B}' || c == '\U{000C}' || c == '\r' || c == ' '
    || c == '\U{00A0}' || c == '\U{1680}' || ('\U{2000}' <= c <= '\U{200A}')
    || c == '\U{2028}' || c == '\U{2029}' || c == '\U{202F}' || c == '\U{205F}'
    || c == '\U{3000}' || c == '\U{FEFF}'
  }

  /** `String.prototype.trim`: `s` without its leading and trailing whitespace;
      what is left neither starts nor ends with whitespace. */
  function Trim(s: string): (r: string)
    ensures |r| <= |s| && Trimmed(r)
  {
    StripEnds(s, IsJsSpace);
    Strip(s, IsJsSpace)
  }

  /** `s` has no whitespace at either end. */
  predicate Trimmed(s: string) {
    s == [] || (!IsJsSpace(s[0]) && !IsJsSpace(s[|s| - 1]))
  }

  /** `trim` leaves exactly the trimmed strings unchanged, and its result is trimmed. */
  lemma TrimmedIff(s: string)
    ensures Trimmed(s) <==> Trim(s) == s
    ensures Trimmed(Trim(s))
  {
    StripEnds(s, IsJsSpace);
    if Trimmed(s) {
      assert StripStart(s, IsJsSpace) == s;
      assert StripEnd(s, IsJsSpace) == s;
    }
  }

  /** A stored assignment. `createdAt` is the creation stamp the store hands out. */
  datatype Assignment = Assignment(
    id: Id,
    title: string,
    description: string,
    subject: string,
    maxScore: int,
    dueDate: Date,
    instructor: UserId,
    keywords: seq<string>,
    isActive: bool,
    createdAt: nat)

  const TitleMaxLength := 200
  const DescriptionMaxLength := 5000
  const DefaultMaxScore := 100
  const MinMaxScore := 1

  /** The schema's validators, checked after the setters ran: a required string
      may not be empty, the title is trimmed and at most 200 characters, the
      description at most 5000, `maxScore` at least 1, every keyword trimmed. */
  predicate ValidAssignment(a: Assignment) {
    && a.title != "" && |a.title| <= TitleMaxLength && Trimmed(a.title)
    && a.description != "" && |a.description| <= DescriptionMaxLength
    && a.subject != ""
    && a.maxScore >= MinMaxScore
    && (forall k :: 0 <= k < |a.keywords| ==> Trimmed(a.keywords[k]))
  }

  /** The setters have already run on a valid record: trimming its title or a
      keyword again changes nothing. */
  lemma ValidAssignmentIsTrimmed(a: Assignment)
    ensures ValidAssignment(a) ==>
      Trim(a.title) == a.title && forall k :: 0 <= k < |a.keywords| ==> Trim(a.keywords[k]) == a.keywords[k]
  {
    forall k | 0 <= k < |a.keywords| {
      TrimmedIff(a.keywords[k]);
    }
    TrimmedIff(a.title);
  }

  /** The `trim` setter applied to every element of the keyword array. */
  function TrimAll(keywords: seq<string>): (r: seq<string>)
    ensures |r| == |keywords|
    ensures forall k :: 0 <= k < |r| ==> r[k] == Trim(keywords[k]) && Trimmed(r[k])
  {
    seq(|keywords|, k requires 0 <= k < |keywords| => (TrimmedIff(keywords[k]); Trim(keywords[k])))
  }

  /** The fields a creation supplies; `isActive` is never among them. */
  datatype AssignmentData = AssignmentData(
    title: string,
    description: string,
    subject: string,
    maxScore: int,
    dueDate: Date,
    keywords: seq<string>,
    instructor: UserId)

  /** `Assignment.create` before validation: the setters trim the title and the
      keywords, and `isActive` takes its default, true. */
  function NewAssignment(id: Id, d: AssignmentData, stamp: nat): (a: Assignment)
    ensures a.id == id && a.createdAt == stamp && a.isActive
    ensures a.title == Trim(d.title) && a.keywords == TrimAll(d.keywords)
    ensures a.description == d.description && a.subject == d.subject
    ensures a.maxScore == d.maxScore && a.dueDate == d.dueDate && a.instructor == d.instructor
  {
    Assignment(id, Trim(d.title), d.description, d.subject, d.maxScore, d.dueDate,
               d.instructor, TrimAll(d.keywords), true, stamp)
  }

  /** Which creations the validators accept: exactly those whose title is not
      blank and at most 200 characters once trimmed, whose description and
      subject are non-empty (the description at most 5000 characters) and whose
      `maxScore` is at least 1. */
  lemma NewAssignmentValid(id: Id, d: AssignmentData, stamp: nat)
    ensures ValidAssignment(NewAssignment(id, d, stamp)) <==>
      && Trim(d.title) != "" && |Trim(d.title)| <= TitleMaxLength
      && d.description != "" && |d.description| <= DescriptionMaxLength
      && d.subject != "" && d.maxScore >= MinMaxScore
  {
    TrimmedIff(d.title);
  }
}
