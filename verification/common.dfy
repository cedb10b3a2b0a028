/** Vocabulary shared by the backend model: identifiers, users, HTTP replies,
    JSON values, and the JavaScript truthiness behind the `x || default`
    idiom the controllers use to fill in missing request and response fields. */
module Common {

  /** The ObjectId of an assignment or a submission. */
  type Id = nat

  /** The ObjectId of a user account. */
  type UserId = nat

  /** A JavaScript `Date`, as milliseconds since the epoch. */
  type Date = int

  datatype Option<+T> = None | Some(value: T) {
    function GetOr(default: T): T {
      match this
      case Some(v) => v
      case None => default
    }
  }

  /** The two roles a registered user can hold. */
  datatype Role = Student | Instructor

  /** The authenticated caller, as the authentication middleware attaches it to a request. */
  datatype User = User(id: UserId, role: Role)

  /** An HTTP reply: a status code with a body, or an error status with its message. */
  datatype Reply<+T> = Ok(code: nat, body: T) | Err(code: nat, message: string)

  /** A JSON value, as exchanged with the analysis service. */
  datatype Json =
    | JNull
    | JBool(b: bool)
    | JNum(n: real)
    | JStr(s: string)
    | JArr(items: seq<Json>)
    | JObj(fields: map<string, Json>)

  /** The empty document `{}`. */
  const EmptyObject: Json := JObj(map[])

  /** JavaScript truthiness of a JSON value (NaN is not representable here). */
  predicate Truthy(v: Json) {
    match v
    case JNull => false
    case JBool(b) => b
    case JNum(n) => n != 0.0
    case JStr(s) => s != ""
    case JArr(_) => true
    case JObj(_) => true
  }

  /** `v || d` for a JSON value `v` that may be undefined (None). */
  function JsonOr(v: Option<Json>, d: Json): (r: Json)
    ensures r == d || Some(r) == v
    ensures v.Some? && (v.value.JObj? || v.value.JArr?) ==> r == v.value
    ensures v.None? || v == Some(JNull) || v == Some(JBool(false)) ==> r == d
  {
    if v.Some? && Truthy(v.value) then v.value else d
  }

  /** `v || d` for a number that may be undefined or null (None). */
  function NumberOr(v: Option<real>, d: real): (r: real)
    ensures v.None? ==> r == d
    ensures v.Some? && v.value != 0.0 ==> r == v.value
    // with a zero default, `||` does no more than fill in a missing number
    ensures d == 0.0 ==> r == v.GetOr(0.0)
  {
    if v.Some? && v.value != 0.0 then v.value else d
  }

  /** `v || d` for a string that may be undefined or null (None). */
  function StringOr(v: Option<string>, d: string): (r: string)
    ensures v.None? ==> r == d
    ensures v.Some? && v.value != "" ==> r == v.value
    // with an empty default, `||` does no more than fill in a missing string
    ensures d == "" ==> r == v.GetOr("")
  {
    if v.Some? && v.value != "" then v.value else d
  }

  /** `v || d` for an integer that may be undefined or null (None). */
  function IntOr(v: Option<int>, d: int): (r: int)
    ensures v.None? ==> r == d
    ensures v.Some? && v.value != 0 ==> r == v.value
    ensures v == Some(0) ==> r == d
  {
    if v.Some? && v.value != 0 then v.value else d
  }
}
