/** How the handlers read their input: JavaScript truthiness of request-body fields and
    query parameters, and the two fallback idioms (`f || current` and
    `f !== undefined ? f : current`) that the update handlers use. */
module JsValues {

  datatype Option<+T> = None | Some(value: T) {
    function GetOr(default: T): T
    {
      match this
      case Some(v) => v
      case None => default
    }
  }

  /** A string-valued field of a JSON request body as JavaScript sees it: `undefined`
      (the key is absent), `null`, or a string, possibly empty. */
  datatype Field = Absent | Null | Text(s: string)

  /** `!!f`: only a non-empty string is truthy. */
  predicate Truthy(f: Field)
  {
    f.Text? && f.s != ""
  }

  /** `f || current` */
  function Or(f: Field, current: string): (r: string)
    ensures Truthy(f) ==> r == f.s
    ensures !Truthy(f) ==> r == current
    ensures current != "" ==> r != ""
  {
    if Truthy(f) then f.s else current
  }

  /** The value a nullable column receives when `f` is written to it: `undefined` and
      `null` both become NULL, every string (also `""`) is stored as it is. */
  function ToColumn(f: Field): (r: Option<string>)
    ensures r.None? <==> !f.Text?
    ensures r.Some? ==> r.value == f.s
  {
    if f.Text? then Some(f.s) else None
  }

  /** `f !== undefined ? f : current`, written to a nullable column. */
  function IfDefined(f: Field, current: Option<string>): (r: Option<string>)
    ensures f.Absent? ==> r == current
    ensures f.Null? ==> r == None
    ensures f.Text? ==> r == Some(f.s)
  {
    if f.Absent? then current else ToColumn(f)
  }

  /** Truthiness of a numeric id in a request body: absent, `null` and `0` are falsy. */
  predicate TruthyId(id: Option<int>): (b: bool)
    ensures b <==> id != None && id != Some(0)
  {
    id.Some? && id.value != 0
  }
}
