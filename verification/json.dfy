/**
 * JSON values as the action handles them: what `JSON.parse` produces, with
 * the handful of JavaScript operations the action applies to them (property
 * reads with and without optional chaining, truthiness, `String(...)`,
 * `Array.prototype.toString`, strict equality between parsed values).
 * Numbers are integers: no arithmetic is done on them anywhere.
 */
module Json {
  import opened Wrappers
  import opened Strings

  datatype Json =
    | Null
    | Bool(b: bool)
    | Num(n: int)
    | Str(s: string)
    | Arr(items: seq<Json>)
    | Obj(fields: map<string, Json>)

  /** `typeof v === 'object' && v !== null`. */
  predicate IsObject(v: Json)
  {
    v.Arr? || v.Obj?
  }

  /** A JSON document a file or a remote record may hold: parsed, or rejected by `JSON.parse`. */
  datatype Parse = Parsed(json: Json) | Unparsable

  /**
   * `v?.name` for a property name that is neither an array index nor a member
   * of a built-in prototype (`id`, `allocation`, `variants`, ...): an own field
   * of an object, `undefined` (None) otherwise, and also `undefined` on `null`.
   * A read WITHOUT `?.` on `null` throws instead; callers check that case.
   */
  function Member(v: Json, name: string): (r: Option<Json>)
    ensures r.Some? <==> v.Obj? && name in v.fields
    ensures r.Some? ==> r.value == v.fields[name]
  {
    if v.Obj? && name in v.fields then Some(v.fields[name]) else None
  }

  /** `v?.name` where `v` may itself be `undefined`. */
  function OptMember(v: Option<Json>, name: string): (r: Option<Json>)
    ensures v.None? ==> r.None?
    ensures v.Some? ==> r == Member(v.value, name)
    ensures r.Some? ==> v.Some? && v.value.Obj?
  {
    if v.None? then None else Member(v.value, name)
  }

  /** JavaScript truthiness; `undefined` is falsy. */
  predicate Truthy(v: Option<Json>)
  {
    match v
    case None => false
    case Some(Null) => false
    case Some(Bool(b)) => b
    case Some(Num(n)) => n != 0
    case Some(Str(s)) => s != ""
    case Some(Arr(_)) => true
    case Some(Obj(_)) => true
  }

  /** `String(v)`: arrays render as their comma-joined elements, objects as "[object Object]". */
  function JsToString(v: Json): string
  {
    match v
    case Null => "null"
    case Bool(b) => if b then "true" else "false"
    case Num(n) => IntToString(n)
    case Str(s) => s
    case Arr(items) =>
      Join(seq(|items|, i requires 0 <= i < |items| => if items[i].Null? then "" else JsToString(items[i])), ",")
    case Obj(_) => "[object Object]"
  }

  /** `${v}` in a template literal. */
  function Interpolate(v: Option<Json>): string
  {
    if v.None? then "undefined" else JsToString(v.value)
  }

  /** How `Array.prototype.join` renders one element: `null` and `undefined` become "". */
  function ElementString(v: Option<Json>): string
  {
    if v.None? || v.value.Null? then "" else JsToString(v.value)
  }

  /** `${xs}` for an array that may hold `undefined`: its elements joined by "," with no space. */
  function ArrayString(xs: seq<Option<Json>>): (r: string)
  {
    Join(seq(|xs|, i requires 0 <= i < |xs| => ElementString(xs[i])), ",")
  }

  /**
   * `a === b` (and `SameValueZero`, which `includes` uses) between two values
   * read from different places of parsed JSON: `JSON.parse` never shares a
   * node, so an array or object is never identical to another one, while
   * primitives and `undefined` compare by value.
   */
  predicate StrictEquals(a: Option<Json>, b: Option<Json>)
  {
    a == b && (a.None? || !IsObject(a.value))
  }
}
