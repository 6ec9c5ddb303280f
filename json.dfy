/** The value `JSON.parse` yields, with JavaScript's truthiness and property
    access on it. */
module Json {
  import opened Types

  datatype Json =
    | JNull
    | JBool(b: bool)
    | JNum(n: real)
    | JStr(s: string)
    | JArr(items: seq<Json>)
    | JObj(fields: map<string, Json>)

  /** JavaScript truthiness: null, false, 0 and the empty string are falsy;
      every other string, number, array and object is truthy. */
  predicate Truthy(v: Json) {
    match v
    case JNull => false
    case JBool(b) => b
    case JNum(n) => n != 0.0
    case JStr(s) => s != ""
    case JArr(_) => true
    case JObj(_) => true
  }

  /** `v.key`: the own property of an object, and `undefined` (None) for a
      missing key or for any value that is not an object. */
  function Field(v: Json, key: string): (r: Option<Json>)
    ensures r.Some? <==> v.JObj? && key in v.fields
    ensures r.Some? ==> r.value == v.fields[key]
  {
    match v
    case JObj(m) => if key in m then Some(m[key]) else None
    case _ => None
  }

  /** `v.key` is present and truthy. */
  predicate HasTruthy(v: Json, key: string) {
    Field(v, key).Some? && Truthy(Field(v, key).value)
  }

  /** `v.key || fallback`. */
  function FieldOr(v: Json, key: string, fallback: Json): (r: Json)
    ensures HasTruthy(v, key) ==> Some(r) == Field(v, key)
    ensures !HasTruthy(v, key) ==> r == fallback
  {
    if HasTruthy(v, key) then Field(v, key).value else fallback
  }
}
