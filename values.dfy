/**
 * JSON values, JavaScript truthiness and the small Option wrapper shared by
 * every handler of the application.
 */
module Values {

  datatype Option<+T> = None | Some(value: T) {
    function GetOr(default: T): T {
      match this
      case Some(v) => v
      case None => default
    }
  }

  /** A JSON value as a route handler reads it from a request body or writes it to a response.
      Numbers are integers: the handlers never compute with them. */
  datatype Json =
    | JNull
    | JBool(b: bool)
    | JNum(n: int)
    | JStr(s: string)
    | JArr(items: seq<Json>)
    | JObj(fields: map<string, Json>)

  predicate IsScalar(j: Json) {
    j.JNull? || j.JBool? || j.JNum? || j.JStr?
  }

  /** The JSON values a token payload can carry as its `userId`. */
  type Scalar = j: Json | IsScalar(j) witness JNull

  /** JavaScript's `!!v` on a JSON value: null, false, 0 and "" are falsy, everything else is truthy. */
  predicate Truthy(j: Json) {
    match j
    case JNull => false
    case JBool(b) => b
    case JNum(n) => n != 0
    case JStr(s) => s != ""
    case JArr(_) => true
    case JObj(_) => true
  }

  /** The falsy JSON values under ECMAScript's ToBoolean (section 7.1.2 of
      ECMA-262): null, false, 0 and the empty string, and no others. */
  lemma FalsyValues(j: Json)
    ensures !Truthy(j) <==> j == JNull || j == JBool(false) || j == JNum(0) || j == JStr("")
  {
  }

  /** `!!x` on a value read from a JavaScript object: a missing key (`undefined`) is falsy. */
  predicate Present(v: Option<Json>) {
    v.Some? && Truthy(v.value)
  }

  /** Property access `obj[k]` on a parsed body or a cookie map: `undefined` when the key is absent. */
  function Get<V>(obj: map<string, V>, k: string): (r: Option<V>)
    ensures r.Some? <==> k in obj
    ensures r.Some? ==> r.value == obj[k]
  {
    if k in obj then Some(obj[k]) else None
  }

  /** A string read from a JavaScript object: `undefined` when absent; `!!v` is false for "" too. */
  predicate NonEmpty(v: Option<string>) {
    v.Some? && v.value != ""
  }

  /** `!!v` for a string or `undefined` is the truthiness of that JSON string. */
  lemma NonEmptyIsPresent(v: Option<string>)
    ensures NonEmpty(v) <==> Present(if v.Some? then Some(JStr(v.value)) else None)
  {
  }
}
