/**
 * The values that Python's `json.loads` produces. Parsing itself is not modelled:
 * callers receive a parser as a function `string -> Option<Json>` (None when
 * `json.loads` raises).
 */
module Json {
  datatype Json =
    | JNull
    | JBool(b: bool)
    | JNumber(n: real)
    | JString(s: string)
    | JArray(items: seq<Json>)
    | JObject(fields: map<string, Json>)

  /** Python's truth value of a decoded JSON value (`bool(v)`). */
  predicate Truthy(v: Json) {
    match v
    case JNull => false
    case JBool(b) => b
    case JNumber(n) => n != 0.0
    case JString(s) => s != ""
    case JArray(items) => items != []
    case JObject(fields) => fields != map[]
  }
}
