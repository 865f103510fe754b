/**
 * Decoded JSON values. An object keeps its members in document order, repeats included;
 * the Python dictionary `json.loads` makes of it is `Dicts.AsDict(members)`.
 */
module Json {
  import opened Wrappers
  import opened Dicts

  datatype Json =
    | JNull
    | JBool(b: bool)
    | JNumber(n: real)
    | JString(s: string)
    | JArray(items: seq<Json>)
    | JObject(members: seq<(string, Json)>)

  /** `json.loads`: the decoder is not modelled, only its outcome (`None` when it raises). */
  type Parser = string -> Option<Json>

  /** Python's `bool(v)` for the decoded value `v`. */
  predicate Truthy(j: Json) {
    match j
    case JNull => false
    case JBool(b) => b
    case JNumber(n) => n != 0.0
    case JString(s) => s != ""
    case JArray(items) => items != []
    case JObject(members) => members != []
  }

  /** The Python dictionary of an object. */
  function ObjectDict(j: Json): Dict<Json>
    requires j.JObject?
  {
    AsDict(j.members)
  }
}
