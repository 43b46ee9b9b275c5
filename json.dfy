/** JSON values as Python holds them after `json.loads` or a database fetch, and the dict
    operations the modelled code applies to them. */
module JsonValues {

  datatype Json =
    | JNull
    | JBool(b: bool)
    | JNum(n: real)
    | JStr(s: string)
    | JArr(items: seq<Json>)
    | JObj(fields: map<string, Json>)

  /** A dict with string keys: an LLM metadata object or a database row. */
  type Row = map<string, Json>

  /** Python's `bool(v)`: null, false, zero and empty containers are false. */
  predicate Truthy(v: Json) {
    match v
    case JNull => false
    case JBool(b) => b
    case JNum(n) => n != 0.0
    case JStr(s) => s != []
    case JArr(items) => items != []
    case JObj(fields) => fields != map[]
  }

  /** Python's `d.get(key, default)`: the default applies only when the key is absent. */
  function Get(d: Row, key: string, default: Json): (v: Json)
    ensures key in d ==> v == d[key]
    ensures key !in d ==> v == default
  {
    if key in d then d[key] else default
  }

  /** Python's `d.get(key) or []`: any absent or false value becomes the empty list. */
  function ListOrEmpty(d: Row, key: string): (v: Json)
    ensures Truthy(v) || v == JArr([])
    ensures key in d && Truthy(d[key]) ==> v == d[key]
    ensures !(key in d && Truthy(d[key])) ==> v == JArr([])
  {
    var x := Get(d, key, JNull);
    if Truthy(x) then x else JArr([])
  }
}
