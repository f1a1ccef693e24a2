/** Decoded JSON values, as the Python code sees them after `resp.json()`. */
module Json {
  import opened Wrappers

  /** `None`, a bool, an integer, a str, a list or a dict with string keys. */
  datatype Json =
    | JNull
    | JBool(b: bool)
    | JNum(n: int)
    | JStr(s: string)
    | JArr(items: seq<Json>)
    | JObj(fields: map<string, Json>)

  /** A decoded JSON object: a dict from strings to values. */
  type Obj = map<string, Json>

  /** `d.get(key)`: the value stored under `key`, or `None` when there is none. */
  function Get(d: Obj, key: string): Json
  {
    if key in d then d[key] else JNull
  }

  /** Python's truth value of a decoded value: `None`, `False`, `0`, `""`, `[]` and `{}` are false. */
  predicate Truthy(j: Json)
  {
    match j
    case JNull => false
    case JBool(b) => b
    case JNum(n) => n != 0
    case JStr(s) => s != ""
    case JArr(items) => items != []
    case JObj(fields) => fields != map[]
  }

  /** Whether the value can be a dict key: lists and dicts are unhashable. */
  predicate Hashable(j: Json)
  {
    !j.JArr? && !j.JObj?
  }

  /** The elements a `for` loop over `j` reaches, where every element must be a dict:
      a list gives its items; an empty str or dict gives none; any other value fails,
      either because it cannot be iterated or because its first element is a str. */
  function Elements(j: Json): Option<seq<Json>>
  {
    match j
    case JArr(items) => Some(items)
    case JStr(s) => if s == "" then Some([]) else None
    case JObj(fields) => if fields == map[] then Some([]) else None
    case _ => None
  }
}
