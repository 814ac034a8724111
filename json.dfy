/**
 * The JSON values a request body can decode to, seen as the Python
 * objects `request.get_json()` returns, with the bits of Python
 * semantics the endpoint relies on: truthiness, `dict.get` and the
 * numeric comparison `0 <= x <= 1`.
 */
module Json {

  import opened Text

  /** A decoded JSON value: `None`, `bool`, `int`, `float`, `str`, `list` or `dict`. */
  datatype Json =
    | JNull
    | JBool(b: bool)
    | JInt(i: int)
    | JFloat(f: real)
    | JStr(s: string)
    | JArray(items: seq<Json>)
    | JObject(fields: map<string, Json>)

  /** Python's `bool(v)`: `None`, `False`, zero, and empty strings, lists and dicts are falsy. */
  predicate Truthy(v: Json)
    ensures !Truthy(v) <==> v in {JNull, JBool(false), JInt(0), JFloat(0.0), JStr(""), JArray([]), JObject(map[])}
  {
    match v
    case JNull => false
    case JBool(b) => b
    case JInt(i) => i != 0
    case JFloat(f) => f != 0.0
    case JStr(s) => s != ""
    case JArray(items) => items != []
    case JObject(fields) => fields != map[]
  }

  /**
   * The number Python compares when `v` meets `<=` against an int: `bool`
   * counts as 0 or 1, `int` and `float` as themselves. Any other value
   * makes the comparison raise `TypeError`.
   */
  function NumericValue(v: Json): (r: Option<real>)
    ensures r.Some? <==> (v.JBool? || v.JInt? || v.JFloat?)
    ensures v.JBool? ==> r == Some(if v.b then 1.0 else 0.0)
    ensures v.JInt? ==> r == Some(v.i as real)
    ensures v.JFloat? ==> r == Some(v.f)
    ensures r.Some? ==> (Truthy(v) <==> r.value != 0.0)
  {
    match v
    case JBool(b) => Some(if b then 1.0 else 0.0)
    case JInt(i) => Some(i as real)
    case JFloat(f) => Some(f)
    case _ => None
  }

  /** Python's `d.get(key, default)`: a key present with value `null` gives `None`, not the default. */
  function Get(fields: map<string, Json>, key: string, default: Json): (r: Json)
    ensures key in fields ==> r == fields[key]
    ensures key !in fields ==> r == default
  {
    if key in fields then fields[key] else default
  }

  /** What `request.get_json()` produced: a value (JSON `null` is Python `None`), or it raised. */
  datatype ParsedBody = Parsed(value: Json) | ParseRaised(message: string)
}
