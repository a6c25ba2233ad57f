/**
 * The Python values `json.loads` produces (RFC 8259 texts decoded into None,
 * bool, int, float, str, list and dict), and Python truthiness on them.
 */
module Json {
  import opened Wrappers
  import opened Dicts

  datatype Json =
    | JNull
    | JBool(b: bool)
    | JInt(i: int)
    | JFloat(f: real)
    | JString(s: string)
    | JArray(items: seq<Json>)
    | JObject(members: Dict<string, Json>)

  /** `json.loads`, foreign: a value, or the exception it raises. */
  type Parser = string -> Result<Json>

  /** `bool(x)`: None, False, zero and empty containers are falsy. */
  predicate Truthy(j: Json)
  {
    match j
    case JNull => false
    case JBool(b) => b
    case JInt(i) => i != 0
    case JFloat(f) => f != 0.0
    case JString(s) => |s| > 0
    case JArray(items) => |items| > 0
    case JObject(members) => |members| > 0
  }

  /** `isinstance(x, list)` */
  predicate IsList(j: Json)
  {
    j.JArray?
  }

  /** A dict literal with string values, such as `{"error": ..., "details": ...}`. */
  function StringObject(members: seq<(string, string)>): (j: Json)
    ensures j.JObject? && |j.members| == |members|
    ensures forall i :: 0 <= i < |members| ==> j.members[i] == (members[i].0, JString(members[i].1))
  {
    JObject(seq(|members|, i requires 0 <= i < |members| => (members[i].0, JString(members[i].1))))
  }

  /** `x.get(key, default)` on a decoded value: only a dict has `get`. */
  function GetOr(x: Json, key: string, default: Json): (r: Result<Json>)
    ensures r.Ok? <==> x.JObject?
    ensures x.JObject? && key !in Keys(x.members) ==> r == Ok(default)
    ensures x.JObject? && key in Keys(x.members) ==> r == Ok(x.members[IndexOf(x.members, key)].1)
  {
    if !x.JObject? then Raise(Exception(AttributeError, "object has no attribute 'get'"))
    else match Get(x.members, key)
      case Some(v) => Ok(v)
      case None => Ok(default)
  }
}
