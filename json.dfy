/** Decoded JSON values as Python sees them after `json.loads`, with the few dynamic-typing
    rules the generators rely on: truthiness, `len`, and `dict.get` with a default. */
module PyJson {
  import opened Wrappers

  /** `null`, booleans, integers, floats, strings, lists and dicts. A float holds the binary64
      value that `json.loads` rounds its literal to, written as a real: a decoder is expected to
      do that rounding. The non-finite floats `NaN`, `Infinity` and `-Infinity` have no value here. */
  datatype Json =
    | JNull
    | JBool(b: bool)
    | JInt(i: int)
    | JReal(r: real)
    | JStr(s: string)
    | JArr(items: seq<Json>)
    | JObj(fields: map<string, Json>)

  /** `bool(value)`: `None`, `False`, zero, and empty strings, lists and dicts are false. */
  predicate Truthy(j: Json) {
    match j
    case JNull => false
    case JBool(b) => b
    case JInt(i) => i != 0
    case JReal(r) => r != 0.0
    case JStr(s) => s != []
    case JArr(a) => a != []
    case JObj(m) => m != map[]
  }

  /** `len(value)`, which raises `TypeError` (None here) on numbers, booleans and `None`. */
  function PyLen(j: Json): (r: Option<nat>)
    ensures r.Some? <==> (j.JStr? || j.JArr? || j.JObj?)
  {
    match j
    case JStr(s) => Some(|s|)
    case JArr(a) => Some(|a|)
    case JObj(m) => Some(|m.Keys|)
    case _ => None
  }

  /** `d.get(key, default)` on a dict. */
  function Get(fields: map<string, Json>, key: string, default: Json): (r: Json)
    ensures key in fields ==> r == fields[key]
    ensures key !in fields ==> r == default
  {
    if key in fields then fields[key] else default
  }

  /** Whether a value is "empty" to Python exactly when it has length zero. */
  lemma TruthyLen(j: Json)
    requires PyLen(j).Some?
    ensures Truthy(j) <==> PyLen(j).value > 0
  {
    if j.JObj? && j.fields != map[] {
      var k :| k in j.fields;
      assert k in j.fields.Keys;
    }
  }
}
