/**
 * JSON-like values as the pipeline keeps them in Python dicts, and the dict
 * itself as a heap object for the stages that update an entry in place.
 */
module JsonValue {

  /** A value stored under a dict key (numbers are reals: IEEE rounding is not modelled). */
  datatype Json =
    | JNull
    | JBool(b: bool)
    | JNum(n: real)
    | JStr(s: string)
    | JArr(items: seq<Json>)
    | JObj(fields: map<string, Json>)

  /** A dict with string keys, as `json.load` produces for one entry. */
  type Fields = map<string, Json>

  /** Python truthiness `bool(v)` of a JSON value. */
  predicate Truthy(v: Json) {
    match v
    case JNull => false
    case JBool(b) => b
    case JNum(n) => n != 0.0
    case JStr(s) => s != []
    case JArr(items) => items != []
    case JObj(fields) => fields != map[]
  }

  /** `d.get(key, default)`. */
  function Get(d: Fields, key: string, default: Json): Json {
    if key in d then d[key] else default
  }

  /** The value is a list whose every element is a string. */
  predicate IsStrList(v: Json) {
    v.JArr? && forall i :: 0 <= i < |v.items| ==> v.items[i].JStr?
  }

  /** The strings of a list of strings, in order. */
  function StrList(v: Json): (r: seq<string>)
    requires IsStrList(v)
    ensures |r| == |v.items| && forall i :: 0 <= i < |r| ==> v.items[i] == JStr(r[i])
  {
    seq(|v.items|, i requires 0 <= i < |v.items| => v.items[i].s)
  }

  /** A list of strings as a JSON value. */
  function StrListValue(xs: seq<string>): (v: Json)
    ensures IsStrList(v) && StrList(v) == xs
  {
    JArr(seq(|xs|, i requires 0 <= i < |xs| => JStr(xs[i])))
  }

  /** A Python dict object, shared by reference and updated in place. */
  class Dict {
    var fields: Fields

    constructor (init: Fields)
      ensures fields == init
    {
      fields := init;
    }
  }
}
