/**
 * The values `json.loads` produces, and the dictionary lookups the analyzers
 * perform on them. Decoding itself is not modelled: it is an opaque partial
 * function supplied from outside (see `LlmReply.Externals`).
 */
module JsonValues {
  import opened Wrappers

  /**
   * A decoded JSON value. Numbers are kept as exact reals; whether the text
   * was written with a fraction (`3` vs `3.0`) is not distinguished.
   */
  datatype Json =
    | JNull
    | JBool(b: bool)
    | JNum(n: real)
    | JStr(s: string)
    | JArr(items: seq<Json>)
    | JObj(fields: map<string, Json>)

  /** Python's `d.get(key, default)`. */
  function Get(d: map<string, Json>, key: string, default: Json): Json {
    if key in d then d[key] else default
  }

  /** Python's `len(v)` on a decoded value; numbers, booleans and `None` have no length. */
  function Len(v: Json): Option<nat> {
    match v
    case JArr(items) => Some(|items|)
    case JStr(s) => Some(|s|)
    case JObj(fields) => Some(|fields|)
    case _ => None
  }
}
