/** The payload column holds a JSON document. The model keeps it as a tree and
    gives the two PHP readings the settings pages apply to it: the null test
    behind `??` and the boolean conversion behind `&&`. */
module Json {
  import opened Wrappers

  /** A decoded JSON value. Floating-point numbers are not modelled. */
  datatype Json =
    | JNull
    | JBool(b: bool)
    | JInt(i: int)
    | JStr(s: string)
    | JArr(items: seq<Json>)
    | JObj(fields: seq<(string, Json)>)

  /** A page property or a payload cell: `None` is PHP null (an SQL NULL
      cell), `Some(j)` a decoded document. */
  type Value = Option<Json>

  /** What `isset`/`??` treat as null: no value at all, or a JSON `null`
      that decodes to PHP null. */
  predicate IsNull(v: Value) {
    v.None? || v.value.JNull?
  }

  /** PHP's `$v ?? $default`. */
  function Coalesce(v: Value, default: Value): Value {
    if IsNull(v) then default else v
  }

  /** PHP's conversion of a decoded value to `bool`: null, `false`, `0`,
      `""`, `"0"` and the empty array are false, everything else true. */
  predicate Truthy(v: Value) {
    match v
    case None => false
    case Some(j) =>
      match j
      case JNull => false
      case JBool(b) => b
      case JInt(i) => i != 0
      case JStr(s) => s != "" && s != "0"
      case JArr(items) => |items| > 0
      case JObj(fields) => |fields| > 0
  }
}
