/**
 The decoded JSON request body a handler reads with `request.get_json`.
 A body is a JSON object: a map from field names to JSON values.
 */
module Json {

  /** A JSON value as the Python decoder produces it. Integers and floats
      are both numbers; only whether a number is zero matters here. */
  datatype Value =
    | Null
    | Bool(b: bool)
    | Num(n: real)
    | Str(s: string)
    | Arr(items: seq<Value>)
    | Obj(fields: map<string, Value>)

  /** A decoded JSON object. */
  type Body = map<string, Value>

  /** Python truthiness of a decoded value: `None`, `False`, zero, the empty
      string, the empty list and the empty dict are falsy; all else is truthy. */
  predicate Truthy(v: Value)
  {
    match v
    case Null => false
    case Bool(b) => b
    case Num(n) => n != 0.0
    case Str(s) => |s| > 0
    case Arr(items) => |items| > 0
    case Obj(fields) => |fields| > 0
  }
}
