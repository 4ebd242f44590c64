/** An already-parsed JSON document (the RFC 8259 data model) and the
    lookups the report extractor performs on it, with the behaviour of the
    `Index` and `as_*` accessors of a dynamically typed JSON value. */
module JsonValue {

  datatype Option<+T> = None | Some(value: T)

  /** Object keys are unique, as in a parsed JSON map; numbers are never
      inspected by the extractor, so an integer stands for any number. */
  datatype Json =
    | Null
    | Bool(b: bool)
    | Num(n: int)
    | Str(s: string)
    | Arr(items: seq<Json>)
    | Obj(fields: map<string, Json>)

  /** `v[key]`: the member named `key`, or `Null` when `v` is not an
      object or has no such member (indexing never fails). */
  function Field(v: Json, key: string): Json
  {
    match v
    case Obj(fields) => if key in fields then fields[key] else Null
    case _ => Null
  }

  /** `v[i]`: the element at position `i`, or `Null` when `v` is not an
      array or `i` is out of bounds. */
  function Item(v: Json, i: nat): Json
  {
    match v
    case Arr(items) => if i < |items| then items[i] else Null
    case _ => Null
  }

  /** `v.as_array()`: the elements when `v` is an array, else nothing. */
  function AsArray(v: Json): Option<seq<Json>>
  {
    match v
    case Arr(items) => Some(items)
    case _ => None
  }

  /** `v.as_str()`: the text when `v` is a string, else nothing. */
  function AsStr(v: Json): Option<string>
  {
    match v
    case Str(s) => Some(s)
    case _ => None
  }
}
