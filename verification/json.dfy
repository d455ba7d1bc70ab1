/** JSON-shaped values as the service exchanges them, and Python's truthiness on them. */
module Json {

  /** Floating-point numbers are not modelled: numbers are integers. */
  datatype Json =
    | Null
    | Bool(b: bool)
    | Num(n: int)
    | Str(s: string)
    | Arr(items: seq<Json>)
    | Obj(fields: map<string, Json>)

  /** Python's `bool(value)`: empty strings, containers, zero, False and None are false. */
  predicate Truthy(j: Json) {
    match j
    case Null => false
    case Bool(b) => b
    case Num(n) => n != 0
    case Str(s) => s != ""
    case Arr(xs) => xs != []
    case Obj(m) => m != map[]
  }

  /** Values a Python `set` or `dict` key accepts: JSON arrays and objects are lists and dicts. */
  predicate Hashable(j: Json) {
    !j.Arr? && !j.Obj?
  }

  /** `d.get(key)`: the value stored at `key`, or None. */
  function Get(m: map<string, Json>, key: string): (r: Json)
    ensures key !in m ==> r == Null
    ensures key in m ==> r == m[key]
  {
    if key in m then m[key] else Null
  }

  /** A list's elements, or a value that is not a list lifted to a one-element list. */
  function AsList(j: Json): (r: seq<Json>)
    ensures j.Arr? ==> r == j.items
    ensures !j.Arr? ==> r == [j]
  {
    if j.Arr? then j.items else [j]
  }
}
