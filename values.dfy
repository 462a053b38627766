/** Python-side values the crawler handles: decoded JSON documents, `None`,
    and the truthiness rules that `if not x` and `a or b` apply to them. */
module Values {

  datatype Option<+T> = None | Some(value: T)

  /** A decoded JSON value. Python's `None` and JSON `null` are the same
      value, `Null`, and so is the result of `dict.get` on a missing key.
      Numbers are integers here: floats are not modelled. */
  datatype Value =
    | Null
    | Bool(b: bool)
    | Num(n: int)
    | Str(s: string)
    | Arr(items: seq<Value>)
    | Obj(fields: map<string, Value>)

  /** Python truthiness: `None`, `False`, `0`, `""`, `[]` and `{}` are falsy. */
  predicate Truthy(v: Value) {
    match v
    case Null => false
    case Bool(b) => b
    case Num(n) => n != 0
    case Str(s) => s != ""
    case Arr(items) => items != []
    case Obj(fields) => fields != map[]
  }

  /** Python's `a or b`: the first operand when it is truthy, else the second. */
  function Or(a: Value, b: Value): (r: Value)
    ensures Truthy(r) <==> Truthy(a) || Truthy(b)
  {
    if Truthy(a) then a else b
  }

  /** `d.get(key)` on a dict: the stored value, or `None` when the key is absent. */
  function Get(d: map<string, Value>, key: string): Value
  {
    if key in d then d[key] else Null
  }

  /** `d.get(key)` applied to a value that may not be a dict; only used
      where the caller has already established that it is one. */
  function Field(v: Value, key: string): Value
  {
    if v.Obj? then Get(v.fields, key) else Null
  }
}
