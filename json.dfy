/**
 * Visualization payloads as they travel from the backend to the frontend:
 * a JSON value. Numbers are integers because every payload in this code base
 * carries integers only.
 */
module Json {
  import opened Wrappers

  datatype Value =
    | Null
    | Bool(b: bool)
    | Num(n: int)
    | Str(s: string)
    | Arr(items: seq<Value>)
    | Obj(fields: seq<(string, Value)>)

  /** Member lookup on an object; a later duplicate key wins, as in `JSON.parse` and a Python dict literal. */
  function Get(v: Value, key: string): (r: Option<Value>)
    ensures v.Obj? && r.Some? ==> exists i :: 0 <= i < |v.fields| && v.fields[i] == (key, r.value)
    ensures !v.Obj? ==> r == None
    decreases if v.Obj? then |v.fields| else 0
  {
    if !v.Obj? || |v.fields| == 0 then None
    else
      var last := v.fields[|v.fields| - 1];
      if last.0 == key then Some(last.1)
      else Get(Obj(v.fields[..|v.fields| - 1]), key)
  }

  /** JavaScript truthiness of a present value (`undefined` is modelled by `None`). */
  predicate JsTruthy(v: Value)
  {
    match v
    case Null => false
    case Bool(b) => b
    case Num(n) => n != 0
    case Str(s) => s != ""
    case Arr(_) => true
    case Obj(_) => true
  }

  /** Python truthiness of the same value. */
  predicate PyTruthy(v: Value)
  {
    match v
    case Null => false
    case Bool(b) => b
    case Num(n) => n != 0
    case Str(s) => s != ""
    case Arr(items) => items != []
    case Obj(fields) => fields != []
  }
}
