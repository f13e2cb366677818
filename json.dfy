/**
 * Content parameters as JavaScript sees them after `JSON.parse`: a tree of
 * objects, arrays, strings, numbers, booleans and null. Numbers are
 * integers here; fractions are not represented. A property that is not
 * there reads as `undefined`, written `None`.
 */
module Json {
  import opened Wrappers

  datatype Value =
    | Null
    | Bool(b: bool)
    | Num(n: int)
    | Str(s: string)
    | Arr(items: seq<Value>)
    | Obj(fields: map<string, Value>)

  /** JavaScript truthiness: null, false, 0 and "" are falsy; arrays and objects are truthy. */
  predicate Truthy(v: Value)
  {
    match v
    case Null => false
    case Bool(b) => b
    case Num(n) => n != 0
    case Str(s) => s != []
    case Arr(_) => true
    case Obj(_) => true
  }

  /** Truthiness of a value that may be `undefined` (which is falsy). */
  predicate TruthyOpt(v: Option<Value>)
  {
    v.Some? && Truthy(v.value)
  }

  /** The property read `v.k`: `undefined` unless `v` is an object that has `k`. */
  function Get(v: Value, k: string): (r: Option<Value>)
    ensures r.Some? <==> v.Obj? && k in v.fields
  {
    if v.Obj? && k in v.fields then Some(v.fields[k]) else None
  }

  /** The property read `v.k` on a value that may itself be `undefined`. */
  function GetOpt(v: Option<Value>, k: string): (r: Option<Value>)
    ensures r.Some? ==> v.Some? && v.value.Obj? && k in v.value.fields
  {
    if v.Some? then Get(v.value, k) else None
  }
}

