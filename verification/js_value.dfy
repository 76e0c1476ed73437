/**
  Plain JavaScript data as the blueprint code sees it: the values of parsed `package.json`
  files, of blueprint locals and of option bags. Objects are association lists in insertion
  order, which is the order `for … in` and `Object.keys` report.
*/
module JsValues {
  import opened Wrappers
  import opened Assoc

  datatype JsValue =
    | Undefined
    | Null
    | Bool(b: bool)
    | Str(s: string)
    | Num(n: int)
    | Arr(items: seq<JsValue>)
    | Obj(fields: seq<(string, JsValue)>)

  /** JavaScript truthiness (numbers are integers here, so `NaN` does not arise). */
  predicate Truthy(v: JsValue) {
    match v
    case Undefined => false
    case Null => false
    case Bool(b) => b
    case Str(s) => s != ""
    case Num(n) => n != 0
    case Arr(_) => true
    case Obj(_) => true
  }

  /** The value of `a && b`: `a` when it is falsy, `b` otherwise. */
  function And(a: JsValue, b: JsValue): JsValue {
    if Truthy(a) then b else a
  }

  /** The value of `a || b`: `a` when it is truthy, `b` otherwise. */
  function Or(a: JsValue, b: JsValue): JsValue {
    if Truthy(a) then a else b
  }

  /** Property access `v[key]`: `undefined` for a missing key or a non-object. */
  function Get(v: JsValue, key: string): JsValue {
    match v
    case Obj(fields) => Lookup(fields, key).GetOr(Undefined)
    case _ => Undefined
  }

  /** `key in v` for an object `v`. */
  predicate HasKey(v: JsValue, key: string) {
    v.Obj? && Lookup(v.fields, key).Some?
  }
}
