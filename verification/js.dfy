/** JavaScript values, as far as the model looks into them. */
module Js {
  import opened Wrappers
  import opened Dicts

  /** A JavaScript value. `Opaque` stands for an object or function the model
      never inspects (a plugin object, a parser, a rule's options); two opaque
      values are the same object exactly when their ids are equal, so value
      equality models reference identity. */
  datatype Value =
    | Undefined
    | Null
    | Bool(b: bool)
    | Num(n: int)
    | Str(s: string)
    | Arr(items: seq<Value>)
    | Obj(entries: Dict<Value>)
    | Opaque(id: nat)

  /** JavaScript truthiness (`!!v`). Only integral numbers are modelled, so `NaN`
      does not arise. */
  predicate Truthy(v: Value) {
    match v
    case Undefined => false
    case Null => false
    case Bool(b) => b
    case Num(n) => n != 0
    case Str(s) => s != ""
    case _ => true
  }

  /** `d[k]` on a plain object: `undefined` when `k` is not an own key. Keys
      inherited from `Object.prototype` are not modelled. */
  function Get(d: Dict<Value>, k: string): Value {
    Lookup(d, k).GetOr(Undefined)
  }

  /** `v?.[k]`: a property of an object, `undefined` for anything that is not one. */
  function Prop(v: Value, k: string): Value {
    if v.Obj? then Get(v.entries, k) else Undefined
  }
}
