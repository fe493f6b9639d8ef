/**
 * The JavaScript values the registry stores and inspects, with the two
 * language operations its guards use: truthiness (`if (name && obj)`) and
 * `typeof`.
 */
module Js {

  /**
   * A JavaScript value. Objects and functions carry an identity `id` so that
   * two distinct objects with the same properties stay distinct.
   *  - `Num` is a finite number other than NaN (infinities are not modelled).
   *  - `Func.source` is what `String(f)` yields (the function's source text);
   *    `hasPrototype` says whether `f.prototype` is truthy (false for arrow
   *    functions, methods and bound functions).
   *  - `Obj.props` are the object's own properties and `Obj.text` is what
   *    `String(o)` yields (`"[object Object]"` for a plain object).
   */
  datatype Value =
    | Undefined
    | Null
    | Bool(b: bool)
    | Num(n: real)
    | NaN
    | Str(s: string)
    | Func(id: nat, source: string, hasPrototype: bool)
    | Obj(id: nat, props: map<string, Value>, text: string)

  /** JavaScript's ToBoolean: the falsy values are undefined, null, false, 0, NaN and "". */
  predicate Truthy(v: Value) {
    match v
    case Undefined => false
    case Null => false
    case Bool(b) => b
    case Num(n) => n != 0.0
    case NaN => false
    case Str(s) => s != ""
    case Func(_, _, _) => true
    case Obj(_, _, _) => true
  }

  /** The `typeof` operator; note that `typeof null` is "object". */
  function TypeOf(v: Value): string {
    match v
    case Undefined => "undefined"
    case Null => "object"
    case Bool(_) => "boolean"
    case Num(_) => "number"
    case NaN => "number"
    case Str(_) => "string"
    case Func(_, _, _) => "function"
    case Obj(_, _, _) => "object"
  }

  /** Property read `o[key]` of an own property; anything else reads as undefined. */
  function Prop(v: Value, key: string): Value {
    if v.Obj? && key in v.props then v.props[key] else Undefined
  }
}
