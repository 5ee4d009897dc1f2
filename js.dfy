/**
 * The JavaScript values the helpers inspect: a JSON-like value with
 * `undefined`, and a nullable slot for values that may be `undefined` or `null`.
 * Numbers are integers here; NaN and fractions are not part of this model.
 */
module Js {

  /** A JSON-like JavaScript value; an object maps property names to values. */
  datatype Json =
    | Undefined
    | Null
    | Bool(b: bool)
    | Num(n: int)
    | Str(s: string)
    | Obj(fields: map<string, Json>)

  /** `Boolean(value)`: `undefined`, `null`, `false`, `0` and `''` are falsy; every other value is truthy. */
  predicate Truthy(v: Json) {
    match v
    case Undefined => false
    case Null => false
    case Bool(b) => b
    case Num(n) => n != 0
    case Str(s) => s != ""
    case Obj(_) => true
  }

  /** A slot of type `T | null | undefined`. */
  datatype Nullable<+T> = Missing | Nil | Present(value: T)
}
