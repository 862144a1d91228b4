/**
  JavaScript values as they reach the route handlers: everything a parsed JSON
  request body can hold, plus `undefined`, which is what reading a missing
  property yields. Numbers are JavaScript doubles; JSON cannot express NaN or
  the infinities, so a real number is enough here.
 */
module JsValue {
  datatype Json =
    | Undefined
    | Null
    | Bool(b: bool)
    | Number(n: real)
    | Str(s: string)
    | Array(items: seq<Json>)
    | Object(fields: map<string, Json>)

  /** `!!v`: JavaScript truthiness. Arrays and objects are truthy even when empty. */
  predicate Truthy(v: Json) {
    match v
    case Undefined => false
    case Null => false
    case Bool(b) => b
    case Number(n) => n != 0.0
    case Str(s) => s != ""
    case Array(_) => true
    case Object(_) => true
  }

  /** `typeof v`; note that `typeof null` and `typeof []` are both "object". */
  function TypeOf(v: Json): string {
    match v
    case Undefined => "undefined"
    case Null => "object"
    case Bool(_) => "boolean"
    case Number(_) => "number"
    case Str(_) => "string"
    case Array(_) => "object"
    case Object(_) => "object"
  }

  /** `Array.isArray(v)` */
  predicate IsArray(v: Json) {
    v.Array?
  }

  /** `null` and `undefined`: reading a property of either throws a TypeError. */
  predicate Nullish(v: Json) {
    v.Undefined? || v.Null?
  }

  /**
    `v.key` for a value that is neither null nor undefined. Only an object's own
    properties are visible: the property names the handlers read are not
    defined on any built-in prototype, so on strings, numbers, booleans and
    arrays they read as `undefined`.
   */
  function Prop(v: Json, key: string): Json
    requires !Nullish(v)
  {
    if v.Object? && key in v.fields then v.fields[key] else Undefined
  }
}
