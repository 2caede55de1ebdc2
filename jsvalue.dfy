/** The values `JSON.parse` produces, plus `undefined`, with JavaScript's
    truthiness, `||` and property access. */
module JsValue {
  import opened Common

  datatype Value =
    | Undefined
    | Null
    | Bool(b: bool)
    | Num(n: real)
    | Str(s: string)
    | Arr(items: seq<Value>)
    | Obj(fields: map<string, Value>)

  /** False exactly for `undefined`, `null`, `false`, `0` and `""`. */
  predicate Truthy(v: Value) {
    match v
    case Undefined => false
    case Null => false
    case Bool(b) => b
    case Num(n) => n != 0.0
    case Str(s) => s != ""
    case Arr(_) => true
    case Obj(_) => true
  }

  /** `a || b`. */
  function Or(a: Value, b: Value): (r: Value)
    ensures Truthy(a) ==> r == a
    ensures !Truthy(a) ==> r == b
  {
    if Truthy(a) then a else b
  }

  /** The message of the `TypeError` a property read on null or undefined
      throws (the wording of V8-based browsers). */
  function TypeErrorText(v: Value, key: string): string {
    "Cannot read properties of " + (if v.Null? then "null" else "undefined") + " (reading '" + key + "')"
  }

  predicate IsNullish(v: Value) {
    v.Null? || v.Undefined?
  }

  /** `v[key]` on a value that is not null or undefined. The keys this
      front end reads are not inherited by strings, arrays or objects,
      so anything but an object yields `undefined`. */
  function Prop(v: Value, key: string): (r: Value)
    requires !IsNullish(v)
  {
    if v.Obj? && key in v.fields then v.fields[key] else Undefined
  }

  /** `v[key]` on any value: reading a property of null or undefined throws. */
  function Get(v: Value, key: string): (r: Result<Value, string>)
    ensures r.Err? <==> IsNullish(v)
    ensures v.Obj? && key in v.fields ==> r == Ok(v.fields[key])
    ensures !IsNullish(v) && !(v.Obj? && key in v.fields) ==> r == Ok(Undefined)
  {
    if IsNullish(v) then Err(TypeErrorText(v, key)) else Ok(Prop(v, key))
  }
}
