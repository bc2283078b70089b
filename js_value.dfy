/** The JavaScript values that `JSON.parse` and `YAML.safeLoad` hand to the
    import page, and the few JavaScript semantics the page relies on: property
    reads, truthiness (`||`), and `typeof v === 'object'`. */
module JsValue {

  /** A parsed value. Numbers are JavaScript numbers other than NaN. */
  datatype Value =
    | Undefined
    | Null
    | Bool(b: bool)
    | Num(n: real)
    | Str(s: string)
    | Arr(items: seq<Value>)
    | Obj(fields: map<string, Value>)

  /** What a failed JavaScript operation throws. */
  datatype JsError =
    | TypeError            // a property read on null/undefined, or a call of a missing method
    | SyntaxError          // the parser rejected the text
    | Error(message: string)  // `throw new Error(message)`

  /** The outcome of an expression that may throw. */
  datatype Result<T> = Ok(value: T) | Throw(error: JsError)

  /** `null` and `undefined`: the values whose properties cannot be read. */
  predicate Nullish(v: Value)
  {
    v.Null? || v.Undefined?
  }

  /** ECMAScript ToBoolean: the falsy values are undefined, null, false, 0 and
      "". Every array and every object is truthy, even an empty one. */
  predicate Truthy(v: Value)
    ensures !Truthy(v) <==> v == Undefined || v == Null || v == Bool(false) || v == Num(0.0) || v == Str("")
  {
    match v
    case Undefined => false
    case Null => false
    case Bool(b) => b
    case Num(n) => n != 0.0
    case Str(s) => s != ""
    case Arr(_) => true
    case Obj(_) => true
  }

  /** `v || null`: the value itself when truthy, `null` otherwise. */
  function OrNull(v: Value): (r: Value)
    ensures Truthy(v) ==> r == v
    ensures !Truthy(v) ==> r == Null
  {
    if Truthy(v) then v else Null
  }

  /** `typeof v === 'object'`, which holds for arrays, objects and null. */
  predicate TypeofObject(v: Value)
    ensures !TypeofObject(v) <==> v.Undefined? || v.Bool? || v.Num? || v.Str?
  {
    v.Null? || v.Arr? || v.Obj?
  }

  /** `v.key` on a value that is not null or undefined. An own property of an
      object is found; every other read gives `undefined` (the keys the page
      reads are not names of built-in prototype properties). */
  function Prop(v: Value, key: string): (r: Value)
    requires !Nullish(v)
    ensures v.Obj? && key in v.fields ==> r == v.fields[key]
    ensures !(v.Obj? && key in v.fields) ==> r == Undefined
  {
    if v.Obj? && key in v.fields then v.fields[key] else Undefined
  }

  /** `v.key` on any value: reading a property of null or undefined throws. */
  function Get(v: Value, key: string): (r: Result<Value>)
    ensures r.Throw? <==> Nullish(v)
    ensures r.Throw? ==> r.error == TypeError
    ensures r.Ok? ==> r.value == Prop(v, key)
  {
    if Nullish(v) then Throw(TypeError) else Ok(Prop(v, key))
  }
}
