/**
 * The JavaScript values that `JSON.parse` and `jwt.verify` hand back, and the three
 * pieces of JavaScript semantics the handlers rely on: truthiness, property access
 * and the numeric `<` comparison.
 */
module Json {
  import opened Wrappers

  /** A JavaScript value as produced by JSON parsing, plus `undefined` for a missing property. */
  datatype Value =
    | Undefined
    | Null
    | Bool(b: bool)
    | Num(n: real)
    | Str(s: string)
    | Arr(elems: seq<Value>)
    | Obj(fields: map<string, Value>)

  /** JavaScript truthiness: the falsy values among these are exactly `undefined`, `null`, `false`, 0 and `""`. */
  predicate Truthy(v: Value)
    ensures Truthy(v) <==> v !in {Undefined, Null, Bool(false), Num(0.0), Str("")}
  {
    match v
    case Undefined => false
    case Null => false
    case Bool(b) => b
    case Num(n) => n != 0.0
    case Str(s) => s != ""
    case Arr(_) => true
    case Obj(_) => true
  }

  /** Property access `v.key`: only an object with that key yields something other than `undefined`. */
  function Property(v: Value, key: string): (r: Value)
    ensures r != Undefined ==> v.Obj? && key in v.fields && v.fields[key] == r
    ensures v.Obj? && key in v.fields ==> r == v.fields[key]
  {
    match v
    case Obj(fields) => if key in fields then fields[key] else Undefined
    case _ => Undefined
  }

  /** The outcome of converting a value to a number: a number, NaN, or a thrown `TypeError`. */
  datatype Numeric = Number(n: real) | NaN | TypeError

  /**
   * JavaScript's `ToNumber` (through `ToPrimitive` with hint number) for the values it converts
   * without parsing text. A parsed object has no callable own properties, so `valueOf` gives the
   * object back and `toString` decides: an own `toString` key hides the inherited method and the
   * conversion throws; otherwise the text `[object Object]` converts to NaN. Strings and arrays
   * are mapped to NaN: their text conversion is not modelled.
   */
  function ToNumber(v: Value): (r: Numeric)
    ensures r.TypeError? <==> v.Obj? && "toString" in v.fields
    ensures v.Num? ==> r == Number(v.n)
    ensures v.Bool? ==> r == Number(if v.b then 1.0 else 0.0)
    ensures v.Undefined? || (v.Obj? && "toString" !in v.fields) ==> r == NaN
  {
    match v
    case Num(n) => Number(n)
    case Bool(b) => Number(if b then 1.0 else 0.0)
    case Null => Number(0.0)
    case Obj(fields) => if "toString" in fields then TypeError else NaN
    case _ => NaN
  }

  /** `v < x` with `x` a number: `None` where the conversion of `v` throws, false where it gives NaN. */
  function LessThan(v: Value, x: real): (r: Option<bool>)
    ensures r.None? <==> v.Obj? && "toString" in v.fields
    ensures r == Some(true) <==> ToNumber(v).Number? && ToNumber(v).n < x
  {
    match ToNumber(v)
    case TypeError => None
    case NaN => Some(false)
    case Number(n) => Some(n < x)
  }
}
