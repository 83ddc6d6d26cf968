/** The JavaScript values the script reads out of a parsed response body, and
    the two JavaScript rules it leans on: truthiness and `||`. */
module JsValue {

  /** A value produced by JSON.parse, plus `Undefined` for a property that is
      not there. Numbers are kept as reals: rounding to doubles is not
      modelled. Objects are maps because JSON.parse keeps one value per key. */
  datatype Value =
    | Undefined
    | Null
    | Bool(b: bool)
    | Num(n: real)
    | Str(s: string)
    | Arr(items: seq<Value>)
    | Obj(fields: map<string, Value>)
  {
    /** Reading a property of these throws a TypeError. */
    predicate Nullish() { Undefined? || Null? }

    /** Arrays and objects are compared by reference, not by contents. */
    predicate IsReference() { Arr? || Obj? }
  }

  /** JavaScript's ToBoolean: `undefined`, `null`, `false`, `0` and `''` are
      falsy; every array and every object is truthy, even an empty one. */
  predicate Truthy(v: Value) {
    match v
    case Undefined => false
    case Null => false
    case Bool(b) => b
    case Num(n) => n != 0.0
    case Str(s) => s != ""
    case Arr(_) => true
    case Obj(_) => true
  }

  /** Property access `v.key`. Only objects own the keys the script reads; a
      string, number, boolean or array answers `undefined`. */
  function Get(v: Value, key: string): Value
    requires !v.Nullish()
  {
    if v.Obj? && key in v.fields then v.fields[key] else Undefined
  }

  /** JavaScript's `a || b`. */
  function Or(a: Value, b: Value): Value {
    if Truthy(a) then a else b
  }

  /** `alts[0] || alts[1] || ... || null`: the first truthy alternative, or
      `null` when every alternative is falsy. */
  function FirstTruthy(alts: seq<Value>): (r: Value)
    ensures r == Null || Truthy(r)
    ensures Truthy(r) <==> exists i :: 0 <= i < |alts| && Truthy(alts[i])
    ensures forall i :: 0 <= i < |alts| && Truthy(alts[i]) && (forall j :: 0 <= j < i ==> !Truthy(alts[j])) ==> r == alts[i]
  {
    if |alts| == 0 then Null else Or(alts[0], FirstTruthy(alts[1..]))
  }

  /** Set membership in a JavaScript `Set` uses SameValueZero: primitives are
      equal when their values are, arrays and objects only when they are the
      same object. The codes compared here come from distinct places of one
      parse tree, so two arrays or objects among them are never equal. */
  predicate SameValueZero(a: Value, b: Value) {
    a == b && !a.IsReference()
  }

}
