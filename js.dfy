/**
  JavaScript values as the two scripts see them: whatever `JSON.parse` can
  produce, plus `undefined` for a property that is not there.  The scripts
  lean on JavaScript's truthiness and on `a || b || c`, both modelled here.
 */
module Js {

  datatype Value =
    | Undefined
    | Null
    | Bool(b: bool)
    | Number(n: real)
    | Str(s: string)
    | Array(elems: seq<Value>)
    | Object(fields: map<string, Value>)

  /** `null` and `undefined`: the values whose property access throws a TypeError. */
  predicate Nullish(v: Value) {
    v.Undefined? || v.Null?
  }

  /** JavaScript truthiness.  JSON has no NaN, so a number is falsy exactly when it is zero. */
  predicate Truthy(v: Value) {
    match v
    case Undefined => false
    case Null => false
    case Bool(b) => b
    case Number(n) => n != 0.0
    case Str(s) => s != ""
    case Array(_) => true
    case Object(_) => true
  }

  /**
    Property access `v.key` on a value that is neither null nor undefined.  Own
    properties of objects are found; properties that built-in prototypes give
    strings and arrays are not modelled and read as `undefined`.
   */
  function Prop(v: Value, key: string): Value
    requires !Nullish(v)
  {
    match v
    case Object(m) => if key in m then m[key] else Undefined
    case _ => Undefined
  }

  /**
    The value of `vs[0] || vs[1] || ... || last`: the first truthy candidate and,
    when there is none, the last operand whatever it is.
   */
  function FirstTruthy(vs: seq<Value>, last: Value): (r: Value)
    ensures forall i :: 0 <= i < |vs| && Truthy(vs[i]) && (forall j :: 0 <= j < i ==> !Truthy(vs[j])) ==> r == vs[i]
    ensures (forall i :: 0 <= i < |vs| ==> !Truthy(vs[i])) ==> r == last
    ensures Truthy(r) || r == last
  {
    if vs == [] then last
    else if Truthy(vs[0]) then vs[0]
    else FirstTruthy(vs[1..], last)
  }

  function Min(a: nat, b: nat): nat {
    if a < b then a else b
  }

  /** `s.slice(0, n)`. */
  function Take<T>(s: seq<T>, n: nat): (r: seq<T>)
    ensures |r| == Min(|s|, n)
    ensures r == s[..|r|]
  {
    if |s| <= n then s else s[..n]
  }
}
