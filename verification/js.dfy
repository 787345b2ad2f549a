/** The part of JavaScript's value semantics the runtime type guards rely on:
    the `typeof` operator, the `in` operator, property reads and
    `Array.isArray`, over a JSON-like value. */
module Js {

  /** An untyped value as it reaches a type guard. Numbers are modelled as
      integers; functions, symbols and prototype chains are not modelled. */
  datatype Value =
    | Undefined
    | Null
    | Bool(b: bool)
    | Num(n: int)
    | Str(s: string)
    | Arr(elems: seq<Value>)
    | Obj(fields: map<string, Value>)

  /** What `typeof v` evaluates to. Note that `null` and arrays are "object". */
  function TypeOf(v: Value): string {
    match v
    case Undefined => "undefined"
    case Null => "object"
    case Bool(_) => "boolean"
    case Num(_) => "number"
    case Str(_) => "string"
    case Arr(_) => "object"
    case Obj(_) => "object"
  }

  /** The values on which `k in v` and `v[k]` do not throw. */
  predicate IsReference(v: Value) {
    v.Arr? || v.Obj?
  }

  predicate IsDigit(c: char) {
    '0' <= c <= '9'
  }

  predicate AllDigits(k: string) {
    forall i :: 0 <= i < |k| ==> IsDigit(k[i])
  }

  /** The number a string of decimal digits denotes. */
  function DigitsValue(k: string): nat
    requires AllDigits(k)
  {
    if k == [] then 0
    else 10 * DigitsValue(k[..|k| - 1]) + (k[|k| - 1] - '0') as nat
  }

  /** `k` is the canonical decimal name of an index of an array of length `n`
      (no sign, no leading zero unless it is "0"). */
  predicate IsIndexKey(k: string, n: nat) {
    && |k| > 0
    && AllDigits(k)
    && (k[0] == '0' ==> |k| == 1)
    && DigitsValue(k) < n
  }

  /** `k in v` for an object or an array: an array's own keys are its indices
      and "length". */
  predicate HasProperty(v: Value, k: string)
    requires IsReference(v)
  {
    if v.Obj? then k in v.fields
    else k == "length" || IsIndexKey(k, |v.elems|)
  }

  /** The property read `v[k]`; a missing key reads as `undefined`. */
  function Get(v: Value, k: string): (r: Value)
    requires IsReference(v)
    ensures !HasProperty(v, k) ==> r == Undefined
  {
    if v.Obj? then (if k in v.fields then v.fields[k] else Undefined)
    else if k == "length" then Num(|v.elems|)
    else if IsIndexKey(k, |v.elems|) then v.elems[DigitsValue(k)]
    else Undefined
  }

  /** `Array.isArray(v)`. */
  predicate IsArray(v: Value) {
    v.Arr?
  }

  /** A key that does not start with a digit and is not "length" is never a
      property of an array, whatever its length. */
  lemma NamedKeyNotOnArray(elems: seq<Value>, k: string)
    requires |k| > 0 && !IsDigit(k[0]) && k != "length"
    ensures !HasProperty(Arr(elems), k)
    ensures Get(Arr(elems), k) == Undefined
  {
  }
}
