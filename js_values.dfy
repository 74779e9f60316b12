/** The JavaScript values that reach the query encoder and the URL templates:
    their truthiness (ToBoolean) and their conversion to a string (String(v),
    which is also what a template literal `${v}` does). Numbers are restricted
    to integers. */
module JsValues {
  import opened Digits

  datatype Value =
    | Undefined
    | Null
    | Str(s: string)
    | Num(n: int)
    | Bool(b: bool)

  /** The falsy values of ECMA-262 ToBoolean that an integer-only model can hold
      (NaN and -0 are not representable here). */
  const Falsy: set<Value> := {Undefined, Null, Str(""), Num(0), Bool(false)}

  /** ToBoolean: what an `if (v)` test or the left operand of `&&` decides. */
  predicate Truthy(v: Value)
    ensures Truthy(v) <==> v !in Falsy
  {
    match v
    case Undefined => false
    case Null => false
    case Str(s) => s != ""
    case Num(n) => n != 0
    case Bool(b) => b
  }

  /** The decimal digits of a natural number, most significant first, with no
      leading zero. */
  function NatString(m: nat): (r: string)
    ensures |r| >= 1
    ensures forall i :: 0 <= i < |r| ==> '0' <= r[i] <= '9'
    ensures r[0] == '0' <==> m == 0
    ensures m == 0 ==> r == "0"
    decreases m
  {
    if m < 10 then [DigitChar(m)] else NatString(m / 10) + [DigitChar(m % 10)]
  }

  /** Number::toString for an integer: a minus sign, then the digits. */
  function IntString(n: int): (r: string)
    ensures |r| >= 1
    ensures r[0] == '-' <==> n < 0
  {
    if n < 0 then "-" + NatString(-n) else NatString(n)
  }

  /** String(v). */
  function ToString(v: Value): string
  {
    match v
    case Undefined => "undefined"
    case Null => "null"
    case Str(s) => s
    case Num(n) => IntString(n)
    case Bool(b) => if b then "true" else "false"
  }
}
