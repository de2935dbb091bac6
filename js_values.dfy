/**
 * JavaScript cell values and the conversions the dashboard applies to them:
 * `Number(x)`, `safeNum`, `String(x)` and `String(x ?? "")`.
 *
 * The host functions whose exact behaviour is not modelled (number parsing and
 * printing, lower-casing, locale collation) are gathered in `Runtime` and
 * passed in as values.
 */
module JsValues {

  /** A JavaScript number after conversion: a finite value or one of the three non-finite ones. */
  datatype JsNumber = Finite(value: real) | NaN | PositiveInfinity | NegativeInfinity

  /** A cell value: text (delimited-text input), a finite number, `null`, or `undefined` (a missing key). */
  datatype Value = Str(s: string) | Num(n: real) | Null | Undefined

  /**
   * The host primitives: `Number(s)` on a string, `String(n)` on a number,
   * `s.toLowerCase()`, and the sign-carrying result of
   * `a.localeCompare(b, "es", {sensitivity: "base"})`.
   */
  datatype Runtime = Runtime(
    parseNumber: string -> JsNumber,
    numberToString: real -> string,
    toLowerCase: string -> string,
    localeCompare: (string, string) -> int)

  /** `Number(v)`. */
  function ToNumber(v: Value, rt: Runtime): JsNumber {
    match v
    case Str(s) => rt.parseNumber(s)
    case Num(n) => Finite(n)
    case Null => Finite(0.0)
    case Undefined => NaN
  }

  /** `safeNum(v)` (app.js:125-128): the number `v` converts to when that number is finite, 0 otherwise. */
  function SafeNum(v: Value, rt: Runtime): (x: real)
    ensures ToNumber(v, rt).Finite? ==> x == ToNumber(v, rt).value
    ensures !ToNumber(v, rt).Finite? ==> x == 0.0
  {
    match ToNumber(v, rt)
    case Finite(n) => n
    case _ => 0.0
  }

  /** A number that `safeNum` already produced is returned unchanged, so coercing twice is coercing once. */
  lemma SafeNumIdempotent(v: Value, rt: Runtime)
    ensures SafeNum(Num(SafeNum(v, rt)), rt) == SafeNum(v, rt)
  {
  }

  /** `String(v)`. */
  function ToStr(v: Value, rt: Runtime): string {
    match v
    case Str(s) => s
    case Num(n) => rt.numberToString(n)
    case Null => "null"
    case Undefined => "undefined"
  }

  /** `String(v ?? "")`: like `String(v)`, except that `null` and `undefined` give the empty string. */
  function NullishToStr(v: Value, rt: Runtime): (s: string)
    ensures (v.Null? || v.Undefined?) ==> s == ""
    ensures v.Str? ==> s == v.s
  {
    if v.Null? || v.Undefined? then "" else ToStr(v, rt)
  }
}
