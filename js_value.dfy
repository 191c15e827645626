/**
 * JavaScript primitive values as the scraper's records and configuration
 * objects carry them, with the coercions the source applies to them.
 * Numbers are integers here; NaN is a value of its own.
 */
module JsValue {
  import opened Wrappers
  import opened JsString

  datatype Value = Undefined | Null | Bool(b: bool) | Num(n: int) | NaN | Str(s: string)

  /** `v == null` (loose equality): true of null and undefined only. */
  predicate IsNullish(v: Value) {
    v.Undefined? || v.Null?
  }

  /** ToBoolean: what `if (v)`, `!v` and `a || b` test. */
  predicate Truthy(v: Value) {
    match v
    case Undefined => false
    case Null => false
    case Bool(b) => b
    case Num(n) => n != 0
    case NaN => false
    case Str(s) => s != []
  }

  /** `typeof v === 'number'` */
  predicate IsNumber(v: Value) {
    v.Num? || v.NaN?
  }

  /** `a || b` */
  function Or(a: Value, b: Value): (r: Value)
    ensures Truthy(a) ==> r == a
    ensures !Truthy(a) ==> r == b
  {
    if Truthy(a) then a else b
  }

  function DigitChar(d: nat): (c: char)
    requires d < 10
    ensures IsDigit(c)
  {
    ('0' as int + d) as char
  }

  /** The decimal numeral of `n`, without leading zeros. */
  function NatToDecimal(n: nat): (r: string)
    ensures r != [] && AllDigits(r)
    ensures DigitsValue(r) == n
    decreases n
  {
    if n < 10 then [DigitChar(n)]
    else
      var r := NatToDecimal(n / 10) + [DigitChar(n % 10)];
      assert r[..|r| - 1] == NatToDecimal(n / 10);
      r
  }

  /** `String(v)`: the empty string comes only from the empty string. */
  function ToJsString(v: Value): (r: string)
    ensures r == [] <==> v == Str([])
  {
    match v
    case Undefined => "undefined"
    case Null => "null"
    case Bool(b) => if b then "true" else "false"
    case Num(n) => if n < 0 then "-" + NatToDecimal(-n) else NatToDecimal(n)
    case NaN => "NaN"
    case Str(s) => s
  }

  /**
   * `Number(s)` for the string forms the model reads: white space around an
   * optionally signed decimal integer; the empty string is 0; None is NaN.
   */
  function StringToNumber(s: string): (r: Option<int>)
    ensures AllDigits(Trim(s)) && Trim(s) != [] ==> r == Some(DigitsValue(Trim(s)))
  {
    var t := Trim(s);
    if t == [] then Some(0)
    else if t[0] == '-' && |t| > 1 && AllDigits(t[1..]) then Some(0 - DigitsValue(t[1..]) as int)
    else if t[0] == '+' && |t| > 1 && AllDigits(t[1..]) then Some(DigitsValue(t[1..]))
    else if AllDigits(t) then Some(DigitsValue(t))
    else None
  }

  /** ToNumber, as the relational operators apply it; None is NaN. */
  function ToNumber(v: Value): (r: Option<int>)
    ensures v.Num? ==> r == Some(v.n)
    ensures v.Undefined? || v.NaN? ==> r == None
  {
    match v
    case Undefined => None
    case Null => Some(0)
    case Bool(b) => Some(if b then 1 else 0)
    case Num(n) => Some(n)
    case NaN => None
    case Str(s) => StringToNumber(s)
  }

  /** `v <= k` for a number `k`: false whenever `v` converts to NaN. */
  predicate AtMost(v: Value, k: int) {
    var x := ToNumber(v); x.Some? && x.value <= k
  }

  /** `v > k` for a number `k`: false whenever `v` converts to NaN. */
  predicate Above(v: Value, k: int) {
    var x := ToNumber(v); x.Some? && x.value > k
  }
}
