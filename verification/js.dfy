/** The small slice of JavaScript value semantics that the price-data code
    relies on: truthiness, `parseFloat`, `|| 0` and template-literal text.

    Finite numbers are integers in this model; `parseFloat` applied to a
    string is an opaque parameter `parse`, because the code never inspects
    a parsed value beyond asking whether it is truthy. */
module Js {

  datatype Option<+T> = None | Some(value: T)

  /** A JavaScript number: NaN or a finite (integral) value. */
  datatype Number = NaN | Finite(n: int)

  /** A primitive JavaScript value, as found in a field of a parsed JSON record.
      `Undefined` also stands for a field that is missing. */
  datatype Scalar = Undefined | Null | Bool(b: bool) | Num(num: Number) | Str(s: string)

  /** JavaScript truthiness: undefined, null, false, 0, NaN and "" are falsy. */
  predicate Truthy(v: Scalar) {
    match v
    case Undefined => false
    case Null => false
    case Bool(b) => b
    case Num(x) => x.Finite? && x.n != 0
    case Str(s) => s != ""
  }

  /** `parseFloat(v)`: a string goes through `parse`; a number comes back as
      itself; undefined, null and booleans print as words that do not parse. */
  function ParseFloat(parse: string -> Number, v: Scalar): Number {
    match v
    case Str(s) => parse(s)
    case Num(x) => x
    case _ => NaN
  }

  /** `x || 0` on a number: NaN and 0 become 0, any other value is kept. */
  function OrZero(x: Number): (r: int)
    ensures x.Finite? ==> r == x.n
    ensures x.NaN? ==> r == 0
  {
    if Truthy(Num(x)) then x.n else 0
  }

  /** The text a value takes inside a template literal (`${v}`). */
  function Text(v: Scalar): string {
    match v
    case Undefined => "undefined"
    case Null => "null"
    case Bool(b) => if b then "true" else "false"
    case Num(NaN) => "NaN"
    case Num(Finite(n)) => IntToDecimal(n)
    case Str(s) => s
  }

  predicate IsDigit(c: char) {
    '0' <= c <= '9'
  }

  predicate AllDigits(s: string) {
    forall i :: 0 <= i < |s| ==> IsDigit(s[i])
  }

  function DigitChar(d: nat): (c: char)
    requires d < 10
    ensures IsDigit(c)
  {
    ['0', '1', '2', '3', '4', '5', '6', '7', '8', '9'][d]
  }

  function DigitValue(c: char): (d: nat)
    requires IsDigit(c)
    ensures d < 10
  {
    (c as int) - ('0' as int)
  }

  /** Decimal rendering of a natural number, without leading zeros. */
  function NatToDecimal(n: nat): (s: string)
    ensures |s| >= 1
    ensures AllDigits(s)
    decreases n
  {
    if n < 10 then [DigitChar(n)] else NatToDecimal(n / 10) + [DigitChar(n % 10)]
  }

  /** JavaScript's rendering of an integral number. */
  function IntToDecimal(n: int): string {
    if n < 0 then "-" + NatToDecimal(-n) else NatToDecimal(n)
  }

  /** The value of a string of decimal digits (leading zeros allowed). */
  function DecimalValue(s: string): nat
    requires AllDigits(s)
  {
    if s == [] then 0 else 10 * DecimalValue(s[..|s| - 1]) + DigitValue(s[|s| - 1])
  }

  lemma DigitRoundTrip(d: nat)
    requires d < 10
    ensures DigitValue(DigitChar(d)) == d
  {
  }

  /** Reading back the rendering of a natural number gives the number. */
  lemma {:induction false} DecimalRoundTrip(n: nat)
    ensures DecimalValue(NatToDecimal(n)) == n
    decreases n
  {
    var s := NatToDecimal(n);
    if n < 10 {
      DigitRoundTrip(n);
    } else {
      var p := NatToDecimal(n / 10);
      assert s == p + [DigitChar(n % 10)];
      assert s[..|s| - 1] == p;
      DecimalRoundTrip(n / 10);
      DigitRoundTrip(n % 10);
    }
  }

  /** A year from 1000 to 9999 is rendered with exactly four digits. */
  lemma FourDigitYear(n: nat)
    requires 1000 <= n <= 9999
    ensures |NatToDecimal(n)| == 4
  {
    var q1 := n / 10;
    assert 100 <= q1 < 1000;
    var q2 := q1 / 10;
    assert 10 <= q2 < 100;
    var q3 := q2 / 10;
    assert 1 <= q3 < 10;
    assert |NatToDecimal(q3)| == 1;
    assert |NatToDecimal(q2)| == 2;
    assert |NatToDecimal(q1)| == 3;
  }

  /** Two digit strings of the same length with the same value are equal. */
  lemma {:induction false} DecimalValueInjective(a: string, b: string)
    requires AllDigits(a) && AllDigits(b) && |a| == |b|
    requires DecimalValue(a) == DecimalValue(b)
    ensures a == b
    decreases |a|
  {
    if a != [] {
      var a', b' := a[..|a| - 1], b[..|b| - 1];
      var x, y := DigitValue(a[|a| - 1]), DigitValue(b[|b| - 1]);
      assert 10 * DecimalValue(a') + x == 10 * DecimalValue(b') + y;
      assert x == y && DecimalValue(a') == DecimalValue(b');
      DecimalValueInjective(a', b');
      assert a[|a| - 1] == b[|b| - 1];
      assert a == a' + [a[|a| - 1]] && b == b' + [b[|b| - 1]];
    }
  }
}
