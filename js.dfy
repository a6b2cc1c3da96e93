/**
 * The JavaScript semantics the grade tracker relies on: numbers that may be
 * NaN or infinite, `Number(text)`, `String(n)` for integers, `Math.round`,
 * truthiness, and the loosely typed values that form fields hold.
 */
module Js {

  /** A JavaScript number. Finite values are exact reals: the rounding of
      IEEE-754 doubles is not modelled. */
  datatype JsNumber = Finite(value: real) | NaN | PosInfinity | NegInfinity

  /** `x >= t`; every comparison with NaN is false. */
  predicate AtLeast(x: JsNumber, t: real)
  {
    match x
    case Finite(v) => v >= t
    case PosInfinity => true
    case _ => false
  }

  /** `x <= t`. */
  predicate AtMost(x: JsNumber, t: real)
  {
    match x
    case Finite(v) => v <= t
    case NegInfinity => true
    case _ => false
  }

  /** `x < t`. */
  predicate Below(x: JsNumber, t: real)
  {
    match x
    case Finite(v) => v < t
    case NegInfinity => true
    case _ => false
  }

  /** `x > t`. */
  predicate Above(x: JsNumber, t: real)
  {
    match x
    case Finite(v) => v > t
    case PosInfinity => true
    case _ => false
  }

  /** `(a / b) * 100` for finite `a` and `b`: a division by zero gives an
      infinity of the sign of `a`, or NaN for `0 / 0` (signed zeros are not
      modelled). */
  function Percentage(a: real, b: real): JsNumber
  {
    if b != 0.0 then Finite(a / b * 100.0)
    else if a > 0.0 then PosInfinity
    else if a < 0.0 then NegInfinity
    else NaN
  }

  /** `-x`. */
  function Negated(x: JsNumber): JsNumber
  {
    match x
    case Finite(v) => Finite(-v)
    case NaN => NaN
    case PosInfinity => NegInfinity
    case NegInfinity => PosInfinity
  }

  predicate IsDigit(c: char)
  {
    '0' <= c <= '9'
  }

  predicate AllDigits(s: string)
  {
    forall i :: 0 <= i < |s| ==> IsDigit(s[i])
  }

  function DigitValue(c: char): nat
    requires IsDigit(c)
  {
    c as int - '0' as int
  }

  function DigitChar(d: nat): (c: char)
    requires d < 10
    ensures IsDigit(c) && DigitValue(c) == d
  {
    ('0' as int + d) as char
  }

  /** The decimal digits of `n` without leading zeros. */
  function NaturalText(n: nat): (s: string)
    ensures 0 < |s| && AllDigits(s)
    ensures n < 10 <==> |s| == 1
    decreases n
  {
    if n < 10 then [DigitChar(n)] else NaturalText(n / 10) + [DigitChar(n % 10)]
  }

  /** `String(i)` for an integer `i`. */
  function IntegerText(i: int): (s: string)
    ensures 0 < |s|
  {
    if i < 0 then "-" + NaturalText(-i) else NaturalText(i)
  }

  /** The value of a string of decimal digits. */
  function DigitsValue(s: string): nat
    requires AllDigits(s)
  {
    if s == [] then 0 else DigitsValue(s[..|s| - 1]) * 10 + DigitValue(s[|s| - 1])
  }

  function Power10(k: nat): (p: nat)
    ensures 1 <= p
  {
    if k == 0 then 1 else 10 * Power10(k - 1)
  }

  /** The number of leading decimal digits of `s`. */
  function DigitPrefix(s: string): (n: nat)
    ensures n <= |s| && AllDigits(s[..n])
    ensures n < |s| ==> !IsDigit(s[n])
  {
    if s == [] || !IsDigit(s[0]) then 0
    else
      var m := DigitPrefix(s[1..]);
      assert s[..1 + m] == [s[0]] + s[1..][..m];
      1 + m
  }

  /** `Number(s)` for an unsigned decimal literal: digits, optionally a
      point and more digits, at least one digit in all. Anything else is NaN. */
  function UnsignedNumber(s: string): JsNumber
  {
    var n := DigitPrefix(s);
    var whole := DigitsValue(s[..n]) as real;
    if n == |s| then
      if n == 0 then NaN else Finite(whole)
    else if s[n] != '.' then NaN
    else
      var fraction := s[n + 1..];
      if !AllDigits(fraction) || (n == 0 && fraction == []) then NaN
      else Finite(whole + DigitsValue(fraction) as real / Power10(|fraction|) as real)
  }

  /** `Number(s)`: the empty string reads as 0; an optional sign, then a
      decimal literal or `Infinity`; anything else is NaN. Surrounding white
      space, exponents and `0x`/`0o`/`0b` literals are not modelled. */
  function Number(s: string): JsNumber
  {
    if s == "" then Finite(0.0)
    else if s == "Infinity" || s == "+Infinity" then PosInfinity
    else if s == "-Infinity" then NegInfinity
    else if s[0] == '-' then Negated(UnsignedNumber(s[1..]))
    else if s[0] == '+' then UnsignedNumber(s[1..])
    else UnsignedNumber(s)
  }

  lemma {:induction false} DigitsValueOfNaturalText(n: nat)
    ensures DigitsValue(NaturalText(n)) == n
    decreases n
  {
    if n >= 10 {
      var s := NaturalText(n);
      assert s[..|s| - 1] == NaturalText(n / 10);
      DigitsValueOfNaturalText(n / 10);
    }
  }

  lemma UnsignedNumberOfNaturalText(n: nat)
    ensures UnsignedNumber(NaturalText(n)) == Finite(n as real)
  {
    var s := NaturalText(n);
    assert DigitPrefix(s) == |s|;
    assert s[..|s|] == s;
    DigitsValueOfNaturalText(n);
  }

  /** Printing an integer and reading the text back with `Number` gives the
      integer again. */
  lemma NumberOfIntegerText(i: int)
    ensures Number(IntegerText(i)) == Finite(i as real)
  {
    var s := IntegerText(i);
    if i < 0 {
      var digits := NaturalText(-i);
      assert IsDigit(s[1]) && !IsDigit("-Infinity"[1]);
      assert s[1..] == digits;
      UnsignedNumberOfNaturalText(-i);
    } else {
      assert IsDigit(s[0]) && !IsDigit("Infinity"[0]) && !IsDigit("+Infinity"[0]);
      assert !IsDigit('-') && !IsDigit('+');
      UnsignedNumberOfNaturalText(i);
    }
  }

  /** `Math.round(x)`: the nearest integer, a half rounded up. */
  function Round(x: real): (r: int)
    ensures r as real - 0.5 <= x < r as real + 0.5
  {
    (x + 0.5).Floor
  }

  lemma RoundOfInteger(k: int)
    ensures Round(k as real) == k
  {
    var r := Round(k as real);
    assert r - 1 < k < r + 1;
  }

  /** The value a form field holds: the text typed, a number, or a flag. */
  datatype JsValue = Str(text: string) | Num(number: JsNumber) | Bool(flag: bool)

  /** `Number(v)`. */
  function ToNumber(v: JsValue): JsNumber
  {
    match v
    case Str(s) => Number(s)
    case Num(n) => n
    case Bool(b) => Finite(if b then 1.0 else 0.0)
  }

  /** Whether `v` is truthy. */
  predicate Truthy(v: JsValue)
  {
    match v
    case Str(s) => s != ""
    case Num(n) => n != NaN && n != Finite(0.0)
    case Bool(b) => b
  }

  /** `x || fallback` for a finite number `x`. */
  function NumberOr(x: real, fallback: real): real
  {
    if x != 0.0 then x else fallback
  }
}
