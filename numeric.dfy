/** Java's fixed-width numbers as they appear in the endpoints: narrowing
    casts of `long` to `int` and `short` (two's-complement wrap-around), the
    `(long)` cast of a `double`, and `Double.parseDouble`. A `double` is an
    exact real number here; IEEE rounding is not modelled. */
module Numeric {
  import opened Wrappers
  import opened Text

  // ---------------------------------------------------------------------------
  // Two's-complement wrap-around

  /** The low 64 bits of `n` read as a signed number: what `BigDecimal.longValue`
      and an overflowing `long` addition leave. */
  function WrapLong(n: int): (r: int)
    ensures LongMin <= r <= LongMax
    ensures (n - r) % 0x1_0000_0000_0000_0000 == 0
  {
    (n + 0x8000_0000_0000_0000) % 0x1_0000_0000_0000_0000 - 0x8000_0000_0000_0000
  }

  /** The low 32 bits of `n` read as a signed number: `(int)` of a `long`. */
  function WrapInt(n: int): (r: int)
    ensures IntMin <= r <= IntMax
    ensures (n - r) % 0x1_0000_0000 == 0
  {
    (n + 0x8000_0000) % 0x1_0000_0000 - 0x8000_0000
  }

  /** The low 16 bits of `n` read as a signed number: `(short)` of an `int`. */
  function WrapShort(n: int): (r: int)
    ensures -0x8000 <= r <= 0x7FFF
    ensures (n - r) % 0x1_0000 == 0
  {
    (n + 0x8000) % 0x1_0000 - 0x8000
  }

  /** A number already in range is left alone by each wrap. */
  lemma WrapInRange(n: int)
    ensures LongMin <= n <= LongMax ==> WrapLong(n) == n
    ensures IntMin <= n <= IntMax ==> WrapInt(n) == n
    ensures -0x8000 <= n <= 0x7FFF ==> WrapShort(n) == n
  {
  }

  /** `(short)` of a `short` plus one: 32767 + 1 becomes -32768, every other
      `short` just moves up by one. */
  lemma ShortIncrement(n: int)
    requires -0x8000 <= n <= 0x7FFF
    ensures n == 0x7FFF ==> WrapShort(n + 1) == -0x8000
    ensures n < 0x7FFF ==> WrapShort(n + 1) == n + 1
  {
  }

  // ---------------------------------------------------------------------------
  // double

  /** A Java `double`: a finite value, NaN or an infinity. */
  datatype Double = Finite(value: real) | NaN | Infinite(negative: bool)

  /** `d <= 0` on a `double`: false for NaN. */
  predicate AtMostZero(d: Double) {
    match d
    case Finite(v) => v <= 0.0
    case NaN => false
    case Infinite(negative) => negative
  }

  /** Truncation toward zero (`BigDecimal.longValue` before the wrap, and the
      finite case of a `(long)` cast). */
  function TruncToZero(x: real): (r: int)
    ensures r as real <= x < r as real + 1.0 || r as real - 1.0 < x <= r as real
    ensures x >= 0.0 ==> r >= 0
    ensures -1.0 < x < 1.0 ==> r == 0
  {
    if x >= 0.0 then x.Floor else -((-x).Floor)
  }

  /** `(long) d` (JLS 5.1.3): NaN gives 0, a value beyond the range of `long`
      gives the nearest end of the range, anything else is truncated toward
      zero. */
  function DoubleToLong(d: Double): (r: int)
    ensures LongMin <= r <= LongMax
    ensures d.Finite? && LongMin as real <= d.value <= LongMax as real ==> r == TruncToZero(d.value)
  {
    match d
    case NaN => 0
    case Infinite(negative) => if negative then LongMin else LongMax
    case Finite(v) =>
      var t := TruncToZero(v);
      if t < LongMin then LongMin else if t > LongMax then LongMax else t
  }

  /** A positive `double` casts to a non-negative `long`; it casts to zero
      exactly when it is below one. */
  lemma CastOfPositive(d: Double)
    requires !AtMostZero(d)
    ensures DoubleToLong(d) >= 0
    ensures DoubleToLong(d) == 0 <==> d.NaN? || (d.Finite? && d.value < 1.0)
  {
  }

  // ---------------------------------------------------------------------------
  // Double.parseDouble

  function Pow10(e: nat): (r: real)
    ensures r >= 1.0
  {
    if e == 0 then 1.0 else 10.0 * Pow10(e - 1)
  }

  /** `m * 10^e`. */
  function Scale(m: real, e: int): real {
    if e >= 0 then m * Pow10(e) else m / Pow10(-e)
  }

  /** The index of the first occurrence of one of `cs` in `s`, or `|s|`. */
  function IndexOfAny(s: string, cs: set<char>): (k: nat)
    ensures k <= |s|
    ensures forall i :: 0 <= i < k ==> s[i] !in cs
    ensures k < |s| ==> s[k] in cs
  {
    if s == [] then 0 else if s[0] in cs then 0 else 1 + IndexOfAny(s[1..], cs)
  }

  /** Digits with at most one decimal point and at least one digit:
      `12`, `12.`, `12.5`, `.5`. */
  function ParseMantissa(s: string): Option<real>
  {
    var d := IndexOfAny(s, {'.'});
    var whole := s[..d];
    var frac := if d < |s| then s[d + 1..] else [];
    if AllDigits(whole) && AllDigits(frac) && |whole| + |frac| > 0 then
      Some(DigitsValue(whole) as real + DigitsValue(frac) as real / Pow10(|frac|))
    else None
  }

  /** An optionally signed exponent of any size. */
  function ParseExponent(s: string): Option<int> {
    if s == [] then None
    else
      var digits := if s[0] == '-' || s[0] == '+' then s[1..] else s;
      if digits == [] || !AllDigits(digits) then None
      else if s[0] == '-' then Some(0 - DigitsValue(digits))
      else Some(DigitsValue(digits))
  }

  /** A mantissa with an optional `e`/`E` exponent. */
  function ParseUnsignedDecimal(s: string): Option<real>
  {
    var k := IndexOfAny(s, {'e', 'E'});
    var m :- ParseMantissa(s[..k]);
    if k == |s| then Some(m)
    else
      var e :- ParseExponent(s[k + 1..]);
      Some(Scale(m, e))
  }

  /** A literal without its sign: `NaN`, `Infinity`, or a decimal number with
      an optional `f`/`F`/`d`/`D` suffix. */
  function ParseUnsignedDouble(body: string): Option<Double> {
    if body == "NaN" then Some(NaN)
    else if body == "Infinity" then Some(Infinite(false))
    else
      var core := if body != [] && body[|body| - 1] in {'f', 'F', 'd', 'D'} then body[..|body| - 1] else body;
      var v :- ParseUnsignedDecimal(core);
      Some(Finite(v))
  }

  function Negate(d: Double): Double {
    match d
    case Finite(v) => Finite(-v)
    case NaN => NaN
    case Infinite(negative) => Infinite(!negative)
  }

  /** `Double.parseDouble(s)`: the string is trimmed, may carry a sign, and is
      then read by `ParseUnsignedDouble`; `None` is a NumberFormatException.
      Hexadecimal floating-point literals are not modelled. */
  function ParseDouble(s: string): Option<Double> {
    var t := Trim(s);
    if t == [] then None
    else if t[0] == '-' then
      var d :- ParseUnsignedDouble(t[1..]);
      Some(Negate(d))
    else if t[0] == '+' then ParseUnsignedDouble(t[1..])
    else ParseUnsignedDouble(t)
  }

  /** `Double.parseDouble(Long.toString(n)) == n`: a decimal integer is read
      back exactly. */
  lemma ParseDoubleOfDecimal(n: int)
    ensures ParseDouble(DecimalOf(n)) == Some(Finite(n as real))
  {
    DecimalTrimmed(n);
    if n < 0 {
      ParseDoubleOfNegative(-n);
    } else {
      ParseDoubleOfNatural(n);
    }
  }

  lemma ParseDoubleOfNatural(m: nat)
    requires Trim(NatDecimal(m)) == NatDecimal(m)
    ensures ParseDouble(NatDecimal(m)) == Some(Finite(m as real))
  {
    var s := NatDecimal(m);
    UnsignedDoubleOfDigits(m);
    assert IsDigit(s[0]);
  }

  lemma ParseDoubleOfNegative(m: nat)
    requires m > 0
    requires Trim("-" + NatDecimal(m)) == "-" + NatDecimal(m)
    ensures ParseDouble("-" + NatDecimal(m)) == Some(Finite(-(m as real)))
  {
    var s := "-" + NatDecimal(m);
    UnsignedDoubleOfDigits(m);
    assert s[1..] == NatDecimal(m);
    ParseSignedMinus(s, Finite(m as real));
  }

  /** A trimmed literal that starts with '-' reads as the negation of the rest. */
  lemma ParseSignedMinus(t: string, d: Double)
    requires Trim(t) == t && t != [] && t[0] == '-'
    requires ParseUnsignedDouble(t[1..]) == Some(d)
    ensures ParseDouble(t) == Some(Negate(d))
  {
  }

  lemma DecimalTrimmed(n: int)
    ensures Trim(DecimalOf(n)) == DecimalOf(n)
  {
    var s := DecimalOf(n);
    assert IsDigit(s[|s| - 1]);
    TrimOfTrimmed(s);
  }

  lemma UnsignedDoubleOfDigits(m: nat)
    ensures ParseUnsignedDouble(NatDecimal(m)) == Some(Finite(m as real))
  {
    var digits := NatDecimal(m);
    UnsignedOfDigits(m);
    assert IsDigit(digits[0]) && IsDigit(digits[|digits| - 1]);
    assert digits != "NaN" && digits != "Infinity";
  }

  lemma UnsignedOfDigits(m: nat)
    ensures ParseUnsignedDecimal(NatDecimal(m)) == Some(m as real)
  {
    var digits := NatDecimal(m);
    NoneOfAny(digits, {'e', 'E'});
    NoneOfAny(digits, {'.'});
    assert digits[..|digits|] == digits;
    DigitsValueOfNatDecimal(m);
  }

  lemma NoneOfAny(s: string, cs: set<char>)
    requires AllDigits(s)
    requires forall c :: c in cs ==> !IsDigit(c)
    ensures IndexOfAny(s, cs) == |s|
  {
  }
}
