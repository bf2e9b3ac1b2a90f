/**
 * JavaScript numbers as the cards use them: `Math.max`/`Math.min`/`Math.floor`/
 * `Math.round`, `isFinite`, `Number(string)`, `String(number)` and the index
 * clamping of `Array.prototype.slice`. Finite values are exact rationals: the
 * binary rounding of IEEE doubles is not modelled.
 */
module JsNum {
  import opened JsString
  import opened Wrappers

  /** A JavaScript number: a finite value, NaN, or one of the two infinities. */
  datatype Num = Fin(x: real) | NaN | PosInf | NegInf

  /** `a <= b`; false whenever either side is NaN. */
  predicate LessEq(a: Num, b: Num)
  {
    match (a, b)
    case (NaN, _) => false
    case (_, NaN) => false
    case (NegInf, _) => true
    case (_, PosInf) => true
    case (PosInf, _) => false
    case (_, NegInf) => false
    case (Fin(x), Fin(y)) => x <= y
  }

  /** `a < b`; false whenever either side is NaN. */
  predicate Less(a: Num, b: Num)
  {
    LessEq(a, b) && a != b
  }

  /** `Math.max(a, b)`: NaN if either argument is NaN. */
  function Max(a: Num, b: Num): (r: Num)
    ensures r == NaN <==> a == NaN || b == NaN
    ensures r != NaN ==> LessEq(a, r) && LessEq(b, r) && (r == a || r == b)
  {
    if a == NaN || b == NaN then NaN else if LessEq(a, b) then b else a
  }

  /** `Math.min(a, b)`: NaN if either argument is NaN. */
  function Min(a: Num, b: Num): (r: Num)
    ensures r == NaN <==> a == NaN || b == NaN
    ensures r != NaN ==> LessEq(r, a) && LessEq(r, b) && (r == a || r == b)
  {
    if a == NaN || b == NaN then NaN else if LessEq(a, b) then a else b
  }

  function Neg(a: Num): Num
  {
    match a
    case Fin(x) => Fin(-x)
    case NaN => NaN
    case PosInf => NegInf
    case NegInf => PosInf
  }

  /** `a + b` */
  function Add(a: Num, b: Num): Num
  {
    match (a, b)
    case (NaN, _) => NaN
    case (_, NaN) => NaN
    case (PosInf, NegInf) => NaN
    case (NegInf, PosInf) => NaN
    case (PosInf, _) => PosInf
    case (NegInf, _) => NegInf
    case (_, PosInf) => PosInf
    case (_, NegInf) => NegInf
    case (Fin(x), Fin(y)) => Fin(x + y)
  }

  /** `a - b` */
  function Sub(a: Num, b: Num): Num
  {
    Add(a, Neg(b))
  }

  /** The larger of two finite numbers. */
  lemma MaxFin(x: real, y: real)
    ensures Max(Fin(x), Fin(y)) == Fin(if x <= y then y else x)
  {
  }

  /** Finite sums and differences are the real ones. */
  lemma AddSubFin(x: real, y: real)
    ensures Add(Fin(x), Fin(y)) == Fin(x + y)
    ensures Sub(Fin(x), Fin(y)) == Fin(x - y)
  {
    assert Neg(Fin(y)) == Fin(-y);
  }

  /** `a * k` for a positive finite factor k (also `a / (1 / k)`). */
  function Scale(a: Num, k: real): Num
    requires k > 0.0
  {
    match a
    case Fin(x) => Fin(x * k)
    case _ => a
  }

  /** `Math.floor(a)` */
  function Floor(a: Num): Num
  {
    match a
    case Fin(x) => Fin(x.Floor as real)
    case _ => a
  }

  /** `Math.round(x)` for finite x: halves are rounded up. */
  function Round(x: real): (r: int)
    ensures x - 0.5 < r as real <= x + 0.5
  {
    (x + 0.5).Floor
  }

  /** Truncation toward zero, the integer part taken by ToIntegerOrInfinity. */
  function Trunc(x: real): (r: int)
    ensures x >= 0.0 ==> r == x.Floor
    ensures x < 0.0 ==> r == -((-x).Floor)
  {
    if x >= 0.0 then x.Floor else -((-x).Floor)
  }

  /**
   * The index `Array.prototype.slice` derives from a start or end argument:
   * truncated toward zero, counted from the end when negative, clamped to
   * `0..len`; NaN counts as 0.
   */
  function RelativeIndex(n: Num, len: nat): (r: nat)
    ensures r <= len
    ensures n.Fin? && 0.0 <= n.x <= len as real ==> r == n.x.Floor
    ensures n == PosInf || (n.Fin? && n.x >= len as real) ==> r == len
    ensures n == NaN || n == NegInf || (n.Fin? && n.x <= -(len as real)) ==> r == 0
    ensures n.Fin? && n.x == n.x.Floor as real && -(len as real) <= n.x < 0.0 ==> r == len + n.x.Floor
  {
    match n
    case NaN => 0
    case PosInf => len
    case NegInf => 0
    case Fin(x) =>
      var k := Trunc(x);
      if k < 0 then (if len + k < 0 then 0 else len + k) else if k < len then k else len
  }

  /** A whole number within range is its own index. */
  lemma RelativeIndexNat(k: nat, len: nat)
    requires k <= len
    ensures RelativeIndex(Fin(k as real), len) == k
  {
    assert (k as real).Floor == k;
  }

  /** Powers of ten as exact reals. */
  function Pow10(e: nat): (r: real)
    ensures r >= 1.0
  {
    if e == 0 then 1.0 else 10.0 * Pow10(e - 1)
  }

  function Scale10(x: real, e: int): real
  {
    if e >= 0 then x * Pow10(e) else x / Pow10(-e)
  }

  /** The decimal expansion of a fraction in [0, 1), at most `fuel` digits. */
  function FractionDigits(f: real, fuel: nat): string
    requires 0.0 <= f < 1.0
    decreases fuel
  {
    if f == 0.0 || fuel == 0 then ""
    else
      var d := (f * 10.0).Floor;
      [DigitChar(d)] + FractionDigits(f * 10.0 - d as real, fuel - 1)
  }

  function NonNegativeToString(x: real): string
    requires x >= 0.0
  {
    var i := x.Floor;
    var f := x - i as real;
    NatToDecimal(i) + (if f == 0.0 then "" else "." + FractionDigits(f, 20))
  }

  /**
   * `String(n)` for a number. Integers are rendered exactly; a value with a
   * fraction is rendered by its exact decimal expansion, cut after 20 digits.
   */
  function NumToString(n: Num): string
  {
    match n
    case NaN => "NaN"
    case PosInf => "Infinity"
    case NegInf => "-Infinity"
    case Fin(x) => if x < 0.0 then "-" + NonNegativeToString(-x) else NonNegativeToString(x)
  }

  /** The first index of c in s, or |s| when there is none. */
  function IndexOf(s: string, c: char): (k: nat)
    ensures k <= |s|
    ensures k < |s| ==> s[k] == c
    ensures forall j :: 0 <= j < k ==> s[j] != c
    decreases |s|
  {
    if |s| == 0 then 0 else if s[0] == c then 0 else 1 + IndexOf(s[1..], c)
  }

  /** The first index of 'e' or 'E' in s, or |s|. */
  function ExponentIndex(s: string): (k: nat)
    ensures k <= |s|
    ensures k < |s| ==> s[k] == 'e' || s[k] == 'E'
    ensures forall j :: 0 <= j < k ==> s[j] != 'e' && s[j] != 'E'
    decreases |s|
  {
    if |s| == 0 then 0 else if s[0] == 'e' || s[0] == 'E' then 0 else 1 + ExponentIndex(s[1..])
  }

  /** The value of a decimal exponent `[+-]digits`, if well formed. */
  function ParseExponent(s: string): Option<int>
  {
    if |s| > 0 && (s[0] == '+' || s[0] == '-') then
      (if |s| > 1 && AllDigitsIn(s[1..], 10) then
         var v: int := DigitsValue(s[1..], 10);
         Some(if s[0] == '-' then -v else v)
       else None)
    else if |s| > 0 && AllDigitsIn(s, 10) then Some(DigitsValue(s, 10))
    else None
  }

  /** The value of an unsigned decimal literal: `Infinity`, or digits with an optional fraction and exponent. */
  function ParseUnsignedDecimal(s: string): Option<Num>
  {
    if s == "Infinity" then Some(PosInf)
    else
      var e := ExponentIndex(s);
      var mantissa := s[..e];
      var exponent := if e < |s| then ParseExponent(s[e + 1..]) else Some(0);
      var dot := IndexOf(mantissa, '.');
      var whole := mantissa[..dot];
      var fraction := if dot < |mantissa| then mantissa[dot + 1..] else "";
      if exponent.Some? && AllDigitsIn(whole, 10) && AllDigitsIn(fraction, 10) && |whole| + |fraction| > 0 then
        var value := DigitsValue(whole, 10) as real + DigitsValue(fraction, 10) as real / Pow10(|fraction|);
        Some(Fin(Scale10(value, exponent.value)))
      else None
  }

  /**
   * `Number(s)` for a string: surrounding white space is ignored, the empty
   * string is 0, `0x`/`0o`/`0b` prefixes select base 16/8/2, otherwise a signed
   * decimal literal; anything else is NaN.
   */
  function StringToNumber(s: string): Num
  {
    var t := Trim(s);
    if t == "" then Fin(0.0)
    else if |t| >= 2 && t[0] == '0' && t[1] in "xXoObB" then
      var base := if t[1] in "xX" then 16 else if t[1] in "oO" then 8 else 2;
      if |t| > 2 && AllDigitsIn(t[2..], base) then Fin(DigitsValue(t[2..], base) as real) else NaN
    else if t[0] == '+' || t[0] == '-' then
      match ParseUnsignedDecimal(t[1..])
      case Some(n) => if t[0] == '-' then Neg(n) else n
      case None => NaN
    else
      match ParseUnsignedDecimal(t)
      case Some(n) => n
      case None => NaN
  }

  lemma {:induction false} TrimDigits(s: string)
    requires AllDigitsIn(s, 10)
    ensures Trim(s) == s
  {
    assert TrimStart(s) == s;
    assert TrimEnd(s) == s;
  }

  /** A plain string of decimal digits is read as its value. */
  lemma {:induction false} ParseDigits(s: string)
    requires |s| > 0 && AllDigitsIn(s, 10)
    ensures ParseUnsignedDecimal(s) == Some(Fin(DigitsValue(s, 10) as real))
  {
    assert s != "Infinity" by { assert CharValue(s[0]) < 10; }
    assert CharValue('e') >= 10 && CharValue('E') >= 10 && CharValue('.') >= 10;
    var e := ExponentIndex(s);
    assert e == |s|;
    assert s[..e] == s;
    var dot := IndexOf(s, '.');
    assert dot == |s|;
    assert s[..dot] == s;
  }

  lemma NatToStringIsDecimal(n: nat)
    ensures NumToString(Fin(n as real)) == NatToDecimal(n)
  {
    assert (n as real).Floor == n;
    assert NonNegativeToString(n as real) == NatToDecimal(n) + "";
  }

  /** Reading a natural number's decimal rendering with `Number` gives the number back. */
  lemma NatRoundTrip(n: nat)
    ensures StringToNumber(NumToString(Fin(n as real))) == Fin(n as real)
  {
    var s := NatToDecimal(n);
    NatToStringIsDecimal(n);
    TrimDigits(s);
    NatToDecimalValue(n);
    ParseDigits(s);
    assert CharValue(s[0]) < 10;
    if |s| >= 2 && s[0] == '0' {
      assert false;
    }
  }
}
