/** The part of `java.math.BigDecimal` the statistics and the duration
    formatting rely on: a value is an unscaled integer and a scale, and
    stands for `unscaled * 10^-scale`. Scales are kept as Java keeps them,
    because `BigDecimal.equals` compares them. */
module Decimals {
  import opened Strings
  import opened Wrappers

  datatype Decimal = Decimal(unscaled: int, scale: nat)

  function Pow10(k: nat): (r: nat)
    ensures r >= 1
  {
    if k == 0 then 1 else 10 * Pow10(k - 1)
  }

  lemma {:induction false} Pow10Add(a: nat, b: nat)
    ensures Pow10(a + b) == Pow10(a) * Pow10(b)
  {
    if b > 0 {
      Pow10Add(a, b - 1);
      assert Pow10(a + b) == 10 * Pow10(a + b - 1);
    }
  }

  lemma DivMod(a: nat, p: nat)
    requires p >= 1
    ensures a / p >= 0 && 0 <= a % p < p && a == (a / p) * p + a % p
  {
  }

  function Max(a: nat, b: nat): nat
  {
    if a < b then b else a
  }

  /** The exact value a decimal stands for. */
  ghost function Value(x: Decimal): real
  {
    x.unscaled as real / Pow10(x.scale) as real
  }

  /** `x` written at the larger scale `s`, unscaled. */
  function Rescaled(x: Decimal, s: nat): int
    requires x.scale <= s
  {
    x.unscaled * Pow10(s - x.scale)
  }

  lemma DivCancel(u: real, p: real, q: real)
    requires p > 0.0 && q > 0.0
    ensures (u * q) / (p * q) == u / p
  {
    var a := u / p;
    assert a * p == u;
    assert u * q == a * (p * q);
  }

  lemma MulReal(a: int, b: int)
    ensures (a * b) as real == a as real * b as real
  {
  }

  /** `u * q` over `p * q` is `u` over `p`. */
  lemma ScaleValue(u: int, p: nat, q: nat)
    requires p >= 1 && q >= 1
    ensures (u * q) as real / (p * q) as real == u as real / p as real
  {
    MulReal(u, q);
    MulReal(p, q);
    DivCancel(u as real, p as real, q as real);
  }

  /** Rescaling to a larger scale keeps the value. */
  lemma RescaledValue(x: Decimal, s: nat)
    requires x.scale <= s
    ensures Value(Decimal(Rescaled(x, s), s)) == Value(x)
  {
    var p, q := Pow10(x.scale), Pow10(s - x.scale);
    Pow10Add(x.scale, s - x.scale);
    assert x.scale + (s - x.scale) == s;
    ScaleValue(x.unscaled, p, q);
  }

  /** Over a common denominator, sums and differences of numerators. */
  lemma CommonDenominator(u: int, v: int, d: nat)
    requires d >= 1
    ensures (u + v) as real / d as real == u as real / d as real + v as real / d as real
    ensures (u - v) as real / d as real == u as real / d as real - v as real / d as real
  {
  }

  /** `BigDecimal.add`, at the larger of the two scales. */
  function Add(a: Decimal, b: Decimal): (r: Decimal)
    ensures r.scale == Max(a.scale, b.scale)
  {
    var s := Max(a.scale, b.scale);
    Decimal(Rescaled(a, s) + Rescaled(b, s), s)
  }

  /** `BigDecimal.subtract`, at the larger of the two scales. */
  function Subtract(a: Decimal, b: Decimal): (r: Decimal)
    ensures r.scale == Max(a.scale, b.scale)
  {
    var s := Max(a.scale, b.scale);
    Decimal(Rescaled(a, s) - Rescaled(b, s), s)
  }

  /** Adding and subtracting are exact: no digit is rounded away. */
  lemma AddSubtractExact(a: Decimal, b: Decimal)
    ensures Value(Add(a, b)) == Value(a) + Value(b)
    ensures Value(Subtract(a, b)) == Value(a) - Value(b)
  {
    var s := Max(a.scale, b.scale);
    RescaledValue(a, s);
    RescaledValue(b, s);
    CommonDenominator(Rescaled(a, s), Rescaled(b, s), Pow10(s));
  }

  /** At a common scale, adding and subtracting work on the unscaled values alone. */
  lemma SameScale(a: Decimal, b: Decimal)
    requires a.scale == b.scale
    ensures Add(a, b) == Decimal(a.unscaled + b.unscaled, a.scale)
    ensures Subtract(a, b) == Decimal(a.unscaled - b.unscaled, a.scale)
  {
    assert Rescaled(a, a.scale) == a.unscaled;
    assert Rescaled(b, a.scale) == b.unscaled;
  }

  /** `BigDecimal.pow(2)`, at twice the scale. */
  function Square(x: Decimal): (r: Decimal)
    ensures r.scale == 2 * x.scale
  {
    Decimal(x.unscaled * x.unscaled, 2 * x.scale)
  }

  /** Squaring is exact. */
  lemma SquareExact(x: Decimal)
    ensures Value(Square(x)) == Value(x) * Value(x)
  {
    Pow10Add(x.scale, x.scale);
    SquareValue(x.unscaled, Pow10(x.scale));
  }

  /** `u * u` over `p * p` is the square of `u` over `p`. */
  lemma SquareValue(u: int, p: nat)
    requires p >= 1
    ensures (u * u) as real / (p * p) as real == (u as real / p as real) * (u as real / p as real)
  {
    MulReal(u, u);
    MulReal(p, p);
    var v, pr := u as real / p as real, p as real;
    assert v * pr == u as real;
    assert (v * v) * (pr * pr) == (v * pr) * (v * pr);
  }

  /** `x.setScale(newScale, RoundingMode.HALF_EVEN)` when the scale shrinks by
      `k = x.scale - newScale` digits: the nearest multiple of `10^k`, and the
      even one of the two on a tie. */
  function SetScaleHalfEven(x: Decimal, newScale: nat): (r: Decimal)
    requires newScale <= x.scale
    ensures r.scale == newScale
    ensures var p: int := Pow10(x.scale - newScale);
      var diff := x.unscaled - r.unscaled * p;
      -p <= 2 * diff <= p && (2 * diff == p || 2 * diff == -p ==> r.unscaled % 2 == 0)
  {
    var p: int := Pow10(x.scale - newScale);
    var q, rem := x.unscaled / p, x.unscaled % p;
    assert x.unscaled == q * p + rem && 0 <= rem < p;
    assert (q + 1) * p == q * p + p;
    if 2 * rem > p || (2 * rem == p && q % 2 == 1) then Decimal(q + 1, newScale) else Decimal(q, newScale)
  }

  /** `BigDecimal.toPlainString` for a positive scale: an optional minus sign,
      the integer digits, a point and exactly `scale` fraction digits. */
  function ToPlainString(x: Decimal): (r: string)
    requires x.scale >= 1
  {
    var a: nat := if x.unscaled < 0 then -x.unscaled else x.unscaled;
    if x.unscaled < 0 then "-" + UnsignedPlain(a, x.scale) else UnsignedPlain(a, x.scale)
  }

  /** The digits of `a / 10^scale`, a point, and `a mod 10^scale` padded with
      leading zeros to `scale` digits. */
  function UnsignedPlain(a: nat, scale: nat): string
  {
    var p := Pow10(scale);
    DivMod(a, p);
    NatToString(a / p) + "." + PadZeros(NatToString(a % p), scale)
  }

  function PadZeros(digits: string, width: nat): (r: string)
    ensures |digits| <= width ==> |r| == width
  {
    if |digits| < width then Zeros(width - |digits|) + digits else digits
  }

  /** Reads a plain string with `scale` fraction digits back into its unscaled value. */
  function ParsePlain(s: string, scale: nat): Option<int>
  {
    if |s| > 0 && s[0] == '-' then
      match ParseUnsignedPlain(s[1..], scale)
      case Some(v) => Some(-v)
      case None => None
    else ParseUnsignedPlain(s, scale)
  }

  function ParseUnsignedPlain(body: string, scale: nat): Option<int>
  {
    if |body| < scale + 2 || body[|body| - scale - 1] != '.' then None
    else
      var digits := body[..|body| - scale - 1] + body[|body| - scale..];
      if AllDigits(digits) then Some(ParseNat(digits)) else None
  }

  /** The digits of `a` followed by those of `b` stand for `a * 10^|b| + b`. */
  lemma {:induction false} ParseNatAppend(a: string, b: string)
    requires AllDigits(a) && AllDigits(b)
    ensures AllDigits(a + b)
    ensures ParseNat(a + b) == ParseNat(a) * Pow10(|b|) + ParseNat(b)
  {
    if |b| == 0 {
      assert a + b == a;
    } else {
      var c := a + b;
      assert c[..|c| - 1] == a + b[..|b| - 1];
      ParseNatAppend(a, b[..|b| - 1]);
      var x, y := ParseNat(a), ParseNat(b[..|b| - 1]);
      var d := DigitValue(b[|b| - 1]);
      assert ParseNat(c) == ParseNat(c[..|c| - 1]) * 10 + d;
      assert ParseNat(b) == y * 10 + d;
      ShiftDigit(x, Pow10(|b| - 1), y, d);
    }
  }

  lemma ShiftDigit(x: int, p: int, y: int, d: int)
    ensures (x * p + y) * 10 + d == x * (10 * p) + (y * 10 + d)
  {
  }

  lemma {:induction false} FractionDigits(n: nat, scale: nat)
    requires n < Pow10(scale)
    ensures |NatToString(n)| <= scale || (scale == 0 && n == 0)
  {
    if scale > 0 && n >= 10 {
      FractionDigits(n / 10, scale - 1);
    }
  }

  lemma ParseUnsignedPlainOf(whole: string, frac: string)
    requires |whole| >= 1 && AllDigits(whole) && AllDigits(frac)
    ensures AllDigits(whole + frac)
    ensures ParseUnsignedPlain(whole + "." + frac, |frac|) == Some(ParseNat(whole + frac))
  {
    var body := whole + "." + frac;
    var k := |body| - |frac| - 1;
    assert body[..k] == whole;
    assert !(|body| < |frac| + 2) && body[k] == '.';
    assert body[|body| - |frac|..] == frac;
    ParseNatAppend(whole, frac);
    assert ParseUnsignedPlain(body, |frac|) == Some(ParseNat(whole + frac));
  }

  lemma ParsePlainSign(body: string, scale: nat)
    requires |body| > 0 && body[0] != '-'
    ensures ParsePlain(body, scale) == ParseUnsignedPlain(body, scale)
    ensures ParsePlain("-" + body, scale) ==
      match ParseUnsignedPlain(body, scale)
      case Some(v) => Some(-v)
      case None => None
  {
    assert ("-" + body)[1..] == body;
  }

  /** Rendering a decimal with `toPlainString` and reading it back gives the
      same unscaled value: no digit is lost or invented. */
  lemma ToPlainStringRoundTrip(x: Decimal)
    requires x.scale >= 1
    ensures ParsePlain(ToPlainString(x), x.scale) == Some(x.unscaled)
  {
    if x.unscaled < 0 {
      NegativePlainRoundTrip(x, -x.unscaled);
    } else {
      NonNegativePlainRoundTrip(x, x.unscaled);
    }
  }

  lemma NegativePlainRoundTrip(x: Decimal, a: nat)
    requires x.scale >= 1 && x.unscaled < 0 && a == -x.unscaled
    ensures ParsePlain(ToPlainString(x), x.scale) == Some(x.unscaled)
  {
    UnsignedPlainRoundTrip(a, x.scale);
    var body := UnsignedPlain(a, x.scale);
    assert ToPlainString(x) == "-" + body;
    ParsePlainSign(body, x.scale);
  }

  lemma NonNegativePlainRoundTrip(x: Decimal, a: nat)
    requires x.scale >= 1 && a == x.unscaled
    ensures ParsePlain(ToPlainString(x), x.scale) == Some(x.unscaled)
  {
    UnsignedPlainRoundTrip(a, x.scale);
    var body := UnsignedPlain(a, x.scale);
    assert ToPlainString(x) == body;
    ParsePlainSign(body, x.scale);
  }

  lemma ToPlainStringNonEmpty(x: Decimal)
    requires x.scale >= 1
    ensures |ToPlainString(x)| >= 1
  {
    UnsignedPlainRoundTrip(if x.unscaled < 0 then -x.unscaled else x.unscaled, x.scale);
  }

  lemma UnsignedPlainRoundTrip(a: nat, scale: nat)
    requires scale >= 1
    ensures |UnsignedPlain(a, scale)| > 0 && UnsignedPlain(a, scale)[0] != '-'
    ensures ParseUnsignedPlain(UnsignedPlain(a, scale), scale) == Some(a)
  {
    var p := Pow10(scale);
    DivMod(a, p);
    var frac := NatToString(a % p);
    FractionDigits(a % p, scale);
    var whole := NatToString(a / p);
    var padded := PadZeros(frac, scale);
    assert IsDigit(whole[0]);
    assert (whole + "." + padded)[0] == whole[0];
    ParseNatToString(a / p);
    ParseNatToString(a % p);
    if |frac| < scale {
      ParseNatLeadingZeros(scale - |frac|, frac);
    }
    assert ParseNat(padded) == a % p && |padded| == scale;
    ParseUnsignedPlainOf(whole, padded);
    ParseNatAppend(whole, padded);
    assert ParseNat(whole + padded) == (a / p) * p + a % p;
    assert ParseNat(whole + padded) == a;
    assert ParseUnsignedPlain(whole + "." + padded, scale) == Some(a);
    assert UnsignedPlain(a, scale) == whole + "." + padded;
  }
}
