/** Number <-> text conversions as Python performs them: `str(n)`, `f"{n:0Nd}"`,
    `int(s)`, `float(s)` on plain decimals, `repr` of a float rounded to three
    decimals, `int(x)` on a float, `round(x)` and `math.gcd`. */
module Numbers {
  import opened Text
  import opened Optional

  predicate IsDigit(c: char) {
    '0' <= c <= '9'
  }

  function DigitVal(c: char): nat
    requires IsDigit(c)
  {
    c as int - '0' as int
  }

  function DigitChar(d: nat): (c: char)
    requires d < 10
    ensures IsDigit(c) && DigitVal(c) == d
  {
    ('0' as int + d) as char
  }

  predicate AllDigits(s: string) {
    forall i :: 0 <= i < |s| ==> IsDigit(s[i])
  }

  /** The value of a string of decimal digits, most significant digit first. */
  function DigitsValue(s: string): nat
    requires AllDigits(s)
  {
    if |s| == 0 then 0 else DigitsValue(s[..|s| - 1]) * 10 + DigitVal(s[|s| - 1])
  }

  /** `str(n)` for a non-negative integer: its digits with no leading zero. */
  function NatToString(n: nat): (s: string)
    ensures |s| >= 1 && AllDigits(s)
    ensures s[0] == '0' ==> n == 0 && |s| == 1
    ensures DigitsValue(s) == n
  {
    if n < 10 then [DigitChar(n)]
    else
      var s := NatToString(n / 10) + [DigitChar(n % 10)];
      assert s[..|s| - 1] == NatToString(n / 10);
      s
  }

  function Pow10(k: nat): (p: nat)
    ensures p >= 1
  {
    if k == 0 then 1 else 10 * Pow10(k - 1)
  }

  /** A number below `10^k` needs at most `k` digits. */
  lemma {:induction false} NatToStringLength(n: nat, k: nat)
    requires k >= 1 && n < Pow10(k)
    ensures |NatToString(n)| <= k
  {
    if n >= 10 {
      NatToStringLength(n / 10, k - 1);
    }
  }

  function Zeros(k: nat): (z: string)
    ensures |z| == k
    ensures forall i :: 0 <= i < k ==> z[i] == '0'
  {
    if k == 0 then "" else "0" + Zeros(k - 1)
  }

  lemma {:induction false} ZerosValue(k: nat)
    ensures AllDigits(Zeros(k)) && DigitsValue(Zeros(k)) == 0
  {
    if k > 0 {
      var z := Zeros(k);
      assert z[..k - 1] == Zeros(k - 1);
      ZerosValue(k - 1);
    }
  }

  /** Leading zeros do not change the value of a digit string. */
  lemma {:induction false} ZerosPrefixValue(k: nat, t: string)
    requires AllDigits(t)
    ensures AllDigits(Zeros(k) + t) && DigitsValue(Zeros(k) + t) == DigitsValue(t)
  {
    if |t| == 0 {
      assert Zeros(k) + t == Zeros(k);
      ZerosValue(k);
    } else {
      var u := Zeros(k) + t;
      assert u[..|u| - 1] == Zeros(k) + t[..|t| - 1];
      ZerosPrefixValue(k, t[..|t| - 1]);
    }
  }

  /** `f"{n:0{width}d}"` for n >= 0: the digits of n left-padded with zeros to
      `width` characters; a wider number is never cut. */
  function ZeroPad(n: nat, width: int): (s: string)
    ensures |s| == if width > |NatToString(n)| then width else |NatToString(n)|
    ensures AllDigits(s) && DigitsValue(s) == n
  {
    var d := NatToString(n);
    if width > |d| then
      ZerosPrefixValue(width - |d|, d);
      Zeros(width - |d|) + d
    else d
  }

  /** `str(n)` */
  function IntToString(n: int): string {
    PadInt(n, 0)
  }

  /** `f"{n:0{width}d}"`: Python counts a minus sign inside the width. */
  function PadInt(n: int, width: int): (s: string)
    ensures |s| >= 1
    ensures s[0] == '-' <==> n < 0
    ensures n >= 0 ==> AllDigits(s)
  {
    if n < 0 then "-" + ZeroPad(-n, width - 1) else ZeroPad(n, width)
  }

  /** An optional sign followed by at least one digit. */
  function ParseSigned(t: string): Option<int>
  {
    if |t| > 0 && (t[0] == '+' || t[0] == '-') then
      var d := t[1..];
      if |d| > 0 && AllDigits(d) then
        Some(if t[0] == '-' then -(DigitsValue(d) as int) else DigitsValue(d) as int)
      else None
    else if |t| > 0 && AllDigits(t) then Some(DigitsValue(t) as int)
    else None
  }

  /** Python's `int(s)` on a string; None stands for the ValueError it raises. */
  function ParseInt(s: string): (r: Option<int>)
    ensures r.Some? ==> |Strip(s)| > 0
    ensures r.Some? && r.value < 0 ==> Strip(s)[0] == '-'
  {
    ParseSigned(Strip(s))
  }

  /** `f"{n:0Nd}"` writes only digits and a minus sign. */
  lemma PadIntChars(n: int, width: int)
    ensures NoSpaceAtEnds(PadInt(n, width))
    ensures forall i :: 0 <= i < |PadInt(n, width)| ==> IsDigit(PadInt(n, width)[i]) || PadInt(n, width)[i] == '-'
  {
    var s := PadInt(n, width);
    if n < 0 {
      assert s[1..] == ZeroPad(-n, width - 1);
      assert forall i :: 1 <= i < |s| ==> IsDigit(s[i]);
    }
  }

  /** A zero-padded integer has no white space at its ends. */
  lemma PadIntNoSpace(n: int, width: int)
    ensures NoSpaceAtEnds(PadInt(n, width))
  {
    PadIntChars(n, width);
  }

  /** `int()` reads back every zero-padded integer `f"{n:0Nd}"` produces. */
  lemma ParseIntPadInt(n: int, width: int)
    ensures ParseInt(PadInt(n, width)) == Some(n)
  {
    var s := PadInt(n, width);
    PadIntChars(n, width);
    StripNoop(s);
    if n < 0 {
      assert s[1..] == ZeroPad(-n, width - 1);
    }
  }

  /** The value of the digits `frac` written after a decimal point. */
  function FracValue(frac: string): real
    requires AllDigits(frac)
  {
    if |frac| == 0 then 0.0 else (DigitVal(frac[0]) as real + FracValue(frac[1..])) / 10.0
  }

  /** The value of the literal `whole.frac`. */
  function DecimalValue(whole: string, frac: string): real
    requires AllDigits(whole) && AllDigits(frac)
  {
    DigitsValue(whole) as real + FracValue(frac)
  }

  /** The unsigned part of a Python float literal in positional notation:
      `digits`, `digits.`, `.digits` or `digits.digits`. */
  function ParseUnsigned(t: string): Option<real>
  {
    var i := IndexOf(t, '.');
    if i == |t| then
      if |t| > 0 && AllDigits(t) then Some(DigitsValue(t) as real) else None
    else
      var whole, frac := t[..i], t[i + 1..];
      if |whole| + |frac| > 0 && AllDigits(whole) && AllDigits(frac) then
        Some(DecimalValue(whole, frac))
      else None
  }

  /** Python's `float(s)` for decimal literals; None stands for the ValueError. */
  function ParseFloat(s: string): Option<real>
  {
    var t := Strip(s);
    if |t| > 0 && (t[0] == '+' || t[0] == '-') then
      match ParseUnsigned(t[1..])
      case Some(v) => Some(if t[0] == '-' then -v else v)
      case None => None
    else ParseUnsigned(t)
  }

  /** `float()` also reads back every zero-padded integer, as the same value. */
  lemma ParseFloatPadInt(n: int, width: int)
    ensures ParseFloat(PadInt(n, width)) == Some(n as real)
  {
    var s := PadInt(n, width);
    PadIntChars(n, width);
    StripNoop(s);
    ParseIntPadInt(n, width);
    assert '.' !in s;
    ParseFloatOfSigned(s);
  }

  /** On stripped text without a point, `float()` reads what `int()` reads. */
  lemma ParseFloatOfSigned(t: string)
    requires Strip(t) == t && ParseSigned(t).Some? && '.' !in t
    ensures ParseFloat(t) == Some(ParseSigned(t).value as real)
  {
    if t[0] == '+' || t[0] == '-' {
      assert '.' !in t[1..];
      ParseUnsignedDigits(t[1..]);
    } else {
      ParseUnsignedDigits(t);
    }
  }

  /** The unsigned literal of a run of digits, without a point. */
  lemma ParseUnsignedDigits(d: string)
    requires |d| > 0 && AllDigits(d)
    ensures ParseUnsigned(d) == Some(DigitsValue(d) as real)
  {
    NoDot(d);
    assert IndexOf(d, '.') == |d|;
  }

  /** Three fraction digits stand for their value in thousandths. */
  lemma FracValueThree(s: string)
    requires |s| == 3 && AllDigits(s)
    ensures FracValue(s) == DigitsValue(s) as real / 1000.0
  {
    var x, y, z := DigitVal(s[0]), DigitVal(s[1]), DigitVal(s[2]);
    assert s[1..][1..] == s[2..] && s[2..][1..] == "";
    assert FracValue(s[2..]) == z as real / 10.0;
    assert FracValue(s[1..]) == (y as real + z as real / 10.0) / 10.0;
    assert s[..2][..1] == s[..1] && s[..1][..0] == "";
    assert DigitsValue(s[..1]) == x;
    assert DigitsValue(s[..2]) == 10 * x + y;
  }

  lemma FracValueOf(d1: char, d2: char, d3: char)
    requires IsDigit(d1) && IsDigit(d2) && IsDigit(d3)
    ensures FracValue([d1]) == DigitVal(d1) as real / 10.0
    ensures FracValue([d1, d2]) == DigitVal(d1) as real / 10.0 + DigitVal(d2) as real / 100.0
    ensures FracValue([d1, d2, d3])
      == DigitVal(d1) as real / 10.0 + DigitVal(d2) as real / 100.0 + DigitVal(d3) as real / 1000.0
  {
    assert [d1][1..] == "" && [d2][1..] == "" && [d3][1..] == "";
    assert [d1, d2][1..] == [d2] && [d2, d3][1..] == [d3];
    assert [d1, d2, d3][1..] == [d2, d3];
    assert FracValue([d3]) == DigitVal(d3) as real / 10.0;
    assert FracValue([d2, d3]) == (DigitVal(d2) as real + DigitVal(d3) as real / 10.0) / 10.0;
  }

  lemma ThreeDigits(f: nat)
    requires f < 1000
    ensures f == 100 * (f / 100) + 10 * (f / 10 % 10) + f % 10
    ensures f / 100 < 10
    ensures f % 100 == 0 ==> f / 10 % 10 == 0 && f % 10 == 0
  {
  }

  /** The three fraction digits of `f` thousandths with trailing zeros dropped. */
  function FracDigits(f: nat): (s: string)
    requires 0 < f < 1000
    ensures 1 <= |s| <= 3 && AllDigits(s) && s[|s| - 1] != '0'
    ensures FracValue(s) == f as real / 1000.0
  {
    var a, b, c := f / 100, f / 10 % 10, f % 10;
    var d1, d2, d3 := DigitChar(a), DigitChar(b), DigitChar(c);
    FracValueOf(d1, d2, d3);
    ThreeDigits(f);
    if f % 100 == 0 then [d1]
    else if f % 10 == 0 then [d1, d2]
    else [d1, d2, d3]
  }

  /** `repr(x)` of a non-negative float with at most three decimals, given as
      `ms` thousandths: the shortest positional form, at least one fraction digit. */
  function FormatMilli(ms: nat): string
  {
    NatToString(ms / 1000) + "." + MilliFrac(ms % 1000)
  }

  /** The digits after the point: at least one, no trailing zero beyond it. */
  function MilliFrac(f: nat): (s: string)
    requires f < 1000
    ensures 1 <= |s| <= 3 && AllDigits(s)
    ensures s[|s| - 1] == '0' ==> s == "0"
    ensures FracValue(s) == f as real / 1000.0
  {
    if f == 0 then
      assert FracValue("0") == 0.0 by {
        assert "0"[1..] == "";
      }
      "0"
    else FracDigits(f)
  }

  lemma NoDot(s: string)
    requires AllDigits(s)
    ensures '.' !in s
  {
  }

  /** `digits.digits` parses to the whole part plus the scaled fraction. */
  lemma ParseUnsignedDot(whole: string, frac: string)
    requires |whole| > 0 && AllDigits(whole) && AllDigits(frac)
    ensures ParseUnsigned(whole + "." + frac) == Some(DecimalValue(whole, frac))
  {
    var t := whole + "." + frac;
    IndexOfAfter(whole, frac, '.');
    assert t[..|whole|] == whole && t[|whole| + 1..] == frac;
  }

  lemma IndexOfAfter(a: string, b: string, c: char)
    requires AllDigits(a) && !IsDigit(c)
    ensures IndexOf(a + [c] + b, c) == |a|
  {
    var t := a + [c] + b;
    assert t[|a|] == c;
    assert forall j :: 0 <= j < |a| ==> t[j] == a[j] && t[j] != c;
  }

  /** `float("digits.digits")`. */
  lemma ParseFloatDot(whole: string, frac: string)
    requires |whole| > 0 && |frac| > 0 && AllDigits(whole) && AllDigits(frac)
    ensures NoSpaceAtEnds(whole + "." + frac)
    ensures ParseFloat(whole + "." + frac) == Some(DecimalValue(whole, frac))
  {
    var s := whole + "." + frac;
    assert s[0] == whole[0] && s[|s| - 1] == frac[|frac| - 1];
    StripNoop(s);
    ParseFloatUnsigned(s);
    ParseUnsignedDot(whole, frac);
  }

  /** `float(repr(x))` gives back x for the three-decimal values `FormatMilli` writes. */
  lemma FormatMilliRoundTrip(ms: nat)
    ensures ParseFloat(FormatMilli(ms)) == Some(ms as real / 1000.0)
  {
    var v := ms as real / 1000.0;
    FormatMilliValue(ms, v);
    ParsedAs(FormatMilli(ms), v, ms);
  }

  lemma FormatMilliValue(ms: nat, v: real)
    requires v == ms as real / 1000.0
    ensures ParseFloat(FormatMilli(ms)) == Some(v)
  {
    var q, f := ms / 1000, ms % 1000;
    var whole, frac := NatToString(q), MilliFrac(f);
    MilliSplit(ms);
    DecimalParts(whole, frac, q, f);
    MilliFromParts(whole, frac, v);
  }

  /** Names the parsed value by the thousandths it stands for. */
  lemma ParsedAs(s: string, v: real, ms: nat)
    requires ParseFloat(s) == Some(v) && v == ms as real / 1000.0
    ensures ParseFloat(s) == Some(ms as real / 1000.0)
  {
  }

  /** The value of `whole.frac` from the values of its two parts. */
  lemma DecimalParts(whole: string, frac: string, q: nat, f: nat)
    requires AllDigits(whole) && AllDigits(frac)
    requires DigitsValue(whole) == q && FracValue(frac) == f as real / 1000.0
    ensures DecimalValue(whole, frac) == q as real + f as real / 1000.0
  {
  }

  lemma MilliFromParts(whole: string, frac: string, v: real)
    requires |whole| > 0 && |frac| > 0 && AllDigits(whole) && AllDigits(frac)
    requires DecimalValue(whole, frac) == v
    ensures ParseFloat(whole + "." + frac) == Some(v)
  {
    ParseFloatDot(whole, frac);
  }

  /** Without a sign, `float` reads the unsigned literal. */
  lemma ParseFloatUnsigned(s: string)
    requires Strip(s) == s && |s| > 0 && IsDigit(s[0])
    ensures ParseFloat(s) == ParseUnsigned(s)
  {
  }

  lemma MilliSplit(ms: nat)
    ensures ms as real / 1000.0 == (ms / 1000) as real + (ms % 1000) as real / 1000.0
  {
    assert ms == (ms / 1000) * 1000 + ms % 1000;
  }

  /** Python's `int(x)` on a float: truncation toward zero. */
  function Trunc(x: real): (n: int)
    ensures x >= 0.0 ==> 0 <= n && n as real <= x < n as real + 1.0
    ensures x < 0.0 ==> n <= 0 && n as real - 1.0 < x <= n as real
  {
    if x >= 0.0 then x.Floor else -((-x).Floor)
  }

  /** Python's `round(x)`: the nearest integer, ties to the even one. */
  function RoundHalfEven(x: real): (n: int)
    ensures -0.5 <= x - n as real <= 0.5
    ensures x - n as real == 0.5 || x - n as real == -0.5 ==> n % 2 == 0
  {
    var f := x.Floor;
    var d := x - f as real;
    if d < 0.5 then f
    else if d > 0.5 then f + 1
    else if f % 2 == 0 then f else f + 1
  }

  function Abs(n: int): nat {
    if n < 0 then -n else n
  }

  /** d is a positive divisor of n. */
  predicate Divides(d: int, n: int) {
    d > 0 && n % d == 0
  }

  /** `math.gcd` on non-negative integers (Euclid's algorithm): a common divisor,
      positive unless both arguments are zero, that every common divisor
      divides, so the greatest one. */
  function Gcd(a: nat, b: nat): (g: nat)
    ensures g == 0 <==> a == 0 && b == 0
    ensures g > 0 ==> a % g == 0 && b % g == 0
    ensures forall d :: Divides(d, a) && Divides(d, b) ==> Divides(d, g)
    decreases b
  {
    if b == 0 then a
    else
      var g := Gcd(b, a % b);
      DividesSum(a, b, g);
      DividesRemainder(a, b);
      g
  }

  /** A common divisor of a and b divides a % b. */
  lemma DividesRemainder(a: nat, b: nat)
    requires b > 0
    ensures forall d :: Divides(d, a) && Divides(d, b) ==> Divides(d, a % b)
  {
    forall d | Divides(d, a) && Divides(d, b)
      ensures Divides(d, a % b)
    {
      var q, x, y := a / b, a / d, b / d;
      assert a == x * d && b == y * d;
      assert a % b == a - q * b;
      assert q * b == (q * y) * d;
      assert a % b == (x - q * y) * d;
      MulDiv(x - q * y, d);
    }
  }

  /** Dividing two numbers, not both zero, by their gcd leaves numbers whose gcd
      is 1: the fraction is in lowest terms. */
  lemma GcdCofactorsCoprime(a: nat, b: nat)
    requires a > 0 || b > 0
    ensures var g := Gcd(a, b); g > 0 && Gcd(a / g, b / g) == 1
  {
    var g := Gcd(a, b);
    var p, q := a / g, b / g;
    ExactQuotient(a, g);
    ExactQuotient(b, g);
    var g2 := Gcd(p, q);
    ScaleDivides(p, g, g2);
    ScaleDivides(q, g, g2);
    assert Divides(g * g2, g);
    OneFactor(g, g2, g / (g * g2));
  }

  /** A divisor leaves no remainder: a is its quotient times g. */
  lemma ExactQuotient(a: nat, g: nat)
    requires Divides(g, a)
    ensures a == (a / g) * g && (a > 0 ==> a / g > 0)
  {
  }

  /** A divisor of p, scaled by g, divides p·g. */
  lemma ScaleDivides(p: nat, g: nat, d: nat)
    requires g > 0 && (p == 0 || Divides(d, p))
    ensures d > 0 ==> Divides(g * d, p * g)
  {
    if d > 0 {
      var k := p / d;
      assert p == k * d;
      assert p * g == k * (g * d);
      MulDiv(k, g * d);
    }
  }

  /** g = n·(g·g2) with g and g2 positive forces g2 = 1. */
  lemma OneFactor(g: int, g2: int, n: int)
    requires g > 0 && g2 > 0 && Divides(g * g2, g) && n == g / (g * g2)
    ensures g2 == 1
  {
    assert g == n * (g * g2);
    assert g * 1 == g * (n * g2);
    assert n * g2 == 1;
  }

  /** Division by a positive divisor of an exact multiple. */
  lemma MulDiv(c: int, g: int)
    requires g > 0
    ensures (c * g) / g == c && (c * g) % g == 0
  {
    var q, r := (c * g) / g, (c * g) % g;
    assert c * g == q * g + r && 0 <= r < g;
    assert r == (c - q) * g;
    MulSignBound(c - q, g);
  }

  lemma {:induction false} MulSignBound(x: int, g: int)
    requires g > 0
    ensures x >= 1 ==> x * g >= g
    ensures x <= -1 ==> x * g <= -g
    decreases if x < 0 then -x else x
  {
    if x > 1 {
      MulSignBound(x - 1, g);
      assert x * g == (x - 1) * g + g;
    } else if x < -1 {
      MulSignBound(x + 1, g);
      assert x * g == (x + 1) * g - g;
    }
  }

  lemma DividesSum(a: nat, b: nat, g: nat)
    requires b > 0 && g > 0
    requires b % g == 0 && (a % b) % g == 0
    ensures a % g == 0
  {
    var q := a / b;
    var k := b / g;
    var m := (a % b) / g;
    assert b == k * g;
    assert a % b == m * g;
    assert a == q * b + a % b;
    assert q * b == (q * k) * g;
    assert a == (q * k + m) * g;
    MulDiv(q * k + m, g);
  }
}
