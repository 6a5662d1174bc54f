/**
  The numeric value of alpha, as a finite decimal `digits * 10^-scale`, and
  PHP's string form of such a number: the shortest decimal numeral for its
  value (no trailing zeros after the point, no point for whole numbers).
 */
module Decimals {
  import opened PhpStrings

  datatype Decimal = Decimal(digits: int, scale: nat)

  function Pow10(n: nat): (p: nat)
    ensures p >= 1
  {
    if n == 0 then 1 else 10 * Pow10(n - 1)
  }

  function Value(d: Decimal): real {
    d.digits as real / Pow10(d.scale) as real
  }

  /** No trailing zero digit can be dropped without changing the scale. */
  predicate Reduced(d: Decimal) {
    d.scale == 0 || d.digits % 10 != 0
  }

  lemma ScaleDown(q: int, p: nat)
    requires p >= 1
    ensures (10 * q) as real / (10 * p) as real == q as real / p as real
  {
    var x, y := q as real, p as real;
    assert (10 * q) as real == 10.0 * x;
    assert (10 * p) as real == 10.0 * y;
    assert (10.0 * x) / (10.0 * y) == x / y;
  }

  /** Drops trailing zero digits: the same number in its shortest form. */
  function Reduce(d: Decimal): (r: Decimal)
    ensures Reduced(r) && Value(r) == Value(d)
    decreases d.scale
  {
    if d.scale > 0 && d.digits % 10 == 0 then
      var q := d.digits / 10;
      ScaleDown(q, Pow10(d.scale - 1));
      Reduce(Decimal(q, d.scale - 1))
    else d
  }

  lemma {:induction false} Pow10Add(m: nat, k: nat)
    ensures Pow10(m + k) == Pow10(m) * Pow10(k)
    decreases k
  {
    if k > 0 {
      Pow10Add(m, k - 1);
      assert Pow10(m + k) == 10 * Pow10(m + k - 1);
    }
  }

  /** Cross-multiplied form of equal values. */
  lemma SameValueCross(a: Decimal, b: Decimal)
    requires Value(a) == Value(b)
    ensures a.digits * Pow10(b.scale) == b.digits * Pow10(a.scale)
  {
    var pa, pb := Pow10(a.scale) as real, Pow10(b.scale) as real;
    var x, y := a.digits as real, b.digits as real;
    assert x / pa == y / pb;
    assert x * pb == y * pa;
    assert (a.digits * Pow10(b.scale)) as real == x * pb;
    assert (b.digits * Pow10(a.scale)) as real == y * pa;
  }

  lemma CancelFactor(x: int, y: int, p: nat)
    requires p >= 1 && x * p == y * p
    ensures x == y
  {
    assert (x - y) * p == x * p - y * p;
  }

  lemma MulRotate(x: int, p: int, q: int)
    ensures x * (p * q) == (x * q) * p
  {
  }

  lemma MulTen(x: int, p: int)
    ensures x * (10 * p) == 10 * (x * p)
  {
  }

  lemma EndsInZero(x: int, y: int, pa: nat, k: nat)
    requires pa >= 1 && k >= 1 && x * (pa * Pow10(k)) == y * pa
    ensures y % 10 == 0
  {
    var pk := Pow10(k);
    MulRotate(x, pa, pk);
    CancelFactor(x * pk, y, pa);
    assert pk == 10 * Pow10(k - 1);
    MulTen(x, Pow10(k - 1));
  }

  /** If a at a smaller scale equals b at a larger one, b ends in a zero digit. */
  lemma LargerScaleEndsInZero(a: Decimal, b: Decimal)
    requires Value(a) == Value(b) && a.scale < b.scale
    ensures b.digits % 10 == 0
  {
    var k := b.scale - a.scale;
    SameValueCross(a, b);
    Pow10Add(a.scale, k);
    EndsInZero(a.digits, b.digits, Pow10(a.scale), k);
  }

  /** Two shortest forms of the same number are the same decimal. */
  lemma ReducedUnique(a: Decimal, b: Decimal)
    requires Reduced(a) && Reduced(b) && Value(a) == Value(b)
    ensures a == b
  {
    if a.scale < b.scale {
      LargerScaleEndsInZero(a, b);
    } else if b.scale < a.scale {
      LargerScaleEndsInZero(b, a);
    } else {
      SameValueCross(a, b);
      assert a.digits * Pow10(a.scale) == b.digits * Pow10(a.scale);
    }
  }

  function Abs(x: int): nat { if x < 0 then -x else x }

  /** `s`, with zeros put in front until it is `width` characters long. */
  function PadLeft(s: string, width: nat): (r: string)
    ensures |r| == if |s| >= width then |s| else width
    ensures r[|r| - |s|..] == s
    ensures forall k :: 0 <= k < |r| - |s| ==> r[k] == '0'
  {
    if |s| >= width then s else seq(width - |s|, _ => '0') + s
  }

  /** The characters a printed number is made of. */
  predicate NumeralChars(s: string) {
    forall k :: 0 <= k < |s| ==> IsDecimalDigit(s[k]) || s[k] == '.' || s[k] == '-'
  }

  lemma NumeralCharsConcat(s: string, t: string)
    requires NumeralChars(s) && NumeralChars(t)
    ensures NumeralChars(s + t)
  {
  }

  /** The part of `a * 10^-scale` before the point: `a / 10^scale`. */
  function WholePart(a: nat, scale: nat): nat {
    if scale == 0 then a else WholePart(a / 10, scale - 1)
  }

  /** The last `scale` digits of `a`, as a number: `a % 10^scale`. */
  function FractionPart(a: nat, scale: nat): nat {
    if scale == 0 then 0 else 10 * FractionPart(a / 10, scale - 1) + a % 10
  }

  /** The string PHP prints for the number `d`: the numeral of its shortest form. */
  function Render(d: Decimal): (s: string)
    ensures NumeralChars(s)
  {
    Numeral(Reduce(d))
  }

  /** The numeral of `r` written out: sign, whole part, and for a positive
      scale a point and exactly `scale` fraction digits. */
  function Numeral(r: Decimal): (s: string)
    ensures NumeralChars(s)
  {
    var sign := if r.digits < 0 then "-" else "";
    var a := Abs(r.digits);
    if r.scale == 0 then
      NumeralCharsConcat(sign, IntToString(a));
      sign + IntToString(a)
    else
      var whole := IntToString(WholePart(a, r.scale));
      var fraction := PadLeft(IntToString(FractionPart(a, r.scale)), r.scale);
      NumeralCharsConcat(sign, whole);
      NumeralCharsConcat(sign + whole, ".");
      NumeralCharsConcat(sign + whole + ".", fraction);
      sign + whole + "." + fraction
  }

  /** The printed form depends on the number only: 0.40 and .4 both print "0.4". */
  lemma RenderCanonical(a: Decimal, b: Decimal)
    requires Value(a) == Value(b)
    ensures Render(a) == Render(b)
  {
    ReducedUnique(Reduce(a), Reduce(b));
  }

  /** A whole number prints as its decimal digits, with no point. */
  lemma RenderWhole(n: nat, scale: nat)
    ensures Render(Decimal(n * Pow10(scale), scale)) == IntToString(n)
  {
    var d := Decimal(n * Pow10(scale), scale);
    assert Value(d) == Value(Decimal(n, 0));
    RenderCanonical(d, Decimal(n, 0));
  }

  // ---------------------------------------------------------------------
  // Reading a printed number back

  /** The position of the first point in `t`, or `|t|` if it has none. */
  function PointIndex(t: string): (p: nat)
    ensures p <= |t|
    ensures forall k :: 0 <= k < p ==> t[k] != '.'
    ensures p < |t| ==> t[p] == '.'
  {
    if t == [] || t[0] == '.' then 0 else 1 + PointIndex(t[1..])
  }

  /** A numeral without its optional leading minus sign. */
  function Unsigned(s: string): string {
    if |s| > 0 && s[0] == '-' then s[1..] else s
  }

  /** A numeral `[-]digits[.digits]`. */
  predicate IsNumeral(s: string) {
    var t := Unsigned(s);
    var p := PointIndex(t);
    AllDecimalDigits(t[..p]) && (p < |t| ==> AllDecimalDigits(t[p + 1..]))
  }

  /** The digits before the point are not empty, and start with 0 only when
      they are the single digit 0. */
  predicate NoLeadingZero(s: string) {
    var t := Unsigned(s);
    var p := PointIndex(t);
    p >= 1 && (t[0] == '0' ==> p == 1)
  }

  /** The number a numeral stands for: its digits before the point, plus its
      n digits after the point times 10^-n, negated after a minus sign. */
  function NumeralValue(s: string): real
    requires IsNumeral(s)
  {
    var t := Unsigned(s);
    var p := PointIndex(t);
    var m := ParseDecimal(t[..p]) as real
      + if p < |t| then ParseDecimal(t[p + 1..]) as real / Pow10(|t| - p - 1) as real else 0.0;
    if |s| > 0 && s[0] == '-' then -m else m
  }

  /** A sign in front of an unsigned numeral: the sign is what `Unsigned` drops. */
  lemma SignedNumeral(sign: string, t: string)
    requires sign == "" || sign == "-"
    requires |t| == 0 || t[0] != '-'
    ensures Unsigned(sign + t) == t
    ensures (|sign + t| > 0 && (sign + t)[0] == '-') <==> sign == "-"
  {
    if sign == "-" {
      assert (sign + t)[1..] == t;
    } else {
      assert sign + t == t;
    }
  }

  lemma NumeralOfWhole(sign: string, whole: string)
    requires sign == "" || sign == "-"
    requires AllDecimalDigits(whole)
    ensures IsNumeral(sign + whole) && '.' !in sign + whole
    ensures NumeralValue(sign + whole)
      == if sign == "-" then -(ParseDecimal(whole) as real) else ParseDecimal(whole) as real
  {
    SignedNumeral(sign, whole);
    assert PointIndex(whole) == |whole|;
    assert whole[..|whole|] == whole;
  }

  /** In `whole.fraction` the point sits right after the whole part. */
  lemma PointAfterWhole(whole: string, fraction: string)
    requires AllDecimalDigits(whole)
    ensures var t := whole + "." + fraction;
      PointIndex(t) == |whole| && t[..|whole|] == whole && t[|whole| + 1..] == fraction
  {
    var t := whole + "." + fraction;
    assert forall k :: 0 <= k < |whole| ==> t[k] == whole[k];
    assert t[|whole|] == '.';
    assert t[..|whole|] == whole;
    assert t[|whole| + 1..] == fraction;
  }

  lemma NumeralOfParts(sign: string, whole: string, fraction: string)
    requires sign == "" || sign == "-"
    requires AllDecimalDigits(whole) && AllDecimalDigits(fraction)
    ensures IsNumeral(sign + (whole + "." + fraction))
    ensures var m := ParseDecimal(whole) as real + ParseDecimal(fraction) as real / Pow10(|fraction|) as real;
      NumeralValue(sign + (whole + "." + fraction)) == if sign == "-" then -m else m
  {
    var t := whole + "." + fraction;
    assert t[0] != '-' by {
      if |whole| > 0 { assert t[0] == whole[0]; } else { assert t[0] == '.'; }
    }
    SignedNumeral(sign, t);
    PointAfterWhole(whole, fraction);
    assert |t| - |whole| - 1 == |fraction|;
  }

  /** The printed digits of `n`, last first: the final one is `n % 10`. */
  lemma IntToStringLast(n: nat)
    ensures var s := IntToString(n); s[|s| - 1] == DigitChar(n % 10)
  {
  }

  /** A number below 10^k prints in at most k digits. */
  lemma {:induction false} IntToStringWidth(n: nat, k: nat)
    requires k >= 1 && n < Pow10(k)
    ensures |IntToString(n)| <= k
    decreases k
  {
    if n >= 10 {
      assert Pow10(k) == 10 * Pow10(k - 1);
      assert Pow10(0) == 1;
      IntToStringWidth(n / 10, k - 1);
    }
  }

  /** `a` is its whole part times 10^scale plus its last `scale` digits. */
  lemma {:induction false} WholeFraction(a: nat, scale: nat)
    ensures WholePart(a, scale) * Pow10(scale) + FractionPart(a, scale) == a
    ensures FractionPart(a, scale) < Pow10(scale)
    ensures scale > 0 ==> FractionPart(a, scale) % 10 == a % 10
    decreases scale
  {
    if scale > 0 {
      var w, f, p := WholePart(a / 10, scale - 1), FractionPart(a / 10, scale - 1), Pow10(scale - 1);
      WholeFraction(a / 10, scale - 1);
      assert WholePart(a, scale) == w && FractionPart(a, scale) == 10 * f + a % 10;
      assert Pow10(scale) == 10 * p;
      MulTen(w, p);
      LastDigit(f, a % 10);
    }
  }

  lemma LastDigit(q: int, d: int)
    requires 0 <= d < 10
    ensures (10 * q + d) % 10 == d
  {
  }

  /** Splitting the magnitude into whole and fraction keeps the value. */
  lemma SplitValue(digits: int, w: nat, f: nat, p: nat)
    requires p >= 1 && w * p + f == Abs(digits)
    ensures var m := w as real + f as real / p as real;
      (if digits < 0 then -m else m) == digits as real / p as real
  {
    var x := p as real;
    assert (w * p + f) as real == w as real * x + f as real;
    assert (w as real * x + f as real) / x == w as real + f as real / x;
    assert (-(Abs(digits) as real)) / x == -(Abs(digits) as real / x);
  }

  /** The `scale` fraction digits of `a`: they read as its last `scale` digits
      and end in the digit `a % 10`. */
  lemma FractionDigits(a: nat, scale: nat)
    requires scale > 0
    ensures var fraction := PadLeft(IntToString(FractionPart(a, scale)), scale);
      |fraction| == scale && AllDecimalDigits(fraction)
      && ParseDecimal(fraction) == FractionPart(a, scale)
      && fraction[scale - 1] == DigitChar(a % 10)
  {
    var f := FractionPart(a, scale);
    WholeFraction(a, scale);
    IntToStringWidth(f, scale);
    var digits := IntToString(f);
    var fraction := PadLeft(digits, scale);
    var zeros := fraction[..|fraction| - |digits|];
    assert fraction == zeros + digits;
    ParseLeadingZeros(zeros, digits);
    ParseIntToString(f);
    IntToStringLast(f);
    assert fraction[scale - 1] == digits[|digits| - 1];
  }

  /** A whole numeral reads back as its number and has no point. */
  lemma NumeralValueWhole(r: Decimal)
    requires r.scale == 0
    ensures IsNumeral(Numeral(r)) && NumeralValue(Numeral(r)) == Value(r)
    ensures '.' !in Numeral(r)
  {
    var sign := if r.digits < 0 then "-" else "";
    var a := Abs(r.digits);
    assert Numeral(r) == sign + IntToString(a);
    assert Value(r) == r.digits as real by { assert Pow10(0) == 1; }
    ParseIntToString(a);
    NumeralOfWhole(sign, IntToString(a));
  }

  /** The spelling of a numeral with a point, grouped as the reader splits it. */
  lemma NumeralSpelling(r: Decimal)
    requires r.scale > 0
    ensures var a := Abs(r.digits);
      Numeral(r) == (if r.digits < 0 then "-" else "")
        + (IntToString(WholePart(a, r.scale)) + "." + PadLeft(IntToString(FractionPart(a, r.scale)), r.scale))
  {
    var sign := if r.digits < 0 then "-" else "";
    var a := Abs(r.digits);
    var whole := IntToString(WholePart(a, r.scale));
    var fraction := PadLeft(IntToString(FractionPart(a, r.scale)), r.scale);
    assert Numeral(r) == sign + whole + "." + fraction;
    Regroup(sign, whole, ".", fraction);
  }

  /** Sign, whole digits and `scale` fraction digits of a magnitude read back as
      the signed number. */
  lemma ReadBack(digits: int, sign: string, whole: string, fraction: string, w: nat, f: nat, scale: nat)
    requires sign == if digits < 0 then "-" else ""
    requires AllDecimalDigits(whole) && ParseDecimal(whole) == w
    requires AllDecimalDigits(fraction) && ParseDecimal(fraction) == f && |fraction| == scale
    requires w * Pow10(scale) + f == Abs(digits)
    ensures IsNumeral(sign + (whole + "." + fraction))
    ensures NumeralValue(sign + (whole + "." + fraction)) == digits as real / Pow10(scale) as real
  {
    NumeralOfParts(sign, whole, fraction);
    SplitValue(digits, w, f, Pow10(scale));
  }

  /** A numeral with a point reads back as its number. */
  lemma NumeralValueFraction(r: Decimal)
    requires r.scale > 0
    ensures IsNumeral(Numeral(r)) && NumeralValue(Numeral(r)) == Value(r)
  {
    var sign := if r.digits < 0 then "-" else "";
    var a := Abs(r.digits);
    var w, f := WholePart(a, r.scale), FractionPart(a, r.scale);
    var whole := IntToString(w);
    var fraction := PadLeft(IntToString(f), r.scale);
    NumeralSpelling(r);
    FractionDigits(a, r.scale);
    ParseIntToString(w);
    WholeFraction(a, r.scale);
    ReadBack(r.digits, sign, whole, fraction, w, f, r.scale);
  }

  lemma Regroup(s: string, t: string, u: string, v: string)
    ensures s + t + u + v == s + (t + u + v)
  {
  }

  lemma DigitCharNonZero(d: nat)
    requires 0 < d < 10
    ensures DigitChar(d) != '0'
  {
  }

  /** The last fraction digit of `a` is its last digit. */
  lemma FractionLastDigit(a: nat, scale: nat)
    requires scale > 0 && a % 10 != 0
    ensures PadLeft(IntToString(FractionPart(a, scale)), scale)[scale - 1] != '0'
  {
    FractionDigits(a, scale);
    DigitCharNonZero(a % 10);
  }

  lemma AbsLastDigit(x: int)
    requires x % 10 != 0
    ensures Abs(x) % 10 != 0
  {
  }

  lemma LastOfParts(sign: string, whole: string, fraction: string)
    requires |fraction| > 0
    ensures var s := sign + (whole + "." + fraction); s[|s| - 1] == fraction[|fraction| - 1]
  {
  }

  /** When the last digit of `r` is not 0, neither is its numeral's last character. */
  lemma NumeralLastDigit(r: Decimal)
    requires r.scale > 0 && r.digits % 10 != 0
    ensures Numeral(r)[|Numeral(r)| - 1] != '0'
  {
    var sign := if r.digits < 0 then "-" else "";
    var a := Abs(r.digits);
    var whole := IntToString(WholePart(a, r.scale));
    var fraction := PadLeft(IntToString(FractionPart(a, r.scale)), r.scale);
    NumeralSpelling(r);
    assert |fraction| == r.scale && fraction[r.scale - 1] != '0' by {
      FractionDigits(a, r.scale);
      AbsLastDigit(r.digits);
      FractionLastDigit(a, r.scale);
    }
    LastOfParts(sign, whole, fraction);
  }

  /** The whole part of a numeral is the printed whole part of its number. */
  lemma NumeralWholeDigits(r: Decimal)
    ensures NoLeadingZero(Numeral(r))
  {
    var sign := if r.digits < 0 then "-" else "";
    var a := Abs(r.digits);
    if r.scale == 0 {
      var whole := IntToString(a);
      assert Numeral(r) == sign + whole;
      SignedNumeral(sign, whole);
      assert PointIndex(whole) == |whole|;
      IntToStringLeadingZero(a);
    } else {
      var whole := IntToString(WholePart(a, r.scale));
      var fraction := PadLeft(IntToString(FractionPart(a, r.scale)), r.scale);
      var t := whole + "." + fraction;
      NumeralSpelling(r);
      assert t[0] == whole[0];
      SignedNumeral(sign, t);
      PointAfterWhole(whole, fraction);
      IntToStringLeadingZero(WholePart(a, r.scale));
    }
  }

  /** The printed form of `d` reads back as the number `d`; its whole part has
      no leading zero, and when it has a point its last digit is not a zero. */
  lemma RenderValue(d: Decimal)
    ensures IsNumeral(Render(d)) && NumeralValue(Render(d)) == Value(d)
    ensures NoLeadingZero(Render(d))
    ensures '.' in Render(d) ==> Render(d)[|Render(d)| - 1] != '0'
  {
    var r := Reduce(d);
    NumeralWholeDigits(r);
    if r.scale == 0 {
      NumeralValueWhole(r);
    } else {
      NumeralValueFraction(r);
      NumeralLastDigit(r);
    }
  }
}
