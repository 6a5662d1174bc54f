/**
  The reference meaning of the colour conversion: what `hexToRgba` accepts,
  which error it reports, and the `rgba(r,g,b,a)` string it returns, stated
  on values. The class in module Services is proved to agree with it.
 */
module Rgba {
  import opened PhpStrings
  import opened Decimals

  /** The three exceptions the service throws. */
  datatype Error = HexLength | HexChars | AlphaRange

  /** The message each exception carries. */
  function Message(e: Error): string {
    match e
    case HexLength => "Hex length is not valid."
    case HexChars => "Hex value is not valid."
    case AlphaRange => "Alpha is between 0 and 1"
  }

  /** The message tells which check failed. */
  lemma MessageIdentifies(e: Error, e': Error)
    requires Message(e) == Message(e')
    ensures e == e'
  {
  }

  /** A check that returns normally or throws. */
  datatype Outcome = Pass | Fail(error: Error)

  datatype Result<T> = Ok(value: T) | Err(error: Error)

  datatype Option<T> = None | Some(value: T)

  /** The alpha value as PHP holds it: a string as the caller passed it, with
      the number PHP's `(float)` cast reads from it, or a number (int or float). */
  datatype Alpha = Text(text: string, number: Decimal) | Number(number: Decimal)

  /** What PHP's string concatenation writes for the alpha value. */
  function AlphaString(a: Alpha): (s: string)
    ensures a.Text? ==> s == a.text
    ensures a.Number? ==> IsNumeral(s) && NumeralValue(s) == Value(a.number)
  {
    match a
    case Text(t, _) => t
    case Number(d) => RenderValue(d); Render(d)
  }

  const Hash: char := '#'

  predicate ValidLength(h: string) { |h| == 3 || |h| == 6 }

  predicate AllHexDigits(h: string) {
    forall k :: 0 <= k < |h| ==> IsHexDigit(h[k])
  }

  /** A colour after the hash is gone: 3 or 6 hexadecimal digits. */
  predicate ValidHex(h: string) { ValidLength(h) && AllHexDigits(h) }

  /** The accepted alpha range, closed at both ends. */
  predicate InUnitInterval(x: real) { 0.0 <= x <= 1.0 }

  /** The colour without its one optional leading hash. */
  function StripHash(hex: string): (h: string)
    ensures |hex| > 0 && hex[0] == Hash ==> [Hash] + h == hex
    ensures |hex| == 0 || hex[0] != Hash ==> h == hex
  {
    if |hex| > 0 && hex[0] == Hash then hex[1..] else hex
  }

  /** Channel `i` (1 red, 2 green, 3 blue) of a valid colour: the doubled digit
      for the short form, the digit pair for the long form. */
  function Channel(h: string, i: int): (c: nat)
    requires ValidHex(h) && 1 <= i <= 3
    ensures c < 256
  {
    if |h| == 3 then 17 * HexDigitValue(h[i - 1])
    else 16 * HexDigitValue(h[2 * i - 2]) + HexDigitValue(h[2 * i - 1])
  }

  /** The join of `rgba(`, the three channels and the alpha; it reads back as
      those four fields (ParseFormat). */
  function FormatRgba(r: nat, g: nat, b: nat, alpha: string): (s: string)
    ensures |s| >= 12 + |alpha|
  {
    "rgba(" + IntToString(r) + "," + IntToString(g) + "," + IntToString(b) + "," + alpha + ")"
  }

  /** The whole conversion: strip the hash, check the length, then the digits,
      then the alpha range, and format the three channels and the alpha. */
  function Convert(hex: string, alpha: Alpha): (r: Result<string>)
    ensures !ValidLength(StripHash(hex)) <==> r == Err(HexLength)
    ensures ValidLength(StripHash(hex)) && !AllHexDigits(StripHash(hex)) <==> r == Err(HexChars)
    ensures ValidHex(StripHash(hex)) && !InUnitInterval(Value(alpha.number)) <==> r == Err(AlphaRange)
    ensures r.Ok? <==> ValidHex(StripHash(hex)) && InUnitInterval(Value(alpha.number))
  {
    var h := StripHash(hex);
    if !ValidLength(h) then Err(HexLength)
    else if !AllHexDigits(h) then Err(HexChars)
    else if !InUnitInterval(Value(alpha.number)) then Err(AlphaRange)
    else Ok(FormatRgba(Channel(h, 1), Channel(h, 2), Channel(h, 3), Render(alpha.number)))
  }

  // ---------------------------------------------------------------------
  // Hash stripping

  /** Exactly one hash goes: "#123123" gives "123123", "##abc" gives "#abc". */
  lemma StripHashOnce(h: string)
    ensures StripHash([Hash] + h) == h
  {
    assert ([Hash] + h)[1..] == h;
  }

  lemma StripHashExamples()
    ensures StripHash("#123123") == "123123"
    ensures StripHash("123123") == "123123"
    ensures StripHash("##abc") == "#abc"
  {
    StripHashOnce("123123");
    StripHashOnce("#abc");
  }

  /** A leading hash does not change the result. */
  lemma HashPrefixInvariance(h: string, alpha: Alpha)
    requires |h| == 0 || h[0] != Hash
    ensures Convert([Hash] + h, alpha) == Convert(h, alpha)
  {
    StripHashOnce(h);
  }

  // ---------------------------------------------------------------------
  // Channels

  /** The long form spelling out a short colour: "abc" becomes "aabbcc". */
  function Expand(h: string): (e: string)
    requires |h| == 3
    ensures |e| == 6 && forall k :: 0 <= k < 6 ==> e[k] == h[k / 2]
  {
    [h[0], h[0], h[1], h[1], h[2], h[2]]
  }

  /** A short colour has the channels of its long spelling. */
  lemma ShorthandExpansion(h: string, alpha: Alpha)
    requires ValidHex(h) && |h| == 3
    ensures ValidHex(Expand(h))
    ensures forall i :: 1 <= i <= 3 ==> Channel(h, i) == Channel(Expand(h), i)
    ensures h[0] != Hash ==> Convert(h, alpha) == Convert(Expand(h), alpha)
  {
    var e := Expand(h);
    assert AllHexDigits(e) by {
      forall k | 0 <= k < 6 ensures IsHexDigit(e[k]) { assert e[k] == h[k / 2]; }
    }
    assert e[0] != Hash;
  }

  /** The lower-case six-digit spelling of a colour. */
  function Encode(r: nat, g: nat, b: nat): (h: string)
    requires r < 256 && g < 256 && b < 256
    ensures |h| == 6
  {
    [HexChar(r / 16), HexChar(r % 16), HexChar(g / 16), HexChar(g % 16), HexChar(b / 16), HexChar(b % 16)]
  }

  /** Decoding the spelling of a colour gives the colour back. */
  lemma DecodeEncode(r: nat, g: nat, b: nat)
    requires r < 256 && g < 256 && b < 256
    ensures ValidHex(Encode(r, g, b))
    ensures Channel(Encode(r, g, b), 1) == r
    ensures Channel(Encode(r, g, b), 2) == g
    ensures Channel(Encode(r, g, b), 3) == b
  {
    var h := Encode(r, g, b);
    assert AllHexDigits(h) by {
      forall k | 0 <= k < 6 ensures IsHexDigit(h[k]) { }
    }
  }

  /** And spelling the channels of a lower-case six-digit colour gives it back. */
  lemma EncodeDecode(h: string)
    requires ValidHex(h) && |h| == 6
    requires forall k :: 0 <= k < 6 ==> !('A' <= h[k] <= 'F')
    ensures Encode(Channel(h, 1), Channel(h, 2), Channel(h, 3)) == h
  {
    PairRoundTrip(h[0], h[1]);
    PairRoundTrip(h[2], h[3]);
    PairRoundTrip(h[4], h[5]);
  }

  /** The colour with its upper-case digits lowered. */
  function LowerCase(h: string): (l: string)
    ensures (forall k :: 0 <= k < |h| ==> !('A' <= h[k] <= 'F')) ==> l == h
  {
    seq(|h|, k requires 0 <= k < |h| => LowerHexDigit(h[k]))
  }

  /** Case does not matter: a valid colour and its lower-case spelling have the
      same channels and convert to the same result. */
  lemma CaseInsensitive(h: string, alpha: Alpha)
    requires ValidHex(h)
    ensures ValidHex(LowerCase(h))
    ensures forall i :: 1 <= i <= 3 ==> Channel(LowerCase(h), i) == Channel(h, i)
    ensures Convert(LowerCase(h), alpha) == Convert(h, alpha)
  {
    var l := LowerCase(h);
    forall k | 0 <= k < |h|
      ensures IsHexDigit(l[k]) && HexDigitValue(l[k]) == HexDigitValue(h[k])
    {
      LowerHexDigitValue(h[k]);
    }
    assert StripHash(h) == h && StripHash(l) == l;
  }

  /** Every valid six-digit colour spells its channels, up to case. */
  lemma EncodeDecodeAnyCase(h: string)
    requires ValidHex(h) && |h| == 6
    ensures Encode(Channel(h, 1), Channel(h, 2), Channel(h, 3)) == LowerCase(h)
  {
    var l := LowerCase(h);
    CaseInsensitive(h, Number(Decimal(0, 0)));
    forall k | 0 <= k < 6 ensures !('A' <= l[k] <= 'F') {
      LowerHexDigitValue(h[k]);
    }
    EncodeDecode(l);
  }

  /** A lower-case digit pair is the spelling of the byte it decodes to. */
  lemma PairRoundTrip(hi: char, lo: char)
    requires IsHexDigit(hi) && !('A' <= hi <= 'F')
    requires IsHexDigit(lo) && !('A' <= lo <= 'F')
    ensures var n := 16 * HexDigitValue(hi) + HexDigitValue(lo);
      HexChar(n / 16) == hi && HexChar(n % 16) == lo
  {
    var n := 16 * HexDigitValue(hi) + HexDigitValue(lo);
    assert n / 16 == HexDigitValue(hi) && n % 16 == HexDigitValue(lo);
    LowerHexDigitRoundTrip(hi);
    LowerHexDigitRoundTrip(lo);
  }

  lemma LowerHexDigitRoundTrip(c: char)
    requires IsHexDigit(c) && !('A' <= c <= 'F')
    ensures HexChar(HexDigitValue(c)) == c
  {
  }

  // ---------------------------------------------------------------------
  // The output string

  /** The fields of an `rgba(r,g,b,a)` string. */
  datatype Fields = Fields(red: nat, green: nat, blue: nat, alpha: string)

  /** Splits at the first comma. */
  function SplitComma(s: string): (r: Option<(string, string)>)
    ensures r.Some? ==> s == r.value.0 + [','] + r.value.1 && ',' !in r.value.0
    ensures r.None? ==> ',' !in s
  {
    if s == [] then None
    else if s[0] == ',' then Some(([], s[1..]))
    else
      match SplitComma(s[1..])
      case None => None
      case Some(pq) => Some(([s[0]] + pq.0, pq.1))
  }

  lemma {:induction false} SplitCommaAt(p: string, q: string)
    requires ',' !in p
    ensures SplitComma(p + [','] + q) == Some((p, q))
  {
    if p != [] {
      SplitCommaAt(p[1..], q);
      assert (p + [','] + q)[1..] == p[1..] + [','] + q;
      assert [p[0]] + p[1..] == p;
    } else {
      assert (p + [','] + q)[1..] == q;
    }
  }

  /** A decimal channel field: one or more digits. */
  function ParseChannel(s: string): Option<nat> {
    if s != [] && AllDecimalDigits(s) then Some(ParseDecimal(s)) else None
  }

  /** Reads the fields back from an `rgba(r,g,b,a)` string; the alpha field is
      everything after the third comma. */
  function ParseRgba(s: string): Option<Fields> {
    if |s| < 6 || s[..5] != "rgba(" || s[|s| - 1] != ')' then None
    else ParseFields(s[5..|s| - 1])
  }

  /** Reads `r,g,b,a` between the parentheses. */
  function ParseFields(body: string): Option<Fields> {
    match SplitComma(body)
    case None => None
    case Some(f1) =>
      match SplitComma(f1.1)
      case None => None
      case Some(f2) =>
        match SplitComma(f2.1)
        case None => None
        case Some(f3) =>
          match (ParseChannel(f1.0), ParseChannel(f2.0), ParseChannel(f3.0))
          case (Some(r), Some(g), Some(b)) => Some(Fields(r, g, b, f3.1))
          case _ => None
  }

  lemma NoCommaInDigits(n: nat)
    ensures ',' !in IntToString(n)
  {
  }

  lemma ParseChannelOfString(n: nat)
    ensures ParseChannel(IntToString(n)) == Some(n)
  {
    ParseIntToString(n);
  }

  lemma ParseFieldsOf(r: nat, g: nat, b: nat, alpha: string)
    ensures ParseFields(IntToString(r) + [','] + (IntToString(g) + [','] + (IntToString(b) + [','] + alpha)))
      == Some(Fields(r, g, b, alpha))
  {
    var rs, gs, bs := IntToString(r), IntToString(g), IntToString(b);
    NoCommaInDigits(r);
    NoCommaInDigits(g);
    NoCommaInDigits(b);
    SplitCommaAt(rs, gs + [','] + (bs + [','] + alpha));
    SplitCommaAt(gs, bs + [','] + alpha);
    SplitCommaAt(bs, alpha);
    ParseChannelOfString(r);
    ParseChannelOfString(g);
    ParseChannelOfString(b);
  }

  /** The formatted string reads back as the fields it was made from. */
  lemma ParseFormat(r: nat, g: nat, b: nat, alpha: string)
    ensures ParseRgba(FormatRgba(r, g, b, alpha)) == Some(Fields(r, g, b, alpha))
  {
    var rs, gs, bs := IntToString(r), IntToString(g), IntToString(b);
    var s := FormatRgba(r, g, b, alpha);
    var body := rs + [','] + (gs + [','] + (bs + [','] + alpha));
    assert s == "rgba(" + body + ")";
    assert s[..5] == "rgba(";
    assert s[5..|s| - 1] == body;
    ParseFieldsOf(r, g, b, alpha);
  }

  /** A successful conversion reads back as the decoded channels, each printed
      in one to three digits, and the printed alpha. */
  lemma OutputFields(hex: string, alpha: Alpha)
    requires Convert(hex, alpha).Ok?
    ensures var h := StripHash(hex);
      ParseRgba(Convert(hex, alpha).value)
        == Some(Fields(Channel(h, 1), Channel(h, 2), Channel(h, 3), Render(alpha.number)))
    ensures var h := StripHash(hex);
      forall i :: 1 <= i <= 3 ==> 1 <= |IntToString(Channel(h, i))| <= 3
  {
    var h := StripHash(hex);
    ParseFormat(Channel(h, 1), Channel(h, 2), Channel(h, 3), Render(alpha.number));
    forall i | 1 <= i <= 3 ensures 1 <= |IntToString(Channel(h, i))| <= 3 {
      IntToStringLength(Channel(h, i));
    }
  }

  // ---------------------------------------------------------------------
  // The unit tests' inputs and outputs

  lemma RenderPointFour()
    ensures Render(Decimal(4, 1)) == "0.4"
  {
    var d := Decimal(4, 1);
    assert Reduce(d) == d;
    NumeralSpelling(d);
    assert WholePart(4, 1) == 0 && FractionPart(4, 1) == 4;
    assert IntToString(0) == "0" && IntToString(4) == "4";
    assert PadLeft("4", 1) == "4";
  }

  lemma RenderOne()
    ensures Render(Decimal(1, 0)) == "1"
  {
    assert Reduce(Decimal(1, 0)) == Decimal(1, 0);
    assert IntToString(1) == "1";
  }

  lemma PointFourValue()
    ensures Value(Decimal(40, 2)) == Value(Decimal(4, 1))
  {
    assert Pow10(1) == 10 && Pow10(2) == 100;
    assert 40.0 / 100.0 == 4.0 / 10.0;
  }

  /** The printed alpha of the examples: ".4" prints as "0.4", "1" as "1". */
  lemma RenderExamples()
    ensures Render(Decimal(4, 1)) == "0.4"
    ensures Render(Decimal(40, 2)) == "0.4"
    ensures Render(Decimal(1, 0)) == "1"
  {
    RenderPointFour();
    PointFourValue();
    RenderCanonical(Decimal(40, 2), Decimal(4, 1));
    RenderOne();
  }

  /** What an accepted input converts to. */
  lemma ConvertAccepted(hex: string, alpha: Alpha)
    requires ValidHex(StripHash(hex)) && InUnitInterval(Value(alpha.number))
    ensures var h := StripHash(hex);
      Convert(hex, alpha) == Ok(FormatRgba(Channel(h, 1), Channel(h, 2), Channel(h, 3), Render(alpha.number)))
  {
  }

  lemma ChannelsOf123123()
    ensures ValidHex("123123")
    ensures Channel("123123", 1) == 18 && Channel("123123", 2) == 49 && Channel("123123", 3) == 35
  {
    var h := "123123";
    assert AllHexDigits(h) by {
      forall k | 0 <= k < 6 ensures IsHexDigit(h[k]) { }
    }
  }

  lemma IntToStringExamples()
    ensures IntToString(0) == "0" && IntToString(18) == "18" && IntToString(49) == "49"
    ensures IntToString(35) == "35" && IntToString(255) == "255"
  {
    assert IntToString(1) == "1" && IntToString(4) == "4" && IntToString(3) == "3";
    assert IntToString(25) == "25";
  }

  /** The output strings of the examples. */
  lemma FormatExamples()
    ensures FormatRgba(18, 49, 35, "0.4") == "rgba(18,49,35,0.4)"
    ensures FormatRgba(18, 49, 35, "1") == "rgba(18,49,35,1)"
    ensures FormatRgba(0, 0, 0, "1") == "rgba(0,0,0,1)"
    ensures FormatRgba(255, 255, 255, "1") == "rgba(255,255,255,1)"
  {
    IntToStringExamples();
  }

  /** The service's own example: "#123123" with alpha ".4". */
  lemma ConversionExample123123()
    ensures Convert("#123123", Text(".4", Decimal(4, 1))) == Ok("rgba(18,49,35,0.4)")
  {
    var hex, a := "#123123", Text(".4", Decimal(4, 1));
    assert Convert(hex, a) == Ok(FormatRgba(18, 49, 35, Render(a.number))) by {
      assert hex == [Hash] + "123123";
      StripHashOnce("123123");
      ChannelsOf123123();
      ConvertAccepted(hex, a);
    }
    assert Render(a.number) == "0.4" by { RenderPointFour(); }
    assert FormatRgba(18, 49, 35, "0.4") == "rgba(18,49,35,0.4)" by { FormatExamples(); }
  }

  lemma ConversionExample123123NoHash()
    ensures Convert("123123", Text("1", Decimal(1, 0))) == Ok("rgba(18,49,35,1)")
  {
    var hex, a := "123123", Text("1", Decimal(1, 0));
    assert Convert(hex, a) == Ok(FormatRgba(18, 49, 35, Render(a.number))) by {
      assert StripHash(hex) == hex;
      ChannelsOf123123();
      ConvertAccepted(hex, a);
    }
    assert Render(a.number) == "1" by { RenderOne(); }
    assert FormatRgba(18, 49, 35, "1") == "rgba(18,49,35,1)" by { FormatExamples(); }
  }

  /** "000000" gives channels 0, "fff" gives channels 255. */
  lemma ConversionExampleBlack()
    ensures Convert("000000", Text("1", Decimal(1, 0))) == Ok("rgba(0,0,0,1)")
  {
    var hex, a := "000000", Text("1", Decimal(1, 0));
    assert Convert(hex, a) == Ok(FormatRgba(0, 0, 0, Render(a.number))) by {
      assert StripHash(hex) == hex;
      assert AllHexDigits(hex) by {
        forall k | 0 <= k < 6 ensures IsHexDigit(hex[k]) { }
      }
      ConvertAccepted(hex, a);
      assert Channel(hex, 1) == 0 && Channel(hex, 2) == 0 && Channel(hex, 3) == 0;
    }
    assert Render(a.number) == "1" by { RenderOne(); }
    assert FormatRgba(0, 0, 0, "1") == "rgba(0,0,0,1)" by { FormatExamples(); }
  }

  lemma ConversionExampleWhite()
    ensures Convert("fff", Text("1", Decimal(1, 0))) == Ok("rgba(255,255,255,1)")
  {
    var hex, a := "fff", Text("1", Decimal(1, 0));
    assert Convert(hex, a) == Ok(FormatRgba(255, 255, 255, Render(a.number))) by {
      assert StripHash(hex) == hex;
      assert AllHexDigits(hex) by {
        forall k | 0 <= k < 3 ensures IsHexDigit(hex[k]) { }
      }
      ConvertAccepted(hex, a);
      assert Channel(hex, 1) == 255 && Channel(hex, 2) == 255 && Channel(hex, 3) == 255;
    }
    assert Render(a.number) == "1" by { RenderOne(); }
    assert FormatRgba(255, 255, 255, "1") == "rgba(255,255,255,1)" by { FormatExamples(); }
  }

  lemma ConversionExampleErrors()
    ensures Convert("123GGG", Text(".3", Decimal(3, 1))) == Err(HexChars)
    ensures Convert("12312", Text(".3", Decimal(3, 1))) == Err(HexLength)
    ensures Convert("12G12", Text("2", Decimal(2, 0))) == Err(HexLength)
  {
    assert !IsHexDigit("123GGG"[3]);
  }

  /** Alpha 0, 1, .3 and 0.4 pass; 2, -1, 1.0001 and -0.0001 do not. */
  lemma AlphaExamples()
    ensures InUnitInterval(Value(Decimal(0, 0))) && InUnitInterval(Value(Decimal(1, 0)))
    ensures InUnitInterval(Value(Decimal(3, 1))) && InUnitInterval(Value(Decimal(4, 1)))
    ensures !InUnitInterval(Value(Decimal(2, 0))) && !InUnitInterval(Value(Decimal(-1, 0)))
    ensures !InUnitInterval(Value(Decimal(10001, 4))) && !InUnitInterval(Value(Decimal(-1, 4)))
  {
  }
}
