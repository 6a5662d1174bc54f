/**
  The service object `App\Services\ColorConvertService`: it holds the colour
  and the alpha value, and `hexToRgba` updates both in place (the hash is
  stripped, the alpha is cast to a float) before formatting them.
 */
module Services {
  import opened PhpStrings
  import opened Decimals
  import opened Rgba

  class ColorConvertService {
    /** The colour lengths the service accepts. */
    static const AvailableLength: set<int> := {3, 6}

    var hex: string
    var alpha: Alpha

    constructor (hex: string, alpha: Alpha)
      ensures this.hex == hex && this.alpha == alpha
    {
      this.hex := hex;
      this.alpha := alpha;
    }

    /** Strips the hash, checks the colour, casts and checks alpha, and formats:
        the same answer as the reference conversion of the initial values. */
    method HexToRgba() returns (r: Result<string>)
      modifies this
      ensures r == Convert(old(hex), old(alpha))
      ensures hex == StripHash(old(hex))
      ensures alpha == if ValidHex(hex) then Number(old(alpha).number) else old(alpha)
    {
      CleanHash();
      var valid := IsValidHex();
      if valid.Fail? {
        return Err(valid.error);
      }
      var inRange := ConvertAlphaToFloat();
      if inRange.Fail? {
        return Err(inRange.error);
      }
      var rgba := ConvertHexToRgba();
      return Ok(rgba);
    }

    /** Casts alpha to a float, which keeps its number and drops its spelling,
        then throws unless it lies in [0, 1]. */
    method ConvertAlphaToFloat() returns (o: Outcome)
      modifies this
      ensures hex == old(hex) && alpha == Number(old(alpha).number)
      ensures o == Pass <==> InUnitInterval(Value(alpha.number))
      ensures o != Pass ==> o == Fail(AlphaRange)
    {
      alpha := Number(alpha.number);
      if AlphaIsValid() {
        return Pass;
      }
      return Fail(AlphaRange);
    }

    /** Whether the numeric alpha is between 0 and 1, both ends included. */
    function AlphaIsValid(): (valid: bool)
      reads this
      ensures valid <==> InUnitInterval(Value(alpha.number))
    {
      var x := Value(alpha.number);
      x >= 0.0 && x <= 1.0
    }

    /** Removes one leading hash, if there is one. */
    method CleanHash()
      modifies this
      ensures hex == StripHash(old(hex)) && alpha == old(alpha)
    {
      if Substr(hex, 0, 1) == [Hash] {
        // substr($hex, 1): no length means up to the end
        hex := Substr(hex, 1, |hex|);
      }
    }

    /** The length check, then the character check: a colour that is wrong in
        both ways reports its length. */
    function IsValidHex(): (o: Outcome)
      reads this
      ensures o == Pass <==> ValidHex(hex)
      ensures !ValidLength(hex) ==> o == Fail(HexLength)
      ensures ValidLength(hex) && !AllHexDigits(hex) ==> o == Fail(HexChars)
    {
      match IsValidLength()
      case Fail(e) => Fail(e)
      case Pass => IsValidDeclaration()
    }

    function IsValidLength(): (o: Outcome)
      reads this
      ensures o == Pass <==> |hex| == 3 || |hex| == 6
      ensures o != Pass ==> o == Fail(HexLength)
    {
      if |hex| in AvailableLength then Pass else Fail(HexLength)
    }

    /** The pattern `^[0-9a-fA-F]+$`: one or more hexadecimal digits and
        nothing else (see module HexPattern for what PCRE makes of the `$`). */
    function IsValidDeclaration(): (o: Outcome)
      reads this
      ensures o == Pass <==> |hex| > 0 && AllHexDigits(hex)
      ensures o != Pass ==> o == Fail(HexChars)
    {
      if |hex| >= 1 && AllHexDigits(hex) then Pass
      else Fail(HexChars)
    }

    /** The three channels in order 1, 2, 3, then the alpha as it is held; the
        string reads back as those four fields, whatever the colour. */
    function ConvertHexToRgba(): (s: string)
      reads this
      ensures ValidHex(hex) ==>
        s == FormatRgba(Channel(hex, 1), Channel(hex, 2), Channel(hex, 3), AlphaString(alpha))
      ensures ParseRgba(s) == Some(Fields(HexToInteger(1), HexToInteger(2), HexToInteger(3), AlphaString(alpha)))
    {
      var s := "rgba(" + IntToString(HexToInteger(1)) + "," + IntToString(HexToInteger(2)) + ","
        + IntToString(HexToInteger(3)) + "," + AlphaString(alpha) + ")";
      ParseFormat(HexToInteger(1), HexToInteger(2), HexToInteger(3), AlphaString(alpha));
      s
    }

    /** Channel `channel` as `hexdec` reads it: the doubled character for a
        three-character colour, otherwise the two characters at 2*channel-2.
        Always a byte; on a valid colour, the reference channel. */
    function HexToInteger(channel: int): (n: nat)
      reads this
      requires channel >= 1
      ensures n < 256
      ensures ValidHex(hex) && channel <= 3 ==> n == Channel(hex, channel)
    {
      if |hex| == 3 then
        var character := Substr(hex, channel - 1, 1);
        var pair := character + character;
        HexDecShort(pair);
        ChannelOfShort(hex, channel, character, pair);
        HexDec(pair)
      else
        var pair := Substr(hex, channel * 2 - 2, 2);
        HexDecShort(pair);
        ChannelOfLong(hex, channel, pair);
        HexDec(pair)
    }
  }

  lemma ChannelOfShort(h: string, i: int, character: string, pair: string)
    requires |h| == 3 && i >= 1
    requires character == Substr(h, i - 1, 1) && pair == character + character
    ensures ValidHex(h) && i <= 3 ==> HexDec(pair) == Channel(h, i)
  {
    if ValidHex(h) && i <= 3 {
      assert character == [h[i - 1]];
      assert pair == [h[i - 1], h[i - 1]];
      HexDecPair(h[i - 1], h[i - 1]);
    }
  }

  lemma ChannelOfLong(h: string, i: int, pair: string)
    requires |h| != 3 && i >= 1 && pair == Substr(h, i * 2 - 2, 2)
    ensures ValidHex(h) && i <= 3 ==> HexDec(pair) == Channel(h, i)
  {
    if ValidHex(h) && i <= 3 {
      assert pair == [h[2 * i - 2], h[2 * i - 1]];
      HexDecPair(h[2 * i - 2], h[2 * i - 1]);
    }
  }
}
