/**
  The PHP built-ins the colour service relies on, on byte strings (each `char`
  stands for one byte): `substr` with a non-negative offset, `hexdec`, and the
  conversion of a non-negative `int` to its decimal string.
 */
module PhpStrings {

  function Min(a: int, b: int): int { if a <= b then a else b }

  /** `substr($s, $start, $length)` for `$start >= 0`: at most `len` characters
      of `s` starting at `start`, and the empty string once `start` is at or
      past the end. */
  function Substr(s: string, start: nat, len: nat): (r: string)
    ensures |r| == if start >= |s| then 0 else Min(len, |s| - start)
    ensures forall k :: 0 <= k < |r| ==> r[k] == s[start + k]
  {
    if start >= |s| then []
    else if start + len <= |s| then s[start..start + len]
    else s[start..]
  }

  /** The character class `[0-9a-fA-F]`. */
  predicate IsHexDigit(c: char) {
    ('0' <= c <= '9') || ('a' <= c <= 'f') || ('A' <= c <= 'F')
  }

  /** The value of one hexadecimal digit, either case. */
  function HexDigitValue(c: char): (d: nat)
    requires IsHexDigit(c)
    ensures d < 16
  {
    if '0' <= c <= '9' then c as int - '0' as int
    else if 'a' <= c <= 'f' then c as int - 'a' as int + 10
    else c as int - 'A' as int + 10
  }

  /** The lower-case digit for a value below 16: the inverse of HexDigitValue. */
  function HexChar(d: nat): (c: char)
    requires d < 16
    ensures IsHexDigit(c) && HexDigitValue(c) == d
    ensures !('A' <= c <= 'F')
  {
    if d < 10 then ('0' as int + d) as char else ('a' as int + d - 10) as char
  }

  /** The sixteen digits in order of value, in each case. */
  const LowerDigits: string := "0123456789abcdef"
  const UpperDigits: string := "0123456789ABCDEF"

  /** Each digit is worth its place in the digit table, in either case, and
      HexChar spells a value with the lower-case table. */
  lemma HexDigitTable(d: nat)
    requires d < 16
    ensures IsHexDigit(LowerDigits[d]) && HexDigitValue(LowerDigits[d]) == d
    ensures IsHexDigit(UpperDigits[d]) && HexDigitValue(UpperDigits[d]) == d
    ensures HexChar(d) == LowerDigits[d]
  {
  }

  /** A digit with `A`-`F` lowered to `a`-`f`; other characters are kept. */
  function LowerHexDigit(c: char): char {
    if 'A' <= c <= 'F' then (c as int - 'A' as int + 'a' as int) as char else c
  }

  /** `hexdec` ignores case: lowering a digit keeps its value. */
  lemma LowerHexDigitValue(c: char)
    requires IsHexDigit(c)
    ensures IsHexDigit(LowerHexDigit(c)) && !('A' <= LowerHexDigit(c) <= 'F')
    ensures HexDigitValue(LowerHexDigit(c)) == HexDigitValue(c)
  {
  }

  function Pow16(n: nat): (p: nat)
    ensures p >= 1
  {
    if n == 0 then 1 else 16 * Pow16(n - 1)
  }

  /** `hexdec($s)`: reads `s` as a base-16 numeral, silently skipping every
      character that is not a hexadecimal digit (so `hexdec("")` is 0). */
  function HexDec(s: string): (n: nat)
    ensures n < Pow16(|s|)
  {
    if s == [] then 0
    else
      var c := s[|s| - 1];
      if IsHexDigit(c) then 16 * HexDec(s[..|s| - 1]) + HexDigitValue(c)
      else HexDec(s[..|s| - 1])
  }

  /** A string of at most two characters decodes to a byte value. */
  lemma HexDecShort(s: string)
    requires |s| <= 2
    ensures HexDec(s) < 256
  {
    assert Pow16(2) == 256;
    assert |s| == 0 || |s| == 1 || |s| == 2;
  }

  /** Two hexadecimal digits decode as high digit times 16 plus low digit. */
  lemma HexDecPair(hi: char, lo: char)
    requires IsHexDigit(hi) && IsHexDigit(lo)
    ensures HexDec([hi, lo]) == 16 * HexDigitValue(hi) + HexDigitValue(lo)
  {
    assert [hi, lo][..1] == [hi];
    assert [hi][..0] == [];
  }

  /** Encoding a byte as two lower-case digits and decoding it gives it back. */
  lemma HexDecOfByte(n: nat)
    requires n < 256
    ensures HexDec([HexChar(n / 16), HexChar(n % 16)]) == n
  {
    HexDecPair(HexChar(n / 16), HexChar(n % 16));
  }

  predicate IsDecimalDigit(c: char) { '0' <= c <= '9' }

  predicate AllDecimalDigits(s: string) {
    forall k :: 0 <= k < |s| ==> IsDecimalDigit(s[k])
  }

  function DigitChar(d: nat): (c: char)
    requires d < 10
    ensures IsDecimalDigit(c) && c as int - '0' as int == d
  {
    ('0' as int + d) as char
  }

  /** PHP's string form of a non-negative `int`: its decimal digits, with no
      leading zero except for 0 itself. */
  function IntToString(n: nat): (s: string)
    ensures |s| >= 1 && AllDecimalDigits(s)
    ensures s[0] == '0' ==> n == 0
    decreases n
  {
    if n < 10 then [DigitChar(n)] else IntToString(n / 10) + [DigitChar(n % 10)]
  }

  /** The value of a string of decimal digits (0 for the empty string). */
  function ParseDecimal(s: string): nat
    requires AllDecimalDigits(s)
  {
    if s == [] then 0
    else 10 * ParseDecimal(s[..|s| - 1]) + (s[|s| - 1] as int - '0' as int)
  }

  /** A run of zeros reads as 0. */
  lemma {:induction false} ParseZeros(z: string)
    requires forall k :: 0 <= k < |z| ==> z[k] == '0'
    ensures AllDecimalDigits(z) && ParseDecimal(z) == 0
    decreases |z|
  {
    if z != [] {
      ParseZeros(z[..|z| - 1]);
    }
  }

  /** Zeros in front of a digit string do not change its value. */
  lemma {:induction false} ParseLeadingZeros(z: string, s: string)
    requires forall k :: 0 <= k < |z| ==> z[k] == '0'
    requires AllDecimalDigits(s)
    ensures AllDecimalDigits(z + s) && ParseDecimal(z + s) == ParseDecimal(s)
    decreases |s|
  {
    ParseZeros(z);
    if s == [] {
      assert z + s == z;
    } else {
      ParseLeadingZeros(z, s[..|s| - 1]);
      assert (z + s)[..|z + s| - 1] == z + s[..|s| - 1];
    }
  }

  /** Reading back the decimal string of `n` gives `n`. */
  lemma {:induction false} ParseIntToString(n: nat)
    ensures ParseDecimal(IntToString(n)) == n
    decreases n
  {
    var s := IntToString(n);
    if n < 10 {
      assert s[..0] == [];
    } else {
      ParseIntToString(n / 10);
      assert s[..|s| - 1] == IntToString(n / 10);
    }
  }

  /** Only 0 itself prints starting with a zero. */
  lemma IntToStringLeadingZero(n: nat)
    ensures IntToString(n)[0] == '0' ==> IntToString(n) == "0"
  {
  }

  /** A value below 1000 prints in at most three digits. */
  lemma {:induction false} IntToStringLength(n: nat)
    requires n < 1000
    ensures 1 <= |IntToString(n)| <= 3
  {
    if n >= 10 {
      assert |IntToString(n)| == |IntToString(n / 10)| + 1;
      if n / 10 >= 10 {
        assert |IntToString(n / 10)| == |IntToString(n / 100)| + 1;
        assert n / 10 / 10 == n / 100 < 10;
      }
    }
  }
}
