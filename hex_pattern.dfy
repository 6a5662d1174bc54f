/**
  The colour pattern `/^[0-9a-fA-F]+$/s` as PCRE evaluates it. Without the `D`
  modifier, `$` matches at the very end of the subject and also just before a
  final line feed, so one trailing "\n" slips through the character check.
 */
module HexPattern {
  import opened PhpStrings
  import opened Rgba

  /** Whether `preg_match` finds the pattern in `s`. */
  function MatchesAsWritten(s: string): (matched: bool)
    ensures |s| > 0 && AllHexDigits(s) ==> matched
  {
    (|s| > 0 && AllHexDigits(s))
      || (|s| > 1 && s[|s| - 1] == '\n' && AllHexDigits(s[..|s| - 1]))
  }

  /** "12312\n" has six characters and matches, so the code as written lets it
      through both checks, and `hexdec` then reads the last pair "2\n" as 2: the
      result would be rgba(18,49,2,...). The intended rule rejects it. */
  lemma TrailingLineFeedAccepted()
    ensures var h := "12312\n";
      |h| == 6 && MatchesAsWritten(h) && !AllHexDigits(h)
      && HexDec(h[..2]) == 18 && HexDec(h[2..4]) == 49 && HexDec(h[4..]) == 2
    ensures forall alpha :: Convert("12312\n", alpha) == Err(HexChars)
  {
    var h := "12312\n";
    assert h[..5] == "12312";
    assert AllHexDigits(h[..5]) by {
      forall k | 0 <= k < 5 ensures IsHexDigit(h[k]) { }
    }
    assert !IsHexDigit(h[5]);
    assert h[..2] == "12" && h[2..4] == "31" && h[4..] == "2\n";
    HexDecPair('1', '2');
    HexDecPair('3', '1');
    assert "2\n"[..1] == "2";
    assert "2"[..0] == [];
  }
}
