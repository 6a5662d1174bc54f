# Hex colour to `rgba()` conversion, in Dafny

This project models `App\Services\ColorConvertService` from a small Laravel
application. The service takes a hex colour (three or six hexadecimal digits,
optionally with a leading `#`) and an alpha value, and returns the string
`rgba(r,g,b,a)`. If it cannot, it throws one of three exceptions. Its entry
point `hexToRgba` runs these steps in order:

1. it strips one leading `#` from the colour (`cleanHash`), in place;
2. it checks the length (3 or 6), and then the characters (`isValidHex`);
3. it casts alpha to a float in place and checks that it lies in [0, 1]
   (`convertAlphaToFloat`);
4. it decodes the three channels (`hexToInteger`) and formats the string
   (`convertHexToRgba`).

The files:

- `php_strings.dfy` (module `PhpStrings`) models the PHP built-ins the
  service uses: `substr` with a non-negative offset, `hexdec` (which skips
  characters that are not hex digits), and PHP's decimal string form of an
  `int`. The lemmas prove that decoding reverses encoding.
- `decimals.dfy` (module `Decimals`) holds the numeric value of alpha as a
  finite decimal `digits * 10^-scale`. It models PHP's printing of that
  number as the shortest decimal numeral. It proves that the printed form
  depends on the value only, so `.4` and `0.40` both print `0.4`.
- `rgba.dfy` (module `Rgba`) is the reference meaning, written on values:
  - the error kinds, and the `Alpha` value as PHP holds it;
  - `StripHash`, `Channel` and the whole conversion `Convert`, with its error
    precedence;
  - hash-prefix invariance, and that a short colour equals its long spelling;
  - encode/decode round trips, and a parser that reads the output string
    back;
  - the unit tests' input/output pairs.
- `services.dfy` (module `Services`) is the class `ColorConvertService`,
  with the fields `hex` and `alpha`:
  - `CleanHash` and `ConvertAlphaToFloat` update the fields in place;
  - the read-only checks and decoders are functions that read the object;
  - `HexToRgba` is proved to return exactly `Rgba.Convert` of the initial
    field values.
- `hex_pattern.dfy` (module `HexPattern`) gives the colour regular
  expression as PCRE actually applies it (see Findings).

Exceptions are modelled as values. A check returns `Outcome` (`Pass` or
`Fail(error)`), and the conversion returns `Result` (`Ok(string)` or
`Err(error)`). The errors are `HexLength`, `HexChars` and `AlphaRange`, for
the exceptions thrown at lines 92, 105 and 49 of the service.

The alpha field is `Text(text, number)` when the caller passed a string, and
`Number(number)` when the caller passed an int or a float. `number` is the
value PHP's `(float)` cast reads from the text. The caller supplies it,
because the cast's numeric-string rules are not modelled. Before the cast,
PHP concatenates the string exactly as it was passed. After the cast, PHP
concatenates the printed number. The model keeps this difference:
`convertHexToRgba` called on a fresh object prints the text `'1'` as it was
passed.

Strings are byte strings: each `char` stands for one byte, as PHP's
`strlen` and `substr` count them.

Two features of the code shape the model:

- the object is rewritten in place: `cleanHash` replaces the colour and
  `convertAlphaToFloat` replaces alpha. The model has both the class and the
  pure `Rgba.Convert`, and proves that they agree;
- a string alpha is printed verbatim until `convertAlphaToFloat` has run.
  Only after that is the printed number used.

In one place the model follows the intended rule instead of the code. The
colour pattern on line 13 also accepts one final line feed (see
"## Findings").
`Services.ColorConvertService.IsValidDeclaration` models the intended rule:
hexadecimal digits only. Module `HexPattern` models the pattern as PCRE
applies it. The other differences are abstractions, listed under
"## Left out".

## Model

| member | source | states |
|---|---|---|
| `PhpStrings.Substr` | app/Services/ColorConvertService.php:127 | `substr` gives at most `len` characters, namely those of `s` from `start` on, and nothing once `start` is at or past the end |
| `PhpStrings.HexDec` | app/Services/ColorConvertService.php:130-133 | `hexdec` of an n-character string is below 16^n (non-hex characters are skipped) |
| `PhpStrings.HexDecShort` | app/Services/ColorConvertService.php:130-133 | any string of at most two characters decodes to a value below 256 |
| `PhpStrings.HexDecPair` | app/Services/ColorConvertService.php:133 | two hex digits decode as 16 times the first plus the second |
| `PhpStrings.HexDecOfByte` | app/Services/ColorConvertService.php:133 | spelling a byte as two lower-case digits and decoding them gives the byte back |
| `PhpStrings.HexChar` | app/Services/ColorConvertService.php:133 | the lower-case digit for a value below 16 is a hex digit whose value is that value |
| `PhpStrings.HexDigitValue` | app/Services/ColorConvertService.php:133 | a hex digit of either case has a value below 16 (which value each digit has: `PhpStrings.HexDigitTable`) |
| `PhpStrings.HexDigitTable` | app/Services/ColorConvertService.php:130-133 | each digit is worth its place in `0123456789abcdef`, and equally in `0123456789ABCDEF`; `HexChar` spells a value with the lower-case digit |
| `PhpStrings.LowerHexDigitValue` | app/Services/ColorConvertService.php:130-133 | `hexdec` ignores case: lowering `A`-`F` to `a`-`f` keeps a digit a digit, with the same value |
| `PhpStrings.IntToString` | app/Services/ColorConvertService.php:113-116 | an int prints as one or more decimal digits, with no leading zero unless it is 0 |
| `PhpStrings.ParseIntToString` | app/Services/ColorConvertService.php:113-116 | reading the printed digits of n back gives n |
| `PhpStrings.IntToStringLength` | app/Services/ColorConvertService.php:113-116 | a value below 1000 (so every channel) prints in one to three digits |
| `Decimals.Reduce` | app/Services/ColorConvertService.php:43 | dropping trailing zero digits keeps the value and gives the shortest form |
| `Decimals.ReducedUnique` | app/Services/ColorConvertService.php:43 | two shortest forms of the same number are identical |
| `Decimals.Render` | app/Services/ColorConvertService.php:117 | a printed number consists of decimal digits, a point and a minus sign only (its value is the subject of `Decimals.RenderValue`) |
| `Decimals.RenderValue` | app/Services/ColorConvertService.php:117 | the printed number reads back, as a numeral `[-]digits[.digits]`, as exactly the value of alpha; its whole part has no leading zero (it is `0` or starts with another digit); a printed point is never followed by a trailing `0` |
| `Decimals.RenderCanonical` | app/Services/ColorConvertService.php:117 | two decimals of equal value print the same string, so `.4` and `0.40` both print `0.4` |
| `Decimals.RenderWhole` | app/Services/ColorConvertService.php:117 | a whole number prints as its digits with no point, at any scale (`1.0` prints `1`) |
| `Rgba.StripHash` | app/Services/ColorConvertService.php:65-70 | a leading `#` is removed and the rest kept; any other colour is unchanged |
| `Rgba.AlphaString` | app/Services/ColorConvertService.php:117 | concatenation writes a string alpha exactly as it was passed, and a numeric alpha as a numeral that reads back as its value (`Decimals.RenderValue`); `Services.ColorConvertService.ConvertHexToRgba` states that this text is the output's fourth field |
| `Rgba.FormatRgba` | app/Services/ColorConvertService.php:113-117 | the join is at least 12 characters longer than the alpha text (`rgba(`, three digits or more, three commas, `)`); `Rgba.ParseFormat` states that it reads back as its four fields |
| `Rgba.StripHashOnce` | app/Services/ColorConvertService.php:65-70 | exactly one hash goes, whatever follows it (`##abc` gives `#abc`) |
| `Rgba.StripHashExamples` | tests/Unit/Services/ColorConvertServiceTest.php:116-140 | `#123123` gives `123123`, `123123` stays as it is, and `##abc` gives `#abc` |
| `Rgba.HashPrefixInvariance` | app/Services/ColorConvertService.php:28-35 | for every colour `h` not starting with `#`, converting `#` + `h` gives the same result as converting `h` |
| `Rgba.Channel` | app/Services/ColorConvertService.php:124-134 | each channel of a valid colour is in [0, 255] |
| `Rgba.Convert` | app/Services/ColorConvertService.php:28-35 | the length error exactly when the stripped colour's length is not 3 or 6; the character error exactly when the length is right but a character is not a hex digit; the alpha error exactly when the colour is valid and alpha is outside [0, 1]; success exactly when all three hold |
| `Rgba.MessageIdentifies` | app/Services/ColorConvertService.php:49 | the three exception messages (lines 49, 92 and 105) are distinct, so the message tells which check failed |
| `Rgba.ConvertAccepted` | app/Services/ColorConvertService.php:111-118 | an accepted input gives `rgba(` channel 1, 2, 3 `,` printed alpha `)` |
| `Rgba.ShorthandExpansion` | app/Services/ColorConvertService.php:126-131 | a three-digit colour `abc` has the channels of, and converts like, `aabbcc` |
| `Rgba.DecodeEncode` | app/Services/ColorConvertService.php:124-134 | the six-digit spelling of any (r, g, b) of bytes is valid and decodes to (r, g, b) |
| `Rgba.EncodeDecode` | app/Services/ColorConvertService.php:124-134 | a lower-case six-digit colour is the spelling of its own channels |
| `Rgba.CaseInsensitive` | app/Services/ColorConvertService.php:13 | a valid colour and its lower-case spelling are both valid, have the same three channels, and convert to the same result |
| `Rgba.EncodeDecodeAnyCase` | app/Services/ColorConvertService.php:124-134 | every valid six-digit colour, in any case, is the lower-case spelling of its own channels |
| `Rgba.SplitCommaAt` | app/Services/ColorConvertService.php:113-117 | a comma-free field followed by a comma is split off exactly |
| `Rgba.ParseFormat` | app/Services/ColorConvertService.php:113-117 | the formatted string reads back as its three channel numbers and its alpha text |
| `Rgba.OutputFields` | app/Services/ColorConvertService.php:111-118 | a successful result reads back as the decoded channels and the printed alpha, each channel in one to three digits |
| `Rgba.RenderExamples` | tests/Unit/Services/ColorConvertServiceTest.php:36-43 | alpha `.4` (or `0.40`) prints `0.4`, and `1` prints `1` |
| `Rgba.ConversionExample123123` | tests/Unit/Services/ColorConvertServiceTest.php:36-43 | `#123123` with alpha `.4` gives `rgba(18,49,35,0.4)` |
| `Rgba.ConversionExample123123NoHash` | app/Services/ColorConvertService.php:28-35 | `123123` with alpha `1` gives `rgba(18,49,35,1)` |
| `Rgba.ConversionExampleBlack` | tests/Unit/Services/ColorConvertServiceTest.php:214-222 | `000000` gives channels 0, with alpha `1`: `rgba(0,0,0,1)` |
| `Rgba.ConversionExampleWhite` | tests/Unit/Services/ColorConvertServiceTest.php:228-236 | `fff` gives channels 255, with alpha `1`: `rgba(255,255,255,1)` |
| `Rgba.ConversionExampleErrors` | tests/Unit/Services/ColorConvertServiceTest.php:163-187 | `123GGG` fails with the character error; `12312` and `12G12` fail with the length error, which is checked first |
| `Rgba.AlphaExamples` | tests/Unit/Services/ColorConvertServiceTest.php:241-261 | alpha 0, 1, .3 and 0.4 are in range; 2, -1, 1.0001 and -0.0001 are not |
| `Services.ColorConvertService.constructor` | app/Services/ColorConvertService.php:18-22 | the object holds the given colour and alpha |
| `Services.ColorConvertService.HexToRgba` | app/Services/ColorConvertService.php:28-35 | the result equals the reference `Convert` of the initial colour and alpha; afterwards the colour has lost its hash, and alpha has been cast once the colour check passed |
| `Services.ColorConvertService.ConvertAlphaToFloat` | app/Services/ColorConvertService.php:41-50 | alpha becomes the number it held, with the colour unchanged; passes exactly when that number is in [0, 1], otherwise fails with the alpha error |
| `Services.ColorConvertService.AlphaIsValid` | app/Services/ColorConvertService.php:57-60 | true exactly when the numeric alpha is in [0, 1], both ends included |
| `Services.ColorConvertService.CleanHash` | app/Services/ColorConvertService.php:65-70 | the colour becomes the reference `StripHash` of itself, written with `substr`; alpha is unchanged |
| `Services.ColorConvertService.IsValidHex` | app/Services/ColorConvertService.php:76-80 | passes exactly on a valid colour; a wrong length reports the length error even when the characters are wrong too; otherwise a bad character reports the character error |
| `Services.ColorConvertService.IsValidLength` | app/Services/ColorConvertService.php:86-93 | passes exactly when the length is 3 or 6, and otherwise fails with the length error |
| `Services.ColorConvertService.IsValidDeclaration` | app/Services/ColorConvertService.php:99-106 | passes exactly when the colour is non-empty and every character is a hex digit, and otherwise fails with the character error |
| `Services.ColorConvertService.ConvertHexToRgba` | app/Services/ColorConvertService.php:111-118 | on a valid colour, the output is `rgba(` with the three reference channels and the alpha as held; on any colour, it reads back as the three `hexToInteger` values and the alpha text |
| `Services.ColorConvertService.HexToInteger` | app/Services/ColorConvertService.php:124-134 | always a byte value, for any colour; on a valid colour, the doubled digit (17 times its value) for three digits and the digit pair for six |
| `HexPattern.MatchesAsWritten` | app/Services/ColorConvertService.php:13 | the pattern as PCRE applies it accepts every string the intended rule accepts |
| `HexPattern.TrailingLineFeedAccepted` | app/Services/ColorConvertService.php:99-106 | `"12312\n"` has length 6 and matches the pattern as written, though its last character is not a hex digit; `hexdec` would read its pairs as 18, 49 and 2; the intended rule rejects it with the character error for every alpha |

## Left out

- The `(float)` cast's numeric-string rules, line 43. The number a string
  alpha reads as is supplied with the string (`Text(text, number)`). So a
  non-numeric string such as `"abc"`, which PHP reads as 0, is not modelled.
- `Services.ColorConvertService.AlphaIsValid`: it compares the number PHP
  reads from alpha. It does not model PHP 8's string comparison when a
  non-numeric string is compared with an int before the cast.
- `Decimals.Render`: it prints the exact decimal in its shortest form, not
  an IEEE double. It does not model PHP's 14-significant-digit precision,
  exponent notation for small values (PHP prints 0.00001 as `1.0E-5`), or
  `-0` for negative zero.
- `Services.ColorConvertService.HexToInteger`: requires `channel >= 1`.
  `substr` with a negative offset counts from the end. The service's own
  callers pass only 1, 2 and 3, so that case is not modelled.
- `hexdec` returning a float for values above `PHP_INT_MAX` is not modelled.
  `hexToInteger` decodes at most two characters.
- Call order of `hexToInteger(1)`, `(2)`, `(3)` in `convertHexToRgba`: the
  model evaluates the three calls as pure functions, so it does not record
  their order. Only their order in the output is stated.
- Multi-byte characters: a `char` stands for one byte, and the model does
  not decode UTF-8.
- `app/Http/Controllers/ColorConvertController.php` is not part of this
  model. It passes the fixed inputs `"#123123"` and `"0.5"` and echoes the
  result.
- `tests/TestCase.php` (reflection on private fields) is not part of this
  model, and neither is PHPUnit's mocking. The tests serve only as
  input/output pairs.

## Findings

| source | as written | input that shows it | evidently intended | confidence | as-written member | corrected member |
|---|---|---|---|---|---|---|
| app/Services/ColorConvertService.php:13 | `/^[0-9a-fA-F]+$/s` has no `D` modifier, so `$` also matches just before a final line feed | `"12312\n"`: length 6 passes, the pattern matches, and `hexdec` skips the line feed, giving `rgba(18,49,2,…)`; on PHP 7.4 and later `hexdec` also raises an E_DEPRECATED notice for the invalid character, which an error handler that turns notices into exceptions reports as an exception instead | only hex digits are accepted, so this input fails with "Hex value is not valid." | medium, not executed | `HexPattern.TrailingLineFeedAccepted` | `Services.ColorConvertService.IsValidDeclaration` |
