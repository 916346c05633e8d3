# Colour wheel explorer: the colour codec and the complement rule

This project models, in Dafny, the colour logic of an interactive colour
wheel page. The user picks a pixel on a wheel; the page shows the picked
colour and its complement as hex strings and as `RGB(r, g, b)` text. Four
small pieces of TypeScript carry that logic, and each is written here as
pure functions with properties proved about them:

- `hexToRgb` (`src/components/ColorDisplay.tsx`) matches a string against
  `^#?([a-f\d]{2})([a-f\d]{2})([a-f\d]{2})$` with the `i` flag and reads the
  three captured pairs with `parseInt(_, 16)`, or gives `null`
  (module `ColorDisplay`).
- `rgbToString` (same file) prints `RGB(r, g, b)`, or `""` for `null`
  (module `ColorDisplay`).
- The expression in `getColorFromPoint` (`src/utils/colorWheelUtils.ts:21`,
  repeated verbatim at `src/components/ColorWheel.tsx:66`) turns the bytes of
  the pixel under the pointer into `#` and three
  `toString(16).padStart(2, '0')` pairs (module `ColorWheelUtils`; the bytes
  are the input, the canvas read that supplies them is not modelled).
- `calculateComplementaryColor` (`src/pages/Index.tsx`) parses the digits
  after the first character, extracts the channels with `>>` and `& 0xff`,
  replaces each channel `c` by `255 - c`, packs them with `<<` and `|` and
  prints the result with `toString(16).padStart(6, '0')` (module
  `IndexPage`).

The JavaScript built-ins these use are modelled explicitly:
- module `JsText` holds `parseInt(s, 16)`, `toString(16)`, decimal
  `String(n)`, `padStart` and ASCII case folding, on exact integers (which
  JavaScript's doubles match below 2^53; the colour code stays below 2^24);
- module `Bits` holds the 32-bit operators `>>`, `<<`, `&` and `|` on the
  non-negative operands the page gives them.

The complement the code computes is a per-channel inversion in RGB. It is
not the rotation of the hue by 180 degrees in HSL that a colour-harmony
description would suggest, and the two differ for most colours. The model
follows the code. Likewise the byte-to-hex formatting does no clamping of its
own: its inputs are the components of a `Uint8ClampedArray`, already bytes,
which is what the `Byte` type says.

The central results:
- `IndexPage.ComplementValue`: the complement is `#` followed by the six-digit
  lowercase rendering of `0xffffff - v`, where `v` is the parsed value. From
  it follow the involution (`IndexPage.Involution`), the independence of
  digit case (`IndexPage.CaseIrrelevant`) and the absence of a fixed point
  (`IndexPage.NoFixedPoint`).
- `ColorWheelUtils.PixelRoundTrip`: the panel's `hexToRgb` reads back exactly
  the bytes the wheel formatted.
- `IndexPage.ComplementOfPixel`: complementing a picked colour gives the colour
  of the inverted pixel.

## Model

Lemmas that are only steps of a proof have no row. These include
`IndexPage.ComplementTo`, `IndexPage.LowercaseIsFixed` and the comma-cutting
lemmas behind `ColorDisplay.RgbToStringInjective`.

| member | source | states |
|---|---|---|
| JsText.DigitValue | src/components/ColorDisplay.tsx:18-20 | a hex digit of either case is worth less than 16, and less than 10 exactly when it is a decimal digit |
| JsText.LowerDigit | src/pages/Index.tsx:20 | the digit `toString(16)` writes for a value below 16 is a lowercase hex digit of that value |
| JsText.LowerAscii | src/components/ColorDisplay.tsx:16 | the `i` flag's case folding: same length, no capital left, every other character unchanged |
| JsText.LowerCharDigit | src/components/ColorDisplay.tsx:16 | folding a character's case keeps it a hex digit or a non-digit, makes a digit lowercase and keeps its value |
| JsText.LowerAsciiHex | src/components/ColorDisplay.tsx:16 | a string is all hex digits exactly when its lowercase form is |
| JsText.LowerAsciiOfLower | src/pages/Index.tsx:20 | lowercase hex digits are unchanged by case folding |
| JsText.ParseHex | src/components/ColorDisplay.tsx:18-20 | `parseInt(s, 16)` of `k` hex digits, read exactly (as JavaScript does up to 13 digits), is below 16^k |
| JsText.ParseHexAppend | src/pages/Index.tsx:9 | the value of `a + b` is the value of `a` shifted left by `b`'s digit count plus the value of `b` |
| JsText.ParseHexLower | src/components/ColorDisplay.tsx:16-20 | digit case does not change the parsed value |
| JsText.HexString | src/pages/Index.tsx:20 | `n.toString(16)` is non-empty lowercase hex without a leading zero and parses back to `n` |
| JsText.PadStart | src/utils/colorWheelUtils.ts:21 | `padStart` gives the longer of the string and the target length, ends with the string, and fills the front with the pad character |
| JsText.FixedHex | src/pages/Index.tsx:20 | the `k`-digit rendering has exactly `k` lowercase hex digits |
| JsText.FixedHexZero | src/pages/Index.tsx:20 | zero renders as `k` zeros |
| JsText.FixedHexTop | src/pages/Index.tsx:20 | 16^k - 1 renders as `k` letters `f` |
| JsText.HexStringFits | src/pages/Index.tsx:20 | a value below 16^k has at most `k` hex digits, and zeros in front of them give its `k`-digit rendering |
| JsText.PadHexIsFixed | src/pages/Index.tsx:20 | `toString(16).padStart(k, '0')` of a value below 16^k is its `k`-digit rendering |
| JsText.ParseFixedHex | src/pages/Index.tsx:9-20 | parsing the `k`-digit rendering of a value below 16^k gives the value back |
| JsText.FixedHexOfParse | src/pages/Index.tsx:9-20 | rendering a parsed hex string to as many digits gives the string lowercased |
| JsText.DecimalDigit | src/components/ColorDisplay.tsx:25 | the decimal digit of a value below 10 is worth that value |
| JsText.NatToDecimal | src/components/ColorDisplay.tsx:25 | a non-negative number (below 10^21 in JavaScript) prints as decimal digits without a leading zero that read back as the number |
| JsText.IntToDecimal | src/components/ColorDisplay.tsx:25 | an integer prints as a minus sign exactly when it is negative, followed by decimal digits with no leading zero that read back as its magnitude (its canonical text); never a comma or a space |
| JsText.NumeralIsCanonical | src/components/ColorDisplay.tsx:25 | a digit string with no leading zero is the text `String` writes for its own value |
| JsText.ShowsDetermined | src/components/ColorDisplay.tsx:25 | each integer has exactly one canonical decimal text |
| JsText.IntToDecimalInjective | src/components/ColorDisplay.tsx:25 | distinct integers print differently |
| Bits.ShiftRight | src/pages/Index.tsx:10-11 | `x >> k` drops the low `k` bits: shifted back it is at most `x` and within `2^k` of it |
| Bits.ShiftLeft | src/pages/Index.tsx:20 | `x << k` stays below 2^31, has `k` zero low bits, and shifts back to `x` |
| Bits.BitAnd | src/pages/Index.tsx:10-12 | `a & b` is at most each operand |
| Bits.BitOr | src/pages/Index.tsx:20 | the bitwise or of two values is at least each operand and at most their sum |
| Bits.AndLowMask | src/pages/Index.tsx:10-12 | masking with 2^k - 1 keeps the value modulo 2^k |
| Bits.OrShifted | src/pages/Index.tsx:20 | or-ing a value shifted left by `k` with one below 2^k is their sum |
| ColorDisplay.Exec | src/components/ColorDisplay.tsx:16 | the pattern matches exactly an optional `#` and six hex digits of either case; the groups are the last six characters two by two |
| ColorDisplay.LastSix | src/components/ColorDisplay.tsx:16 | the digits of a matching string are its last six characters, all hex |
| ColorDisplay.HexToRgb | src/components/ColorDisplay.tsx:15-22 | a triple exactly when the string matches, `null` otherwise; each channel is the base-16 value of its pair and lies in 0..255 |
| ColorDisplay.SixDigits | src/components/ColorDisplay.tsx:18-20 | six digits spell the 24-bit number whose bytes are the three pairs |
| ColorDisplay.Bytes | src/components/ColorDisplay.tsx:18-20 | a number written with three base-256 digits has them as its bytes |
| ColorDisplay.ByteSplit | src/pages/Index.tsx:10-12 | every number below 2^24 is the sum of its three bytes in place |
| ColorDisplay.HexToRgbBytes | src/components/ColorDisplay.tsx:17-21 | the channels are bits 16-23, 8-15 and 0-7 of the number the six digits spell |
| ColorDisplay.HashIsOptional | src/components/ColorDisplay.tsx:16 | a `#` in front of a string not starting with `#` never changes the result |
| ColorDisplay.CaseInsensitive | src/components/ColorDisplay.tsx:16 | lowercasing the input never changes the result |
| ColorDisplay.RejectsMalformed | src/components/ColorDisplay.tsx:16-21 | three-digit shorthand, seven digits, a non-hex digit, a doubled `#`, the empty string and a word all give `null` |
| ColorDisplay.RedExample | src/components/ColorDisplay.tsx:17-21 | `#FF0000` reads as (255, 0, 0) |
| ColorDisplay.RgbToString | src/components/ColorDisplay.tsx:24-26 | the empty string exactly for `null`; otherwise `RGB(` then the canonical decimal texts of r, g and b in that order, separated by `, `, then `)` |
| ColorDisplay.Framed | src/components/ColorDisplay.tsx:25 | the template text starts with `RGB(` and ends with `)` whatever the numbers |
| ColorDisplay.RgbToStringInjective | src/components/ColorDisplay.tsx:25 | distinct triples print differently |
| ColorDisplay.OrderExample | src/components/ColorDisplay.tsx:25 | (1, 2, 3) prints as `RGB(1, 2, 3)`: the channels keep their order |
| ColorDisplay.DisplayExamples | src/components/ColorDisplay.tsx:25 | (255, 0, 0) prints as `RGB(255, 0, 0)` and `null` as the empty string |
| ColorWheelUtils.ByteToHex | src/utils/colorWheelUtils.ts:21 | a byte becomes two lowercase hex digits, the first `0` exactly below 16, that parse back to the byte |
| ColorWheelUtils.ByteDigits | src/utils/colorWheelUtils.ts:21 | the two digits are the byte's high and low halves |
| ColorWheelUtils.ColorFromPixel | src/utils/colorWheelUtils.ts:21 | `#` and six lowercase digits: the pairs of bytes 0, 1 and 2 in that order |
| ColorWheelUtils.PixelString | src/utils/colorWheelUtils.ts:21 | `#` and three lowercase pairs is a seven-character string holding the pairs at 1..3, 3..5 and 5..7 |
| ColorWheelUtils.PixelRoundTrip | src/utils/colorWheelUtils.ts:21 | `hexToRgb` of the formatted pixel is exactly its red, green and blue bytes |
| ColorWheelUtils.HashedPairs | src/components/ColorDisplay.tsx:16-21 | `hexToRgb` reads `#` and six lowercase digits pair by pair |
| ColorWheelUtils.PixelInjective | src/utils/colorWheelUtils.ts:21 | pixels whose strings agree have the same red, green and blue bytes |
| ColorWheelUtils.AlphaIgnored | src/utils/colorWheelUtils.ts:20-21 | the alpha byte never changes the string |
| ColorWheelUtils.GreenExample | src/utils/colorWheelUtils.ts:21 | the pixel (0, 255, 0, 255) gives `#00ff00` |
| IndexPage.ParsedValue | src/pages/Index.tsx:9 | the digits after `#` parse to a value below 2^24 |
| IndexPage.Channels | src/pages/Index.tsx:10-12 | shift-and-mask gives bits 16-23, 8-15 and 0-7 of the value |
| IndexPage.ByteMasks | src/pages/Index.tsx:10-12 | each shift-and-mask expression equals the matching quotient and remainder |
| IndexPage.ByteMask | src/pages/Index.tsx:10-12 | `x & 0xff` is `x % 256` |
| IndexPage.Pack | src/pages/Index.tsx:20 | or-ing the three bytes shifted left by 16, 8 and 0 gives the number with those bytes, below 2^24 |
| IndexPage.ComplementaryColor | src/pages/Index.tsx:8-21 | the result is always `#` and six lowercase hex digits |
| IndexPage.ComplementValue | src/pages/Index.tsx:8-21 | the result is `#` and the six-digit rendering of `0xffffff` minus the parsed value |
| IndexPage.ComplementChannels | src/pages/Index.tsx:14-18 | as the panel reads them, each output channel is 255 minus the input channel |
| IndexPage.FixedValue | src/pages/Index.tsx:9-20 | the six-digit rendering of a 24-bit value is a page colour that parses back to the value |
| IndexPage.PageChannels | src/pages/Index.tsx:9-12 | the panel's channels of a page colour are the bytes the page extracts |
| IndexPage.InvertedChannels | src/pages/Index.tsx:14-18 | colours whose values sum to `0xffffff` have channels summing to 255 |
| IndexPage.Involution | src/pages/Index.tsx:8-21 | complementing twice gives the input with its digits lowercased |
| IndexPage.LowerIsFixed | src/pages/Index.tsx:9-20 | a lowercased page colour is the six-digit rendering of its value |
| IndexPage.CaseIrrelevant | src/pages/Index.tsx:9 | the digit case of the input does not change the complement |
| IndexPage.InvertedDiffers | src/pages/Index.tsx:14-18 | the inverted rendering never spells the input |
| IndexPage.NoFixedPoint | src/pages/Index.tsx:14-18 | no page colour is its own complement, nor is its lowercase form |
| IndexPage.WhiteValue | src/pages/Index.tsx:6 | the initial `#FFFFFF` parses to `0xffffff` |
| IndexPage.BlackValue | src/pages/Index.tsx:9 | `#000000` parses to zero |
| IndexPage.EndpointRenderings | src/pages/Index.tsx:20 | zero renders as `000000`, `0xffffff` as `ffffff` |
| IndexPage.WhiteToBlack | src/pages/Index.tsx:6-21 | the initial colour `#FFFFFF` complements to `#000000` |
| IndexPage.BlackToWhite | src/pages/Index.tsx:8-21 | `#000000` complements to `#ffffff` |
| IndexPage.ComplementOfValue | src/pages/Index.tsx:8-21 | any spelling of value 0 complements to `#ffffff`, any of `0xffffff` to `#000000` |
| IndexPage.PixelValue | src/pages/Index.tsx:9 | the page parses a wheel colour to the pixel's three bytes as one 24-bit number |
| IndexPage.PairedValue | src/pages/Index.tsx:9 | the value of `#` and six lowercase digits is the pairs' values in place |
| IndexPage.ComplementOfPixel | src/pages/Index.tsx:8-21 | the complement of a picked colour is the colour of the pixel with red, green and blue inverted |
| IndexPage.InvertedPixelValue | src/pages/Index.tsx:14-18 | the inverted pixel's value is `0xffffff` minus the pixel's |
| IndexPage.ComplementOfLowercase | src/pages/Index.tsx:8-21 | a lowercase colour whose value is the inverse of the input's is its complement |
| IndexPage.LowercaseDetermined | src/components/ColorDisplay.tsx:15-22 | two lowercase page colours the panel reads alike are equal |

## Left out

- Drawing the wheel and its markers (`src/utils/colorWheelRenderer.ts`, `src/components/ColorWheel.tsx`): depends on canvas gradient rasterisation and produces pixels, not values.
- `ctx.getImageData` (`src/utils/colorWheelUtils.ts:20`, `src/components/ColorWheel.tsx:65`): a canvas call. `ColorWheelUtils.ColorFromPixel` takes the four bytes it returns as its input.
- Pointer and touch handling, drag state, and the React `useState` cells: event plumbing with no logic of its own.
- `calculateWheelDimensions`: assigns DOM canvas fields and uses the floating-point device pixel ratio.
- `polarToCartesian`: floating-point trigonometry.
- The upper-casing of the hex text for display, the JSX layout and `src/components/Footer.tsx`: presentation only.
- Harmony types other than the complement, HSL conversion and clamping to the disc: no code implements them.
- IndexPage.ComplementaryColor: requires `#` and six hex digits, the only strings the page ever holds. `parseInt`'s prefix parsing and the bitwise operators' treatment of `NaN` on other input are not modelled.
- JsText.ParseHex: covers only non-empty strings of hex digits, the only strings the pattern lets through. Leading whitespace, signs, `0x` prefixes and `NaN` are not modelled.
- JsText.ParseHex: reads the digits exactly. JavaScript computes `parseInt` in a double, which is exact only below 2^53, that is up to 13 hex digits; from 14 digits the result is rounded and may reach 16^k. The colour code parses 2 or 6 digits, so rounding never arises and is not modelled.
- JsText.HexString: is exact integer printing. JavaScript's `toString(16)` agrees with it for integers below 2^53; the colour code prints values below 2^24.
- Bits.BitAnd: covers only non-negative operands. The page's operands lie below 2^24, so conversion to 32-bit signed integers never changes them and wrap-around never arises; it is not modelled. The same holds for Bits.BitOr, Bits.ShiftRight and Bits.ShiftLeft.
- JsText.IntToDecimal: prints integers only. `hexToRgb` only ever produces integers, so fractional, infinite and `NaN` numbers are not modelled.
- JsText.IntToDecimal: always prints plain digits. JavaScript's `String(n)` switches to exponent form (`1e+21`) from magnitude 10^21; the channels printed are bytes, so this never arises and is not modelled.
- JsText.NatToDecimal: the same limit as JsText.IntToDecimal; plain digits are right only below 10^21.
- JsText.LowerAscii: folds ASCII letters only. Unicode case folding cannot change whether a character is a hex digit, so it is not modelled.
