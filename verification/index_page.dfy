/** The page's `calculateComplementaryColor`: read the six digits after the
    `#` as one 24-bit number, pull out the red, green and blue bytes with
    shifts and masks, replace each channel `c` by `255 - c`, and pack and
    print the result as `#` and six lowercase hex digits. This is an
    inversion of each RGB channel, not a rotation of the hue. */
module IndexPage {
  import opened JsText
  import opened Bits
  import opened ColorDisplay
  import ColorWheelUtils

  /** The colours the page holds: its initial `#FFFFFF` and every string the
      wheel reports, `#` and six hex digits. */
  predicate IsPageColor(hex: string) {
    |hex| == 7 && hex[0] == '#' && AllHex(hex[1..])
  }

  /** `parseInt(hex.slice(1), 16)`: the six digits after the `#` as one
      number below 2^24. */
  function ParsedValue(hex: string): (v: nat)
    requires IsPageColor(hex)
    ensures v < 0x100_0000
  {
    Pow16Values();
    ParseHex(hex[1..])
  }

  /** The channel extraction: `(rgb >> 16) & 0xff`, `(rgb >> 8) & 0xff` and
      `rgb & 0xff` are bits 16-23, 8-15 and 0-7 of the value. */
  function Channels(rgb: nat): (c: Rgb)
    requires rgb < 0x100_0000
    ensures c == Rgb(rgb / 65536, rgb / 256 % 256, rgb % 256)
  {
    ByteMasks(rgb);
    Rgb(BitAnd(ShiftRight(rgb, 16), 0xff), BitAnd(ShiftRight(rgb, 8), 0xff), BitAnd(rgb, 0xff))
  }

  lemma ByteMasks(rgb: nat)
    requires rgb < 0x100_0000
    ensures BitAnd(ShiftRight(rgb, 16), 0xff) == rgb / 65536
    ensures BitAnd(ShiftRight(rgb, 8), 0xff) == rgb / 256 % 256
    ensures BitAnd(rgb, 0xff) == rgb % 256
  {
    Pow2Values();
    var hi, mid := rgb / 65536, rgb / 256;
    assert ShiftRight(rgb, 16) == hi && ShiftRight(rgb, 8) == mid;
    ByteSplit(rgb);
    DivModUnique(hi, 256, 0, hi);
    ByteMask(hi);
    ByteMask(mid);
    ByteMask(rgb);
  }

  /** `x & 0xff` is the low byte. */
  lemma ByteMask(x: nat)
    ensures BitAnd(x, 0xff) == x % 256
  {
    Pow2Values();
    AndLowMask(x, 8);
  }

  /** The packing `r << 16 | g << 8 | b`: for channels that are bytes the
      shifted values share no bit, so the result is the 24-bit number whose
      bytes are the channels. */
  function Pack(c: Rgb): (v: nat)
    requires 0 <= c.r < 256 && 0 <= c.g < 256 && 0 <= c.b < 256
    ensures v == c.r * 65536 + c.g * 256 + c.b
    ensures v < 0x100_0000
  {
    Pow2Values();
    OrShifted(c.r, c.g * 256, 16);
    OrShifted(c.r * 256 + c.g, c.b, 8);
    assert ShiftLeft(c.r, 16) == c.r * 65536 && ShiftLeft(c.g, 8) == c.g * 256;
    assert (c.r * 256 + c.g) * 256 == c.r * 65536 + c.g * 256;
    BitOr(BitOr(ShiftLeft(c.r, 16), ShiftLeft(c.g, 8)), c.b)
  }

  /** `calculateComplementaryColor`: always `#` and six lowercase hex digits. */
  function ComplementaryColor(hex: string): (out: string)
    requires IsPageColor(hex)
    ensures |out| == 7 && out[0] == '#' && AllLowerHex(out[1..])
    ensures IsPageColor(out)
  {
    var rgb := ParsedValue(hex);
    var c := Channels(rgb);
    var complementary := Rgb(255 - c.r, 255 - c.g, 255 - c.b);
    PadHexIsFixed(Pack(complementary), 6);
    "#" + PadStart(HexString(Pack(complementary)), 6, '0')
  }

  /** Inverting every channel is subtracting the whole 24-bit value from
      `0xffffff`; the result is printed to exactly six digits. */
  lemma ComplementValue(hex: string)
    requires IsPageColor(hex)
    ensures ComplementaryColor(hex) == "#" + FixedHex(0xFF_FFFF - ParsedValue(hex), 6)
  {
    var rgb := ParsedValue(hex);
    var c := Channels(rgb);
    var complementary := Rgb(255 - c.r, 255 - c.g, 255 - c.b);
    ByteSplit(rgb);
    assert Pack(complementary) == 0xFF_FFFF - rgb;
    PadHexIsFixed(Pack(complementary), 6);
  }

  /** Proof step: `ComplementValue` restated for a caller that already names
      the inverted value, so that the call matches its terms. */
  lemma ComplementTo(hex: string, w: nat)
    requires IsPageColor(hex) && w == 0xFF_FFFF - ParsedValue(hex)
    ensures ComplementaryColor(hex) == "#" + FixedHex(w, 6)
  {
    ComplementValue(hex);
  }

  /** Each output channel, as the panel reads it, is 255 minus the input's. */
  lemma ComplementChannels(hex: string)
    requires IsPageColor(hex)
    ensures HexToRgb(hex).Some? && HexToRgb(ComplementaryColor(hex)).Some?
    ensures var c, d := HexToRgb(hex).value, HexToRgb(ComplementaryColor(hex)).value;
      d == Rgb(255 - c.r, 255 - c.g, 255 - c.b)
  {
    var w := 0xFF_FFFF - ParsedValue(hex);
    ComplementValue(hex);
    FixedValue(w);
    InvertedChannels(hex, "#" + FixedHex(w, 6));
  }

  /** The six-digit rendering of a 24-bit value is a page colour that parses
      back to the value. */
  lemma FixedValue(w: nat)
    requires w < 0x100_0000
    ensures IsPageColor("#" + FixedHex(w, 6))
    ensures ParsedValue("#" + FixedHex(w, 6)) == w
  {
    var h := "#" + FixedHex(w, 6);
    assert h[1..] == FixedHex(w, 6);
    Pow16Values();
    ParseFixedHex(w, 6);
  }

  /** The channels the panel reads from a page colour are the bytes of its value. */
  lemma PageChannels(hex: string)
    requires IsPageColor(hex)
    ensures var v := ParsedValue(hex);
      HexToRgb(hex) == Some(Rgb(v / 65536, v / 256 % 256, v % 256))
  {
    assert hex[|hex| - 6..] == hex[1..];
    HexToRgbBytes(hex);
  }

  /** Colours whose values add up to `0xffffff` have complementary channels. */
  lemma InvertedChannels(hex: string, out: string)
    requires IsPageColor(hex) && IsPageColor(out)
    requires ParsedValue(out) == 0xFF_FFFF - ParsedValue(hex)
    ensures HexToRgb(hex).Some? && HexToRgb(out).Some?
    ensures var c, d := HexToRgb(hex).value, HexToRgb(out).value;
      d == Rgb(255 - c.r, 255 - c.g, 255 - c.b)
  {
    var v, w := ParsedValue(hex), ParsedValue(out);
    PageChannels(hex);
    PageChannels(out);
    ByteSplit(v);
    Bytes(w, 255 - v / 65536, 255 - v / 256 % 256, 255 - v % 256);
  }

  /** Complementing twice gives the colour back, with its digits lowercased. */
  lemma Involution(hex: string)
    requires IsPageColor(hex)
    ensures IsPageColor(ComplementaryColor(hex))
    ensures ComplementaryColor(ComplementaryColor(hex)) == LowerAscii(hex)
  {
    var v := ParsedValue(hex);
    var out := ComplementaryColor(hex);
    ComplementTo(hex, 0xFF_FFFF - v);
    FixedValue(0xFF_FFFF - v);
    LowerIsFixed(hex);
    FixedValue(v);
    ComplementOfLowercase(out, LowerAscii(hex));
  }

  /** Lowercasing a page colour gives the six-digit rendering of its value. */
  lemma LowerIsFixed(hex: string)
    requires IsPageColor(hex)
    ensures LowerAscii(hex) == "#" + FixedHex(ParsedValue(hex), 6)
  {
    FixedHexOfParse(hex[1..]);
    assert LowerAscii(hex) == "#" + LowerAscii(hex[1..]);
  }

  /** The case of the input's digits does not matter. */
  lemma CaseIrrelevant(hex: string)
    requires IsPageColor(hex)
    ensures IsPageColor(LowerAscii(hex))
    ensures ComplementaryColor(LowerAscii(hex)) == ComplementaryColor(hex)
  {
    var low := LowerAscii(hex);
    assert low[1..] == LowerAscii(hex[1..]);
    ParseHexLower(hex[1..]);
    ComplementValue(hex);
    ComplementValue(low);
  }

  /** The inverted rendering never spells the colour it came from. */
  lemma InvertedDiffers(hex: string)
    requires IsPageColor(hex)
    ensures "#" + FixedHex(0xFF_FFFF - ParsedValue(hex), 6) != hex
  {
    FixedValue(0xFF_FFFF - ParsedValue(hex));
  }

  /** No colour is its own complement, whatever the case of its digits:
      `c == 255 - c` has no integer solution. */
  lemma NoFixedPoint(hex: string)
    requires IsPageColor(hex)
    ensures ComplementaryColor(hex) != hex
    ensures ComplementaryColor(hex) != LowerAscii(hex)
  {
    var low := LowerAscii(hex);
    ComplementValue(hex);
    InvertedDiffers(hex);
    CaseIrrelevant(hex);
    ComplementValue(low);
    InvertedDiffers(low);
  }

  lemma WhiteValue()
    ensures IsPageColor("#FFFFFF") && ParsedValue("#FFFFFF") == 0xFF_FFFF
  {
    var d := "FFFFFF";
    assert "#FFFFFF"[1..] == d && d[..2] == d[2..4] == d[4..] == "FF";
    ByteLiterals();
    SixDigits(d);
  }

  lemma BlackValue()
    ensures IsPageColor("#000000") && ParsedValue("#000000") == 0
  {
    var d := "000000";
    assert "#000000"[1..] == d && d[..2] == d[2..4] == d[4..] == "00";
    ByteLiterals();
    SixDigits(d);
  }

  lemma EndpointRenderings()
    ensures "#" + FixedHex(0, 6) == "#000000" && "#" + FixedHex(0xFF_FFFF, 6) == "#ffffff"
  {
    FixedHexZero(6);
    FixedHexTop(6);
    Pow16Values();
  }

  /** The page starts on white, whose complement is black. */
  lemma WhiteToBlack()
    ensures ComplementaryColor("#FFFFFF") == "#000000"
  {
    WhiteValue();
    ComplementOfValue("#FFFFFF", 0xFF_FFFF);
  }

  /** Black's complement is white, printed in lowercase. */
  lemma BlackToWhite()
    ensures ComplementaryColor("#000000") == "#ffffff"
  {
    BlackValue();
    ComplementOfValue("#000000", 0);
  }

  /** The complements of the two endpoint values, for any spelling. */
  lemma ComplementOfValue(hex: string, v: nat)
    requires IsPageColor(hex) && ParsedValue(hex) == v && (v == 0 || v == 0xFF_FFFF)
    ensures v == 0 ==> ComplementaryColor(hex) == "#ffffff"
    ensures v == 0xFF_FFFF ==> ComplementaryColor(hex) == "#000000"
  {
    ComplementValue(hex);
    EndpointRenderings();
  }

  /** The value the page parses from a wheel colour is the pixel's red,
      green and blue bytes read as one 24-bit number. */
  lemma PixelValue(data: seq<ColorWheelUtils.Byte>)
    requires |data| == 4
    ensures IsPageColor(ColorWheelUtils.ColorFromPixel(data))
    ensures ParsedValue(ColorWheelUtils.ColorFromPixel(data)) == data[0] as int * 65536 + data[1] as int * 256 + data[2] as int
  {
    PairedValue(ColorWheelUtils.ColorFromPixel(data));
  }

  /** The value of `#` and six lowercase digits, pair by pair. */
  lemma PairedValue(hex: string)
    requires |hex| == 7 && hex[0] == '#' && AllLowerHex(hex[1..])
    ensures IsPageColor(hex)
    ensures AllHex(hex[1..3]) && AllHex(hex[3..5]) && AllHex(hex[5..])
    ensures ParsedValue(hex) == ParseHex(hex[1..3]) * 65536 + ParseHex(hex[3..5]) * 256 + ParseHex(hex[5..])
  {
    var d := hex[1..];
    LowerHexIsHex(d);
    SixDigits(d);
    assert d[..2] == hex[1..3] && d[2..4] == hex[3..5] && d[4..] == hex[5..];
  }

  /** Picking a pixel and complementing it gives the colour of the pixel with
      its red, green and blue bytes inverted; alpha plays no part. */
  lemma ComplementOfPixel(data: seq<ColorWheelUtils.Byte>)
    requires |data| == 4
    ensures IsPageColor(ColorWheelUtils.ColorFromPixel(data))
    ensures ComplementaryColor(ColorWheelUtils.ColorFromPixel(data))
      == ColorWheelUtils.ColorFromPixel([255 - data[0], 255 - data[1], 255 - data[2], data[3]])
  {
    var inverted: seq<ColorWheelUtils.Byte> := [255 - data[0], 255 - data[1], 255 - data[2], data[3]];
    InvertedPixelValue(data, inverted);
    PixelValue(data);
    ComplementOfLowercase(ColorWheelUtils.ColorFromPixel(data), ColorWheelUtils.ColorFromPixel(inverted));
  }

  lemma InvertedPixelValue(data: seq<ColorWheelUtils.Byte>, inverted: seq<ColorWheelUtils.Byte>)
    requires |data| == 4 && inverted == [255 - data[0], 255 - data[1], 255 - data[2], data[3]]
    ensures IsPageColor(ColorWheelUtils.ColorFromPixel(data))
    ensures IsPageColor(ColorWheelUtils.ColorFromPixel(inverted))
    ensures ParsedValue(ColorWheelUtils.ColorFromPixel(inverted))
      == 0xFF_FFFF - ParsedValue(ColorWheelUtils.ColorFromPixel(data))
  {
    PixelValue(data);
    PixelValue(inverted);
  }

  /** A lowercase colour whose value is the inverse of `hex`'s is its complement. */
  lemma ComplementOfLowercase(hex: string, out: string)
    requires IsPageColor(hex) && IsPageColor(out) && AllLowerHex(out[1..])
    requires ParsedValue(out) == 0xFF_FFFF - ParsedValue(hex)
    ensures ComplementaryColor(hex) == out
  {
    LowercaseIsFixed(out);
    ComplementTo(hex, ParsedValue(out));
  }

  /** Proof step: `LowerIsFixed` for a colour whose digits are already
      lowercase, so that folding leaves it unchanged. */
  lemma LowercaseIsFixed(x: string)
    requires IsPageColor(x) && AllLowerHex(x[1..])
    ensures x == "#" + FixedHex(ParsedValue(x), 6)
  {
    FixedHexOfParse(x[1..]);
    LowerAsciiOfLower(x[1..]);
  }

  /** Two lowercase page colours that the panel reads as the same channels
      are the same string. */
  lemma LowercaseDetermined(x: string, y: string)
    requires IsPageColor(x) && IsPageColor(y) && AllLowerHex(x[1..]) && AllLowerHex(y[1..])
    requires HexToRgb(x) == HexToRgb(y)
    ensures x == y
  {
    var vx, vy := ParsedValue(x), ParsedValue(y);
    assert x[|x| - 6..] == x[1..] && y[|y| - 6..] == y[1..];
    HexToRgbBytes(x);
    HexToRgbBytes(y);
    ByteSplit(vx);
    ByteSplit(vy);
    assert vx == vy;
    LowercaseIsFixed(x);
    LowercaseIsFixed(y);
  }
}
