/** The colour string `getColorFromPoint` builds from the pixel under the
    pointer: `#` and each of the red, green and blue bytes as two lowercase
    hex digits. The canvas read that supplies the bytes is not modelled; the
    bytes are the input. */
module ColorWheelUtils {
  import opened JsText
  import opened ColorDisplay

  /** One component of the `Uint8ClampedArray` that `getImageData` returns. */
  type Byte = x: int | 0 <= x < 256

  /** `b.toString(16).padStart(2, '0')`: two lowercase digits, the first a
      zero exactly when `b` is below 16, that read back as `b`. */
  function ByteToHex(b: Byte): (s: string)
    ensures |s| == 2 && AllLowerHex(s)
    ensures s[0] == '0' <==> b < 16
    ensures ParseHex(s) == b
  {
    ByteDigits(b);
    PadStart(HexString(b), 2, '0')
  }

  /** The two digits are the high and the low half of the byte. */
  lemma ByteDigits(b: Byte)
    ensures PadStart(HexString(b), 2, '0') == [LowerDigit(b / 16), LowerDigit(b % 16)]
    ensures ParseHex(PadStart(HexString(b), 2, '0')) == b
  {
    PadHexIsFixed(b, 2);
    ParseFixedHex(b, 2);
    assert FixedHex(b, 2) == FixedHex(b / 16, 1) + [LowerDigit(b % 16)];
    assert FixedHex(b / 16, 1) == [LowerDigit(b / 16)];
  }

  /** The colour of one RGBA pixel, as `getColorFromPoint` returns it. */
  function ColorFromPixel(data: seq<Byte>): (hex: string)
    requires |data| == 4
    ensures |hex| == 7 && hex[0] == '#' && AllLowerHex(hex[1..])
    ensures hex[1..3] == ByteToHex(data[0])
    ensures hex[3..5] == ByteToHex(data[1])
    ensures hex[5..] == ByteToHex(data[2])
  {
    PixelString(ByteToHex(data[0]), ByteToHex(data[1]), ByteToHex(data[2]));
    "#" + ByteToHex(data[0]) + ByteToHex(data[1]) + ByteToHex(data[2])
  }

  /** `#` followed by three pairs of lowercase digits. */
  lemma PixelString(red: string, green: string, blue: string)
    requires |red| == 2 && |green| == 2 && |blue| == 2
    requires AllLowerHex(red) && AllLowerHex(green) && AllLowerHex(blue)
    ensures var hex := "#" + red + green + blue;
      && |hex| == 7 && hex[0] == '#' && AllLowerHex(hex[1..])
      && hex[1..3] == red && hex[3..5] == green && hex[5..] == blue
  {
    var hex := "#" + red + green + blue;
    assert hex[1..] == red + green + blue;
    LowerHexConcat(red, green);
    LowerHexConcat(red + green, blue);
  }

  lemma LowerHexConcat(a: string, b: string)
    requires AllLowerHex(a) && AllLowerHex(b)
    ensures AllLowerHex(a + b)
  {
  }

  /** Round trip: the panel's `hexToRgb` reads back exactly the red, green and
      blue bytes of the pixel. */
  lemma PixelRoundTrip(data: seq<Byte>)
    requires |data| == 4
    ensures HexToRgb(ColorFromPixel(data)) == Some(Rgb(data[0], data[1], data[2]))
  {
    HashedPairs(ColorFromPixel(data));
  }

  /** The panel reads `#` and six lowercase digits pair by pair. */
  lemma HashedPairs(hex: string)
    requires |hex| == 7 && hex[0] == '#' && AllLowerHex(hex[1..])
    ensures AllHex(hex[1..3]) && AllHex(hex[3..5]) && AllHex(hex[5..])
    ensures HexToRgb(hex) == Some(Rgb(ParseHex(hex[1..3]), ParseHex(hex[3..5]), ParseHex(hex[5..])))
  {
    var d := hex[1..];
    LowerHexIsHex(d);
    assert hex[|hex| - 6..] == d;
    assert d[..2] == hex[1..3] && d[2..4] == hex[3..5] && d[4..] == hex[5..];
  }

  /** Distinct colours give distinct strings. */
  lemma PixelInjective(p: seq<Byte>, q: seq<Byte>)
    requires |p| == 4 && |q| == 4
    requires ColorFromPixel(p) == ColorFromPixel(q)
    ensures p[..3] == q[..3]
  {
    PixelRoundTrip(p);
    PixelRoundTrip(q);
    SameChannels(p, q);
  }

  lemma SameChannels(p: seq<Byte>, q: seq<Byte>)
    requires |p| == 4 && |q| == 4
    requires Rgb(p[0], p[1], p[2]) == Rgb(q[0], q[1], q[2])
    ensures p[..3] == q[..3]
  {
    assert p[..3] == [p[0], p[1], p[2]] && q[..3] == [q[0], q[1], q[2]];
  }

  /** The alpha byte never reaches the string. */
  lemma AlphaIgnored(data: seq<Byte>, alpha: Byte)
    requires |data| == 4
    ensures ColorFromPixel(data[3 := alpha]) == ColorFromPixel(data)
  {
  }

  lemma GreenExample()
    ensures ColorFromPixel([0, 255, 0, 255]) == "#00ff00"
  {
  }
}
