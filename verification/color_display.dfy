/** The colour panel's two helpers: `hexToRgb`, which matches a colour
    string against `^#?([a-f\d]{2})([a-f\d]{2})([a-f\d]{2})$` (case
    insensitive) and reads the three captured pairs as base-16 channels,
    and `rgbToString`, which renders a triple as `RGB(r, g, b)`. */
module ColorDisplay {
  import opened JsText
  import Bits

  /** The `{ r, g, b }` object both helpers pass around. */
  datatype Rgb = Rgb(r: int, g: int, b: int)

  /** A value or JavaScript's `null`. */
  datatype Option<T> = None | Some(value: T)

  /** The strings the pattern accepts: six hex digits of either case, with or
      without one `#` in front, and nothing else. */
  predicate IsHexColor(hex: string) {
    || (|hex| == 6 && AllHex(hex))
    || (|hex| == 7 && hex[0] == '#' && AllHex(hex[1..]))
  }

  /** The three groups a successful match captures, `result[1..3]`. */
  datatype Groups = Groups(red: string, green: string, blue: string)

  /** The pattern's match: the groups are the last six characters, two by
      two, or `null` when the string does not match. */
  function Exec(hex: string): (m: Option<Groups>)
    ensures m.Some? <==> IsHexColor(hex)
    ensures m.Some? ==>
      var d := hex[|hex| - 6..];
      && |hex| >= 6 && AllHex(d[..2]) && AllHex(d[2..4]) && AllHex(d[4..])
      && m.value == Groups(d[..2], d[2..4], d[4..])
  {
    if IsHexColor(hex) then
      var d := LastSix(hex);
      PairsAreHex(d);
      Some(Groups(d[..2], d[2..4], d[4..]))
    else
      None
  }

  /** The six digits of a matching string are its last six characters. */
  function LastSix(hex: string): (d: string)
    requires IsHexColor(hex)
    ensures |d| == 6 && AllHex(d) && d == hex[|hex| - 6..]
  {
    if |hex| == 6 then hex else hex[1..]
  }

  lemma PairsAreHex(d: string)
    requires |d| == 6 && AllHex(d)
    ensures AllHex(d[..2]) && AllHex(d[2..4]) && AllHex(d[4..])
  {
  }

  /** `hexToRgb`: each captured pair read in base 16, or `null` when the
      string does not match. */
  function HexToRgb(hex: string): (rgb: Option<Rgb>)
    ensures rgb.Some? <==> IsHexColor(hex)
    ensures rgb.Some? ==>
      var d := hex[|hex| - 6..];
      && AllHex(d[..2]) && AllHex(d[2..4]) && AllHex(d[4..])
      && rgb.value.r == ParseHex(d[..2]) && rgb.value.g == ParseHex(d[2..4]) && rgb.value.b == ParseHex(d[4..])
      && 0 <= rgb.value.r <= 255 && 0 <= rgb.value.g <= 255 && 0 <= rgb.value.b <= 255
  {
    var m := Exec(hex);
    if m.None? then None
    else
      var g := m.value;
      Pow16Values();
      Some(Rgb(ParseHex(g.red), ParseHex(g.green), ParseHex(g.blue)))
  }

  /** Six hex digits spell a 24-bit number whose bytes are the three pairs. */
  lemma SixDigits(d: string)
    requires |d| == 6 && AllHex(d)
    ensures ParseHex(d) == ParseHex(d[..2]) * 65536 + ParseHex(d[2..4]) * 256 + ParseHex(d[4..])
  {
    var hi, mid, lo, high := d[..2], d[2..4], d[4..], d[..4];
    PairsAreHex(d);
    assert high == hi + mid && d == high + lo;
    Pow16Values();
    ParseHexAppend(hi, mid);
    ParseHexAppend(high, lo);
  }

  /** A number written with three base-256 digits has them as its bytes. */
  lemma Bytes(v: int, hi: int, mid: int, lo: int)
    requires 0 <= hi < 256 && 0 <= mid < 256 && 0 <= lo < 256
    requires v == hi * 65536 + mid * 256 + lo
    ensures v / 65536 == hi && v / 256 % 256 == mid && v % 256 == lo
  {
    Bits.DivModUnique(v, 65536, hi, mid * 256 + lo);
    Bits.DivModUnique(v, 256, hi * 256 + mid, lo);
    Bits.DivModUnique(hi * 256 + mid, 256, hi, mid);
  }

  /** Every number below 2^24 is written by its three bytes. */
  lemma ByteSplit(v: int)
    requires 0 <= v < 0x100_0000
    ensures 0 <= v / 65536 < 256
    ensures v == v / 65536 * 65536 + v / 256 % 256 * 256 + v % 256
  {
    var a := v / 256;
    assert v == 256 * a + v % 256;
    assert a == 256 * (a / 256) + a % 256;
    Bits.DivModUnique(v, 65536, a / 256, a % 256 * 256 + v % 256);
  }

  /** The three channels are the bytes of the 24-bit number the six digits
      spell: bits 16-23, 8-15 and 0-7. */
  lemma HexToRgbBytes(hex: string)
    requires IsHexColor(hex)
    ensures var v := ParseHex(hex[|hex| - 6..]);
      HexToRgb(hex) == Some(Rgb(v / 65536, v / 256 % 256, v % 256))
  {
    var d := hex[|hex| - 6..];
    SixDigits(d);
    var c := HexToRgb(hex).value;
    Bytes(ParseHex(d), c.r, c.g, c.b);
  }

  /** The leading `#` is optional: adding one in front of a string that does
      not already start with `#` never changes the result. */
  lemma HashIsOptional(digits: string)
    requires digits == [] || digits[0] != '#'
    ensures HexToRgb("#" + digits) == HexToRgb(digits)
  {
    var hex := "#" + digits;
    assert hex[1..] == digits && hex[0] == '#';
    assert !IsHexDigit('#');
    assert IsHexColor(hex) <==> IsHexColor(digits);
    if IsHexColor(digits) {
      assert hex[|hex| - 6..] == digits == digits[|digits| - 6..];
    }
    assert Exec(hex) == Exec(digits);
  }

  /** The match ignores letter case. */
  lemma CaseInsensitive(hex: string)
    ensures HexToRgb(LowerAscii(hex)) == HexToRgb(hex)
  {
    var low := LowerAscii(hex);
    var n := |hex|;
    LowerAsciiHex(hex);
    if n == 7 {
      assert low[1..] == LowerAscii(hex[1..]);
      LowerAsciiHex(hex[1..]);
      assert low[0] == '#' <==> hex[0] == '#';
    }
    if IsHexColor(hex) {
      assert low[n - 6..] == LowerAscii(hex[n - 6..]);
      ParseHexLower(hex[n - 6..]);
      HexToRgbBytes(hex);
      HexToRgbBytes(low);
    }
  }

  /** Three-digit shorthand, a seventh digit, a non-hex character, a missing
      or doubled `#`, and the empty string are all refused. */
  lemma RejectsMalformed()
    ensures HexToRgb("#ABC") == None && HexToRgb("ABC") == None
    ensures HexToRgb("#abcdef0") == None && HexToRgb("abcdef0") == None
    ensures HexToRgb("#abcdeg") == None && HexToRgb("##abcdef") == None
    ensures HexToRgb("") == None && HexToRgb("not-a-color") == None
  {
    assert !IsHexDigit('g');
  }

  lemma RedExample()
    ensures HexToRgb("#FF0000") == Some(Rgb(255, 0, 0))
  {
    var hex := "#FF0000";
    assert hex[|hex| - 6..] == "FF0000";
    assert "FF0000"[..2] == "FF" && "FF0000"[2..4] == "00" && "FF0000"[4..] == "00";
    ByteLiterals();
  }

  lemma ByteLiterals()
    ensures ParseHex("FF") == 255 && ParseHex("00") == 0
  {
    assert "FF"[..1] == "F" && "00"[..1] == "0";
  }

  // ---------------------------------------------------------------------------
  // rgbToString
  // ---------------------------------------------------------------------------

  /** `rgbToString`: `RGB(r, g, b)` with each channel printed as a decimal
      number, or the empty string for `null`. Since each integer has one
      text (`ShowsDetermined`), the fields pin the string down. */
  function RgbToString(rgb: Option<Rgb>): (s: string)
    ensures s == "" <==> rgb.None?
    ensures rgb.Some? ==> |s| > 4 && s[..4] == "RGB(" && s[|s| - 1] == ')'
    ensures rgb.Some? ==> exists red, green, blue ::
      && Shows(red, rgb.value.r) && Shows(green, rgb.value.g) && Shows(blue, rgb.value.b)
      && s == "RGB(" + red + ", " + green + ", " + blue + ")"
  {
    match rgb
    case None => ""
    case Some(c) =>
      Framed(IntToDecimal(c.r), IntToDecimal(c.g), IntToDecimal(c.b));
      "RGB(" + IntToDecimal(c.r) + ", " + IntToDecimal(c.g) + ", " + IntToDecimal(c.b) + ")"
  }

  lemma Framed(r: string, g: string, b: string)
    ensures var s := "RGB(" + r + ", " + g + ", " + b + ")";
      |s| > 4 && s[..4] == "RGB(" && s[|s| - 1] == ')'
  {
  }

  // Proof steps for `RgbToStringInjective`: general facts about cutting a
  // string at its first comma.

  /** Position of the first `c` in `s`, or `|s|` when there is none. */
  function IndexOf(s: string, c: char): (k: nat)
    ensures k <= |s|
  {
    if s == [] then 0 else if s[0] == c then 0 else 1 + IndexOf(s[1..], c)
  }

  lemma {:induction false} IndexOfAfter(x: string, y: string, c: char)
    requires c !in x && |y| > 0 && y[0] == c
    ensures IndexOf(x + y, c) == |x|
  {
    if x != [] {
      assert (x + y)[1..] == x[1..] + y;
      IndexOfAfter(x[1..], y, c);
    }
  }

  /** Cutting `x + y` at its first comma recovers `x` when `x` has none. */
  lemma SplitAtComma(x: string, y: string, x': string, y': string)
    requires ',' !in x && ',' !in x'
    requires |y| > 0 && y[0] == ',' && |y'| > 0 && y'[0] == ','
    requires x + y == x' + y'
    ensures x == x' && y == y'
  {
    IndexOfAfter(x, y, ',');
    IndexOfAfter(x', y', ',');
    assert (x + y)[..|x|] == x && (x' + y')[..|x'|] == x';
    assert (x + y)[|x|..] == y && (x' + y')[|x'|..] == y';
  }

  /** Two comma-space separated lists agree field by field. */
  lemma CommaFields(x: string, y: string, x': string, y': string)
    requires ',' !in x && ',' !in x'
    requires x + (", " + y) == x' + (", " + y')
    ensures x == x' && y == y'
  {
    SplitAtComma(x, ", " + y, x', ", " + y');
    assert (", " + y)[2..] == y && (", " + y')[2..] == y';
  }

  lemma Reassociate(r: string, g: string, b: string)
    ensures "RGB(" + r + ", " + g + ", " + b + ")" == "RGB(" + (r + (", " + (g + (", " + (b + ")")))))
  {
  }

  /** Distinct triples print differently. */
  lemma RgbToStringInjective(a: Rgb, b: Rgb)
    requires RgbToString(Some(a)) == RgbToString(Some(b))
    ensures a == b
  {
    var ra, ga, ba := IntToDecimal(a.r), IntToDecimal(a.g), IntToDecimal(a.b);
    var rb, gb, bb := IntToDecimal(b.r), IntToDecimal(b.g), IntToDecimal(b.b);
    var xa := ra + (", " + (ga + (", " + (ba + ")"))));
    var xb := rb + (", " + (gb + (", " + (bb + ")"))));
    Reassociate(ra, ga, ba);
    Reassociate(rb, gb, bb);
    assert xa == ("RGB(" + xa)[4..] == ("RGB(" + xb)[4..] == xb;
    CommaFields(ra, ga + (", " + (ba + ")")), rb, gb + (", " + (bb + ")")));
    CommaFields(ga, ba + ")", gb, bb + ")");
    assert ba == (ba + ")")[..|ba|] && bb == (bb + ")")[..|bb|];
    IntToDecimalInjective(a.r, b.r);
    IntToDecimalInjective(a.g, b.g);
    IntToDecimalInjective(a.b, b.b);
  }

  /** Channels appear in the order red, green, blue. */
  lemma OrderExample()
    ensures RgbToString(Some(Rgb(1, 2, 3))) == "RGB(1, 2, 3)"
  {
  }

  lemma DisplayExamples()
    ensures RgbToString(Some(Rgb(255, 0, 0))) == "RGB(255, 0, 0)"
    ensures RgbToString(None) == ""
  {
  }
}
