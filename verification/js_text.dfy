/** The JavaScript built-ins the colour code relies on, restricted to the inputs
    it gives them: `parseInt(s, 16)` on strings of hex digits,
    `Number.prototype.toString` in base 16 and base 10 on integers (the
    model is exact integer arithmetic, which JavaScript's doubles match only
    below 2^53, and its decimal printing only below 10^21),
    `String.prototype.padStart`, and the ASCII letter case folding that a
    regular expression's `i` flag applies to hex digits. */
module JsText {

  // ---------------------------------------------------------------------------
  // Hex digits
  // ---------------------------------------------------------------------------

  predicate IsHexDigit(c: char) {
    '0' <= c <= '9' || 'a' <= c <= 'f' || 'A' <= c <= 'F'
  }

  predicate IsLowerHexDigit(c: char) {
    '0' <= c <= '9' || 'a' <= c <= 'f'
  }

  predicate AllHex(s: string) {
    forall i :: 0 <= i < |s| ==> IsHexDigit(s[i])
  }

  predicate AllLowerHex(s: string) {
    forall i :: 0 <= i < |s| ==> IsLowerHexDigit(s[i])
  }

  /** The value of one hex digit, either case. */
  function DigitValue(c: char): (v: nat)
    requires IsHexDigit(c)
    ensures v < 16
    ensures '0' <= c <= '9' <==> v < 10
  {
    if c <= '9' then c as int - '0' as int
    else if 'a' <= c then c as int - 'a' as int + 10
    else c as int - 'A' as int + 10
  }

  /** The lowercase digit that `toString(16)` writes for a value below 16. */
  function LowerDigit(v: nat): (c: char)
    requires v < 16
    ensures IsLowerHexDigit(c) && DigitValue(c) == v
  {
    if v < 10 then ('0' as int + v) as char else ('a' as int + v - 10) as char
  }

  function Pow16(k: nat): (p: nat)
    ensures p >= 1
  {
    if k == 0 then 1 else 16 * Pow16(k - 1)
  }

  lemma Pow16Values()
    ensures Pow16(1) == 16 && Pow16(2) == 256 && Pow16(6) == 0x100_0000
  {
  }

  // ---------------------------------------------------------------------------
  // ASCII case folding
  // ---------------------------------------------------------------------------

  function LowerChar(c: char): char {
    if 'A' <= c <= 'Z' then (c as int + 32) as char else c
  }

  /** `s` with every ASCII capital replaced by its small letter: no capital
      is left, and every other character stays where it was. */
  function LowerAscii(s: string): (r: string)
    ensures |r| == |s|
    ensures forall i :: 0 <= i < |s| ==> r[i] == LowerChar(s[i])
    ensures forall i :: 0 <= i < |r| ==> !('A' <= r[i] <= 'Z')
    ensures forall i :: 0 <= i < |s| && !('A' <= s[i] <= 'Z') ==> r[i] == s[i]
  {
    seq(|s|, i requires 0 <= i < |s| => LowerChar(s[i]))
  }

  /** Folding case keeps a character a hex digit (or a non-digit) and keeps its value. */
  lemma LowerCharDigit(c: char)
    ensures IsHexDigit(LowerChar(c)) == IsHexDigit(c)
    ensures IsHexDigit(c) ==> IsLowerHexDigit(LowerChar(c))
    ensures IsHexDigit(c) ==> DigitValue(LowerChar(c)) == DigitValue(c)
    ensures IsHexDigit(c) ==> LowerDigit(DigitValue(c)) == LowerChar(c)
  {
  }

  lemma LowerAsciiHex(s: string)
    ensures AllHex(LowerAscii(s)) == AllHex(s)
  {
    forall i | 0 <= i < |s| {
      LowerCharDigit(s[i]);
    }
  }

  lemma LowerHexIsHex(s: string)
    requires AllLowerHex(s)
    ensures AllHex(s)
  {
  }

  /** Lowercase hex is left alone. */
  lemma LowerAsciiOfLower(s: string)
    requires AllLowerHex(s)
    ensures LowerAscii(s) == s
  {
  }

  // ---------------------------------------------------------------------------
  // parseInt(s, 16)
  // ---------------------------------------------------------------------------

  /** `parseInt(s, 16)` for a non-empty string made only of hex digits (either
      case): the digits read most significant first. JavaScript computes this
      in a double, which is exact up to 13 digits (values below 2^53); the
      colour code parses two or six. */
  function ParseHex(s: string): (v: nat)
    requires |s| > 0 && AllHex(s)
    ensures v < Pow16(|s|)
  {
    if |s| == 1 then DigitValue(s[0])
    else ParseHex(s[..|s| - 1]) * 16 + DigitValue(s[|s| - 1])
  }

  /** Reading a string in two pieces: the left piece is shifted by the
      right piece's digit count. */
  lemma {:induction false} ParseHexAppend(a: string, b: string)
    requires |a| > 0 && |b| > 0 && AllHex(a) && AllHex(b)
    ensures AllHex(a + b)
    ensures ParseHex(a + b) == ParseHex(a) * Pow16(|b|) + ParseHex(b)
  {
    var s := a + b;
    var last := b[|b| - 1];
    assert s[|s| - 1] == last;
    if |b| == 1 {
      assert s[..|s| - 1] == a;
    } else {
      var b' := b[..|b| - 1];
      assert s[..|s| - 1] == a + b';
      ParseHexAppend(a, b');
      ShiftDigit(ParseHex(a), Pow16(|b'|), ParseHex(b'), DigitValue(last));
    }
  }

  lemma ShiftDigit(x: int, p: int, y: int, d: int)
    ensures (x * p + y) * 16 + d == x * (16 * p) + (y * 16 + d)
  {
  }

  /** Digit case does not change the parsed value. */
  lemma {:induction false} ParseHexLower(s: string)
    requires |s| > 0 && AllHex(s)
    ensures AllHex(LowerAscii(s))
    ensures ParseHex(LowerAscii(s)) == ParseHex(s)
  {
    LowerAsciiHex(s);
    var t := LowerAscii(s);
    LowerCharDigit(s[|s| - 1]);
    if |s| > 1 {
      assert t[..|t| - 1] == LowerAscii(s[..|s| - 1]);
      ParseHexLower(s[..|s| - 1]);
    }
  }

  // ---------------------------------------------------------------------------
  // Number.prototype.toString(16) and padStart
  // ---------------------------------------------------------------------------

  /** `n.toString(16)` for a non-negative integer below 2^53, where a double
      holds it exactly: lowercase digits, no leading zero; parsing it back
      gives `n`. The colour code prints values below 2^24. */
  function HexString(n: nat): (s: string)
    ensures |s| > 0 && AllLowerHex(s) && AllHex(s)
    ensures |s| > 1 ==> s[0] != '0'
    ensures ParseHex(s) == n
  {
    if n < 16 then [LowerDigit(n)]
    else
      var high := HexString(n / 16);
      var s := high + [LowerDigit(n % 16)];
      assert s[..|s| - 1] == high;
      s
  }

  function Repeat(c: char, n: nat): (r: string)
    ensures |r| == n && forall i :: 0 <= i < n ==> r[i] == c
  {
    seq(n, _ => c)
  }

  /** `s.padStart(targetLength, padChar)` for a one-character pad string:
      `s` itself when it is long enough, otherwise `s` with copies of
      `padChar` in front up to `targetLength` characters. */
  function PadStart(s: string, targetLength: nat, padChar: char): (r: string)
    ensures |r| == if |s| >= targetLength then |s| else targetLength
    ensures r[|r| - |s|..] == s
    ensures forall i :: 0 <= i < |r| - |s| ==> r[i] == padChar
  {
    if |s| >= targetLength then s else Repeat(padChar, targetLength - |s|) + s
  }

  /** The last `k` hex digits of `n`, lowercase, most significant first:
      the shape that `toString(16).padStart(k, '0')` is meant to produce. */
  function FixedHex(n: nat, k: nat): (s: string)
    ensures |s| == k && AllLowerHex(s) && AllHex(s)
  {
    if k == 0 then [] else FixedHex(n / 16, k - 1) + [LowerDigit(n % 16)]
  }

  lemma {:induction false} FixedHexZero(k: nat)
    ensures FixedHex(0, k) == Repeat('0', k)
  {
    if k > 0 {
      FixedHexZero(k - 1);
    }
  }

  /** The largest `k`-digit value is written with `k` letters `f`. */
  lemma {:induction false} FixedHexTop(k: nat)
    ensures FixedHex(Pow16(k) - 1, k) == Repeat('f', k)
  {
    if k > 0 {
      var p := Pow16(k - 1);
      assert Pow16(k) - 1 == 16 * (p - 1) + 15;
      assert (Pow16(k) - 1) / 16 == p - 1 && (Pow16(k) - 1) % 16 == 15;
      FixedHexTop(k - 1);
      assert Repeat('f', k) == Repeat('f', k - 1) + ['f'];
    }
  }

  lemma {:induction false} HexStringFits(n: nat, k: nat)
    requires k >= 1 && n < Pow16(k)
    ensures |HexString(n)| <= k
    ensures Repeat('0', k - |HexString(n)|) + HexString(n) == FixedHex(n, k)
  {
    var digit := [LowerDigit(n % 16)];
    assert FixedHex(n, k) == FixedHex(n / 16, k - 1) + digit;
    if n < 16 {
      assert HexString(n) == digit && n / 16 == 0;
      FixedHexZero(k - 1);
    } else {
      var high := HexString(n / 16);
      assert HexString(n) == high + digit;
      assert Pow16(k) == 16 * Pow16(k - 1);
      HexStringFits(n / 16, k - 1);
      assert k - |HexString(n)| == k - 1 - |high|;
      PadThenDigit(Repeat('0', k - 1 - |high|), high, digit, FixedHex(n / 16, k - 1));
    }
  }

  lemma PadThenDigit(pad: string, high: string, digit: string, fixed: string)
    requires pad + high == fixed
    ensures pad + (high + digit) == fixed + digit
  {
    assert pad + (high + digit) == (pad + high) + digit;
  }

  /** Left-padding `toString(16)` with zeros to `k` places, when `n` has at
      most `k` digits, gives exactly the `k`-digit lowercase rendering. */
  lemma PadHexIsFixed(n: nat, k: nat)
    requires k >= 1 && n < Pow16(k)
    ensures PadStart(HexString(n), k, '0') == FixedHex(n, k)
  {
    HexStringFits(n, k);
  }

  /** Round trip: parsing the `k`-digit rendering of `n` gives `n` back. */
  lemma {:induction false} ParseFixedHex(n: nat, k: nat)
    requires k >= 1 && n < Pow16(k)
    ensures ParseHex(FixedHex(n, k)) == n
  {
    var s := FixedHex(n, k);
    if k == 1 {
      assert s == [LowerDigit(n)];
    } else {
      assert s[..|s| - 1] == FixedHex(n / 16, k - 1);
      ParseFixedHex(n / 16, k - 1);
    }
  }

  /** Round trip the other way: rendering a parsed hex string back to as many
      digits gives the string with its letters lowercased. */
  lemma {:induction false} FixedHexOfParse(s: string)
    requires |s| > 0 && AllHex(s)
    ensures FixedHex(ParseHex(s), |s|) == LowerAscii(s)
  {
    var v := ParseHex(s);
    LowerCharDigit(s[|s| - 1]);
    if |s| == 1 {
      assert FixedHex(v, 1) == FixedHex(v / 16, 0) + [LowerDigit(v % 16)];
    } else {
      var init := s[..|s| - 1];
      FixedHexOfParse(init);
      assert v / 16 == ParseHex(init) && v % 16 == DigitValue(s[|s| - 1]);
      assert LowerAscii(s) == LowerAscii(init) + [LowerChar(s[|s| - 1])];
    }
  }

  // ---------------------------------------------------------------------------
  // Number.prototype.toString() in base 10
  // ---------------------------------------------------------------------------

  predicate IsDecimalDigit(c: char) {
    '0' <= c <= '9'
  }

  predicate AllDecimal(s: string) {
    forall i :: 0 <= i < |s| ==> IsDecimalDigit(s[i])
  }

  /** The value of a non-empty string of decimal digits. */
  function DecimalValue(s: string): nat
    requires |s| > 0 && AllDecimal(s)
  {
    var d := s[|s| - 1] as int - '0' as int;
    if |s| == 1 then d else DecimalValue(s[..|s| - 1]) * 10 + d
  }

  /** Digits as `String` writes a non-negative integer: at least one, and
      no leading zero unless the number is zero. */
  predicate IsNumeral(t: string) {
    |t| > 0 && AllDecimal(t) && (|t| > 1 ==> t[0] != '0')
  }

  /** `t` is the text `String(n)` gives for the integer `n`: its numeral,
      preceded by a minus sign exactly when `n` is negative. */
  predicate Shows(t: string, n: int) {
    if n < 0 then |t| > 1 && t[0] == '-' && IsNumeral(t[1..]) && DecimalValue(t[1..]) == -n
    else IsNumeral(t) && DecimalValue(t) == n
  }

  function DecimalDigit(v: nat): (c: char)
    requires v < 10
    ensures IsDecimalDigit(c) && c as int - '0' as int == v
  {
    ('0' as int + v) as char
  }

  /** `String(n)` for a non-negative integer below 10^21, where JavaScript
      still prints plain digits rather than exponent form: decimal digits
      without a leading zero that read back as `n`. The colour code prints
      bytes. */
  function NatToDecimal(n: nat): (s: string)
    ensures |s| > 0 && AllDecimal(s)
    ensures |s| > 1 ==> s[0] != '0'
    ensures DecimalValue(s) == n
  {
    if n < 10 then [DecimalDigit(n)]
    else
      var high := NatToDecimal(n / 10);
      var s := high + [DecimalDigit(n % 10)];
      assert s[..|s| - 1] == high;
      s
  }

  /** `String(n)` for an integer (the form a template literal gives it):
      a minus sign in front of a negative number's magnitude. */
  function IntToDecimal(n: int): (s: string)
    ensures |s| > 0
    ensures s[0] == '-' <==> n < 0
    ensures AllDecimal(s[1..])
    ensures ',' !in s && ' ' !in s
    ensures n >= 0 ==> AllDecimal(s) && DecimalValue(s) == n
    ensures n < 0 ==> |s| > 1 && DecimalValue(s[1..]) == -n
    ensures n >= 0 && |s| > 1 ==> s[0] != '0'
    ensures n < 0 ==> s[1] != '0'
    ensures Shows(s, n)
  {
    if n < 0 then
      var digits := NatToDecimal(-n);
      assert ("-" + digits)[1..] == digits;
      "-" + digits
    else
      NatToDecimal(n)
  }

  /** A numeral is the one `String` writes for its own value. */
  lemma {:induction false} NumeralIsCanonical(t: string)
    requires IsNumeral(t)
    ensures t == NatToDecimal(DecimalValue(t))
  {
    var v := DecimalValue(t);
    var last := t[|t| - 1];
    if |t| == 1 {
      assert t == [DecimalDigit(v)];
    } else {
      var init := t[..|t| - 1];
      assert init[0] == t[0];
      NumeralIsCanonical(init);
      var w := DecimalValue(init);
      assert w >= 1;
      assert v == w * 10 + (last as int - '0' as int);
      assert v / 10 == w && v % 10 == last as int - '0' as int;
      assert t == init + [last];
    }
  }

  /** Each integer has exactly one text. */
  lemma ShowsDetermined(t: string, u: string, n: int)
    requires Shows(t, n) && Shows(u, n)
    ensures t == u
  {
    if n < 0 {
      NumeralIsCanonical(t[1..]);
      NumeralIsCanonical(u[1..]);
      assert t == [t[0]] + t[1..] && u == [u[0]] + u[1..];
    } else {
      NumeralIsCanonical(t);
      NumeralIsCanonical(u);
    }
  }

  /** Distinct integers print differently. */
  lemma IntToDecimalInjective(a: int, b: int)
    requires IntToDecimal(a) == IntToDecimal(b)
    ensures a == b
  {
    var s := IntToDecimal(a);
    if a < 0 {
      assert s[1..] == NatToDecimal(-a) == NatToDecimal(-b);
    }
  }
}
