/** JavaScript's 32-bit bitwise operators `>>`, `<<`, `&` and `|` on
    non-negative integers. `&` and `|` are defined bit by bit for any
    natural number; they agree with JavaScript's only below 2^31, where
    converting to a signed 32-bit integer changes nothing. That bound is the
    colour code's (its operands stay below 2^24) and only the shifts carry
    it as a precondition. */
module Bits {

  const Int32Limit: nat := 0x8000_0000

  function Pow2(k: nat): (p: nat)
    ensures p >= 1
  {
    if k == 0 then 1 else 2 * Pow2(k - 1)
  }

  lemma Pow2Values()
    ensures Pow2(8) == 256 && Pow2(16) == 65536
  {
  }

  /** `x >> k` for a non-negative 32-bit operand: the low `k` bits fall off,
      so the result is the largest `r` with `r` shifted back not above `x`. */
  function ShiftRight(x: nat, k: nat): (r: nat)
    requires x < Int32Limit && k < 32
    ensures r * Pow2(k) <= x < (r + 1) * Pow2(k)
  {
    DivNonNegative(x, Pow2(k));
    x / Pow2(k)
  }

  /** `x << k` when the result stays below 2^31, so no bit reaches the sign:
      `k` zero bits come in at the bottom and shifting back recovers `x`. */
  function ShiftLeft(x: nat, k: nat): (r: nat)
    requires k < 32 && x * Pow2(k) < Int32Limit
    ensures r < Int32Limit
    ensures r % Pow2(k) == 0 && r / Pow2(k) == x
  {
    DivModUnique(x * Pow2(k), Pow2(k), x, 0);
    x * Pow2(k)
  }

  /** `a & b` on non-negative integers, bit by bit from the least significant. */
  function BitAnd(a: nat, b: nat): (r: nat)
    ensures r <= a && r <= b
  {
    if a == 0 then 0
    else 2 * BitAnd(a / 2, b / 2) + (a % 2) * (b % 2)
  }

  /** `a | b` on non-negative integers, bit by bit from the least significant. */
  function BitOr(a: nat, b: nat): (r: nat)
    ensures a <= r && b <= r && r <= a + b
  {
    if a == 0 then b
    else if b == 0 then a
    else 2 * BitOr(a / 2, b / 2) + (if a % 2 == 1 || b % 2 == 1 then 1 else 0)
  }

  /** Masking with `2^k - 1` keeps the low `k` bits: `x & 0xff` is `x % 256`. */
  lemma {:induction false} AndLowMask(x: nat, k: nat)
    ensures BitAnd(x, Pow2(k) - 1) == x % Pow2(k)
  {
    if k == 0 {
      assert Pow2(k) == 1;
    } else if x == 0 {
      DivModUnique(0, Pow2(k), 0, 0);
    } else {
      var p := Pow2(k - 1);
      var m := 2 * p - 1;
      assert Pow2(k) == 2 * p;
      assert m / 2 == p - 1 && m % 2 == 1;
      AndLowMask(x / 2, k - 1);
      assert BitAnd(x, m) == 2 * ((x / 2) % p) + x % 2;
      ModHalf(x, p);
    }
  }

  /** `x % 2p` from the remainder of `x / 2` modulo `p` and the last bit. */
  lemma ModHalf(x: nat, p: nat)
    requires p >= 1
    ensures x % (2 * p) == 2 * ((x / 2) % p) + x % 2
  {
    var q, s := (x / 2) / p, (x / 2) % p;
    assert x / 2 == p * q + s;
    assert x == (2 * p) * q + (2 * s + x % 2);
    DivModUnique(x, 2 * p, q, 2 * s + x % 2);
  }

  /** Division with remainder has one answer. */
  lemma DivModUnique(x: int, d: int, q: int, r: int)
    requires d > 0 && 0 <= r < d && x == d * q + r
    ensures x / d == q && x % d == r
  {
    var q', r' := x / d, x % d;
    assert d * (q - q') == r' - r;
    MulAwayFromZero(d, q - q');
  }

  lemma DivNonNegative(x: nat, d: int)
    requires d > 0
    ensures x / d >= 0
  {
    MulAwayFromZero(d, x / d);
  }

  lemma MulAwayFromZero(d: int, k: int)
    requires d > 0
    ensures k >= 1 ==> d * k >= d
    ensures k <= -1 ==> d * k <= -d
  {
  }

  /** Or-ing a value shifted left by `k` with a value below `2^k` adds them:
      the two occupy disjoint bits. */
  lemma {:induction false} OrShifted(a: nat, b: nat, k: nat)
    requires b < Pow2(k)
    ensures BitOr(a * Pow2(k), b) == a * Pow2(k) + b
  {
    var high := a * Pow2(k);
    if k > 0 && high != 0 && b != 0 {
      var p := Pow2(k - 1);
      assert high == 2 * (a * p);
      assert high / 2 == a * p && high % 2 == 0;
      OrShifted(a, b / 2, k - 1);
    }
  }
}
