/** Unsigned 32-bit arithmetic as C performs it, over integers. */
module Words {
  import opened Arithmetic

  type Digit = x: int | 0 <= x < 0x1_0000_0000
  type Half = x: int | 0 <= x < 0x1_0000
  type Byte = x: int | 0 <= x < 0x100

  const MAX_DIGIT: Digit := 0xffff_ffff

  /** `x + y` with 32-bit wrap-around. */
  function Add32(x: int, y: int): (r: Digit)
    requires 0 <= x < 0x1_0000_0000 && 0 <= y < 0x1_0000_0000
    ensures r == x + y || r == x + y - 0x1_0000_0000
  {
    (x + y) % 0x1_0000_0000
  }

  /** `x - y` with 32-bit wrap-around. */
  function Sub32(x: int, y: int): (r: Digit)
    requires 0 <= x < 0x1_0000_0000 && 0 <= y < 0x1_0000_0000
    ensures r == x - y || r == x - y + 0x1_0000_0000
  {
    (x - y) % 0x1_0000_0000
  }

  function LowHalf(x: Digit): (r: Half) { x % 0x1_0000 }

  function HighHalf(x: Digit): (r: Half)
    ensures x == r * 0x1_0000 + LowHalf(x)
  {
    x / 0x1_0000
  }

  /** TO_HIGH_HALF: a left shift by 16 that drops the bits shifted out. */
  function ToHighHalf(x: Digit): (r: Digit)
    ensures r == LowHalf(x) * 0x1_0000
  {
    (x * 0x1_0000) % 0x1_0000_0000
  }

  /** DIGIT_2MSB. */
  function TopTwoBits(x: Digit): (r: nat)
    ensures r == x / 0x4000_0000 < 4
  {
    (x / 0x4000_0000) % 4
  }

  /** 2^n. */
  function Pow2(n: nat): (r: nat)
    ensures r >= 1
  {
    if n == 0 then 1 else 2 * Pow2(n - 1)
  }

  lemma {:induction false} Pow2Add(m: nat, n: nat)
    ensures Pow2(m + n) == Pow2(m) * Pow2(n)
  {
    if m > 0 {
      Pow2Add(m - 1, n);
      assert (2 * Pow2(m - 1)) * Pow2(n) == 2 * (Pow2(m - 1) * Pow2(n));
    }
  }

  lemma {:induction false} Pow2Monotone(m: nat, n: nat)
    requires m <= n
    ensures Pow2(m) <= Pow2(n)
    decreases n
  {
    if m < n { Pow2Monotone(m, n - 1); }
  }

  lemma Pow2Of32()
    ensures Pow2(8) == 0x100 && Pow2(16) == 0x1_0000
    ensures Pow2(30) == 0x4000_0000 && Pow2(31) == 0x8000_0000 && Pow2(32) == 0x1_0000_0000
  {
    assert Pow2(8) == 0x100;
    Pow2Add(8, 8);
    Pow2Add(16, 8);
    assert Pow2(30) == 64 * Pow2(24) by { assert Pow2(28) == 16 * Pow2(24); }
    assert Pow2(32) == 2 * Pow2(31) == 4 * Pow2(30);
  }

  /** Bitwise inclusive or of two naturals. */
  function BitOr(x: nat, y: nat): (r: nat)
  {
    if x == 0 && y == 0 then 0
    else (if x % 2 == 1 || y % 2 == 1 then 1 else 0) + 2 * BitOr(x / 2, y / 2)
  }

  lemma {:induction false} BitOrZero(x: nat)
    ensures BitOr(x, 0) == x && BitOr(0, x) == x
  {
    if x > 0 { BitOrZero(x / 2); }
  }

  lemma DoubleProduct(h: nat, p: nat, p': nat)
    requires p' == 2 * p
    ensures h * p >= 0 && h * p' == 2 * (h * p)
  {
    MulMonotone(h, 0, p);
  }

  lemma BitOrHalves(x: nat, y: nat)
    ensures BitOr(x, y) == (if x % 2 == 1 || y % 2 == 1 then 1 else 0) + 2 * BitOr(x / 2, y / 2)
  {
    assert BitOr(0, 0) == 0;
  }

  /** Or-ing a value below 2^k into a multiple of 2^k adds the two. */
  lemma {:induction false} BitOrDisjoint(hi: nat, y: nat, k: nat)
    requires y < Pow2(k)
    ensures BitOr(hi * Pow2(k), y) == hi * Pow2(k) + y
    ensures BitOr(y, hi * Pow2(k)) == hi * Pow2(k) + y
  {
    var x := hi * Pow2(k);
    if k == 0 {
      BitOrZero(x);
    } else {
      var x' := hi * Pow2(k - 1);
      assert x == 2 * x' && x' >= 0 by { DoubleProduct(hi, Pow2(k - 1), Pow2(k)); }
      BitOrDisjoint(hi, y / 2, k - 1);
      BitOrHalves(x, y);
      BitOrHalves(y, x);
    }
  }

  /** `x << c` on 32 bits. */
  function Shl(x: Digit, c: nat): (r: Digit) { (x * Pow2(c)) % 0x1_0000_0000 }

  /** `x >> c`. */
  function Shr(x: Digit, c: nat): (r: Digit)
  {
    DivShrinks(x, Pow2(c));
    x / Pow2(c)
  }

  lemma DivShrinks(x: nat, p: int)
    requires p >= 1
    ensures 0 <= x / p <= x
  {
    DivModEquation(x, p);
    if x / p < 0 { MulMonotone(p, x / p, -1); }
    if x / p >= 0 { MulMonotone(x / p, 1, p); }
  }

  lemma ShiftOutIdentity(x: int, p: int, q: int, hi: int, lo: int)
    requires p >= 1 && q >= 1 && p * q == 0x1_0000_0000
    requires 0 <= x < 0x1_0000_0000 && x == q * hi + lo && 0 <= lo < q
    ensures 0 <= hi < p && 0 <= lo * p <= 0x1_0000_0000 - p
    ensures x * p == 0x1_0000_0000 * hi + lo * p
  {
    if p <= hi { MulMonotone(q, p, hi); }
    if hi < 0 { MulMonotone(q, hi, -1); }
    MulMonotone(p, 0, lo);
    MulMonotone(p, lo, q - 1);
    assert p * (q - 1) == p * q - p && lo * p == p * lo;
    assert (q * hi + lo) * p == (p * q) * hi + lo * p;
  }

  /** A left shift keeps the low 32 - c bits and moves them up; the others are the right shift by 32 - c. */
  lemma ShiftSplit(x: Digit, c: nat)
    requires c <= 32
    ensures Shl(x, c) == (x % Pow2(32 - c)) * Pow2(c)
    ensures Shr(x, 32 - c) < Pow2(c) && (x % Pow2(32 - c)) * Pow2(c) <= 0x1_0000_0000 - Pow2(c)
    ensures x * Pow2(c) == 0x1_0000_0000 * Shr(x, 32 - c) + Shl(x, c)
    ensures x == Pow2(32 - c) * Shr(x, 32 - c) + x % Pow2(32 - c)
  {
    var p, q := Pow2(c), Pow2(32 - c);
    assert p * q == 0x1_0000_0000 by {
      Pow2Of32();
      Pow2Add(c, 32 - c);
    }
    hide Pow2;
    var hi: int, lo: int := x / q, x % q;
    DivModEquation(x, q);
    ShiftOutIdentity(x, p, q, hi, lo);
    DivModUnique(x * p, 0x1_0000_0000, hi, lo * p);
  }
}
