/** What parse_number reads for a number that print_number has written: the digits are gathered in double
    arithmetic, and so large numbers can come back changed. */
module JsonReading {
  import opened Arithmetic
  import opened Words
  import opened Doubles
  import opened JsonNumbers
  import opened JsonParse

  function DigitByte(n: nat): (c: Byte)
    ensures IsDigit(c) && c as int - 48 == n % 10
  {
    48 + n % 10
  }

  /** The double that the decimal digits of n give. */
  function Gathered(n: nat): Number
  {
    if n < 10 then NextDigit(Finite(0.0), DigitByte(n)) else NextDigit(Gathered(n / 10), DigitByte(n))
  }

  /** The same behind v, for k digits with leading zeros. */
  function GatheredBehind(v: Number, n: nat, k: nat): Number
  {
    if k == 0 then v else NextDigit(GatheredBehind(v, n / 10, k - 1), DigitByte(n))
  }

  /** The double that the text of a number is read as. */
  function Reading(pow: PowerOfTen, x: real): Number
  {
    match FormatOf(x)
    case Integer => ReadingWhole(pow, Truncated(x))
    case Whole => ReadingWhole(pow, Nearest(x))
    case Exponential =>
      var m := Mantissa(Magnitude(x));
      Scaled(pow, x < 0.0, Finite(m.0 as real), m.1 - 6)
    case Decimals => Scaled(pow, x < 0.0, Finite(Millionths(x) as real), -6)
  }

  function ReadingWhole(pow: PowerOfTen, n: int): Number
  {
    Scaled(pow, n < 0, Gathered(if n < 0 then -n else n), 0)
  }

  function Tens(k: nat): nat
  {
    if k == 0 then 1 else 10 * Tens(k - 1)
  }

  /** The digits v, followed by k digits that stand for n. */
  function Behind(v: nat, n: nat, k: nat): nat
  {
    v * Tens(k) + n
  }

  lemma BehindNext(v: nat, n: nat, k: nat)
    requires k > 0
    ensures Behind(v, n / 10, k - 1) * 10 + n % 10 == Behind(v, n, k)
    ensures n < Tens(k) ==> n / 10 < Tens(k - 1)
  {
    assert (v * Tens(k - 1)) * 10 == v * Tens(k);
  }

  lemma TensOf(v: nat, n: nat)
    ensures Tens(2) == 100 && Tens(6) == 1000000
    ensures Behind(v, n, 2) == v * 100 + n && Behind(v, n, 6) == v * 1000000 + n
  {
    assert Tens(3) == 1000;
  }

  /** A whole number up to 2^53 is the result of an operation that gives it exactly. */
  lemma WholeDouble(n: int)
    requires -TWO53 <= n <= TWO53
    ensures ToDouble(n as real) == Finite(n as real)
  {
    WholeRounded(n);
    WholeInRange(n as real);
    hide Power, Rounded;
  }

  lemma WholeInRange(x: real)
    requires Magnitude(x) < 18446744073709551616.0
    ensures Magnitude(x) < Power(2.0, 1024)
  {
    hide *;
    PowerOf64();
    PowerGrows(2.0, 64, 1024);
  }

  lemma PowerOf64()
    ensures Pow2(64) == 0x1_0000_0000_0000_0000 && Power(2.0, 64) == 18446744073709551616.0
  {
    hide Pow2, Power;
    PowerOfTwo(64);
    Pow2Of32();
    Pow2Add(32, 32);
  }

  /** As long as the digits stay below 2^53, they are gathered exactly. */
  lemma NextExact(p: nat, n: nat)
    requires p == n / 10 && n <= TWO53
    ensures NextDigit(Finite(p as real), DigitByte(n)) == Finite(n as real)
  {
    WholeDouble(10 * p);
    WholeDouble(n);
    assert Product(p as real, 10.0) == (10 * p) as real;
    assert (10 * p) as real + (n % 10) as real == n as real;
    hide ToDouble, Product;
  }

  lemma {:induction false} GatheredExact(n: nat)
    requires n <= TWO53
    ensures Gathered(n) == Finite(n as real)
  {
    hide NextDigit;
    NextExact(n / 10, n);
    if n >= 10 { GatheredExact(n / 10); }
  }

  lemma {:induction false} BehindExact(h: nat, l: nat, k: nat)
    requires l < Tens(k) && Behind(h, l, k) <= TWO53
    ensures GatheredBehind(Finite(h as real), l, k) == Finite(Behind(h, l, k) as real)
    decreases k
  {
    hide NextDigit;
    if k > 0 {
      hide Behind, Tens;
      BehindNext(h, l, k);
      BehindExact(h, l / 10, k - 1);
      var n := Behind(h, l, k);
      assert n / 10 == Behind(h, l / 10, k - 1) && n % 10 == l % 10;
      NextExact(n / 10, n);
    } else {
      assert h * 1 == h;
    }
  }

  /** Multiplying by pow(10.0, 0) changes nothing. */
  lemma ScaledByOne(pow: PowerOfTen, minus: bool, n: nat)
    requires Gathered(n).Finite?
    ensures Scaled(pow, minus, Gathered(n), 0) == if minus then Negated(Gathered(n)) else Gathered(n)
  {
    var v := Gathered(n).v;
    GatheredDouble(n);
    assert Product(v, 1.0) == v && Product(-v, 1.0) == -v;
    hide ToDouble, Product, Gathered;
  }

  lemma GatheredDouble(n: nat)
    requires Gathered(n).Finite?
    ensures var v := Gathered(n).v; ToDouble(v) == Finite(v) && ToDouble(-v) == Finite(-v)
  {
    hide NextDigit, ToDouble;
    NextDouble(if n < 10 then Finite(0.0) else Gathered(n / 10), DigitByte(n));
  }

  lemma NextDouble(n: Number, c: Byte)
    requires IsDigit(c)
    ensures var r := NextDigit(n, c); r.Finite? ==> ToDouble(r.v) == r && ToDouble(-r.v) == Finite(-r.v)
  {
    hide ToDouble, Times;
    var t := Times(n, Finite(10.0));
    if t.Finite? && ToDouble(t.v + (c as int - 48) as real).Finite? { DoubleAgain(t.v + (c as int - 48) as real); }
  }

  lemma SmallWhole(n: int)
    requires -0x80_0000_0000_0000 <= n <= 0x80_0000_0000_0000
    ensures FormatOf(n as real).Integer? || FormatOf(n as real).Whole?
  {
    WholeParts(n);
    assert TenTo(4) == 10000.0 && TenTo(8) == 100000000.0 && TenTo(12) == 1000000000000.0;
    assert TenTo(16) == 10000000000000000.0 && TenTo(20) == 100000000000000000000.0;
    hide Truncated, TenTo;
    TenToGrows(20, 60);
  }

  /** The double nearest to a whole number up to 2^56. */
  function Fitted(n: nat): nat
  {
    if n < TWO53 then n
    else if n < 2 * TWO53 then NearestMultiple(n, 2)
    else if n < 4 * TWO53 then NearestMultiple(n, 4)
    else NearestMultiple(n, 8)
  }

  lemma FittedIs(n: nat)
    requires n < 8 * TWO53
    ensures Rounded(n as real) == Fitted(n) as real && ToDouble(n as real) == Finite(Fitted(n) as real)
  {
    SmallPowers();
    hide Pow2, Rounded, NearestMultiple, Power;
    if n < TWO53 {
      WholeRounded(n);
    } else if n < 2 * TWO53 {
      LargeRounded(n, 1);
    } else if n < 4 * TWO53 {
      LargeRounded(n, 2);
    } else {
      LargeRounded(n, 3);
    }
    FittedBound(n);
    WholeInRange(Fitted(n) as real);
  }

  lemma SmallPowers()
    ensures Pow2(1) == 2 && Pow2(2) == 4 && Pow2(3) == 8
    ensures Pow2(53) == TWO53 && Pow2(54) == 2 * TWO53 && Pow2(55) == 4 * TWO53 && Pow2(56) == 8 * TWO53
  {
    LargePowers();
    assert Pow2(0) == 1;
  }

  lemma FittedBound(n: nat)
    requires n < 8 * TWO53
    ensures Fitted(n) <= n + 8
  {}

  /** One more digit behind a number that is exact. */
  lemma NextFitted(p: nat, c: nat, n: nat)
    requires c < 10 && n == 10 * p + c && n <= 4 * TWO53
    ensures NextDigit(Finite(p as real), DigitByte(n)) == Finite(Fitted(Fitted(10 * p) + c) as real)
  {
    hide Fitted, ToDouble, Rounded, NextDigit, DigitByte;
    DivModUnique(n, 10, p, c);
    FittedBound(10 * p);
    FittedIs(10 * p);
    FittedIs(Fitted(10 * p) + c);
    NextIs(p, DigitByte(n), Fitted(10 * p), Fitted(Fitted(10 * p) + c));
  }

  /** The two roundings for one more digit. */
  lemma NextIs(p: nat, d: Byte, u: nat, w: nat)
    requires IsDigit(d) && ToDouble((10 * p) as real) == Finite(u as real)
    requires ToDouble((u + (d as int - 48)) as real) == Finite(w as real)
    ensures NextDigit(Finite(p as real), d) == Finite(w as real)
  {
    hide ToDouble;
    assert Product(p as real, 10.0) == (10 * p) as real;
    hide Product;
    assert u as real + (d as int - 48) as real == (u + (d as int - 48)) as real;
  }

  /** The whole numbers up to 2^55 whose digits do not give them back: above 2^54 doubles are multiples of 4, and an odd
      one with last digit 2 or 6 is rounded twice in the same direction. */
  predicate Slips(n: nat)
  {
    n > 2 * TWO53 && n % 8 == 4 && (n % 10 == 2 || n % 10 == 6)
  }

  /** n = 8a + 4b */
  lemma SlipsExact(p: nat, c: nat, n: nat, a: nat, b: nat)
    requires c < 10 && n == 10 * p + c && 2 * TWO53 < n <= 4 * TWO53 && n == 8 * a + 4 * b && b <= 1
    requires c == 2 || c == 6 ==> n < 4 * TWO53 - 2
    ensures Fitted(Fitted(10 * p) + c) == n <==> !(b == 1 && (c == 2 || c == 6))
  {
    hide Fitted;
    var t := 10 * p;
    FittedMultiple(n, 2 * a + b);
    if t < 2 * TWO53 {
      FittedEven(t, 5 * p);
      FirstAbove(p, c, 2 * a + b);
    } else if c == 2 || c == 6 {
      SlipsAt(t, c, n, a, b);
    } else {
      var q := LastDigitFour(p, c, 2 * a + b);
      FittedMultiple(t, q);
    }
  }

  lemma FirstAbove(p: nat, c: nat, m: nat)
    requires c < 10 && 10 * p < 2 * TWO53 < 10 * p + c && 10 * p + c == 4 * m
    ensures c == 8
  {
    assert p == 1801439850948198;
  }

  lemma LastDigitFour(p: nat, c: nat, m: nat) returns (q: nat)
    requires c < 10 && 10 * p + c == 4 * m && c != 2 && c != 6
    ensures 10 * p == 4 * q
  {
    var half := 2 * m - 5 * p;
    assert c == 2 * half && half != 1 && half != 3;
    q := if half == 0 then m else if half == 2 then m - 1 else m - 2;
  }

  lemma SlipsAt(t: nat, c: nat, n: nat, a: nat, b: nat)
    requires (c == 2 || c == 6) && n == t + c && 2 * TWO53 <= t && n < 4 * TWO53 - 2 && n == 8 * a + 4 * b && b <= 1
    ensures Fitted(Fitted(t) + c) == n <==> b == 0
  {
    hide Fitted;
    if c == 2 && b == 0 {
      FittedFour(t, a - 1, 6);
      FittedFour(n + 2, a, 2);
    } else if c == 2 {
      FittedFour(t, a, 2);
      FittedFour(n - 2, a, 2);
    } else if b == 0 {
      FittedFour(t, a - 1, 2);
      FittedFour(n - 2, a - 1, 6);
    } else {
      FittedFour(t, a - 1, 6);
      FittedFour(n + 2, a, 6);
    }
  }

  lemma FittedEven(n: nat, m: nat)
    requires n == 2 * m && n < 2 * TWO53
    ensures Fitted(n) == n
  {
    NearestMultipleIs(n, 2, m, 0);
    hide NearestMultiple;
  }

  lemma FittedMultiple(n: nat, m: nat)
    requires n == 4 * m && n <= 4 * TWO53
    ensures Fitted(n) == n
  {
    NearestMultipleIs(n, 2, 2 * m, 0);
    NearestMultipleIs(n, 4, m, 0);
    NearestMultipleIs(4 * TWO53, 8, TWO53 / 2, 0);
    hide NearestMultiple;
  }

  lemma FittedFour(n: nat, a: nat, r: nat)
    requires 2 * TWO53 <= n < 4 * TWO53 && n == 8 * a + r && (r == 0 || r == 2 || r == 4 || r == 6)
    ensures Fitted(n) == if r == 2 then n - 2 else if r == 6 then n + 2 else n
  {
    if r < 4 { NearestMultipleIs(n, 4, 2 * a, r); } else { NearestMultipleIs(n, 4, 2 * a + 1, r - 4); }
    hide NearestMultiple;
  }

  /** The doubles among the whole numbers up to 2^55. */
  lemma FittedGrid(n: nat)
    requires n <= 4 * TWO53 && Fitted(n) == n
    ensures TWO53 <= n < 2 * TWO53 ==> n % 2 == 0
    ensures 2 * TWO53 <= n ==> n % 4 == 0
  {
    NearestMultipleMod(n, 2);
    NearestMultipleMod(n, 4);
    hide NearestMultiple;
  }

  lemma SlipsIs(n: nat, p: nat, c: nat, a: nat, b: nat)
    requires c < 10 && n == 10 * p + c && n == 8 * a + 4 * b && b <= 1 && n > 2 * TWO53
    ensures Slips(n) <==> b == 1 && (c == 2 || c == 6)
  {
    DivModUnique(n, 10, p, c);
    DivModUnique(n, 8, a, 4 * b);
  }

  /** Every double that is a whole number up to 2^55 comes back from its digits, unless it slips. */
  lemma GatheredWhole(n: nat)
    requires n <= 4 * TWO53 && Rounded(n as real) == n as real
    ensures Gathered(n).Finite? && (Gathered(n) == Finite(n as real) <==> !Slips(n))
  {
    if n < TWO53 {
      GatheredExact(n);
    } else {
      FittedIs(n);
      FittedGrid(n);
      GatheredExact(n / 10);
      hide Fitted, NextDigit, Rounded, Slips;
      GatheredLarge(n / 10, n % 10, n);
    }
  }

  lemma GatheredLarge(p: nat, c: nat, n: nat)
    requires c == n % 10 && p == n / 10 && TWO53 <= n <= 4 * TWO53
    requires Gathered(p) == Finite(p as real) && (n < 2 * TWO53 ==> n % 2 == 0) && (2 * TWO53 <= n ==> n % 4 == 0)
    ensures Gathered(n).Finite? && (Gathered(n) == Finite(n as real) <==> !Slips(n))
  {
    hide Fitted, NextDigit, Slips;
    NextFitted(p, c, n);
    QuotientParts(n);
    if n <= 2 * TWO53 {
      LowNoSlip(n);
      FittedEven(10 * p, 5 * p);
      if n < 2 * TWO53 { FittedEven(n, n / 2); } else { FittedMultiple(n, TWO53 / 2); }
    } else {
      BelowTop(p, c);
      SlipsIs(n, p, c, n / 8, n % 8 / 4);
      SlipsExact(p, c, n, n / 8, n % 8 / 4);
    }
  }

  lemma QuotientParts(n: nat)
    ensures n == 10 * (n / 10) + n % 10 && (n % 2 == 0 ==> n == 2 * (n / 2))
    ensures n % 4 == 0 ==> n == 8 * (n / 8) + 4 * (n % 8 / 4) && n % 8 / 4 <= 1
  {}

  lemma LowNoSlip(n: nat)
    requires n <= 2 * TWO53
    ensures !Slips(n)
  {}

  lemma BelowTop(p: nat, c: nat)
    requires 10 * p + c <= 4 * TWO53 && c < 10
    ensures c == 2 || c == 6 ==> 10 * p + c < 4 * TWO53 - 2 || (10 * p + c) % 4 != 0
  {}

  /** With its sign, and whatever the library's pow. */
  lemma WholeBack(pow: PowerOfTen, n: int)
    requires -4 * TWO53 <= n <= 4 * TWO53 && Rounded(Magnitude(n as real)) == Magnitude(n as real)
    ensures Reading(pow, n as real) == Finite(n as real) <==> !Slips(if n < 0 then -n else n)
  {
    WholeParts(n);
    SmallWhole(n);
    var m: nat := if n < 0 then -n else n;
    assert Magnitude(n as real) == m as real;
    GatheredWhole(m);
    hide Gathered, Truncated, Nearest, Slips, Scaled;
    ScaledByOne(pow, n < 0, m);
  }

  /** One more digit, with the places of the last bits given. */
  lemma NextLarge(p: nat, d: Byte, k: nat, u: nat, w: nat)
    requires IsDigit(d) && Pow2(52 + k) <= 10 * p < Pow2(53 + k) && u == NearestMultiple(10 * p, Pow2(k))
    requires Pow2(52 + k) <= u + (d as int - 48) < Pow2(53 + k) && w == NearestMultiple(u + (d as int - 48), Pow2(k))
    requires u < 0x1_0000_0000_0000_0000 && w < 0x1_0000_0000_0000_0000
    ensures NextDigit(Finite(p as real), d) == Finite(w as real)
  {
    hide Pow2, Power, Rounded, NearestMultiple, NextDigit;
    LargeRounded(10 * p, k);
    LargeRounded(u + (d as int - 48), k);
    WholeInRange(u as real);
    WholeInRange(w as real);
    NextIs(p, d, u, w);
  }

  /** 2^63 is a double and is printed exactly, and its digits give 2^63 + 2048. */
  lemma GatheredTwo63()
    ensures Gathered(9223372036854775808) == Finite(9223372036854777856.0)
  {
    BinadeLimits();
    hide Pow2, NearestMultiple, Gathered, NextDigit;
    GatheredExact(922337203685477);
    NearestMultipleIs(9223372036854770, 2, 4611686018427385, 0);
    NearestMultipleIs(9223372036854775, 2, 4611686018427387, 1);
    NextLarge(922337203685477, 53, 1, 9223372036854770, 9223372036854776);
    GatheredNext(9223372036854775, 922337203685477, 53);
    NearestMultipleIs(92233720368547760, 16, 5764607523034235, 0);
    NearestMultipleIs(92233720368547768, 16, 5764607523034235, 8);
    NextLarge(9223372036854776, 56, 4, 92233720368547760, 92233720368547776);
    GatheredNext(92233720368547758, 9223372036854775, 56);
    NearestMultipleIs(922337203685477760, 128, 7205759403792795, 0);
    NextLarge(92233720368547776, 48, 7, 922337203685477760, 922337203685477760);
    GatheredNext(922337203685477580, 92233720368547758, 48);
    NearestMultipleIs(9223372036854777600, 2048, 4503599627370496, 1792);
    NearestMultipleIs(9223372036854777864, 2048, 4503599627370497, 8);
    NextLarge(922337203685477760, 56, 11, 9223372036854777856, 9223372036854777856);
    GatheredNext(9223372036854775808, 922337203685477580, 56);
  }

  lemma GatheredNext(n: nat, p: nat, d: Byte)
    requires IsDigit(d) && n == 10 * p + (d as int - 48) && n >= 10
    ensures Gathered(n) == NextDigit(Gathered(p), d)
  {
    hide NextDigit, Times, Plus;
    DivModUnique(n, 10, p, d as int - 48);
  }

  lemma BinadeLimits()
    ensures Pow2(1) == 2 && Pow2(4) == 16 && Pow2(7) == 128 && Pow2(11) == 2048
    ensures Pow2(53) == 0x20_0000_0000_0000 && Pow2(54) == 0x40_0000_0000_0000
    ensures Pow2(56) == 0x100_0000_0000_0000 && Pow2(57) == 0x200_0000_0000_0000
    ensures Pow2(59) == 0x800_0000_0000_0000 && Pow2(60) == 0x1000_0000_0000_0000
    ensures Pow2(63) == 0x8000_0000_0000_0000 && Pow2(64) == 0x1_0000_0000_0000_0000
  {
    PowerOf64();
    assert Pow2(0) == 1 && Pow2(3) == 8;
    SmallPowers();
    assert Pow2(58) == 4 * Pow2(56);
    assert Pow2(61) == 4 * Pow2(59);
  }

  /** One part in 2^53. */
  const UNIT: real := 1.0 / 9007199254740992.0

  ghost function Factor(f: real, k: nat): real
  {
    if k == 0 then 1.0 else Product(f, Factor(f, k - 1))
  }

  /** v is x, off by at most one part in 2^53 for k times. */
  ghost predicate Within(v: real, x: real, k: nat)
  {
    Product(Factor(1.0 - UNIT, k), x) <= v <= Product(Factor(1.0 + UNIT, k), x)
  }

  lemma {:induction false} FactorRange(k: nat)
    ensures 0.0 < Factor(1.0 - UNIT, k) <= 1.0 <= Factor(1.0 + UNIT, k)
  {
    if k > 0 {
      FactorRange(k - 1);
      var lo, hi := Factor(1.0 - UNIT, k - 1), Factor(1.0 + UNIT, k - 1);
      hide Factor, Product;
      ProductLess(1.0 - UNIT, 0.0, lo);
      ProductAtMost(1.0 - UNIT, lo, 1.0);
      ProductAtMost(1.0 + UNIT, 1.0, hi);
      ProductParts(1.0 - UNIT, lo);
      ProductParts(1.0 + UNIT, hi);
      hide UNIT;
      FactorNext(1.0 - UNIT, k);
      FactorNext(1.0 + UNIT, k);
    }
  }

  lemma FactorNext(f: real, k: nat)
    requires k > 0
    ensures Factor(f, k) == Product(f, Factor(f, k - 1))
  {}

  lemma WithinTen(v: real, x: real, k: nat)
    requires Within(v, x, k)
    ensures Within(10.0 * v, 10.0 * x, k)
  {
    TenTimes(Factor(1.0 - UNIT, k), x);
    TenTimes(Factor(1.0 + UNIT, k), x);
    hide Factor, Product;
  }

  lemma TenTimes(f: real, x: real)
    ensures Product(f, 10.0 * x) == 10.0 * Product(f, x)
  {}

  lemma WithinPlus(v: real, x: real, k: nat, c: real)
    requires Within(v, x, k) && c >= 0.0
    ensures Within(v + c, x + c, k)
  {
    FactorRange(k);
    var lo, hi := Factor(1.0 - UNIT, k), Factor(1.0 + UNIT, k);
    SumTimes(lo, x, c);
    SumTimes(hi, x, c);
    hide Factor;
    if c > 0.0 {
      ProductAtMost(c, lo, 1.0);
      ProductAtMost(c, 1.0, hi);
    }
    ProductParts(c, 0.0);
    TimesZero(lo, c);
    TimesZero(hi, c);
    hide Product;
  }

  lemma TimesZero(f: real, c: real)
    ensures c == 0.0 ==> Product(f, c) == 0.0
    ensures Product(1.0, c) == c
  {}

  lemma SumTimes(f: real, x: real, c: real)
    ensures Product(f, x + c) == Product(f, x) + Product(f, c)
  {}

  lemma UnitIs()
    ensures Power(2.0, -53) == UNIT
  {
    PowerAdd(2.0, -53, 53);
    PowerOfTwo(53);
    LargePowers();
    hide Power, Pow2;
    OneOver(Power(2.0, -53));
  }

  lemma OneOver(p: real)
    requires Product(p, 9007199254740992.0) == 1.0
    ensures p == UNIT
  {}

  /** A rounding of a number of magnitude 1 or more. */
  lemma WithinRounded(y: real, x: real, k: nat)
    requires Within(y, x, k) && y >= 1.0
    ensures Within(Rounded(y), x, k + 1) && Rounded(y) >= y / 2.0
  {
    UnitIs();
    RoundedUnit(y);
    var lo, hi := Factor(1.0 - UNIT, k), Factor(1.0 + UNIT, k);
    FactorNext(1.0 - UNIT, k + 1);
    FactorNext(1.0 + UNIT, k + 1);
    Nested(1.0 - UNIT, lo, x);
    Nested(1.0 + UNIT, hi, x);
    assert 0.0 < UNIT < 0.5;
    OffUnit(y, Rounded(y));
    hide Factor, Rounded, UNIT;
    ProductAtMost(1.0 - UNIT, Product(lo, x), y);
    ProductAtMost(1.0 + UNIT, y, Product(hi, x));
  }

  lemma Nested(f: real, g: real, x: real)
    ensures Product(Product(f, g), x) == Product(f, Product(g, x))
  {}

  lemma RoundedUnit(y: real)
    requires y >= 1.0
    ensures Magnitude(Rounded(y) - y) <= Product(UNIT, y)
  {
    UnitIs();
    assert Power(2.0, 0) == 1.0;
    hide Power, Rounded;
    PowerGrows(2.0, -1022, 0);
    RoundedNear(y);
  }

  lemma OffUnit(y: real, r: real)
    requires y >= 1.0 && Magnitude(r - y) <= Product(UNIT, y)
    ensures Product(1.0 - UNIT, y) <= r <= Product(1.0 + UNIT, y) && r >= y / 2.0
  {}

  /** Gathering any digits that do not overflow is off by at most one part in 2^53 twice for every digit. */
  lemma {:induction false} GatheredNear(n: nat)
    requires Gathered(n).Finite?
    ensures Within(Gathered(n).v, n as real, 2 * |Digits(n)|) && (n == 0 || Gathered(n).v >= 1.0)
  {
    if n < 10 {
      GatheredExact(n);
      FewTimes(n as real, 2);
      hide *;
    } else {
      var p, c := n / 10, n % 10;
      hide NextDigit, Within;
      PrefixFinite(Gathered(p), DigitByte(n));
      GatheredNear(p);
      NextNear(Gathered(p).v, p, c, n, 2 * |Digits(p)|);
    }
  }

  lemma FewTimes(x: real, k: nat)
    requires x >= 0.0
    ensures Within(x, x, k)
  {
    FactorRange(k);
    var lo, hi := Factor(1.0 - UNIT, k), Factor(1.0 + UNIT, k);
    hide Factor;
    if x > 0.0 {
      ProductAtMost(x, lo, 1.0);
      ProductAtMost(x, 1.0, hi);
    }
    TimesZero(lo, x);
    TimesZero(hi, x);
    hide Product;
  }

  lemma PrefixFinite(n: Number, c: Byte)
    requires IsDigit(c) && NextDigit(n, c).Finite?
    ensures n.Finite? && Times(n, Finite(10.0)).Finite?
  {
    hide ToDouble;
  }

  lemma NextNear(v: real, p: nat, c: nat, n: nat, k: nat)
    requires p > 0 && c < 10 && c == n % 10 && n == 10 * p + c && v >= 1.0 && Within(v, p as real, k)
    requires NextDigit(Finite(v), DigitByte(n)).Finite?
    ensures var r := NextDigit(Finite(v), DigitByte(n)).v; Within(r, n as real, k + 2) && r >= 1.0
  {
    hide NextDigit, Within, Rounded, UNIT;
    NextValue(v, DigitByte(n));
    var t := 10.0 * v;
    WithinTen(v, p as real, k);
    WithinRounded(t, 10.0 * p as real, k);
    WithinPlus(Rounded(t), 10.0 * p as real, k + 1, c as real);
    assert 10.0 * p as real + c as real == n as real;
    WithinRounded(Rounded(t) + c as real, n as real, k + 1);
  }

  lemma NextIsSum(v: real, d: Byte)
    requires IsDigit(d)
    ensures Times(Finite(v), Finite(10.0)) == ToDouble(10.0 * v)
    ensures ToDouble(10.0 * v).Finite? ==>
      NextDigit(Finite(v), d) == ToDouble(Rounded(10.0 * v) + (d as int - 48) as real)
  {
    assert Product(v, 10.0) == 10.0 * v;
    DoubleValue(10.0 * v);
    hide Product, Rounded, ToDouble;
  }

  lemma DoubleValue(x: real)
    ensures ToDouble(x).Finite? ==> ToDouble(x).v == Rounded(x)
  {
    hide Rounded, Power;
  }

  lemma NextValue(v: real, d: Byte)
    requires IsDigit(d) && NextDigit(Finite(v), d).Finite?
    ensures NextDigit(Finite(v), d).v == Rounded(Rounded(10.0 * v) + (d as int - 48) as real)
  {
    PrefixFinite(Finite(v), d);
    NextIsSum(v, d);
    DoubleValue(Rounded(10.0 * v) + (d as int - 48) as real);
    hide *;
  }

  lemma {:induction false} FactorSmall(k: nat)
    requires k <= 1000
    ensures Factor(1.0 + UNIT, k) <= 1.0 + 2.0 * k as real * UNIT
  {
    if k > 0 {
      FactorSmall(k - 1);
      var f := Factor(1.0 + UNIT, k - 1);
      assert Product(1.0 + UNIT, f) == f + UNIT * f;
      hide Factor, Product;
      FactorNext(1.0 + UNIT, k);
      assert (k - 1) as real == k as real - 1.0;
      assert f <= 2.0;
    }
  }

  lemma {:induction false} TenBelowSixteen(k: nat)
    ensures TenTo(k) <= Power(2.0, 4 * k)
  {
    if k > 0 {
      TenBelowSixteen(k - 1);
      var p := Power(2.0, 4 * k - 4);
      TenToNext(k - 1);
      PowerAdd(2.0, 4, 4 * k - 4);
      assert Power(2.0, 4) == 16.0;
      hide TenTo, Power;
      assert Product(16.0, p) == 16.0 * p;
      hide Product;
    }
  }

  lemma NotTooLarge(t: real)
    requires 1.0 <= t < Power(2.0, 900)
    ensures ToDouble(t).Finite? && Rounded(t) == ToDouble(t).v && t / 2.0 <= Rounded(t) <= 2.0 * t
  {
    RoundedUnit(t);
    PowerNext(2.0, 900);
    assert Product(2.0, Power(2.0, 900)) == 2.0 * Power(2.0, 900) && Product(UNIT, t) <= t / 2.0;
    hide Power, Rounded, Product;
    PowerGrows(2.0, 901, 1024);
  }

  /** Numbers below 10^61 do not overflow. */
  lemma {:induction false} GatheredFinite(n: nat, k: nat)
    requires 0 < k <= 61 && n as real < TenTo(k)
    ensures Gathered(n).Finite?
    decreases k
  {
    if n < 10 {
      GatheredExact(n);
    } else {
      var p := n / 10;
      assert TenTo(1) == 10.0;
      TenToNext(k - 1);
      hide TenTo, NextDigit;
      GatheredFinite(p, k - 1);
      GatheredNear(p);
      DigitsLength(p, k - 1);
      TwiceAtMost(Gathered(p).v, p, 2 * |Digits(p)|);
      TenBelowSixteen(k);
      PowerGrows(2.0, 4 * k, 800);
      NextFinite(Gathered(p).v, DigitByte(n));
    }
  }

  lemma TwiceAtMost(v: real, p: nat, k: nat)
    requires Within(v, p as real, k) && k <= 1000
    ensures v <= 2.0 * p as real
  {
    FactorSmall(k);
    var f := Factor(1.0 + UNIT, k);
    assert f <= 2.0;
    hide Factor, Product;
    if p > 0 { ProductAtMost(p as real, f, 2.0); }
    ProductParts(p as real, 0.0);
    TimesZero(f, p as real);
  }

  lemma NextFinite(v: real, d: Byte)
    requires IsDigit(d) && 1.0 <= v && 10.0 * v < Power(2.0, 802)
    ensures NextDigit(Finite(v), d).Finite?
  {
    LargeEnough();
    hide Power, Rounded, ToDouble, NextDigit;
    NextIsSum(v, d);
    NotTooLarge(10.0 * v);
    NotTooLarge(Rounded(10.0 * v) + (d as int - 48) as real);
  }

  lemma LargeEnough()
    ensures Power(2.0, 802) >= 64.0 && 4.0 * Power(2.0, 802) <= Power(2.0, 900)
  {
    PowerNext(2.0, 802);
    PowerNext(2.0, 803);
    ProductParts(Power(2.0, 802), 0.0);
    ProductParts(Power(2.0, 803), 0.0);
    assert Power(2.0, 6) == 64.0;
    hide Power, Product;
    PowerGrows(2.0, 6, 802);
    PowerGrows(2.0, 804, 900);
  }

  /** What is read for a number printed as a whole one: never an infinity, and the number itself but for two roundings
      for every digit. */
  lemma ReadingNear(pow: PowerOfTen, x: real)
    requires FormatOf(x).Integer? || FormatOf(x).Whole?
    ensures Reading(pow, x).Finite?
    ensures exists n: int :: Printed(x) == n as real && ReadNear(Reading(pow, x).v, n)
  {
    var n := if FormatOf(x).Integer? then Truncated(x) else Nearest(x);
    WholeBelow(x, n);
    hide Truncated, Nearest, TenTo, FormatOf, ReadingWhole, ReadNear;
    WholeNear(pow, n);
  }

  /** The value read for n has its sign and is near it. */
  ghost predicate ReadNear(v: real, n: int)
  {
    var m := if n < 0 then -n else n;
    Within(if n < 0 then -v else v, m as real, 2 * |Digits(m)|)
  }

  lemma WholeNear(pow: PowerOfTen, n: int)
    requires Magnitude(n as real) < TenTo(61)
    ensures ReadingWhole(pow, n).Finite? && ReadNear(ReadingWhole(pow, n).v, n)
  {
    var m: nat := if n < 0 then -n else n;
    assert m as real == Magnitude(n as real);
    hide Gathered, Scaled, Within, TenTo;
    GatheredFinite(m, 61);
    GatheredNear(m);
    ScaledByOne(pow, n < 0, m);
  }

  lemma WholeBelow(x: real, n: int)
    requires (FormatOf(x).Integer? && n == Truncated(x)) || (FormatOf(x).Whole? && n == Nearest(x))
    ensures Magnitude(n as real) < TenTo(61)
  {
    assert TenTo(4) == 10000.0 && TenTo(8) == 100000000.0 && TenTo(12) == 1000000000000.0;
    TenToNext(60);
    TenToGrows(12, 60);
    hide TenTo;
    if FormatOf(x).Whole? { NearestIsFloor(x); }
  }

  /** The double next to 3.3, and that next to 10^-6. */
  const THREE_POINT_THREE: real := 7430939385161318.0 / 2251799813685248.0
  const MILLIONTH: real := 4722366482869645.0 / 4722366482869645213696.0

  /** A number can come back although its text stands for another one: where the library's pow gives the double next to
      10^-6, the text 3.300000 of the double next to 3.3 is read as that double again. */
  lemma ThreePointThree(pow: PowerOfTen)
    requires pow(-6) == Finite(MILLIONTH)
    ensures NumberText(THREE_POINT_THREE) == [51, 46, 51, 48, 48, 48, 48, 48]
    ensures Printed(THREE_POINT_THREE) != THREE_POINT_THREE
    ensures Reading(pow, THREE_POINT_THREE) == Finite(THREE_POINT_THREE)
  {
    ThreeFormat();
    ThreeRounded();
    ThreeMillionths();
    ThreeText();
    Million();
    assert !(THREE_POINT_THREE < 0.0);
    hide FormatOf, Rounded, Millionths, Power, TenTo, Fixed;
    assert Product(3300000.0, MILLIONTH) < 4.0;
    WholeInRange(THREE_POINT_THREE);
    assert Scale(3300000, -6) == 3300000.0 / 1000000.0;
  }

  lemma ThreeFormat()
    ensures FormatOf(THREE_POINT_THREE) == Decimals
  {
    Million();
    assert TenTo(4) == 10000.0 && TenTo(8) == 100000000.0 && TenTo(9) == 1000000000.0;
    assert THREE_POINT_THREE.Floor == 3;
    hide TenTo;
  }

  lemma ThreeMillionths()
    ensures Millionths(THREE_POINT_THREE) == 3300000
  {
    assert 3299999.5 < THREE_POINT_THREE * 1000000.0 < 3300000.5;
  }

  lemma ThreeText()
    ensures Fixed(THREE_POINT_THREE) == [51, 46, 51, 48, 48, 48, 48, 48]
  {
    ThreeMillionths();
    ThreePlaces();
    assert Digits(3) == [51];
    assert 3300000 / 1000000 == 3 && 3300000 % 1000000 == 300000;
    hide Millionths, Padded, Digits;
  }

  lemma ThreePlaces()
    ensures Padded(300000, 6) == [51, 48, 48, 48, 48, 48]
  {
    assert Padded(3, 1) == [51] by { assert Padded(0, 0) == []; }
    assert Padded(30, 2) == [51, 48];
    assert Padded(300, 3) == [51, 48, 48];
    assert Padded(3000, 4) == [51, 48, 48, 48];
    assert Padded(30000, 5) == [51, 48, 48, 48, 48];
  }

  lemma ThreeRounded()
    ensures Rounded(Product(3300000.0, MILLIONTH)) == THREE_POINT_THREE
  {
    var x := Product(3300000.0, MILLIONTH);
    PowerOfMinus51();
    ThreeBits(x);
    assert Power(2.0, 1) == 2.0 && Power(2.0, 2) == 4.0;
    hide Power, Nearest;
    ExponentIs(2.0, x, 1);
    hide ExponentOf;
  }

  lemma ThreeBits(x: real)
    requires x == Product(3300000.0, MILLIONTH)
    ensures 2.0 <= x < 4.0 && Nearest(x / (1.0 / 2251799813685248.0)) == 7430939385161318
  {
    var y := x / (1.0 / 2251799813685248.0);
    assert y == x * 2251799813685248.0;
    assert 7430939385161317.5 < y < 7430939385161318.5;
  }

  lemma PowerOfMinus51()
    ensures Power(2.0, -51) == 1.0 / 2251799813685248.0
  {
    PowersTo51();
    hide Power, Pow2;
    PowerAdd(2.0, -51, 51);
    PowerOfTwo(51);
    InverseOf51(Power(2.0, -51));
  }

  lemma InverseOf51(q: real)
    requires Product(q, 2251799813685248.0) == 1.0
    ensures q == 1.0 / 2251799813685248.0
  {}

  lemma PowersTo51()
    ensures Pow2(51) == 2251799813685248 && Power(2.0, 0) == 1.0
  {
    LargePowers();
    assert Pow2(52) == 2 * Pow2(51);
  }
}
