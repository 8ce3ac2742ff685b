/** Double arithmetic (IEEE 754 binary64) on exact reals: every operation gives the double nearest to its exact
    result. Zero has no sign here. */
module Doubles {
  import opened Arithmetic
  import opened Words

  function Magnitude(x: real): (m: real)
    ensures m >= 0.0
  {
    if x < 0.0 then -x else x
  }

  /** b^z */
  function Power(b: real, z: int): (p: real)
    requires b >= 2.0
    ensures p > 0.0
    decreases if z < 0 then -z else z
  {
    if z == 0 then 1.0
    else if z > 0 then
      Positive(b, Power(b, z - 1));
      b * Power(b, z - 1)
    else
      PositivePart(b, Power(b, z + 1));
      Power(b, z + 1) / b
  }

  function Product(x: real, t: real): real
  {
    x * t
  }

  lemma ProductLess(b: real, x: real, y: real)
    requires b > 0.0 && x < y
    ensures Product(b, x) < Product(b, y) && Product(x, b) < Product(y, b)
  {
    assert b * (y - x) > 0.0;
    assert b * (y - x) == b * y - b * x;
  }

  lemma ProductAtMost(b: real, x: real, y: real)
    requires b > 0.0 && x <= y
    ensures Product(b, x) <= Product(b, y) && Product(x, b) <= Product(y, b)
  {
    hide Product;
    if x < y { ProductLess(b, x, y); }
  }

  lemma ProductParts(b: real, x: real)
    ensures Product(b, 0.0) == 0.0 && Product(b, 1.0) == b && Product(b, 0.5) == b / 2.0 && Product(2.0, b) == 2.0 * b
    ensures Product(-x, b) == -Product(x, b)
    ensures Product(x + 0.5, b) == Product(x, b) + b / 2.0 && Product(x - 0.5, b) == Product(x, b) - b / 2.0
  {}

  lemma Positive(b: real, p: real)
    requires b > 0.0 && p > 0.0
    ensures b * p > 0.0
  {}

  lemma PositivePart(b: real, p: real)
    requires b > 0.0 && p > 0.0
    ensures p / b > 0.0 && b * (p / b) == p
  {
    assert b * (p / b) == p;
    PositiveFactor(b, p / b);
  }

  lemma PositiveFactor(b: real, q: real)
    requires b > 0.0 && b * q > 0.0
    ensures q > 0.0
  {}

  lemma PowerNext(b: real, z: int)
    requires b >= 2.0
    ensures Power(b, z + 1) == Product(b, Power(b, z))
  {
    if z < 0 { PositivePart(b, Power(b, z + 1)); }
  }

  lemma {:induction false} PowerAdd(b: real, y: int, z: int)
    requires b >= 2.0
    ensures Product(Power(b, y), Power(b, z)) == Power(b, y + z)
    decreases if z < 0 then -z else z
  {
    if z != 0 { hide *; }
    if z > 0 {
      PowerAdd(b, y, z - 1);
      ProductNext(b, Power(b, y), z - 1, y + z - 1);
    } else if z < 0 {
      PowerAdd(b, y, z + 1);
      ProductNext(b, Power(b, y), z, y + z);
    }
  }

  lemma ProductNext(b: real, x: real, z: int, y: int)
    requires b >= 2.0
    ensures Product(x, Power(b, z)) == Power(b, y) <==> Product(x, Power(b, z + 1)) == Power(b, y + 1)
  {
    hide *;
    PowerNext(b, z);
    PowerNext(b, y);
    BothScaled(b, x, Power(b, z), Power(b, y));
  }

  lemma BothScaled(b: real, x: real, q: real, p: real)
    requires b > 0.0
    ensures Product(x, q) == p <==> Product(x, Product(b, q)) == Product(b, p)
  {
    assert x * (b * q) == b * (x * q);
    SameScaled(b, x * q, p);
  }

  lemma SameScaled(b: real, y: real, p: real)
    requires b > 0.0
    ensures y == p <==> b * y == b * p
  {
    assert b * (y - p) == b * y - b * p;
    if y != p { NotZero(b, y - p); }
  }

  lemma NotZero(x: real, y: real)
    requires x != 0.0 && y != 0.0
    ensures x * y != 0.0
  {}

  lemma {:induction false} PowerGrows(b: real, y: int, z: int)
    requires b >= 2.0 && y <= z
    ensures Power(b, y) <= Power(b, z) && (y < z ==> Power(b, y + 1) <= Power(b, z))
    decreases z - y
  {
    if y < z {
      hide *;
      PowerGrows(b, y, z - 1);
      PowerNext(b, z - 1);
      AtLeastTwice(b, Power(b, z - 1));
    }
  }

  lemma AtLeastTwice(b: real, p: real)
    requires b >= 2.0 && p > 0.0
    ensures Product(b, p) >= 2.0 * p
  {
    assert (b - 2.0) * p >= 0.0;
    assert (b - 2.0) * p == b * p - 2.0 * p;
  }

  /** The exponent of a positive number to a base. */
  function ExponentOf(b: real, x: real): (e: int)
    requires b >= 2.0 && x > 0.0
    ensures Power(b, e) <= x < Power(b, e + 1)
    decreases x < 1.0, if x < 1.0 then (1.0 / x).Floor else x.Floor
  {
    if x >= b then
      Quotient(b, x);
      var e := ExponentOf(b, x / b);
      ExponentUp(b, x, e);
      e + 1
    else if x >= 1.0 then
      PowerNext(b, 0);
      0
    else
      Reciprocal(b, x);
      var e := ExponentOf(b, b * x);
      ExponentDown(b, x, e);
      e - 1
  }

  lemma ExponentUp(b: real, x: real, e: int)
    requires b >= 2.0 && Power(b, e) <= x / b < Power(b, e + 1)
    ensures Power(b, e + 1) <= x < Power(b, e + 2)
  {
    hide Power;
    PowerNext(b, e);
    PowerNext(b, e + 1);
    assert b * (x / b) == x;
    Less(b, Power(b, e), x / b, Power(b, e + 1));
  }

  lemma ExponentDown(b: real, x: real, e: int)
    requires b >= 2.0 && Power(b, e) <= b * x < Power(b, e + 1)
    ensures Power(b, e - 1) <= x < Power(b, e)
  {
    hide Power;
    PowerNext(b, e - 1);
    PowerNext(b, e);
    LessBack(b, Power(b, e - 1), x, Power(b, e));
  }

  lemma Less(b: real, lo: real, x: real, hi: real)
    requires b > 0.0 && lo <= x < hi
    ensures b * lo <= b * x < b * hi
  {
    assert b * (x - lo) >= 0.0 && b * (hi - x) > 0.0;
    assert b * (x - lo) == b * x - b * lo && b * (hi - x) == b * hi - b * x;
  }

  lemma LessBack(b: real, lo: real, x: real, hi: real)
    requires b > 0.0 && b * lo <= b * x < b * hi
    ensures lo <= x < hi
  {
    assert b * (x - lo) == b * x - b * lo && b * (hi - x) == b * hi - b * x;
    PositiveFactor(b, hi - x);
    NotNegative(b, x - lo);
  }

  lemma NotNegative(b: real, q: real)
    requires b > 0.0 && b * q >= 0.0
    ensures q >= 0.0
  {}

  lemma Quotient(b: real, x: real)
    requires b >= 2.0 && x >= b
    ensures x / b > 0.0 && 0 <= (x / b).Floor < x.Floor && x / b >= 1.0
  {
    var q := x / b;
    assert b * q == x;
    assert b * (q - 1.0) == x - b;
    NotNegative(b, q - 1.0);
    AtLeastTwice(b, q);
  }

  lemma Reciprocal(b: real, x: real)
    requires b >= 2.0 && 0.0 < x < 1.0
    ensures b * x > 0.0 && (1.0 / x).Floor >= 1
    ensures b * x < 1.0 ==> 0 <= (1.0 / (b * x)).Floor < (1.0 / x).Floor
  {
    Positive(b, x);
    Inverse(x, 1.0 / x);
    if b * x < 1.0 {
      var t := 1.0 / (b * x);
      Inverse(b * x, t);
      assert (b * t) * x == t * (b * x);
      SameFactor(b * t, 1.0 / x, x);
      AtLeastTwice(b, t);
    }
  }

  lemma Inverse(x: real, r: real)
    requires 0.0 < x < 1.0 && r == 1.0 / x
    ensures r * x == 1.0 && r > 1.0
  {
    assert r * x == 1.0;
    assert (r - 1.0) * x == 1.0 - x;
  }

  lemma SameFactor(y: real, r: real, x: real)
    requires x > 0.0 && y * x == r * x
    ensures y == r
  {
    assert (y - r) * x == 0.0;
  }

  /** The exponent is determined. */
  lemma ExponentIs(b: real, x: real, e: int)
    requires b >= 2.0 && x > 0.0 && Power(b, e) <= x < Power(b, e + 1)
    ensures ExponentOf(b, x) == e
  {
    var f := ExponentOf(b, x);
    hide Power, ExponentOf;
    if f < e { PowerGrows(b, f + 1, e); }
    if e < f { PowerGrows(b, e + 1, f); }
  }

  /** The nearest integer; of two as near, the even one. */
  function Nearest(x: real): (n: int)
    ensures -0.5 <= n as real - x <= 0.5
    ensures x == x.Floor as real ==> n == x.Floor
  {
    var f := x.Floor;
    var r := x - f as real;
    if r < 0.5 || (r == 0.5 && f % 2 == 0) then f else f + 1
  }

  /** The exponent of the last of the 53 bits of a double near x; the least is that of the subnormal numbers. */
  function LastBit(x: real): int
    requires x != 0.0
  {
    var e := ExponentOf(2.0, Magnitude(x)) - 52;
    if e < -1074 then -1074 else e
  }

  /** The nearest number of 53 bits. */
  function Rounded(x: real): real
  {
    if x == 0.0 then 0.0
    else
      var q := Power(2.0, LastBit(x));
      Product(Nearest(x / q) as real, q)
  }

  datatype Number = Finite(v: real) | Infinite(negative: bool) | NotANumber

  /** The double for an exact result. */
  function ToDouble(x: real): Number
  {
    var r := Rounded(x);
    if Magnitude(r) < Power(2.0, 1024) then Finite(r) else Infinite(x < 0.0)
  }

  function Plus(a: Number, b: Number): Number
  {
    if a.Finite? && b.Finite? then ToDouble(a.v + b.v)
    else if a.NotANumber? || b.NotANumber? || (a.Infinite? && b.Infinite? && a.negative != b.negative) then NotANumber
    else if a.Infinite? then a
    else b
  }

  predicate Negative(a: Number)
  {
    (a.Finite? && a.v < 0.0) || (a.Infinite? && a.negative)
  }

  function Times(a: Number, b: Number): Number
  {
    if a.Finite? && b.Finite? then ToDouble(Product(a.v, b.v))
    else if a.NotANumber? || b.NotANumber? || a == Finite(0.0) || b == Finite(0.0) then NotANumber
    else Infinite(Negative(a) != Negative(b))
  }

  function Negated(a: Number): Number
  {
    match a
    case Finite(v) => Finite(-v)
    case Infinite(negative) => Infinite(!negative)
    case NotANumber => NotANumber
  }

  const TWO53: int := 0x20_0000_0000_0000

  lemma {:induction false} PowerOfTwo(k: nat)
    ensures Power(2.0, k) == Pow2(k) as real
  {
    if k > 0 { PowerOfTwo(k - 1); }
  }

  lemma LargePowers()
    ensures Pow2(8) == 0x100 && Pow2(16) == 0x1_0000 && Pow2(32) == 0x1_0000_0000
    ensures Pow2(52) == 0x10_0000_0000_0000 && Pow2(53) == TWO53
  {
    Pow2Of32();
    Pow2Add(32, 16);
    Pow2Add(48, 4);
    Pow2Add(48, 5);
  }

  /** m * 2^k */
  ghost predicate IsBinary(x: real, m: int, k: int)
  {
    x == Product(m as real, Power(2.0, k))
  }

  /** The same number with a lower exponent. */
  lemma Lowered(x: real, m: int, k: int, l: int)
    requires IsBinary(x, m, k) && l <= k
    ensures IsBinary(x, m * Pow2(k - l), l)
  {
    hide Power, Pow2;
    PowerAdd(2.0, k - l, l);
    PowerOfTwo(k - l);
    Regrouped(m as real, Pow2(k - l) as real, Power(2.0, l));
    assert (m * Pow2(k - l)) as real == m as real * Pow2(k - l) as real;
  }

  lemma Regrouped(a: real, b: real, c: real)
    ensures Product(a, Product(b, c)) == Product(a * b, c)
  {}

  /** A number on the grid of its last bit is its own double. */
  lemma OnGrid(x: real, m: int, k: int)
    requires x != 0.0 && IsBinary(x, m, k) && LastBit(x) <= k
    ensures Rounded(x) == x
  {
    var l := LastBit(x);
    Lowered(x, m, k, l);
    hide LastBit, Power, Nearest, IsBinary, Pow2;
    var n := m * Pow2(k - l);
    assert x == Product(n as real, Power(2.0, l)) by { assert IsBinary(x, n, l); Unfold(x, n, l); }
    QuotientIs(n as real, Power(2.0, l), x);
    assert (n as real).Floor == n;
  }

  lemma Unfold(x: real, m: int, k: int)
    requires IsBinary(x, m, k)
    ensures x == Product(m as real, Power(2.0, k))
  {}

  lemma QuotientIs(n: real, q: real, x: real)
    requires q > 0.0 && x == Product(n, q)
    ensures x / q == n
  {}

  lemma LastBitBelow(x: real, m: int, k: int)
    requires x != 0.0 && IsBinary(x, m, k) && -TWO53 < m < TWO53 && k >= -1074
    ensures LastBit(x) <= k
  {
    var e := ExponentOf(2.0, Magnitude(x));
    var p := Power(2.0, k);
    PowerAdd(2.0, 53, k);
    PowerOfTwo(53);
    LargePowers();
    Unfold(x, m, k);
    hide Power, ExponentOf, Pow2, IsBinary, Product;
    BelowScaled(x, m, p);
    if e >= 53 + k { PowerGrows(2.0, 53 + k, e); }
  }

  lemma BelowScaled(x: real, m: int, p: real)
    requires p > 0.0 && -TWO53 < m < TWO53 && x == Product(m as real, p)
    ensures Magnitude(x) < Product(TWO53 as real, p)
  {
    hide Product;
    ProductLess(p, m as real, TWO53 as real);
    ProductLess(p, -TWO53 as real, m as real);
    ProductParts(p, TWO53 as real);
  }

  /** Every number of at most 53 bits within the range of exponents is its own double. */
  lemma Representable(x: real, m: int, k: int)
    requires IsBinary(x, m, k) && -TWO53 <= m <= TWO53 && k >= -1074
    ensures Rounded(x) == x
  {
    if x != 0.0 {
      if -TWO53 < m < TWO53 {
        LastBitBelow(x, m, k);
        OnGrid(x, m, k);
      } else {
        Halved(x, m, k);
        LastBitBelow(x, m / 2, k + 1);
        OnGrid(x, m / 2, k + 1);
      }
    }
  }

  lemma Halved(x: real, m: int, k: int)
    requires IsBinary(x, m, k) && m % 2 == 0
    ensures IsBinary(x, m / 2, k + 1)
  {
    PowerNext(2.0, k);
    hide Power;
    Regrouped((m / 2) as real, 2.0, Power(2.0, k));
    assert (m / 2) as real * 2.0 == m as real;
  }

  /** Whole numbers up to 2^53 are their own doubles. */
  lemma WholeRounded(n: int)
    requires -TWO53 <= n <= TWO53
    ensures Rounded(n as real) == n as real
  {
    assert IsBinary(n as real, n, 0);
    Representable(n as real, n, 0);
  }

  /** The nearest multiple of d; of two as near, the even one. */
  function NearestMultiple(n: nat, d: nat): nat
    requires d > 0
  {
    var a, r := n / d, n % d;
    d * if 2 * r < d || (2 * r == d && a % 2 == 0) then a else a + 1
  }

  lemma NearestMultipleIs(n: nat, d: nat, a: nat, r: nat)
    requires n == d * a + r && r < d
    ensures NearestMultiple(n, d) == d * if 2 * r < d || (2 * r == d && a % 2 == 0) then a else a + 1
  {
    DivModUnique(n, d, a, r);
  }

  lemma NearestMultipleMod(n: nat, d: nat)
    requires d > 0
    ensures NearestMultiple(n, d) % d == 0
  {
    var a, r := n / d, n % d;
    var b := if 2 * r < d || (2 * r == d && a % 2 == 0) then a else a + 1;
    DivModUnique(d * b, d, b, 0);
  }

  /** Larger whole numbers lose their last bits. */
  lemma LargeRounded(n: nat, k: nat)
    requires Pow2(52 + k) <= n < Pow2(53 + k)
    ensures Rounded(n as real) == NearestMultiple(n, Pow2(k)) as real
  {
    var x := n as real;
    PowerOfTwo(52 + k);
    PowerOfTwo(53 + k);
    PowerOfTwo(k);
    hide Power, Pow2, Nearest;
    ExponentIs(2.0, x, 52 + k);
    NearestQuotient(n, Pow2(k));
  }

  lemma NearestQuotient(n: nat, d: nat)
    requires d > 0
    ensures Product(Nearest(n as real / d as real) as real, d as real) == NearestMultiple(n, d) as real
  {
    var a, r := n / d, n % d;
    var y := n as real / d as real;
    assert n == d * a + r;
    FractionOf(n, d, a, r, y);
    var b := NearestMultiple(n, d) / d;
    assert Nearest(y) == if 2 * r < d || (2 * r == d && a % 2 == 0) then a else a + 1;
  }

  lemma FractionOf(n: nat, d: nat, a: nat, r: nat, y: real)
    requires d > 0 && n == d * a + r && r < d && y == n as real / d as real
    ensures y.Floor == a && (2 * r < d <==> y - a as real < 0.5) && (2 * r == d <==> y - a as real == 0.5)
  {
    assert d as real * y == n as real;
    assert d as real * (y - a as real) == r as real;
    FractionRange(d as real, y - a as real, r as real);
  }

  lemma FractionRange(d: real, f: real, r: real)
    requires d > 0.0 && Product(d, f) == r && 0.0 <= r < d
    ensures 0.0 <= f < 1.0 && (2.0 * r < d <==> f < 0.5) && (2.0 * r == d <==> f == 0.5)
  {
    hide Product;
    ProductParts(d, f);
    if f < 0.0 { ProductLess(d, f, 0.0); }
    ProductAtMost(d, if f < 1.0 then 0.0 else 1.0, if f < 1.0 then 0.0 else f);
    if f < 0.5 { ProductLess(d, f, 0.5); }
    if f > 0.5 { ProductLess(d, 0.5, f); }
  }

  /** Rounding changes a number that is not subnormal by at most one part in 2^53. */
  lemma RoundedNear(x: real)
    requires Magnitude(x) >= Power(2.0, -1022)
    ensures Magnitude(Rounded(x) - x) <= Product(Power(2.0, -53), Magnitude(x))
  {
    var e := ExponentOf(2.0, Magnitude(x));
    NormalBit(x, e);
    HalfBit(Magnitude(x), e);
    hide *;
    OffBy(x, Power(2.0, e - 52), Nearest(x / Power(2.0, e - 52)) as real);
    RoundedAt(x, e);
  }

  lemma NormalBit(x: real, e: int)
    requires Magnitude(x) >= Power(2.0, -1022) && e == ExponentOf(2.0, Magnitude(x))
    ensures x != 0.0 && LastBit(x) == e - 52
  {
    if e < -1022 { PowerGrows(2.0, e + 1, -1022); }
    hide Power;
  }

  lemma RoundedAt(x: real, e: int)
    requires x != 0.0 && LastBit(x) == e - 52
    ensures var q := Power(2.0, e - 52); Rounded(x) == Product(Nearest(x / q) as real, q)
  {}

  lemma HalfBit(x: real, e: int)
    requires Power(2.0, e) <= x
    ensures Power(2.0, e - 52) / 2.0 <= Product(Power(2.0, -53), x)
  {
    PowerAdd(2.0, -53, e);
    PowerNext(2.0, e - 53);
    ProductParts(Power(2.0, e - 53), x);
    hide *;
    ProductAtMost(Power(2.0, -53), Power(2.0, e), x);
  }

  lemma OffBy(x: real, q: real, n: real)
    requires q > 0.0 && -0.5 <= n - x / q <= 0.5
    ensures Magnitude(Product(n, q) - x) <= q / 2.0
  {
    var y := x / q;
    assert Product(y, q) == x;
    hide Product;
    ProductParts(q, y);
    ProductAtMost(q, n, y + 0.5);
    ProductAtMost(q, y - 0.5, n);
  }

  /** Rounding again changes nothing. */
  lemma RoundedAgain(x: real)
    ensures Rounded(Rounded(x)) == Rounded(x)
  {
    if x != 0.0 {
      var l := LastBit(x);
      var n := Nearest(x / Power(2.0, l));
      BitsOf(x);
      assert IsBinary(Rounded(x), n, l);
      hide LastBit, Rounded, Nearest, Power, IsBinary;
      Representable(Rounded(x), n, l);
    }
  }

  /** A number has at most 53 bits above its last one. */
  lemma BitsOf(x: real)
    requires x != 0.0
    ensures -TWO53 <= Nearest(x / Power(2.0, LastBit(x))) <= TWO53 && LastBit(x) >= -1074
  {
    var l, e := LastBit(x), ExponentOf(2.0, Magnitude(x));
    assert e < l + 53;
    hide LastBit, Nearest, Power, ExponentOf;
    PowerGrows(2.0, e + 1, l + 53);
    PowerAdd(2.0, 53, l);
    PowerOfTwo(53);
    LargePowers();
    BelowBits(x, Power(2.0, l));
  }

  lemma BelowBits(x: real, q: real)
    requires q > 0.0 && Magnitude(x) < Product(TWO53 as real, q)
    ensures -TWO53 <= Nearest(x / q) <= TWO53
  {
    var y := x / q;
    assert Product(y, q) == x;
    ProductParts(q, TWO53 as real);
    hide Product;
    if y >= TWO53 as real { ProductAtMost(q, TWO53 as real, y); }
    if y <= -TWO53 as real { ProductAtMost(q, y, -TWO53 as real); }
  }

  lemma RoundedNegated(x: real)
    ensures Rounded(-x) == -Rounded(x)
  {
    if x != 0.0 {
      var q := Power(2.0, LastBit(x));
      assert Magnitude(-x) == Magnitude(x);
      NearestNegated(x / q);
      ProductParts(q, Nearest(x / q) as real);
      QuotientNegated(x, q);
      hide Product, Nearest, Power;
    }
  }

  lemma QuotientNegated(x: real, q: real)
    requires q > 0.0
    ensures (-x) / q == -(x / q)
  {}

  lemma NearestNegated(y: real)
    ensures Nearest(-y) == -Nearest(y)
  {
    var f := y.Floor;
    if y == f as real {
      assert (-y).Floor == -f;
    } else {
      assert (-y).Floor == -f - 1;
      assert (-f - 1) % 2 == 0 <==> f % 2 != 0;
    }
  }

  /** The result of an operation is its own double, and so is its negative. */
  lemma DoubleAgain(x: real)
    requires ToDouble(x).Finite?
    ensures var v := ToDouble(x).v; ToDouble(v) == Finite(v) && ToDouble(-v) == Finite(-v)
  {
    RoundedAgain(x);
    RoundedNegated(ToDouble(x).v);
    hide Rounded, Power;
  }
}
