/** Facts about powers, division and congruence that the big-number proofs share.
    Every lemma is stated for one instance, so that callers stay out of nonlinear search. */
module Arithmetic {

  ghost function Pow(b: int, e: nat): int
    decreases e
  {
    if e == 0 then 1 else b * Pow(b, e - 1)
  }

  lemma {:induction false} PowPositive(b: int, e: nat)
    requires b > 0
    ensures Pow(b, e) > 0
  {
    if e > 0 {
      PowPositive(b, e - 1);
      MulPositive(b, Pow(b, e - 1));
    }
  }

  lemma MulPositive(x: int, y: int)
    requires x > 0 && y > 0
    ensures x * y > 0
  {}

  lemma {:induction false} PowAdd(b: int, x: nat, y: nat)
    ensures Pow(b, x + y) == Pow(b, x) * Pow(b, y)
  {
    if x > 0 {
      PowAdd(b, x - 1, y);
      var p, q := Pow(b, x - 1), Pow(b, y);
      assert b * (p * q) == (b * p) * q;
    }
  }

  lemma {:induction false} PowMul(b: int, x: nat, y: nat)
    ensures x * y >= 0
    ensures Pow(Pow(b, x), y) == Pow(b, x * y)
    decreases y
  {
    MulMonotone(x, 0, y);
    if y == 0 {
      assert x * y == 0;
    } else {
      PowMul(b, x, y - 1);
      assert x * y == x + x * (y - 1);
      MulMonotone(x, 0, y - 1);
      PowAdd(b, x, x * (y - 1));
    }
  }

  lemma MulMonotone(k: int, x: int, y: int)
    requires k >= 0 && x <= y
    ensures k * x <= k * y
  {}

  /** Multiplying by a positive number reflects the order. */
  lemma MulCancelLess(k: int, x: int, y: int)
    requires k > 0 && k * x < k * y
    ensures x < y
  {
    if y <= x { MulMonotone(k, y, x); }
  }

  /** Quotient and remainder are determined by the division equation. */
  lemma DivModUnique(n: int, d: int, q: int, r: int)
    requires d > 0 && n == d * q + r && 0 <= r < d
    ensures n / d == q && n % d == r
  {
    var q', r' := n / d, n % d;
    assert n == d * q' + r';
    assert d * (q' - q) == r - r' by { assert d * (q' - q) == d * q' - d * q; }
    if q' > q { MulMonotone(d, 1, q' - q); }
    if q' < q { MulMonotone(d, q' - q, -1); }
  }

  lemma DivModEquation(n: int, d: int)
    requires d > 0
    ensures n == d * (n / d) + n % d && 0 <= n % d < d
  {}

  lemma FloorBelow(n: nat, d: int, q: int)
    requires d > 0 && q == n / d
    ensures 0 <= q && d * q <= n < d * q + d
  {
    DivModEquation(n, d);
    if q < 0 { MulMonotone(d, q, -1); }
  }

  lemma ModMultiple(x: int, k: int, d: int)
    requires d > 0
    ensures (x + d * k) % d == x % d
  {
    DivModEquation(x, d);
    assert x + d * k == d * (x / d + k) + x % d by {
      assert d * (x / d + k) == d * (x / d) + d * k;
    }
    DivModUnique(x + d * k, d, x / d + k, x % d);
  }

  lemma ModMulLeft(x: int, y: int, d: int)
    requires d > 0
    ensures ((x % d) * y) % d == (x * y) % d
  {
    var q, r := x / d, x % d;
    DivModEquation(x, d);
    assert x * y == r * y + d * (q * y) by {
      assert (d * q + r) * y == d * (q * y) + r * y;
    }
    ModMultiple(r * y, q * y, d);
  }

  lemma ModOfModMul(x: int, y: int, d: int)
    requires d > 0
    ensures ((x % d) * (y % d)) % d == (x * y) % d
    ensures ((x % d) * y) % d == (x * y) % d
    ensures (x * (y % d)) % d == (x * y) % d
  {
    var r := x % d;
    ModMulLeft(x, y, d);
    ModMulLeft(y, x, d);
    ModMulLeft(y, r, d);
    assert (y % d) * x == x * (y % d) && y * x == x * y;
    assert (y % d) * r == r * (y % d) && y * r == r * y;
  }

  lemma ModSmall(x: int, d: int)
    requires 0 <= x < d
    ensures x % d == x
  {
    DivModUnique(x, d, 0, x);
  }

  /** Powers of congruent bases are congruent. */
  lemma {:induction false} PowCongruent(b: int, e: nat, d: int)
    requires d > 0
    ensures Pow(b % d, e) % d == Pow(b, e) % d
  {
    if e > 0 {
      PowCongruent(b, e - 1, d);
      var p, q := Pow(b % d, e - 1), Pow(b, e - 1);
      ModOfModMul(b % d, p, d);
      ModOfModMul(b, q, d);
      assert ((b % d) * p) % d == ((b % d) * (p % d)) % d;
      assert (b * q) % d == ((b % d) * (q % d)) % d;
    }
  }

  /** Dropping low-order parts of a dividend one factor at a time. */
  lemma DivDiv(n: nat, a: int, b: int)
    requires a > 0 && b > 0
    ensures a * b > 0 && n / (a * b) == (n / a) / b
    ensures n % (a * b) == n % a + a * ((n / a) % b)
  {
    MulPositive(a, b);
    var q, r := n / a, n % a;
    var q', r' := q / b, q % b;
    DivModEquation(n, a);
    DivModEquation(q, b);
    assert n == (a * b) * q' + (r + a * r') by {
      assert a * (b * q' + r') == (a * b) * q' + a * r';
    }
    MulMonotone(a, r', b - 1);
    MulMonotone(a, 0, r');
    assert a * (b - 1) == a * b - a;
    DivModUnique(n, a * b, q', r + a * r');
  }
}
