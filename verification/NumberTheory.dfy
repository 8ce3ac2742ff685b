/** Divisibility, greatest common divisors and primes over the naturals. */
module NumberTheory {
  import opened Arithmetic

  ghost predicate Divides(d: nat, n: int)
  {
    if d == 0 then n == 0 else n % d == 0
  }

  ghost predicate IsGcd(g: nat, x: nat, y: nat)
  {
    && Divides(g, x) && Divides(g, y)
    && forall d: nat :: Divides(d, x) && Divides(d, y) ==> Divides(d, g)
  }

  /** Euclid's recursion, the reference for the iterative code. */
  ghost function Gcd(x: nat, y: nat): nat
    decreases y
  {
    if y == 0 then x else Gcd(y, x % y)
  }

  lemma DividesMultiple(d: nat, k: int)
    ensures Divides(d, d * k)
  {
    if d > 0 { DivModUnique(d * k, d, k, 0); }
  }

  /** The cofactor of a divisor. */
  ghost function Cofactor(d: nat, n: int): (k: int)
    requires Divides(d, n)
    ensures n == d * k
  {
    if d == 0 then 0 else n / d
  }

  lemma DividesCombination(d: nat, x: int, y: int, s: int, t: int)
    requires Divides(d, x) && Divides(d, y)
    ensures Divides(d, s * x + t * y)
  {
    var i, j := Cofactor(d, x), Cofactor(d, y);
    hide Divides;
    assert s * (d * i) + t * (d * j) == d * (s * i + t * j);
    DividesMultiple(d, s * i + t * j);
  }

  /** One step of Euclid's algorithm keeps the set of common divisors. */
  lemma GcdStep(g: nat, x: nat, y: nat)
    requires y > 0 && IsGcd(g, y, x % y)
    ensures IsGcd(g, x, y)
  {
    var q := x / y;
    DivModEquation(x, y);
    assert x == q * y + 1 * (x % y) && x % y == 1 * x + (-q) * y;
    hide Divides;
    DividesCombination(g, y, x % y, q, 1);
    forall d: nat | Divides(d, x) && Divides(d, y) ensures Divides(d, g) {
      DividesCombination(d, x, y, 1, -q);
    }
  }

  lemma {:induction false} GcdIsGcd(x: nat, y: nat)
    ensures IsGcd(Gcd(x, y), x, y)
    decreases y
  {
    if y == 0 {
    } else {
      GcdIsGcd(y, x % y);
      GcdStep(Gcd(y, x % y), x, y);
    }
  }

  ghost predicate Prime(p: nat)
  {
    p >= 2 && forall d: nat :: Divides(d, p) ==> d == 1 || d == p
  }

  /** Bezout: some combination of x and y is their gcd. */
  lemma {:induction false} Bezout(x: nat, y: nat) returns (s: int, t: int)
    ensures s * x + t * y == Gcd(x, y)
    decreases y
  {
    if y == 0 {
      s, t := 1, 0;
    } else {
      var q := x / y;
      DivModEquation(x, y);
      var s', t' := Bezout(y, x % y);
      s, t := t', s' - t' * q;
      assert t' * (x - y * q) == t' * x - (t' * q) * y;
      assert (s' - t' * q) * y == s' * y - (t' * q) * y;
    }
  }

  /** Euclid's lemma: a prime that divides a product divides one of the factors. */
  lemma PrimeDividesProduct(p: nat, x: nat, y: nat)
    requires Prime(p) && Divides(p, x * y) && !Divides(p, x)
    ensures Divides(p, y)
  {
    GcdIsGcd(x, p);
    var g := Gcd(x, p);
    assert g == 1;
    var s, t := Bezout(x, p);
    DividesMultiple(p, y);
    hide Divides, Gcd, Prime;
    DividesCombination(p, x * y, p * y, s, t);
    assert s * (x * y) + t * (p * y) == (s * x + t * p) * y;
  }

  /** Binomial coefficients by Pascal's rule. */
  ghost function Choose(n: nat, k: nat): nat
  {
    if k == 0 then 1 else if n == 0 then 0 else Choose(n - 1, k - 1) + Choose(n - 1, k)
  }

  /** The sum of Choose(n, 0) up to Choose(n, k). */
  ghost function RowSum(n: nat, k: nat): nat
  {
    Choose(n, k) + if k == 0 then 0 else RowSum(n, k - 1)
  }

  lemma {:induction false} ChooseAbove(n: nat, k: nat)
    requires k > n
    ensures Choose(n, k) == 0
  {
    if n > 0 {
      ChooseAbove(n - 1, k - 1);
      ChooseAbove(n - 1, k);
    }
  }

  lemma {:induction false} RowSumPascal(n: nat, k: nat)
    requires n > 0
    ensures RowSum(n, k) == RowSum(n - 1, k) + if k == 0 then 0 else RowSum(n - 1, k - 1)
    decreases k
  {
    if k > 0 { RowSumPascal(n, k - 1); }
  }

  lemma {:induction false} RowSumBeyond(n: nat, k: nat)
    requires k >= n
    ensures RowSum(n, k) == RowSum(n, n)
    decreases k
  {
    if k > n {
      ChooseAbove(n, k);
      RowSumBeyond(n, k - 1);
    }
  }

  /** A whole row adds up to a power of two. */
  lemma {:induction false} RowSumIsPow(n: nat)
    ensures RowSum(n, n) == Pow(2, n)
  {
    if n > 0 {
      RowSumIsPow(n - 1);
      RowSumPascal(n, n);
      RowSumBeyond(n - 1, n);
    }
  }

  /** The absorption identity k * C(n, k) == n * C(n - 1, k - 1). */
  lemma {:induction false} ChooseAbsorb(n: nat, k: nat)
    requires n > 0 && k > 0
    ensures k * Choose(n, k) == n * Choose(n - 1, k - 1)
    decreases n
  {
    if n == 1 {
      ChooseAbove(0, k);
      if k > 1 { ChooseAbove(0, k - 1); }
      assert Choose(1, k) == Choose(0, k - 1) + Choose(0, k);
    } else {
      var a, b, c := Choose(n - 1, k - 1), Choose(n - 1, k), Choose(n - 2, k - 1);
      ChooseAbsorb(n - 1, k);
      if k == 1 {
        assert a == 1;
      } else {
        ChooseAbsorb(n - 1, k - 1);
        var d := Choose(n - 2, k - 2);
        assert a == d + c;
        AbsorbIdentity(n, k, a, b, c, d);
      }
    }
  }

  lemma AbsorbIdentity(n: int, k: int, a: int, b: int, c: int, d: int)
    requires k * b == (n - 1) * c && (k - 1) * a == (n - 1) * d && a == d + c
    ensures k * (a + b) == n * a
  {
    assert k * (a + b) == (k - 1) * a + a + k * b;
    assert (n - 1) * (d + c) == (n - 1) * d + (n - 1) * c;
  }

  /** A prime divides the inner binomial coefficients of its row. */
  lemma PrimeDividesChoose(p: nat, k: nat)
    requires Prime(p) && 0 < k < p
    ensures Divides(p, Choose(p, k))
  {
    ChooseAbsorb(p, k);
    DividesMultiple(p, Choose(p - 1, k - 1));
    assert !Divides(p, k) by { ModSmall(k, p); }
    hide Choose, Divides;
    PrimeDividesProduct(p, k, Choose(p, k));
  }

  lemma {:induction false} PrimeRowSum(p: nat, k: nat)
    requires Prime(p) && k < p
    ensures Divides(p, RowSum(p, k) - 1)
    decreases k
  {
    if k == 0 {
      assert RowSum(p, 0) == 1;
    } else {
      PrimeRowSum(p, k - 1);
      PrimeDividesChoose(p, k);
      DividesCombination(p, RowSum(p, k - 1) - 1, Choose(p, k), 1, 1);
      assert 1 * (RowSum(p, k - 1) - 1) + 1 * Choose(p, k) == RowSum(p, k) - 1;
    }
  }

  lemma {:induction false} ChooseSelf(n: nat)
    ensures Choose(n, n) == 1
  {
    if n > 0 {
      ChooseSelf(n - 1);
      ChooseAbove(n - 1, n);
    }
  }

  /** Fermat's little theorem for the witness 2. */
  lemma FermatForTwo(p: nat)
    requires Prime(p)
    ensures Pow(2, p) % p == 2 % p
  {
    RowSumIsPow(p);
    PrimeRowSum(p, p - 1);
    ChooseSelf(p);
    var k := Cofactor(p, RowSum(p, p - 1) - 1);
    assert Pow(2, p) == 2 + p * k;
    ModMultiple(2, k, p);
  }
}
