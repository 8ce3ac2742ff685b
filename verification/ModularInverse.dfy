/** Greatest common divisors and modular inverses without negative numbers (NN_Gcd and NN_ModInv in nn.c). */
module ModularInverse {
  import opened Arithmetic
  import opened NumberTheory
  import opened Words
  import opened DigitSequences
  import opened NaturalNumbers
  import opened Multiplication
  import opened Division

  /** a = gcd(b, c). */
  method GcdOf(a: array<Digit>, b: array<Digit>, c: array<Digit>, n: nat)
    requires n <= MAX_NN_DIGITS && n <= a.Length && n <= b.Length && n <= c.Length
    modifies a
    ensures IsGcd(Val(a[..n]), old(Val(b[..n])), old(Val(c[..n])))
    ensures forall k :: n <= k < a.Length ==> a[k] == old(a[k])
  {
    hide *;
    var t, u, v := new Digit[MAX_NN_DIGITS], new Digit[MAX_NN_DIGITS], new Digit[MAX_NN_DIGITS];
    ghost var x, y := Val(b[..n]), Val(c[..n]);
    ghost var g := Gcd(x, y);
    GcdIsGcd(x, y);
    Assign(u, b, n);
    Assign(v, c, n);
    var done := Zero(v, n);
    while !done
      invariant Gcd(Val(u[..n]), Val(v[..n])) == g && IsGcd(g, x, y)
      invariant done <==> Val(v[..n]) == 0
      modifies t, u, v
      decreases Val(v[..n])
    {
      GcdUnfold(Val(u[..n]), Val(v[..n]));
      Mod(t, u, n, v, n);
      Assign(u, v, n);
      Assign(v, t, n);
      done := Zero(v, n);
    }
    GcdZero(Val(u[..n]));
    assert IsGcd(Val(u[..n]), x, y);
    Assign(a, u, n);
  }

  lemma GcdUnfold(x: nat, y: nat)
    requires y > 0
    ensures Gcd(x, y) == Gcd(y, x % y) && x % y < y
  {}

  lemma GcdZero(x: nat)
    ensures Gcd(x, 0) == x
  {}

  /** The state of the extended Euclidean loop: b's multiples u1 and v1 are, up to multiples of c and
      with alternating sign, the remainders u3 and v3; the cofactors never exceed c. */
  ghost predicate Euclid(b: nat, c: nat, sign: int, u1: nat, u3: nat, v1: nat, v3: nat, k: int, l: int)
  {
    && (sign == 1 || sign == -1)
    && u1 * b == sign * u3 + k * c
    && v1 * b == -sign * v3 + l * c
    && u1 * v3 + v1 * u3 == c
    && u1 <= c && v1 <= c
    && Gcd(u3, v3) == Gcd(b, c)
  }

  lemma EuclidStart(b: nat, c: nat)
    requires c > 0
    ensures Euclid(b, c, 1, 1, b, 0, c, 0, 1)
  {}

  lemma CofactorBound(x: int, y: int, z: int, w: int, c: int)
    requires x >= 0 && y >= 1 && z >= 0 && w >= 0 && z * w + x * y == c
    ensures x <= c
  {
    MulMonotone(x, 1, y);
    MulMonotone(z, 0, w);
  }

  lemma EuclidIdentity(b: int, c: int, sign: int, u1: int, u3: int, v1: int, v3: int, k: int, l: int,
                       q: int, r: int, t: int, l': int)
    requires u1 * b == sign * u3 + k * c && v1 * b == -sign * v3 + l * c && u1 * v3 + v1 * u3 == c
    requires u3 == v3 * q + r && t == u1 + q * v1 && l' == k + q * l
    ensures t * b == sign * r + l' * c
    ensures v1 * r + t * v3 == c
  {
    assert t * b == sign * r + l' * c by {
      assert (u1 + q * v1) * b == u1 * b + q * (v1 * b);
      assert q * (-sign * v3 + l * c) == -sign * (v3 * q) + (q * l) * c;
      assert (k + q * l) * c == k * c + (q * l) * c;
      assert sign * (v3 * q + r) == sign * (v3 * q) + sign * r;
    }
    assert v1 * r + t * v3 == c by {
      assert v1 * (v3 * q + r) == (q * v1) * v3 + v1 * r;
      assert (u1 + q * v1) * v3 == u1 * v3 + (q * v1) * v3;
    }
  }

  /** One division step; the new cofactor still does not exceed c, so nothing is lost by truncation. */
  lemma EuclidStep(b: nat, c: nat, sign: int, u1: nat, u3: nat, v1: nat, v3: nat, k: int, l: int, q: nat, r: nat)
    requires Euclid(b, c, sign, u1, u3, v1, v3, k, l) && v3 > 0
    requires q == u3 / v3 && r == u3 % v3
    ensures q * v1 >= 0 && u1 + q * v1 <= c && r < v3
    ensures Euclid(b, c, -sign, v1, v3, u1 + q * v1, r, l, k + q * l)
  {
    hide Gcd;
    DivModEquation(u3, v3);
    MulMonotone(q, 0, v1);
    EuclidIdentity(b, c, sign, u1, u3, v1, v3, k, l, q, r, u1 + q * v1, k + q * l);
    CofactorBound(u1 + q * v1, v3, v1, r, c);
    GcdUnfold(u3, v3);
  }

  lemma NegatedIdentity(u: int, b: int, g: int, k: int, c: int)
    requires u * b == -g + k * c
    ensures (c - u) * b == g + c * (b - k)
  {
    assert (c - u) * b == c * b - u * b;
    assert c * (b - k) == c * b - c * k;
  }

  /** A representative of 1 modulo c > 1 is neither 0 nor c. */
  lemma InverseRange(a: nat, b: nat, c: nat, g: nat)
    requires c > 0 && a <= c && (a * b) % c == g % c
    ensures g == 1 && c > 1 ==> (a * b) % c == 1 && 0 < a < c
  {
    if g == 1 && c > 1 {
      ModSmall(1, c);
      if a == c { ModMultiple(0, b, c); }
    }
  }

  /** A number below Weight(n) has all its digits in the first n. */
  lemma LowDigitsSuffice(s: seq<Digit>, n: nat)
    requires n <= |s| && Val(s) < Weight(n)
    ensures Val(s[..n]) == Val(s)
  {
    hide Val, Weight;
    ValSplit(s, n);
    if Val(s[n..]) > 0 { MulMonotone(Weight(n), 1, Val(s[n..])); }
  }

  /** One round of the loop on the digit arrays; the scratch numbers carry nothing between rounds. */
  method EuclidRound(u1: array<Digit>, u3: array<Digit>, v1: array<Digit>, v3: array<Digit>, n: nat,
                     ghost B: nat, ghost C: nat, ghost sign: int, ghost k: int, ghost l: int)
    returns (ghost l': int)
    requires n <= MAX_NN_DIGITS && n <= u1.Length && n <= u3.Length && n <= v1.Length && n <= v3.Length
    requires u1 != u3 && u1 != v1 && u1 != v3 && u3 != v1 && u3 != v3 && v1 != v3
    requires Euclid(B, C, sign, Val(u1[..n]), Val(u3[..n]), Val(v1[..n]), Val(v3[..n]), k, l)
    requires Val(v3[..n]) > 0 && C < Weight(n)
    modifies u1, u3, v1, v3
    ensures Euclid(B, C, -sign, Val(u1[..n]), Val(u3[..n]), Val(v1[..n]), Val(v3[..n]), l, l')
    ensures Val(v3[..n]) < old(Val(v3[..n]))
  {
    hide *;
    var q, t1, t3, w := new Digit[MAX_NN_DIGITS], new Digit[MAX_NN_DIGITS], new Digit[MAX_NN_DIGITS],
      new Digit[2 * MAX_NN_DIGITS];
    ghost var x1, x3, y1, y3 := Val(u1[..n]), Val(u3[..n]), Val(v1[..n]), Val(v3[..n]);
    Div(q, t3, u3, n, v3, n);
    ghost var qv, r := Val(q[..n]), Val(t3[..n]);
    EuclidStep(B, C, sign, x1, x3, y1, y3, k, l, qv, r);
    l' := k + qv * l;
    Mult(w, q, v1, n);
    LowDigitsSuffice(w[..2 * n], n);
    assert w[..2 * n][..n] == w[..n];
    var carry := Add(t1, u1, w, n);
    ValBound(t1[..n]);
    NoCarry(Val(t1[..n]), Weight(n), carry, x1 + qv * y1);
    Assign(u1, v1, n);
    Assign(v1, t1, n);
    Assign(u3, v3, n);
    Assign(v3, t3, n);
  }

  /** a is an inverse of b modulo c when gcd(b, c) = 1 and c > 1; in general a * b is congruent to
      the gcd. */
  ghost predicate IsInverse(a: nat, b: nat, c: nat)
  {
    && c > 0 && a <= c
    && (a * b) % c == Gcd(b, c) % c
    && (Gcd(b, c) == 1 && c > 1 ==> (a * b) % c == 1 && 0 < a < c)
  }

  /** When the remainder has reached zero, the signed cofactor times b is the gcd modulo c. */
  lemma EuclidEnd(b: nat, c: nat, sign: int, u1: nat, u3: nat, v1: nat, k: int, l: int)
    requires c > 0 && Euclid(b, c, sign, u1, u3, v1, 0, k, l)
    ensures u1 <= c && IsInverse(if sign < 0 then c - u1 else u1, b, c)
  {
    GcdZero(u3);
    var g := Gcd(b, c);
    hide Gcd;
    if sign < 0 {
      NegatedIdentity(u1, b, g, k, c);
      ModMultiple(g, b - k, c);
      InverseRange(c - u1, b, c, g);
    } else {
      assert k * c == c * k;
      ModMultiple(g, k, c);
      InverseRange(u1, b, c, g);
    }
  }

  /** Rounds until the remainder v3 is zero; the sign of the cofactor alternates. */
  method EuclidLoop(u1: array<Digit>, u3: array<Digit>, v1: array<Digit>, v3: array<Digit>, n: nat,
                    ghost B: nat, ghost C: nat) returns (u1Sign: int)
    requires n <= MAX_NN_DIGITS && n <= u1.Length && n <= u3.Length && n <= v1.Length && n <= v3.Length
    requires u1 != u3 && u1 != v1 && u1 != v3 && u3 != v1 && u3 != v3 && v1 != v3
    requires Euclid(B, C, 1, Val(u1[..n]), Val(u3[..n]), Val(v1[..n]), Val(v3[..n]), 0, 1)
    requires 0 < C < Weight(n)
    modifies u1, u3, v1, v3
    ensures Val(u1[..n]) <= C && IsInverse(if u1Sign < 0 then C - Val(u1[..n]) else Val(u1[..n]), B, C)
  {
    hide *;
    u1Sign := 1;
    ghost var k, l := 0, 1;
    var done := Zero(v3, n);
    while !done
      invariant Euclid(B, C, u1Sign, Val(u1[..n]), Val(u3[..n]), Val(v1[..n]), Val(v3[..n]), k, l)
      invariant done <==> Val(v3[..n]) == 0
      decreases Val(v3[..n])
    {
      ghost var l' := EuclidRound(u1, u3, v1, v3, n, B, C, u1Sign, k, l);
      u1Sign, k, l := -u1Sign, l, l';
      done := Zero(v3, n);
    }
    EuclidEnd(B, C, u1Sign, Val(u1[..n]), Val(u3[..n]), Val(v1[..n]), k, l);
  }

  /** The cofactor of b and its sign, from the extended Euclidean algorithm. */
  method SignedCofactor(b: array<Digit>, c: array<Digit>, n: nat) returns (u1: array<Digit>, u1Sign: int)
    requires n <= MAX_NN_DIGITS && n <= b.Length && n <= c.Length && Val(c[..n]) > 0
    ensures fresh(u1) && n <= u1.Length && Val(u1[..n]) <= Val(c[..n])
    ensures IsInverse(if u1Sign < 0 then Val(c[..n]) - Val(u1[..n]) else Val(u1[..n]), Val(b[..n]), Val(c[..n]))
  {
    assert n > 0;
    hide *;
    u1 := new Digit[MAX_NN_DIGITS];
    var u3, v1, v3 := new Digit[MAX_NN_DIGITS], new Digit[MAX_NN_DIGITS], new Digit[MAX_NN_DIGITS];
    AssignDigit(u1, 1, n);
    AssignZero(v1, n);
    Assign(u3, b, n);
    Assign(v3, c, n);
    EuclidStart(Val(b[..n]), Val(c[..n]));
    ValBound(c[..n]);
    u1Sign := EuclidLoop(u1, u3, v1, v3, n, Val(b[..n]), Val(c[..n]));
  }

  /** a = 1/b mod c. The result may overwrite either operand. */
  method ModInv(a: array<Digit>, b: array<Digit>, c: array<Digit>, n: nat)
    requires n <= MAX_NN_DIGITS && n <= a.Length && n <= b.Length && n <= c.Length
    requires Val(c[..n]) > 0
    modifies a
    ensures IsInverse(Val(a[..n]), old(Val(b[..n])), old(Val(c[..n])))
    ensures forall k :: n <= k < a.Length ==> a[k] == old(a[k])
  {
    hide *;
    ghost var C := Val(c[..n]);
    var u1, u1Sign := SignedCofactor(b, c, n);
    ghost var x := Val(u1[..n]);
    if u1Sign < 0 {
      assert c[0..0 + n] == c[..n];
      var borrow := Sub(a, 0, c, 0, u1, n);
      assert a[0..0 + n] == a[..n];
      ValBound(a[..n]);
      NoBorrow(Val(a[..n]), Weight(n), borrow, x, C);
    } else {
      Assign(a, u1, n);
    }
  }

  lemma NoCarry(a: int, w: int, carry: int, sum: int)
    requires 0 <= a < w && a + w * carry == sum && 0 <= sum < w && carry >= 0
    ensures a == sum
  {
    if carry >= 1 { MulMonotone(w, 1, carry); }
  }

  lemma NoBorrow(a: int, w: int, borrow: int, x: int, c: int)
    requires 0 <= a < w && a + x == c + w * borrow && 0 <= x <= c && borrow >= 0
    ensures a == c - x
  {
    if borrow >= 1 { MulMonotone(w, 1, borrow); }
  }
}
