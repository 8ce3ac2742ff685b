/** Double-digit products and quotients computed on half digits (digit.c). */
module DigitArithmetic {
  import opened Arithmetic
  import opened Words

  lemma HalfProduct(x: Half, y: Half)
    ensures 0 <= x * y <= 0xfffe_0001
  {
    MulMonotone(x, 0, y);
    MulMonotone(x, y, 0xffff);
    MulMonotone(0xffff, x, 0xffff);
  }

  /** (a1, a0) = b * c in full double length. */
  method DigitMult(b: Digit, c: Digit) returns (a0: Digit, a1: Digit)
    ensures a0 + 0x1_0000_0000 * a1 == b * c
  {
    var bHigh: Half, bLow: Half := HighHalf(b), LowHalf(b);
    var cHigh: Half, cLow: Half := HighHalf(c), LowHalf(c);
    HalfProduct(bLow, cLow);
    HalfProduct(bLow, cHigh);
    HalfProduct(bHigh, cLow);
    HalfProduct(bHigh, cHigh);
    ghost var hh: int, lh: int, hl: int, ll: int := bHigh * cHigh, bLow * cHigh, bHigh * cLow, bLow * cLow;
    assert b * c == 0x1_0000_0000 * hh + 0x1_0000 * (lh + hl) + ll by {
      assert b * c == (bHigh * 0x1_0000 + bLow) * (cHigh * 0x1_0000 + cLow);
    }
    DigitProductFits(b, c);

    a0 := bLow * cLow;
    var t: Digit := bLow * cHigh;
    var u: Digit := bHigh * cLow;
    a1 := bHigh * cHigh;

    t := Add32(t, u);
    if t < u { a1 := Add32(a1, ToHighHalf(1)); }
    u := ToHighHalf(t);

    a0 := Add32(a0, u);
    if a0 < u { a1 := Add32(a1, 1); }
    a1 := Add32(a1, HighHalf(t));
  }

  lemma DigitProductFits(b: Digit, c: Digit)
    ensures 0 <= b * c <= 0xffff_fffe_0000_0001
  {
    MulMonotone(b, 0, c);
    MulMonotone(b, c, 0xffff_ffff);
    MulMonotone(0xffff_ffff, b, 0xffff_ffff);
  }

  /** A trial half-quotient, from the high half of the divisor plus one, never exceeds the true one. */
  lemma TrialUnderestimates(n: Digit, c: Digit, q: int)
    requires n < c && q == n / (HighHalf(c) + 1)
    ensures 0 <= q < 0x1_0000 && q * c <= n * 0x1_0000
  {
    var m: int := HighHalf(c) + 1;
    DivModEquation(n, m);
    if q < 0 { MulMonotone(m, q, -1); }
    MulMonotone(q, c, m * 0x1_0000);
    assert q * (m * 0x1_0000) == (m * q) * 0x1_0000;
    assert c * q <= n * 0x1_0000 < c * 0x1_0000;
    MulCancelLess(c, q, 0x1_0000);
  }

  /** The code's idiom for a double-digit subtraction: the borrow is seen as a wrap-around. */
  method SubtractPair(t0: Digit, t1: Digit, lo: Digit, hi: Digit) returns (r0: Digit, r1: Digit)
    requires t0 + 0x1_0000_0000 * t1 >= lo + 0x1_0000_0000 * hi
    ensures r0 + 0x1_0000_0000 * r1 == t0 + 0x1_0000_0000 * t1 - (lo + 0x1_0000_0000 * hi)
  {
    r0, r1 := Sub32(t0, lo), t1;
    if r0 > MAX_DIGIT - lo { r1 := Sub32(r1, 1); }
    r1 := Sub32(r1, hi);
  }

  lemma SplitProduct(q: Half, c: Digit)
    ensures 0 <= q * LowHalf(c) <= 0xfffe_0001 && 0 <= q * HighHalf(c) <= 0xfffe_0001
    ensures q * c == 0x1_0000 * (q * HighHalf(c)) + q * LowHalf(c)
  {
    var h: Half, l: Half := HighHalf(c), LowHalf(c);
    HalfProduct(q, h);
    HalfProduct(q, l);
    assert q * (h * 0x1_0000 + l) == 0x1_0000 * (q * h) + q * l;
  }

  /** Counting a partial quotient up: while n < c * m it stays below m. */
  lemma NextQuotient(q: int, c: int, p: int, n: int, m: int)
    requires c > 0 && p == q * c && p + c <= n < c * m
    ensures q + 1 < m && p + c == (q + 1) * c
  {
    assert c * (q + 1) == q * c + c;
    MulCancelLess(c, q + 1, m);
  }

  /** q * c split over the halves of c, with the low half-product again split into its halves. */
  lemma TrialProduct(q: Half, c: Digit, u: Digit, v: Digit)
    requires u == q * LowHalf(c) && v == q * HighHalf(c)
    ensures q * c == 0x1_0000 * v + u
    ensures u == 0x1_0000 * HighHalf(u) + LowHalf(u) && v == 0x1_0000 * HighHalf(v) + LowHalf(v)
  {
    SplitProduct(q, c);
  }

  /** The trial half-quotient of n by the high half of c, plus one; a divisor of ones needs no division. */
  method Trial(n: Digit, c: Digit) returns (q: Half)
    requires n < c
    ensures q * c <= n * 0x1_0000
  {
    var cHigh: Half := HighHalf(c);
    var e: int;
    if cHigh == 0xffff { e := HighHalf(n); } else { e := n / (cHigh + 1); }
    TrialUnderestimates(n, c, e);
    q := e;
  }

  /** Takes the trial high half-digit and subtracts its multiple of the divisor. */
  method TrialHigh(t0in: Digit, t1in: Digit, c: Digit) returns (aHigh: Half, t0: Digit, t1: Digit)
    requires t1in < c && HighHalf(c) > 0
    ensures t0in + 0x1_0000_0000 * t1in == aHigh * c * 0x1_0000 + (t0 + 0x1_0000_0000 * t1)
  {
    aHigh := Trial(t1in, c);
    SplitProduct(aHigh, c);
    var u: Digit := aHigh * LowHalf(c);
    var v: Digit := aHigh * HighHalf(c);
    TrialProduct(aHigh, c, u, v);
    t0, t1 := SubtractPair(t0in, t1in, ToHighHalf(u), HighHalf(u));
    t1 := Sub32(t1, v);
  }

  /** The code's test for "(t1, t0) is at least c shifted by half a digit". */
  lemma HighDivisor(t0: Digit, t1: Digit, c: Digit)
    ensures t1 > HighHalf(c) || (t1 == HighHalf(c) && t0 >= ToHighHalf(LowHalf(c)))
            <==> t0 + 0x1_0000_0000 * t1 >= c * 0x1_0000
    ensures ToHighHalf(LowHalf(c)) + 0x1_0000_0000 * HighHalf(c) == c * 0x1_0000
  {}

  /** First half of the division: the high half-digit of the quotient, subtracted with its shift. */
  method HighQuotient(t0in: Digit, t1in: Digit, c: Digit) returns (aHigh: Half, t0: Digit, t1: Digit)
    requires t1in < c && HighHalf(c) > 0
    ensures t0in + 0x1_0000_0000 * t1in == aHigh * c * 0x1_0000 + (t0 + 0x1_0000_0000 * t1)
    ensures t0 + 0x1_0000_0000 * t1 < c * 0x1_0000
  {
    hide *;
    var cHigh: Half, cLow: Half := HighHalf(c), LowHalf(c);
    ghost var T: int := t0in + 0x1_0000_0000 * t1in;
    aHigh, t0, t1 := TrialHigh(t0in, t1in, c);
    ghost var p: int := aHigh * c;
    while t1 > cHigh || (t1 == cHigh && t0 >= ToHighHalf(cLow))
      invariant p == aHigh * c && T == p * 0x1_0000 + (t0 + 0x1_0000_0000 * t1)
      decreases t0 + 0x1_0000_0000 * t1
    {
      HighDivisor(t0, t1, c);
      NextQuotient(aHigh, c, p, T / 0x1_0000, 0x1_0000);
      t0, t1 := SubtractPair(t0, t1, ToHighHalf(cLow), cHigh);
      aHigh, p := aHigh + 1, p + c;
    }
    HighDivisor(t0, t1, c);
  }

  /** Takes the trial low half-digit and subtracts its multiple of the divisor. */
  method TrialLow(t0in: Digit, t1in: Digit, c: Digit) returns (aLow: Half, t0: Digit, t1: Digit)
    requires HighHalf(c) > 0
    requires t0in + 0x1_0000_0000 * t1in < c * 0x1_0000
    ensures t0in + 0x1_0000_0000 * t1in == aLow * c + (t0 + 0x1_0000_0000 * t1)
  {
    aLow := Trial(ToHighHalf(t1in) + HighHalf(t0in), c);
    SplitProduct(aLow, c);
    var u: Digit := aLow * LowHalf(c);
    var v: Digit := aLow * HighHalf(c);
    TrialProduct(aLow, c, u, v);
    t0, t1 := SubtractPair(t0in, t1in, u, 0);
    t0, t1 := SubtractPair(t0, t1, ToHighHalf(v), HighHalf(v));
  }

  /** Second half of the division: the low half-digit of the quotient. */
  method LowQuotient(t0in: Digit, t1in: Digit, c: Digit) returns (aLow: Half)
    requires HighHalf(c) > 0
    requires t0in + 0x1_0000_0000 * t1in < c * 0x1_0000
    ensures aLow * c <= t0in + 0x1_0000_0000 * t1in < aLow * c + c
  {
    ghost var T: int := t0in + 0x1_0000_0000 * t1in;
    var t0: Digit, t1: Digit;
    aLow, t0, t1 := TrialLow(t0in, t1in, c);
    ghost var p: int := aLow * c;
    while t1 > 0 || (t1 == 0 && t0 >= c)
      invariant p == aLow * c && T == p + (t0 + 0x1_0000_0000 * t1)
      decreases t0 + 0x1_0000_0000 * t1
    {
      NextQuotient(aLow, c, p, T, 0x1_0000);
      t0, t1 := SubtractPair(t0, t1, c, 0);
      aLow, p := aLow + 1, p + c;
    }
  }

  /** a = b / c exactly, for a two-digit b at offset `o` whose quotient fits one digit. */
  method DigitDiv(b: array<Digit>, o: nat, c: Digit) returns (a: Digit)
    requires o + 1 < b.Length
    requires b[o + 1] < c && HighHalf(c) > 0
    ensures a == (b[o] as int + 0x1_0000_0000 * b[o + 1] as int) / c
  {
    ghost var T: int := b[o] as int + 0x1_0000_0000 * b[o + 1] as int;
    var aHigh, t0, t1 := HighQuotient(b[o], b[o + 1], c);
    var aLow := LowQuotient(t0, t1, c);
    a := ToHighHalf(aHigh) + aLow;
    assert a * c == aHigh * c * 0x1_0000 + aLow * c by {
      assert (aHigh * 0x1_0000 + aLow) * c == aHigh * c * 0x1_0000 + aLow * c;
    }
    DivModUnique(T, c, a, T - a * c);
  }
}
