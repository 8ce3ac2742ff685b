/** Modular multiplication and 2-bit windowed exponentiation (NN_ModMult and NN_ModExp in nn.c). */
module ModularExponent {
  import opened Arithmetic
  import opened Words
  import opened DigitSequences
  import opened NaturalNumbers
  import opened Multiplication
  import opened Division
  import opened Slices

  /** a = b * c mod d. Any of the operands may be overwritten. */
  method ModMult(a: array<Digit>, b: array<Digit>, c: array<Digit>, d: array<Digit>, n: nat)
    requires n <= MAX_NN_DIGITS
    requires n <= a.Length && n <= b.Length && n <= c.Length && n <= d.Length
    requires Val(d[..n]) > 0
    modifies a
    ensures Val(a[..n]) == (old(Val(b[..n])) * old(Val(c[..n]))) % old(Val(d[..n]))
    ensures forall k :: n <= k < a.Length ==> a[k] == old(a[k])
  {
    hide Val;
    var t := new Digit[2 * MAX_NN_DIGITS];
    Mult(t, b, c, n);
    Mod(a, t, 2 * n, d, n);
  }

  lemma MulCongruent(x: int, x': int, y: int, y': int, d: int)
    requires d > 0 && x % d == x' % d && y % d == y' % d
    ensures (x * y) % d == (x' * y') % d
  {
    ModOfModMul(x, y, d);
    ModOfModMul(x', y', d);
  }

  lemma ModIdempotent(x: int, d: int)
    requires d > 0
    ensures (x % d) % d == x % d
  {
    ModSmall(x % d, d);
  }

  /** Two squarings and a multiplication advance the exponent by two bits. */
  lemma WindowStep(b: nat, e: nat, s: nat, d: nat, t: nat, t1: nat, t2: nat, f: nat, t3: nat)
    requires Represents(t, b, e, d) && Represents(f, b, s, d)
    requires t1 == (t * t) % d && t2 == (t1 * t1) % d && t3 == (t2 * f) % d
    ensures t3 == PowMod(b, 4 * e + s, d)
  {
    hide Pow;
    MulCongruent(t, Pow(b, e), t, Pow(b, e), d);
    PowAdd(b, e, e);
    ModIdempotent(t * t, d);
    assert t1 % d == Pow(b, e + e) % d;
    MulCongruent(t1, Pow(b, e + e), t1, Pow(b, e + e), d);
    PowAdd(b, e + e, e + e);
    ModIdempotent(t1 * t1, d);
    assert t2 % d == Pow(b, 4 * e) % d by { assert e + e + (e + e) == 4 * e; }
    MulCongruent(t2, Pow(b, 4 * e), f, Pow(b, s), d);
    PowAdd(b, 4 * e, s);
  }

  /** t is b^e up to a multiple of the modulus. */
  ghost predicate Represents(t: nat, b: nat, e: nat, d: nat)
  {
    d > 0 && t % d == Pow(b, e) % d
  }

  /** b^e mod d. */
  ghost function PowMod(b: nat, e: nat, d: nat): (r: nat)
    requires d > 0
    ensures r < d
  {
    Pow(b, e) % d
  }

  lemma PowModRepresents(b: nat, e: nat, d: nat)
    requires d > 0
    ensures Represents(PowMod(b, e, d), b, e, d)
  {
    ModIdempotent(Pow(b, e), d);
  }

  /** The precomputed powers of the base, each correct modulo d. */
  ghost predicate Powers(b: nat, d: nat, p1: nat, p2: nat, p3: nat)
  {
    Represents(p1, b, 1, d) && Represents(p2, b, 2, d) && Represents(p3, b, 3, d)
  }

  lemma PowersPositive(b: nat, d: nat, p1: nat, p2: nat, p3: nat)
    requires Powers(b, d, p1, p2, p3)
    ensures d > 0
  {}

  /** One window: t = t^4 * b^s mod d for the two exponent bits s. */
  method WindowRound(t: array<Digit>, p1: array<Digit>, p2: array<Digit>, p3: array<Digit>, s: nat,
                     d: array<Digit>, n: nat, ghost b: nat, ghost e: nat)
    requires n <= MAX_NN_DIGITS && s < 4
    requires n <= t.Length && n <= p1.Length && n <= p2.Length && n <= p3.Length && n <= d.Length
    requires t != p1 && t != p2 && t != p3 && t != d
    requires Powers(b, Val(d[..n]), Val(p1[..n]), Val(p2[..n]), Val(p3[..n]))
    requires Represents(Val(t[..n]), b, e, Val(d[..n]))
    modifies t
    ensures Val(t[..n]) == PowMod(b, 4 * e + s, Val(d[..n]))
  {
    ghost var D, t0 := Val(d[..n]), Val(t[..n]);
    assert Represents(1, b, 0, D);
    hide Val, Pow, Represents, PowMod;
    ModMult(t, t, t, d, n);
    ghost var t1 := Val(t[..n]);
    ModMult(t, t, t, d, n);
    ghost var t2 := Val(t[..n]);
    if s != 0 {
      var p := if s == 1 then p1 else if s == 2 then p2 else p3;
      ModMult(t, t, p, d, n);
      WindowStep(b, e, s, D, t0, t1, t2, Val(p[..n]), Val(t[..n]));
    } else {
      ModIdempotent(t1 * t1, D);
      WindowStep(b, e, 0, D, t0, t1, t2, 1, t2);
    }
  }

  /** ci holds the r unread low bits of an exponent E, left-aligned; e is the part already read. */
  ghost predicate Unread(ci: Digit, r: nat, e: nat, E: nat)
  {
    && r <= 32
    && e * Pow2(r) <= E < e * Pow2(r) + Pow2(r)
    && ci == (E - e * Pow2(r)) * Pow2(32 - r)
  }

  lemma UnreadStep(ci: Digit, r: nat, e: nat, E: nat, s: nat)
    requires Unread(ci, r, e, E) && r >= 2 && s == ci / 0x4000_0000
    ensures s < 4 && Unread(Shl(ci, 2), r - 2, 4 * e + s, E)
  {
    var p, q := Pow2(r - 2), Pow2(32 - r);
    QuarterWeights(r);
    hide Pow2, Shl;
    WindowBitsIdentity(ci, Pow2(r), p, q, Pow2(34 - r), e, E, s, 4 * e + s);
    ShlTwo(ci);
  }

  lemma QuarterWeights(r: nat)
    requires 2 <= r <= 32
    ensures Pow2(r) == 4 * Pow2(r - 2) && Pow2(34 - r) == 4 * Pow2(32 - r)
    ensures Pow2(r - 2) * Pow2(32 - r) == 0x4000_0000
  {
    assert Pow2(r - 1) == 2 * Pow2(r - 2) && Pow2(33 - r) == 2 * Pow2(32 - r);
    Pow2Add(r - 2, 32 - r);
    Pow2Of32();
  }

  lemma UnreadEnd(ci: Digit, e: nat, E: nat)
    requires Unread(ci, 0, e, E)
    ensures e == E
  {
    assert Pow2(0) == 1;
  }

  lemma ShlTwo(x: Digit)
    ensures Shl(x, 2) == (x * 4) % 0x1_0000_0000
  {
    assert Pow2(2) == 4;
  }

  lemma TopBitsIdentity(ci: int, rem: int, p: int, q: int, q4: int, s: int, rem': int)
    requires p >= 1 && q >= 1 && p * q == 0x4000_0000 && q4 == 4 * q
    requires ci == rem * q && 0 <= ci < 0x1_0000_0000 && s == ci / 0x4000_0000 && rem' == rem - s * p
    ensures 0 <= rem' < p && (ci * 4) % 0x1_0000_0000 == rem' * q4
  {
    var x := rem' * q;
    assert x == ci - 0x4000_0000 * s by { assert (rem - s * p) * q == rem * q - s * (p * q); }
    if rem' < 0 { MulMonotone(q, rem', -1); }
    if rem' >= p { MulMonotone(q, p, rem'); }
    assert rem' * q4 == 4 * x;
  }

  lemma WindowBitsIdentity(ci: int, p4: int, p: int, q: int, q4: int, e: int, E: int, s: int, e': int)
    requires p >= 1 && q >= 1 && p * q == 0x4000_0000 && p4 == 4 * p && q4 == 4 * q
    requires e * p4 <= E < e * p4 + p4 && ci == (E - e * p4) * q && 0 <= ci < 0x1_0000_0000
    requires s == ci / 0x4000_0000 && e' == 4 * e + s
    ensures 0 <= s < 4 && e' * p <= E < e' * p + p
    ensures (ci * 4) % 0x1_0000_0000 == (E - e' * p) * q4
  {
    var rem := E - e * p4;
    assert e' * p == e * p4 + s * p by { assert (4 * e + s) * p == e * (4 * p) + s * p; }
    TopBitsIdentity(ci, rem, p, q, q4, s, E - e' * p);
  }

  /** Reads the remaining bits of ci in pairs, most significant first, so that the exponent read so
      far grows from e0 to E. */
  method WindowLoop(t: array<Digit>, p1: array<Digit>, p2: array<Digit>, p3: array<Digit>, c: Digit, bits: nat,
                    d: array<Digit>, n: nat, ghost b: nat, ghost e0: nat, ghost E: nat)
    requires n <= MAX_NN_DIGITS && 2 <= bits <= 32 && bits % 2 == 0
    requires n <= t.Length && n <= p1.Length && n <= p2.Length && n <= p3.Length && n <= d.Length
    requires t != p1 && t != p2 && t != p3 && t != d
    requires Powers(b, Val(d[..n]), Val(p1[..n]), Val(p2[..n]), Val(p3[..n]))
    requires Represents(Val(t[..n]), b, e0, Val(d[..n]))
    requires Unread(c, bits, e0, E)
    modifies t
    ensures Val(t[..n]) == PowMod(b, E, Val(d[..n]))
  {
    hide *;
    ghost var D := Val(d[..n]);
    PowersPositive(b, D, Val(p1[..n]), Val(p2[..n]), Val(p3[..n]));
    var ci: Digit, j := c, 0;
    ghost var e := e0;
    while j < bits
      invariant 0 <= j <= bits && j % 2 == 0
      invariant Val(d[..n]) == D && Powers(b, D, Val(p1[..n]), Val(p2[..n]), Val(p3[..n]))
      invariant Represents(Val(t[..n]), b, e, D)
      invariant j > 0 ==> Val(t[..n]) == PowMod(b, e, D)
      invariant Unread(ci, bits - j, e, E)
    {
      var s := TopTwoBits(ci);
      UnreadStep(ci, bits - j, e, E, s);
      WindowRound(t, p1, p2, p3, s, d, n, b, e);
      e := 4 * e + s;
      PowModRepresents(b, e, D);
      j, ci := j + 2, Shl(ci, 2);
    }
    UnreadEnd(ci, e, E);
  }

  /** Drops leading zero bit pairs of a nonzero digit. */
  method SkipZeroPairs(c: Digit) returns (ci: Digit, bits: nat)
    requires c != 0
    ensures 2 <= bits <= 32 && bits % 2 == 0
    ensures Unread(ci, bits, 0, c)
  {
    hide *;
    ci, bits := c, 32;
    UnreadStart(c, 0);
    UnreadNonzero(ci, bits, c);
    while TopTwoBits(ci) == 0
      invariant 2 <= bits <= 32 && bits % 2 == 0
      invariant Unread(ci, bits, 0, c)
      decreases bits
    {
      UnreadStep(ci, bits, 0, c, 0);
      ci, bits := Shl(ci, 2), bits - 2;
      UnreadNonzero(ci, bits, c);
    }
  }

  lemma UnreadStart(c: Digit, e: nat)
    ensures Unread(c, 32, e, c + 0x1_0000_0000 * e)
  {
    Pow2Of32();
    assert Pow2(0) == 1;
  }

  lemma UnreadNonzero(ci: Digit, r: nat, c: Digit)
    requires Unread(ci, r, 0, c) && c != 0 && r % 2 == 0
    ensures r >= 2
  {
    assert Pow2(0) == 1;
  }

  /** Multiplies one exponent digit into t. */
  method ExponentDigit(t: array<Digit>, p1: array<Digit>, p2: array<Digit>, p3: array<Digit>, c: Digit, top: bool,
                       d: array<Digit>, n: nat, ghost b: nat, ghost e: nat)
    requires n <= MAX_NN_DIGITS && (top ==> c != 0 && e == 0)
    requires n <= t.Length && n <= p1.Length && n <= p2.Length && n <= p3.Length && n <= d.Length
    requires t != p1 && t != p2 && t != p3 && t != d
    requires Powers(b, Val(d[..n]), Val(p1[..n]), Val(p2[..n]), Val(p3[..n]))
    requires Represents(Val(t[..n]), b, e, Val(d[..n]))
    modifies t
    ensures Val(t[..n]) == PowMod(b, c + 0x1_0000_0000 * e, Val(d[..n]))
  {
    hide *;
    UnreadStart(c, e);
    var ci, bits := c, 32;
    if top {
      ci, bits := SkipZeroPairs(c);
    }
    WindowLoop(t, p1, p2, p3, ci, bits, d, n, b, e, c + 0x1_0000_0000 * e);
  }

  lemma SmallPowers(b: nat, d: nat, p1: nat, p2: nat, p3: nat)
    requires d > 0 && p1 == b && p2 == (p1 * b) % d && p3 == (p2 * b) % d
    ensures Powers(b, d, p1, p2, p3)
  {
    assert Pow(b, 1) == b * Pow(b, 0) == b;
    assert Pow(b, 2) == b * b && Pow(b, 3) == b * (b * b);
    ModIdempotent(b * b, d);
    ModOfModMul(b * b, b, d);
    ModIdempotent(p2 * b, d);
    assert (b * b) * b == b * (b * b);
  }

  /** The digits of the exponent from the top; t starts at 1. */
  method ExponentLoop(t: array<Digit>, p1: array<Digit>, p2: array<Digit>, p3: array<Digit>, c: array<Digit>, m: nat,
                      d: array<Digit>, n: nat, ghost b: nat)
    requires n <= MAX_NN_DIGITS && m <= c.Length && (m > 0 ==> c[m - 1] != 0)
    requires n <= t.Length && n <= p1.Length && n <= p2.Length && n <= p3.Length && n <= d.Length
    requires t != p1 && t != p2 && t != p3 && t != d && t != c
    requires Powers(b, Val(d[..n]), Val(p1[..n]), Val(p2[..n]), Val(p3[..n]))
    requires Val(t[..n]) == 1
    modifies t
    ensures Val(t[..n]) == if m == 0 then 1 else PowMod(b, Val(c[..m]), Val(d[..n]))
  {
    ghost var D := Val(d[..n]);
    assert Represents(1, b, 0, D) && Val([]) == 0;
    hide *;
    var i: int := m - 1;
    assert c[i + 1..m] == [];
    while i >= 0
      invariant -1 <= i < m
      invariant Represents(Val(t[..n]), b, Val(c[i + 1..m]), D)
      invariant i < m - 1 ==> Val(t[..n]) == PowMod(b, Val(c[i + 1..m]), D)
      invariant i == m - 1 ==> Val(t[..n]) == 1 && Val(c[i + 1..m]) == 0
    {
      ExponentDigit(t, p1, p2, p3, c[i], i == m - 1, d, n, b, Val(c[i + 1..m]));
      SliceCons(c[..], i, m);
      ValCons(c[i], c[i + 1..m]);
      PowModRepresents(b, Val(c[i..m]), D);
      i := i - 1;
    }
    assert c[0..m] == c[..m];
  }

  /** a = b^c mod d. An exponent of zero gives 1, whatever the modulus. */
  method ModExp(a: array<Digit>, b: array<Digit>, c: array<Digit>, cDigits: nat, d: array<Digit>, n: nat)
    requires n <= MAX_NN_DIGITS && cDigits <= c.Length
    requires n <= a.Length && n <= b.Length && n <= d.Length
    requires Val(d[..n]) > 0
    modifies a
    ensures Val(a[..n]) == if old(Val(c[..cDigits])) == 0 then 1
                           else PowMod(old(Val(b[..n])), old(Val(c[..cDigits])), old(Val(d[..n])))
    ensures forall k :: n <= k < a.Length ==> a[k] == old(a[k])
  {
    ghost var B, D := Val(b[..n]), Val(d[..n]);
    assert n > 0;
    var m := Digits(c, cDigits);
    if m > 0 { DivisorSize(c[..m], []); }
    hide *;
    var p1, p2, p3, t :=
      new Digit[MAX_NN_DIGITS], new Digit[MAX_NN_DIGITS], new Digit[MAX_NN_DIGITS], new Digit[MAX_NN_DIGITS];
    Assign(p1, b, n);
    ModMult(p2, p1, b, d, n);
    ModMult(p3, p2, b, d, n);
    SmallPowers(B, D, Val(p1[..n]), Val(p2[..n]), Val(p3[..n]));
    AssignDigit(t, 1, n);
    ExponentLoop(t, p1, p2, p3, c, m, d, n, B);
    Assign(a, t, n);
  }
}
