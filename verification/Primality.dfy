/** Probable primes and the bounded prime search (prime.c). */
module Primality {
  import opened Arithmetic
  import opened NumberTheory
  import opened Words
  import opened DigitSequences
  import opened NaturalNumbers
  import opened Division
  import opened ModularExponent
  import opened ByteStrings
  import opened Conversion

  const RE_DATA: int := 0x0401
  const RE_NEED_RANDOM: int := 0x0408

  const SMALL_PRIMES: seq<Digit> := [3, 5, 7, 11]

  /** What SmallFactor decides: a one-digit number equal to one of the small primes is let through. */
  ghost predicate HasSmallFactor(v: nat, n: nat)
  {
    && (v % 3 == 0 || v % 5 == 0 || v % 7 == 0 || v % 11 == 0)
    && !(n == 1 && (v == 3 || v == 5 || v == 7 || v == 11))
  }

  method SmallFactor(a: array<Digit>, n: nat) returns (status: bool)
    requires n <= 2 * MAX_NN_DIGITS && n <= a.Length
    ensures status <==> HasSmallFactor(Val(a[..n]), n)
  {
    ghost var v := Val(a[..n]);
    hide Val;
    var t := new Digit[1];
    for i := 0 to 4
      invariant i > 0 ==> v % 3 != 0 && !(n == 1 && v == 3)
      invariant i > 1 ==> v % 5 != 0 && !(n == 1 && v == 5)
      invariant i > 2 ==> v % 7 != 0 && !(n == 1 && v == 7)
      invariant i > 3 ==> v % 11 != 0 && !(n == 1 && v == 11)
    {
      AssignDigit(t, SMALL_PRIMES[i], 1);
      if n == 1 {
        assert a[0..0 + 1] == a[..n] && t[0..0 + 1] == t[..1];
        var c := Cmp(a, 0, t, 0, 1);
        if c == 0 { return false; }
      }
      Mod(t, a, n, t, 1);
      var zero := Zero(t, 1);
      if zero { return true; }
    }
    return false;
  }

  /** Fermat's test for witness 2. */
  method FermatTest(a: array<Digit>, n: nat) returns (status: bool)
    requires n <= MAX_NN_DIGITS && n <= a.Length && Val(a[..n]) > 0
    ensures status <==> PowMod(2, Val(a[..n]), Val(a[..n])) == 2
  {
    assert n > 0;
    hide *;
    var t, u := new Digit[MAX_NN_DIGITS], new Digit[MAX_NN_DIGITS];
    AssignDigit(t, 2, n);
    ModExp(u, t, a, n, a, n);
    assert t[0..0 + n] == t[..n] && u[0..0 + n] == u[..n];
    var c := Cmp(t, 0, u, 0, n);
    status := c == 0;
  }

  ghost predicate PassesTest(v: nat, n: nat)
  {
    v > 0 && !HasSmallFactor(v, n) && PowMod(2, v, v) == 2
  }

  method ProbablePrime(a: array<Digit>, n: nat) returns (status: bool)
    requires n <= MAX_NN_DIGITS && n <= a.Length
    ensures status <==> PassesTest(Val(a[..n]), n)
  {
    var small := SmallFactor(a, n);
    if small { return false; }
    hide Val, PowMod;
    status := FermatTest(a, n);
  }

  lemma PrimeHasNoDivisor(p: nat, d: nat)
    requires Prime(p) && 1 < d < p
    ensures p % d != 0
  {
    assert Divides(d, p) ==> d == 1 || d == p;
  }

  /** The primes that pass: all above 11, and the odd ones up to 11 when given as a single digit. */
  lemma PrimesPass(p: nat, n: nat)
    requires Prime(p)
    ensures PassesTest(p, n) <==> p > 11 || (n == 1 && p != 2)
  {
    FermatForTwo(p);
    hide Pow;
    if p > 11 {
      PrimeHasNoDivisor(p, 3);
      PrimeHasNoDivisor(p, 5);
      PrimeHasNoDivisor(p, 7);
      PrimeHasNoDivisor(p, 11);
      ModSmall(2, p);
    } else if p == 2 {
    } else {
      PrimeHasNoDivisor(p, 2);
      if p == 9 { PrimeHasNoDivisor(p, 3); }
      ModSmall(2, p);
      assert p == 3 || p == 5 || p == 7 || p == 11;
    }
  }

  /** A random number brought into [b, c]. */
  ghost function InRange(r: nat, b: nat, c: nat): (a: nat)
    requires b <= c
    ensures b <= a <= c
  {
    DivModEquation(r, c - b + 1);
    r % (c - b + 1) + b
  }

  /** a rounded down to a multiple of d, plus one, in arithmetic modulo w = BASE^digits. */
  ghost function Rounded(a: nat, d: nat, w: nat): (x: nat)
    requires a < w && d >= 1
    ensures x == (if a == w - 1 && a % d == 0 then 0 else a - a % d + 1) < w
  {
    RoundDown(a, d);
    var x := a - a % d + 1;
    if x == w then DivModUnique(w, w, 1, 0); x % w else ModSmall(x, w); x % w
  }

  /** What is subtracted to get a multiple of d; for d = 0 the division leaves the number t in its place. */
  ghost function Excess(a: nat, d: nat, t: nat): nat
  {
    if d == 0 then t else a % d
  }

  /** a less x, plus one, in arithmetic modulo w. */
  ghost function LessPlusOne(a: nat, x: nat, w: nat): nat
    requires w > 0
  {
    (a - x + 1) % w
  }

  lemma RoundedIs(a: nat, d: nat, w: nat)
    requires a < w && d >= 1
    ensures Rounded(a, d, w) == LessPlusOne(a, a % d, w)
  {
    RoundDown(a, d);
    var x := a - a % d + 1;
    if x == w { DivModUnique(w, w, 1, 0); } else { ModSmall(x, w); }
  }

  /** A candidate moved by d towards [b, c], in arithmetic modulo w. */
  ghost function IntoRange(a1: nat, b: nat, c: nat, d: nat, w: nat): nat
    requires w > 0
  {
    var a2 := if a1 < b then (a1 + d) % w else a1;
    if a2 > c then (a2 - d) % w else a2
  }

  /** Where the search starts, for any d. */
  ghost function Start(r: nat, b: nat, c: nat, d: nat, w: nat): nat
    requires b <= c < w
  {
    var a0 := InRange(r, b, c);
    IntoRange(LessPlusOne(a0, Excess(a0, d, c - b + 1), w), b, c, d, w)
  }

  lemma StartIs(r: nat, b: nat, c: nat, d: nat, w: nat)
    requires b <= c < w && d >= 1
    ensures Start(r, b, c, d, w) == IntoRange(Rounded(InRange(r, b, c), d, w), b, c, d, w)
  {
    RoundedIs(InRange(r, b, c), d, w);
    hide IntoRange, Rounded, LessPlusOne;
  }

  /** Rounding c up wraps around, to a value that is not good. */
  ghost predicate Wraps(b: nat, c: nat, d: nat, w: nat)
    requires d >= 1
  {
    c + 1 == w && c % d == 0 && !(d == 1 && b == 1)
  }

  /** The start lies in [b, c] and is 1 modulo d for all random numbers exactly when rounding c up does not wrap
      around. */
  lemma StartInRange(b: nat, c: nat, d: nat, w: nat)
    requires 0 < b <= c < w && 1 <= d <= c - b + 1
    ensures (forall r: nat :: b <= Start(r, b, c, d, w) <= c && Start(r, b, c, d, w) % d == 1 % d)
            <==> !Wraps(b, c, d, w)
  {
    if !Wraps(b, c, d, w) {
      forall r: nat ensures b <= Start(r, b, c, d, w) <= c && Start(r, b, c, d, w) % d == 1 % d {
        StartIs(r, b, c, d, w);
        RoundedGood(InRange(r, b, c), b, c, d, w);
      }
    } else {
      StartWraps(b, c, d, w);
    }
  }

  lemma RoundDown(a: nat, d: nat)
    requires d >= 1
    ensures a % d <= a && (a - a % d) % d == 0 && (a - a % d + 1) % d == 1 % d
  {
    FloorBelow(a, d, a / d);
    DivModEquation(a, d);
    DivModUnique(a - a % d, d, a / d, 0);
    ModMultiple(1, a / d, d);
  }

  /** A rounded number that has not wrapped around is brought into range with its residue kept. */
  lemma UnwrappedGood(x: nat, b: nat, c: nat, d: nat, w: nat)
    requires 0 < b <= c < w && 1 <= d <= c - b + 1 && b - d < x <= c + 1 && x < w
    ensures b <= IntoRange(x, b, c, d, w) <= c && IntoRange(x, b, c, d, w) % d == x % d
  {
    if x < b {
      ModSmall(x + d, w);
      ModMultiple(x, 1, d);
    } else if x > c {
      ModMultiple(x, -1, d);
      ModSmall(x - d, w);
    }
  }

  lemma RoundedGood(a0: nat, b: nat, c: nat, d: nat, w: nat)
    requires 0 < b <= a0 <= c < w && 1 <= d <= c - b + 1
    requires !Wraps(b, c, d, w)
    ensures b <= IntoRange(Rounded(a0, d, w), b, c, d, w) <= c
    ensures IntoRange(Rounded(a0, d, w), b, c, d, w) % d == 1 % d
  {
    RoundDown(a0, d);
    DivModEquation(a0, d);
    if a0 == w - 1 && a0 % d == 0 {
      ModSmall(1, w);
    } else {
      UnwrappedGood(a0 - a0 % d + 1, b, c, d, w);
    }
  }

  lemma StartWraps(b: nat, c: nat, d: nat, w: nat)
    requires 0 < b <= c < w && 1 <= d <= c - b + 1
    requires Wraps(b, c, d, w)
    ensures Start(c - b, b, c, d, w) == d
    ensures !(b <= d && d % d == 1 % d)
  {
    StartIs(c - b, b, c, d, w);
    ModSmall(c - b, c - b + 1);
    ModSmall(d, w);
    DivModUnique(d, d, 1, 0);
    if d > 1 { ModSmall(1, d); }
  }

  /** The start is never above c, for any d up to c. */
  lemma StartAtMost(r: nat, b: nat, c: nat, d: nat, w: nat)
    requires b <= c < w && 1 <= d <= c
    ensures Start(r, b, c, d, w) <= c
  {
    var a0 := InRange(r, b, c);
    StartIs(r, b, c, d, w);
    RoundDown(a0, d);
    var a1 := Rounded(a0, d, w);
    assert a1 <= c + 1;
    var a2 := if a1 < b then (a1 + d) % w else a1;
    if a1 < b {
      if a1 + d < w { ModSmall(a1 + d, w); } else { DivModUnique(a1 + d, w, 1, a1 + d - w); }
    }
    if a2 > c { ModSmall(a2 - d, w); }
  }

  datatype Random = Unseeded | Bytes(block: seq<Byte>)

  /** x is reached from the start in steps of d. */
  ghost predicate Candidate(x: nat, start: nat, d: nat)
  {
    d > 0 && x >= start && (x - start) % d == 0
  }

  lemma NextCandidate(x: nat, start: nat, d: nat)
    requires Candidate(x, start, d)
    ensures Candidate(x + d, start, d)
    ensures forall y: nat :: Candidate(y, start, d) && x < y ==> x + d <= y
  {
    ModMultiple(x - start, 1, d);
    forall y: nat | Candidate(y, start, d) && x < y ensures x + d <= y {
      DivModEquation(x - start, d);
      DivModEquation(y - start, d);
      var i, j := (x - start) / d, (y - start) / d;
      assert y - x == d * (j - i) by { assert d * (j - i) == d * j - d * i; }
      if j - i < 1 { MulMonotone(d, j - i, 0); } else { MulMonotone(d, 1, j - i); }
    }
  }

  /** A start that is good makes every candidate up to c good. */
  lemma CandidatesGood(x: nat, start: nat, b: nat, c: nat, d: nat)
    requires Candidate(x, start, d) && b <= start && start % d == 1 % d && x <= c
    ensures b <= x <= c && x % d == 1 % d
  {
    DivModEquation(x - start, d);
    ModMultiple(start, (x - start) / d, d);
  }

  /** A random number in [b, c]. */
  /** Draws a random number in [b, c]; t is left with the length of that range. */
  method RandomInRange(a: array<Digit>, b: array<Digit>, c: array<Digit>, t: array<Digit>, u: array<Digit>, n: nat,
                       block: seq<Byte>)
    requires 0 < n <= MAX_NN_DIGITS && n <= a.Length && n <= b.Length && n <= c.Length && n <= t.Length && n <= u.Length
    requires a != b && a != c && a != u && t != a && t != b && t != c && t != u && |block| == 4 * n
    requires Val(b[..n]) <= Val(c[..n]) && Val(u[..n]) == 1
    modifies a, t
    ensures Val(a[..n]) == InRange(BigEndian(block), Val(b[..n]), Val(c[..n]))
    ensures Val(t[..n]) == (Val(c[..n]) - Val(b[..n]) + 1) % Weight(n)
  {
    hide Val, Weight, BigEndian;
    ghost var B, C, W := Val(b[..n]), Val(c[..n]), Weight(n);
    ValBound(c[..n]);
    ghost var r := BigEndian(block);
    assert block[..4 * n] == block;
    Decode(a, n, block, 4 * n);
    DecodeAll(block, n);
    assert c[0..0 + n] == c[..n];
    var borrow := Sub(t, 0, c, 0, b, n);
    assert t[0..0 + n] == t[..n];
    WrapSub(t[..n], C, B, borrow);
    var carry := Add(t, t, u, n);
    WrapAdd(t[..n], C - B, 1, carry);
    RangeLength(C - B + 1, W);
    Mod(a, a, n, t, n);
    ValBound(a[..n]);
    InWholeRange(r, B, C, W, Val(a[..n]));
    carry := Add(a, a, b, n);
    WrapAdd(a[..n], r % (C - B + 1), B, carry);
    ModSmall(InRange(r, B, C), W);
  }

  lemma RangeLength(t: nat, w: nat)
    requires 0 < t <= w
    ensures t % w == if t == w then 0 else t
  {
    if t == w { DivModUnique(w, w, 1, 0); } else { ModSmall(t, w); }
  }

  /** When every number is in range, the division by zero leaves the number alone. */
  lemma InWholeRange(r: nat, b: nat, c: nat, w: nat, a: nat)
    requires b <= c < w && a < w && a == if c - b + 1 == w then r else r % (c - b + 1)
    ensures a == r % (c - b + 1)
  {
    if c - b + 1 == w { ModSmall(r, w); }
  }

  /** Rounds a down to a multiple of d and adds the number one that u holds. */
  method RoundToOne(a: array<Digit>, d: array<Digit>, t: array<Digit>, u: array<Digit>, n: nat)
    requires n <= MAX_NN_DIGITS && n <= a.Length && n <= d.Length && n <= t.Length && n <= u.Length
    requires a != d && a != u && t != a && t != d && t != u && Val(u[..n]) == 1
    modifies a, t
    ensures Val(a[..n]) ==
      LessPlusOne(old(Val(a[..n])), Excess(old(Val(a[..n])), Val(d[..n]), old(Val(t[..n]))), Weight(n))
  {
    hide Val, Weight, LessPlusOne;
    ghost var a0, D, x := Val(a[..n]), Val(d[..n]), Excess(Val(a[..n]), Val(d[..n]), Val(t[..n]));
    Mod(t, a, n, d, n);
    assert Val(t[..n]) == x;
    assert a[0..0 + n] == a[..n];
    var borrow := Sub(a, 0, a, 0, t, n);
    assert a[0..0 + n] == a[..n];
    WrapLess(a[..n], a0, x, borrow);
    ghost var y := Val(a[..n]);
    var carry := Add(a, a, u, n);
    WrapAdd(a[..n], y, 1, carry);
    LessThenOne(a0, x, y, Weight(n));
  }

  lemma LessThenOne(a: nat, x: nat, y: nat, w: nat)
    requires w > 0 && y == (a - x) % w
    ensures (y + 1) % w == LessPlusOne(a, x, w)
  {
    DivModEquation(a - x, w);
    ModMultiple(y + 1, (a - x) / w, w);
  }

  /** Draws the first candidate: a random number in [b, c], rounded to 1 modulo d and moved towards the range. */
  method FirstCandidate(a: array<Digit>, b: array<Digit>, c: array<Digit>, d: array<Digit>, n: nat, block: seq<Byte>)
    requires n <= MAX_NN_DIGITS && n <= a.Length && n <= b.Length && n <= c.Length && n <= d.Length
    requires a != b && a != c && a != d && |block| == 4 * n
    requires 0 < n && Val(b[..n]) <= Val(c[..n])
    modifies a
    ensures Val(c[..n]) < Weight(n)
    ensures Val(a[..n]) == Start(BigEndian(block), Val(b[..n]), Val(c[..n]), Val(d[..n]), Weight(n))
  {
    hide Val, Weight, BigEndian, InRange, IntoRange, LessPlusOne;
    ValBound(c[..n]);
    var t, u := new Digit[MAX_NN_DIGITS], new Digit[MAX_NN_DIGITS];
    AssignDigit(u, 1, n);
    RandomInRange(a, b, c, t, u, n, block);
    ghost var a0, L := Val(a[..n]), Val(c[..n]) - Val(b[..n]) + 1;
    RoundToOne(a, d, t, u, n);
    SameExcess(a0, Val(d[..n]), L, Weight(n));
    Adjust(a, b, c, d, n);
  }

  lemma SameExcess(a: nat, d: nat, t: nat, w: nat)
    requires w > 0
    ensures LessPlusOne(a, Excess(a, d, t % w), w) == LessPlusOne(a, Excess(a, d, t), w)
  {
    if d == 0 {
      DivModEquation(t, w);
      ModMultiple(a - t + 1, t / w, w);
    }
  }

  lemma DecodeAll(block: seq<Byte>, n: nat)
    requires |block| == 4 * n
    ensures BigEndian(block) % Weight(n) == BigEndian(block)
  {
    hide *;
    BigEndianBound(block);
    ByteWeightIsWeight(n);
    ModSmall(BigEndian(block), Weight(n));
  }

  /** An addition whose carry is dropped is an addition modulo BASE^n. */
  lemma WrapAdd(s: seq<Digit>, x: nat, y: nat, carry: Digit)
    requires Val(s) + Weight(|s|) * carry == x + y
    ensures Val(s) == (x + y) % Weight(|s|)
  {
    hide *;
    ValBound(s);
    DivModUnique(x + y, Weight(|s|), carry, Val(s));
  }

  /** A subtraction that needs no borrow. */
  lemma WrapSub(s: seq<Digit>, x: nat, y: nat, borrow: Digit)
    requires Val(s) + y == x + Weight(|s|) * borrow && y <= x
    ensures Val(s) == x - y
  {
    hide *;
    ValBound(s);
    if borrow >= 1 { MulMonotone(Weight(|s|), 1, borrow); }
  }

  /** A subtraction whose borrow is dropped is a subtraction modulo BASE^n. */
  lemma WrapLess(s: seq<Digit>, x: nat, y: nat, borrow: Digit)
    requires Val(s) + y == x + Weight(|s|) * borrow
    ensures Val(s) == (x - y) % Weight(|s|)
  {
    hide *;
    ValBound(s);
    ModMultiple(Val(s), -(borrow as int), Weight(|s|));
    ModSmall(Val(s), Weight(|s|));
    assert Weight(|s|) * -(borrow as int) == -(Weight(|s|) * borrow);
  }

  /** Moves a candidate by d towards [b, c]. */
  method Adjust(a: array<Digit>, b: array<Digit>, c: array<Digit>, d: array<Digit>, n: nat)
    requires n <= a.Length && n <= b.Length && n <= c.Length && n <= d.Length
    requires a != b && a != c && a != d
    modifies a
    ensures Val(a[..n]) == IntoRange(old(Val(a[..n])), Val(b[..n]), Val(c[..n]), Val(d[..n]), Weight(n))
  {
    hide Val, Weight;
    assert a[0..0 + n] == a[..n] && b[0..0 + n] == b[..n] && c[0..0 + n] == c[..n];
    var less := Cmp(a, 0, b, 0, n);
    if less < 0 {
      ghost var x := Val(a[..n]);
      var carry := Add(a, a, d, n);
      WrapAdd(a[..n], x, Val(d[..n]), carry);
    }
    assert a[0..0 + n] == a[..n];
    var more := Cmp(a, 0, c, 0, n);
    if more > 0 {
      ghost var x := Val(a[..n]);
      var borrow := Sub(a, 0, a, 0, d, n);
      assert a[0..0 + n] == a[..n];
      WrapLess(a[..n], x, Val(d[..n]), borrow);
    }
  }

  /** The search from start in steps of d up to c: the first candidate that passes, or none. */
  ghost predicate SearchResult(start: nat, c: nat, d: nat, n: nat, status: int, a: nat)
  {
    if status == 0 then
      && Candidate(a, start, d) && a <= c && PassesTest(a, n)
      && forall x: nat :: Candidate(x, start, d) && x < a ==> !PassesTest(x, n)
    else
      && status == RE_DATA
      && forall x: nat :: Candidate(x, start, d) && x <= c ==> !PassesTest(x, n)
  }

  /** The numbers that the search goes through, in arithmetic modulo w. */
  ghost function Orbit(start: nat, d: nat, w: nat, k: nat): nat
    requires w > 0
  {
    if k == 0 then start else (Orbit(start, d, w, k - 1) + d) % w
  }

  /** The search stops in round k: the number passes, or is beyond the last from which to go on. */
  ghost predicate StopsAt(start: nat, c: nat, d: nat, w: nat, n: nat, k: nat)
    requires w > 0
  {
    PassesTest(Orbit(start, d, w, k), n) || Orbit(start, d, w, k) > (c - d) % w
  }

  ghost predicate Ends(start: nat, c: nat, d: nat, w: nat, n: nat)
    requires w > 0
  {
    exists k: nat :: StopsAt(start, c, d, w, n, k)
  }

  /** What the search leaves behind, for any d: the first number at which it stops. */
  ghost predicate Ended(start: nat, c: nat, d: nat, w: nat, n: nat, status: int, a: nat)
    requires w > 0
  {
    exists k: nat :: FirstStop(start, c, d, w, n, k) && a == Orbit(start, d, w, k)
      && status == (if PassesTest(a, n) then 0 else RE_DATA)
  }

  ghost predicate FirstStop(start: nat, c: nat, d: nat, w: nat, n: nat, k: nat)
    requires w > 0
  {
    StopsAt(start, c, d, w, n, k) && forall j: nat :: j < k ==> !StopsAt(start, c, d, w, n, j)
  }

  method Search(a: array<Digit>, c: array<Digit>, d: array<Digit>, n: nat) returns (status: int)
    requires n <= MAX_NN_DIGITS && n <= a.Length && n <= c.Length && n <= d.Length && a != c && a != d
    requires Ends(Val(a[..n]), Val(c[..n]), Val(d[..n]), Weight(n), n)
    modifies a
    ensures Ended(old(Val(a[..n])), Val(c[..n]), Val(d[..n]), Weight(n), n, status, Val(a[..n]))
  {
    hide Val, PassesTest, Weight, Orbit;
    ghost var start, C, D, W := Val(a[..n]), Val(c[..n]), Val(d[..n]), Weight(n);
    ghost var last: nat, k: nat :| StopsAt(start, C, D, W, n, last) && k == 0;
    var t := new Digit[MAX_NN_DIGITS];
    Assign(t, c, n);
    assert t[0..0 + n] == t[..n];
    var borrow := Sub(t, 0, t, 0, d, n);
    assert t[0..0 + n] == t[..n];
    WrapLess(t[..n], C, D, borrow);
    OrbitStart(start, D, W);
    var found := ProbablePrime(a, n);
    while !found
      invariant Val(c[..n]) == C && Val(d[..n]) == D && Val(t[..n]) == (C as int - D) % W
      invariant Val(a[..n]) == Orbit(start, D, W, k) && k <= last
      invariant forall j: nat :: j < k ==> !StopsAt(start, C, D, W, n, j)
      invariant found <==> PassesTest(Val(a[..n]), n)
      modifies a
      decreases last - k
    {
      ghost var x := Val(a[..n]);
      assert a[0..0 + n] == a[..n] && t[0..0 + n] == t[..n];
      var more := Cmp(a, 0, t, 0, n);
      if more > 0 {
        assert FirstStop(start, C, D, W, n, k);
        return RE_DATA;
      }
      assert !StopsAt(start, C, D, W, n, k);
      var carry := Add(a, a, d, n);
      WrapAdd(a[..n], x, D, carry);
      OrbitNext(start, D, W, k);
      k := k + 1;
      found := ProbablePrime(a, n);
    }
    assert FirstStop(start, C, D, W, n, k);
    return 0;
  }

  lemma OrbitStart(start: nat, d: nat, w: nat)
    requires w > 0
    ensures Orbit(start, d, w, 0) == start
  {}

  lemma OrbitNext(start: nat, d: nat, w: nat, k: nat)
    requires w > 0
    ensures Orbit(start, d, w, k + 1) == (Orbit(start, d, w, k) + d) % w
  {}

  /** With d from 1 up to c no addition wraps around before the search stops. */
  lemma {:induction false} OrbitBelow(start: nat, c: nat, d: nat, w: nat, n: nat, k: nat)
    requires start <= c < w && 1 <= d <= c && forall j: nat :: j < k ==> !StopsAt(start, c, d, w, n, j)
    ensures Orbit(start, d, w, k) == start + k * d <= c
    decreases k
  {
    if k > 0 {
      OrbitBelow(start, c, d, w, n, k - 1);
      assert !StopsAt(start, c, d, w, n, k - 1);
      ModSmall(c - d, w);
      ModSmall(start + (k - 1) * d + d, w);
      assert (k - 1) * d + d == k * d;
    }
  }

  /** Then it ends, with the first candidate that passes, or when no candidate up to c does. */
  lemma SearchInSteps(start: nat, c: nat, d: nat, w: nat, n: nat)
    requires start <= c < w && 1 <= d <= c
    ensures Ends(start, c, d, w, n)
    ensures forall status, a: nat :: Ended(start, c, d, w, n, status, a) ==> SearchResult(start, c, d, n, status, a)
  {
    hide PassesTest;
    if !Ends(start, c, d, w, n) {
      OrbitBelow(start, c, d, w, n, c + 1);
      MulMonotone(c + 1, 1, d);
      assert false;
    }
    forall status, a: nat | Ended(start, c, d, w, n, status, a)
      ensures SearchResult(start, c, d, n, status, a)
    {
      var k: nat :| FirstStop(start, c, d, w, n, k) && a == Orbit(start, d, w, k)
        && status == (if PassesTest(a, n) then 0 else RE_DATA);
      StoppedResult(start, c, d, w, n, k);
    }
  }

  lemma StoppedResult(start: nat, c: nat, d: nat, w: nat, n: nat, k: nat)
    requires start <= c < w && 1 <= d <= c && FirstStop(start, c, d, w, n, k)
    ensures var a := Orbit(start, d, w, k);
      SearchResult(start, c, d, n, if PassesTest(a, n) then 0 else RE_DATA, a)
  {
    var a := Orbit(start, d, w, k);
    hide PassesTest, Orbit, Candidate;
    OrbitBelow(start, c, d, w, n, k);
    OnOrbit(start, d, k, a);
    ModSmall(c - d, w);
    forall x: nat | Candidate(x, start, d) && x < a
      ensures !PassesTest(x, n)
    {
      EarlierOnOrbit(start, c, d, w, n, k, x);
    }
    NextCandidate(a, start, d);
  }

  lemma OnOrbit(start: nat, d: nat, k: nat, a: nat)
    requires d > 0 && a == start + k * d
    ensures Candidate(a, start, d)
  {
    DivModUnique(k * d, d, k, 0);
  }

  lemma EarlierOnOrbit(start: nat, c: nat, d: nat, w: nat, n: nat, k: nat, x: nat)
    requires start <= c < w && 1 <= d <= c && FirstStop(start, c, d, w, n, k)
    requires Candidate(x, start, d) && x < start + k * d
    ensures !PassesTest(x, n)
  {
    hide PassesTest;
    var j := (x - start) / d;
    DivModEquation(x - start, d);
    if j >= k { MulMonotone(d, k, j); }
    OrbitBelow(start, c, d, w, n, j);
    assert !StopsAt(start, c, d, w, n, j);
  }

  /** With d = 0 it ends if and only if it does so at once. */
  lemma NoSteps(start: nat, c: nat, w: nat, n: nat)
    requires start < w && c < w
    ensures Ends(start, c, 0, w, n) <==> PassesTest(start, n) || start > c
  {
    ModSmall(c, w);
    assert Ends(start, c, 0, w, n) <== StopsAt(start, c, 0, w, n, 0);
    if k: nat :| StopsAt(start, c, 0, w, n, k) { Standstill(start, w, k); }
    hide PassesTest;
  }

  lemma {:induction false} Standstill(start: nat, w: nat, k: nat)
    requires start < w
    ensures Orbit(start, 0, w, k) == start
    decreases k
  {
    if k > 0 {
      Standstill(start, w, k - 1);
      ModSmall(start, w);
    }
  }

  /** Two numbers that follow each other for ever. */
  lemma {:induction false} BackAndForth(x: nat, d: nat, w: nat, k: nat)
    requires w == 2 * d && x < d
    ensures Orbit(x, d, w, k) == if k % 2 == 0 then x else x + d
    decreases k
  {
    if k > 0 {
      BackAndForth(x, d, w, k - 1);
      ModSmall(x + d, w);
      DivModUnique(x + d + d, w, 1, x);
    }
  }

  lemma FirstIsCandidate(start: nat, d: nat)
    requires d >= 1
    ensures Candidate(start, start, d)
    ensures forall x: nat :: Candidate(x, start, d) ==> start <= x
  {
    ModSmall(0, d);
  }

  /** Generates a probable prime a in [b, c] with a - 1 divisible by d: the search goes on from a random start for as
      long as it takes, and the calls for which it ends are taken here. For d from 1 up to c it always does, with the
      first candidate that passes. `StartInRange` says when the start, and so every candidate, is good. */
  method GeneratePrime(a: array<Digit>, b: array<Digit>, c: array<Digit>, d: array<Digit>, n: nat, random: Random)
    returns (status: int)
    requires n <= MAX_NN_DIGITS && n <= a.Length && n <= b.Length && n <= c.Length && n <= d.Length && 0 < n
    requires a != b && a != c && a != d && (random.Bytes? ==> |random.block| == 4 * n)
    requires Val(b[..n]) <= Val(c[..n]) < Weight(n)
    requires random.Bytes? && !(1 <= Val(d[..n]) <= Val(c[..n])) ==>
      Ends(Start(BigEndian(random.block), Val(b[..n]), Val(c[..n]), Val(d[..n]), Weight(n)),
        Val(c[..n]), Val(d[..n]), Weight(n), n)
    modifies a
    ensures random.Unseeded? ==> status == RE_NEED_RANDOM && a[..] == old(a[..])
    ensures random.Bytes? ==>
      var start := Start(BigEndian(random.block), Val(b[..n]), Val(c[..n]), Val(d[..n]), Weight(n));
      && Ended(start, Val(c[..n]), Val(d[..n]), Weight(n), n, status, Val(a[..n]))
      && (1 <= Val(d[..n]) <= Val(c[..n]) ==>
        SearchResult(start, Val(c[..n]), Val(d[..n]), n, status, Val(a[..n])))
  {
    hide *;
    if random.Unseeded? { return RE_NEED_RANDOM; }
    ghost var B, C, D, W := Val(b[..n]), Val(c[..n]), Val(d[..n]), Weight(n);
    ghost var start := Start(BigEndian(random.block), B, C, D, W);
    FirstCandidate(a, b, c, d, n, random.block);
    if 1 <= D <= C {
      StartAtMost(BigEndian(random.block), B, C, D, W);
      SearchInSteps(start, C, D, W, n);
    }
    status := Search(a, c, d, n);
  }

  /** With d above c the search need not end: for one digit, b = c = 4 and d = 2^31, whatever the random bytes, it goes
      back and forth between 1 and 2^31 + 1. */
  lemma SearchNeverEnds(r: nat)
    ensures var c, d, w := 4, 0x8000_0000, 0x1_0000_0000;
      !Ends(Start(r, 4, c, d, w), c, d, w, 1)
  {
    var c, d, w := 4, 0x8000_0000, 0x1_0000_0000;
    StartIs(r, 4, c, d, w);
    assert InRange(r, 4, 4) == 4;
    FourStartsAtOne();
    NeitherPasses();
    DivModUnique(c - d, w, -1, c - d + w);
    hide PassesTest, Start;
    if k: nat :| StopsAt(1, c, d, w, 1, k) {
      BackAndForth(1, d, w, k);
      assert false;
    }
  }

  lemma FourStartsAtOne()
    ensures IntoRange(Rounded(4, 0x8000_0000, 0x1_0000_0000), 4, 4, 0x8000_0000, 0x1_0000_0000) == 1
  {}

  lemma NeitherPasses()
    ensures !PassesTest(1, 1) && !PassesTest(0x8000_0001, 1)
  {
    assert 0x8000_0001 % 3 == 0;
  }

  /** What a successful call means: for all random numbers, where rounding up cannot wrap around to a bad start,
      the result lies in [b, c], is 1 modulo d and passes the test. */
  lemma GeneratedPrimeGood(r: nat, b: nat, c: nat, d: nat, w: nat, n: nat, a: nat)
    requires 0 < b <= c < w && 1 <= d <= c - b + 1 && !Wraps(b, c, d, w)
    requires SearchResult(Start(r, b, c, d, w), c, d, n, 0, a)
    ensures GoodResult(a, b, c, d) && PassesTest(a, n)
  {
    StartInRange(b, c, d, w);
    var start := Start(r, b, c, d, w);
    assert b <= start <= c && start % d == 1 % d;
    CandidatesGood(a, start, b, c, d);
  }

  ghost predicate GoodResult(a: nat, b: nat, c: nat, d: nat)
    requires d >= 1
  {
    b <= a <= c && a % d == 1 % d
  }

  /** Only the wrapped start d is bad. */
  lemma BadStart(r: nat, b: nat, c: nat, d: nat, w: nat)
    requires 0 < b <= c < w && 1 <= d <= c - b + 1
    ensures var start := Start(r, b, c, d, w); GoodResult(start, b, c, d) || start == d
  {
    var a0 := InRange(r, b, c);
    StartIs(r, b, c, d, w);
    RoundDown(a0, d);
    DivModEquation(a0, d);
    if a0 == w - 1 && a0 % d == 0 {
      ModSmall(d, w);
    } else {
      UnwrappedGood(a0 - a0 % d + 1, b, c, d, w);
    }
  }

  /** The first candidate that passes, when some candidate does. */
  lemma {:induction false} FirstPassing(start: nat, c: nat, d: nat, n: nat, x: nat) returns (a: nat)
    requires Candidate(x, start, d) && x <= c && PassesTest(x, n)
    ensures a <= x && SearchResult(start, c, d, n, 0, a)
    decreases x
  {
    hide PassesTest;
    if y: nat :| Candidate(y, start, d) && y < x && PassesTest(y, n) {
      a := FirstPassing(start, c, d, n, y);
    } else {
      a := x;
    }
  }

  /** Some call succeeds with a bad result: outside [b, c], or not 1 modulo d. */
  ghost predicate BadSuccess(b: nat, c: nat, d: nat, w: nat, n: nat)
    requires 0 < b <= c < w && 1 <= d <= c - b + 1
  {
    exists r: nat, a: nat :: SearchResult(Start(r, b, c, d, w), c, d, n, 0, a) && !GoodResult(a, b, c, d)
  }

  /** What makes that possible: the start wraps to d, and then some multiple of d up to c passes, or, for d = 1, some
      number below b. */
  ghost predicate BadCandidate(b: nat, c: nat, d: nat, n: nat)
  {
    exists x: nat :: Candidate(x, d, d) && x <= c && PassesTest(x, n) && (d == 1 ==> x < b)
  }

  /** The exact condition under which a successful result can be bad. */
  lemma BadSuccessExact(b: nat, c: nat, d: nat, w: nat, n: nat)
    requires 0 < b <= c < w && 1 <= d <= c - b + 1
    ensures BadSuccess(b, c, d, w, n) <==> Wraps(b, c, d, w) && BadCandidate(b, c, d, n)
  {
    hide PassesTest;
    if BadSuccess(b, c, d, w, n) {
      var r: nat, a: nat :| SearchResult(Start(r, b, c, d, w), c, d, n, 0, a) && !GoodResult(a, b, c, d);
      BadIsWrapped(r, b, c, d, w, n, a);
    }
    if Wraps(b, c, d, w) && BadCandidate(b, c, d, n) {
      var x: nat :| Candidate(x, d, d) && x <= c && PassesTest(x, n) && (d == 1 ==> x < b);
      StartWraps(b, c, d, w);
      var a := FirstPassing(d, c, d, n, x);
      MultipleIsBad(a, b, c, d);
    }
  }

  lemma BadIsWrapped(r: nat, b: nat, c: nat, d: nat, w: nat, n: nat, a: nat)
    requires 0 < b <= c < w && 1 <= d <= c - b + 1
    requires SearchResult(Start(r, b, c, d, w), c, d, n, 0, a) && !GoodResult(a, b, c, d)
    ensures Wraps(b, c, d, w) && Candidate(a, d, d) && a <= c && PassesTest(a, n) && (d == 1 ==> a < b)
  {
    if !Wraps(b, c, d, w) { GeneratedPrimeGood(r, b, c, d, w, n, a); }
    BadStart(r, b, c, d, w);
    var start := Start(r, b, c, d, w);
    if GoodResult(start, b, c, d) { CandidatesGood(a, start, b, c, d); }
  }

  lemma MultipleIsBad(a: nat, b: nat, c: nat, d: nat)
    requires Candidate(a, d, d) && (d == 1 ==> a < b)
    ensures !GoodResult(a, b, c, d)
  {
    ModMultiple(a - d, 1, d);
    if d > 1 { ModSmall(1, d); }
  }

  /** Such a call: one digit, b = 1, c = 2^32 - 1, d = 17 and the random number c - b give 17. */
  lemma SeventeenReturned()
    ensures var c, w := 0xffff_ffff, 0x1_0000_0000;
      SearchResult(Start(c - 1, 1, c, 17, w), c, 17, 1, 0, 17) && !GoodResult(17, 1, c, 17)
  {
    var c, w := 0xffff_ffff, 0x1_0000_0000;
    StartWraps(1, c, 17, w);
    SeventeenIsPrime();
    PrimesPass(17, 1);
    hide PassesTest, Start;
    FirstIsCandidate(17, 17);
  }

  lemma SeventeenIsPrime()
    ensures Prime(17)
  {
    forall d: nat | Divides(d, 17)
      ensures d == 1 || d == 17
    {
      if d > 17 { ModSmall(17, d); }
      assert d != 0 && d <= 17;
    }
  }
}
