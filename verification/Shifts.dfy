/** Bit lengths and bit shifts of digit arrays (nn.c). */
module Shifts {
  import opened Arithmetic
  import opened Words
  import opened DigitSequences
  import opened NaturalNumbers
  import opened Slices

  /** The number of significant bits of a digit. */
  method DigitBits(a: Digit) returns (i: nat)
    ensures i <= 32 && a < Pow2(i) && (i > 0 ==> Pow2(i - 1) <= a)
  {
    i := 0;
    var x: Digit := a;
    assert Pow2(0) == 1;
    while i < 32 && x != 0
      invariant i <= 32
      invariant Pow2(i) * x <= a < Pow2(i) * (x + 1)
      invariant i > 0 ==> Pow2(i - 1) <= a
      invariant i == 32 ==> x == 0
    {
      ghost var x0: Digit := x;
      x := x / 2;
      assert Pow2(i + 1) == 2 * Pow2(i);
      assert Pow2(i) <= a by { MulMonotone(Pow2(i), 1, x0); }
      assert Pow2(i + 1) * x <= a < Pow2(i + 1) * (x + 1) by {
        HalvingBounds(Pow2(i), x0, x, a);
      }
      if i == 31 {
        Pow2Of32();
        assert x == 0;
      }
      i := i + 1;
    }
    assert Pow2(i) * (x + 1) == Pow2(i);
  }

  lemma HalvingBounds(p: int, x0: int, x: int, a: int)
    requires p > 0 && x == x0 / 2 && p * x0 <= a < p * (x0 + 1)
    ensures 2 * p * x <= a < 2 * p * (x + 1)
  {
    MulMonotone(p, 2 * x, x0);
    MulMonotone(p, x0 + 1, 2 * (x + 1));
    assert p * (2 * x) == 2 * p * x && p * (2 * (x + 1)) == 2 * p * (x + 1);
  }

  /** Shifting one digit left by c bits with the bits carried in from below. */
  lemma LeftShiftDigit(bi: Digit, c: nat, carry: Digit)
    requires c < 32 && carry < Pow2(c)
    ensures BitOr(Shl(bi, c), carry) == Shl(bi, c) + carry < 0x1_0000_0000
    ensures bi * Pow2(c) + carry == (Shl(bi, c) + carry) + 0x1_0000_0000 * Shr(bi, 32 - c)
    ensures Shr(bi, 32 - c) < Pow2(c)
    ensures c == 0 ==> Shr(bi, 32 - c) == 0
  {
    if c == 0 { assert Pow2(c) == 1; }
    hide Pow2, BitOr, Shl, Shr;
    ShiftSplit(bi, c);
    BitOrDisjoint(bi % Pow2(32 - c), carry, c);
  }

  lemma ShiftIdentity(w: int, x: int, p: int, z: int, xi: int, zi: int, c: int, c': int, w': int, x': int, z': int)
    requires x * p == z + w * c && xi * p + c == zi + 0x1_0000_0000 * c'
    requires w' == 0x1_0000_0000 * w && x' == x + w * xi && z' == z + w * zi
    ensures x' * p == z' + w' * c'
  {
    assert (x + w * xi) * p == x * p + w * (xi * p);
    assert w * (xi * p + c) == w * (xi * p) + w * c;
    assert w * (zi + 0x1_0000_0000 * c') == w * zi + w' * c';
  }

  lemma ShiftStep(x: seq<Digit>, z: seq<Digit>, p: nat, xi: Digit, zi: Digit, c: nat, c': nat)
    requires |x| == |z| && Val(x) * p == Val(z) + Weight(|z|) * c
    requires xi * p + c == zi + 0x1_0000_0000 * c'
    ensures Val(x + [xi]) * p == Val(z + [zi]) + Weight(|z| + 1) * c'
  {
    hide Val;
    ValSnoc(x, xi);
    ValSnoc(z, zi);
    ShiftIdentity(Weight(|z|), Val(x), p, Val(z), xi, zi, c, c', Weight(|z| + 1), Val(x + [xi]), Val(z + [zi]));
  }

  /** a = b * 2^c for c < 32; returns the bits shifted out. A larger c changes nothing. */
  method LShift(a: array<Digit>, b: array<Digit>, c: nat, n: nat) returns (carry: Digit)
    requires n <= a.Length && n <= b.Length
    modifies a
    ensures c >= 32 ==> carry == 0 && a[..] == old(a[..])
    ensures c < 32 ==> carry < Pow2(c) && Val(a[..n]) + Weight(n) * carry == old(Val(b[..n])) * Pow2(c)
    ensures forall k :: n <= k < a.Length ==> a[k] == old(a[k])
  {
    if c >= 32 { return 0; }
    carry := 0;
    ghost var x: seq<Digit>, z: seq<Digit> := b[..n], [];
    assert Val(x[..0]) == Val(z) == 0;
    hide Val, Weight, Pow2, BitOr, Shl, Shr;
    for i := 0 to n
      invariant |z| == i && carry < Pow2(c)
      invariant forall k :: i <= k < n ==> b[k] == x[k]
      invariant forall k :: 0 <= k < i ==> a[k] == z[k]
      invariant forall k :: n <= k < a.Length ==> a[k] == old(a[k])
      invariant Val(x[..i]) * Pow2(c) == Val(z) + Weight(i) * carry
    {
      var bi: Digit := b[i];
      LeftShiftDigit(bi, c, carry);
      var ai := BitOr(Shl(bi, c), carry);
      var carry' := if c != 0 then Shr(bi, 32 - c) else 0;
      ShiftStep(x[..i], z, Pow2(c), bi, ai, carry, carry');
      assert x[..i + 1] == x[..i] + [x[i]];
      a[i], carry, z := ai, carry', z + [ai];
    }
    assert x[..n] == x && a[..n] == z;
  }

  lemma RejoinIdentity(bi: int, p: int, q: int, hi: int, lo: int, r: int, or: int)
    requires p * q == 0x1_0000_0000 && bi == p * hi + lo && or == r * q + hi
    ensures p * or + lo == bi + 0x1_0000_0000 * r
  {
    assert p * (r * q + hi) == (p * q) * r + p * hi by { assert p * (r * q) == (p * q) * r; }
  }

  lemma Pow2Complement(c: nat)
    requires c <= 32
    ensures Pow2(c) * Pow2(32 - c) == 0x1_0000_0000
  {
    Pow2Of32();
    Pow2Add(c, 32 - c);
  }

  /** Shifting one digit right by c bits with the low bits r of the digit above. */
  lemma RightShiftDigit(bi: Digit, c: nat, r: Digit)
    requires c < 32 && r < Pow2(c)
    ensures BitOr(Shr(bi, c), Shl(r, 32 - c)) < 0x1_0000_0000
    ensures Pow2(c) * BitOr(Shr(bi, c), Shl(r, 32 - c)) + bi % Pow2(c) == bi + 0x1_0000_0000 * r
  {
    hide *;
    var p, q, hi := Pow2(c), Pow2(32 - c), Shr(bi, c);
    Pow2Complement(c);
    ShiftSplit(bi, 32 - c);
    assert 32 - (32 - c) == c;
    ShiftSplit(r, 32 - c);
    ModSmall(r, p);
    assert Shl(r, 32 - c) == r * q;
    BitOrDisjoint(r, hi, 32 - c);
    RejoinIdentity(bi, p, q, hi, bi % p, r, BitOr(hi, Shl(r, 32 - c)));
  }

  /** Only the low c bits of a digit survive a shift left by 32 - c. */
  lemma LowBitsShifted(bi: Digit, c: nat)
    requires c < 32
    ensures bi % Pow2(c) < 0x1_0000_0000 && Shl(bi, 32 - c) == Shl(bi % Pow2(c), 32 - c)
  {
    var p := Pow2(c);
    hide Pow2, Shl;
    DivModEquation(bi, p);
    assert bi % p <= bi by { DivShrinks(bi, p); MulMonotone(p, 0, bi / p); }
    var lo: Digit := bi % p;
    ShiftSplit(bi, 32 - c);
    ShiftSplit(lo, 32 - c);
    ModSmall(lo, p);
  }

  lemma RightShiftIdentity(p: int, z: int, r: int, x: int, xi: int, zi: int, r': int, x': int, z': int)
    requires x == p * z + r && p * zi + r' == xi + 0x1_0000_0000 * r
    requires x' == xi + 0x1_0000_0000 * x && z' == zi + 0x1_0000_0000 * z
    ensures x' == p * z' + r'
  {
    assert p * (zi + 0x1_0000_0000 * z) == p * zi + 0x1_0000_0000 * (p * z);
  }

  lemma RightShiftStep(x: seq<Digit>, z: seq<Digit>, p: nat, r: nat, xi: Digit, zi: Digit, r': nat)
    requires Val(x) == p * Val(z) + r && p * zi + r' == xi + 0x1_0000_0000 * r
    ensures Val([xi] + x) == p * Val([zi] + z) + r'
  {
    assert ([xi] + x)[1..] == x && ([zi] + z)[1..] == z;
    assert Val([xi] + x) == xi + 0x1_0000_0000 * Val(x) && Val([zi] + z) == zi + 0x1_0000_0000 * Val(z);
    hide Val;
    RightShiftIdentity(p, Val(z), r, Val(x), xi, zi, r', Val([xi] + x), Val([zi] + z));
  }

  /** a = b div 2^c for c < 32; returns the bits shifted out, left-aligned. A larger c changes nothing. */
  method RShift(a: array<Digit>, b: array<Digit>, c: nat, n: nat) returns (carry: Digit)
    requires n <= a.Length && n <= b.Length
    modifies a
    ensures c >= 32 ==> carry == 0 && a[..] == old(a[..])
    ensures c < 32 ==> Val(a[..n]) == old(Val(b[..n])) / Pow2(c)
    ensures c < 32 ==> carry == old(Val(b[..n])) % Pow2(c) * Pow2(32 - c)
    ensures forall k :: n <= k < a.Length ==> a[k] == old(a[k])
  {
    hide *;
    if c >= 32 { return 0; }
    ghost var x: seq<Digit> := b[..n];
    ghost var r;
    carry, r := RShiftDigits(a, b, c, n, x);
    assert forall k :: n <= k < a.Length ==> a[k] == a[n..][k - n] == old(a[n..])[k - n];
    ShiftedParts(x, a[..n], c, r, carry);
    DivModUnique(Val(x), Pow2(c), Val(a[..n]), r);
  }

  /** The digits x are shifted to z, with the bits r shifted out. */
  ghost predicate Shifted(x: seq<Digit>, z: seq<Digit>, c: nat, r: int, carry: int)
  {
    c < 32 && 0 <= r < Pow2(c) && r < 0x1_0000_0000 && carry == Shl(r, 32 - c) && Val(x) == Pow2(c) * Val(z) + r
  }

  lemma ShiftedNothing(x: seq<Digit>, z: seq<Digit>, c: nat)
    requires c < 32 && x == [] && z == []
    ensures Shifted(x, z, c, 0, 0)
  {
    assert Shl(0, 32 - c) == 0;
    hide Shl, Pow2;
  }

  lemma ShiftedNext(x: seq<Digit>, z: seq<Digit>, c: nat, r: Digit, carry: Digit, bi: Digit, ai: Digit, r': Digit,
                    carry': Digit)
    requires Shifted(x, z, c, r, carry) && r' < Pow2(c) && carry' == Shl(r', 32 - c)
    requires Pow2(c) * ai + r' == bi + 0x1_0000_0000 * r
    ensures Shifted([bi] + x, [ai] + z, c, r', carry')
  {
    hide Val, Pow2, Shl;
    RightShiftStep(x, z, Pow2(c), r, bi, ai, r');
  }

  /** The bits shifted out are returned at the top of the carry digit. */
  lemma ShiftedParts(x: seq<Digit>, z: seq<Digit>, c: nat, r: Digit, carry: int)
    requires Shifted(x, z, c, r, carry)
    ensures Val(x) == Pow2(c) * Val(z) + r && r < Pow2(c) && carry == r * Pow2(32 - c)
  {
    hide Val, Pow2, Shl;
    LeftAligned(r, c);
  }

  lemma LeftAligned(r: Digit, c: nat)
    requires c < 32 && r < Pow2(c)
    ensures Shl(r, 32 - c) == r * Pow2(32 - c)
  {
    hide *;
    assert 32 - (32 - c) == c;
    ShiftSplit(r, 32 - c);
    ModSmall(r, Pow2(c));
  }

  /** The loop of a right shift by less than a digit. */
  method RShiftDigits(a: array<Digit>, b: array<Digit>, c: nat, n: nat, ghost x: seq<Digit>)
    returns (carry: Digit, ghost r: Digit)
    requires n <= a.Length && n <= b.Length && c < 32 && x == b[..n]
    modifies a
    ensures Shifted(x, a[..n], c, r, carry) && a[n..] == old(a[n..])
  {
    ghost var y: seq<Digit>, z: seq<Digit> := [], [];
    carry, r := 0, 0;
    ShiftedNothing(y, z, c);
    var i := n;
    assert x[i..] == y && a[i..n] == z;
    hide *;
    while i > 0
      invariant 0 <= i <= n && x[i..] == y && a[i..n] == z && Shifted(y, z, c, r, carry)
      invariant b[..i] == x[..i] && a[n..] == old(a[n..])
    {
      i := i - 1;
      var bi: Digit := b[i];
      assert bi == b[..i + 1][i] == x[..i + 1][i];
      var ai: Digit;
      ai, carry, r := RightShiftColumn(bi, c, carry, r, y, z);
      Store(a, b, i, n, ai, x);
      y, z := [bi] + y, [ai] + z;
    }
    assert x[0..] == x && a[0..n] == a[..n];
  }

  /** Writes one digit, below those already written and with those still to be read unchanged. */
  method Store(a: array<Digit>, ghost b: array<Digit>, i: nat, ghost n: nat, ai: Digit, ghost x: seq<Digit>)
    requires i < n <= a.Length && n <= b.Length && |x| == n && b[..i + 1] == x[..i + 1]
    modifies a
    ensures a[i..n] == [ai] + old(a[i + 1..n]) && a[n..] == old(a[n..])
    ensures b[..i] == x[..i] && x[i..] == [x[i]] + x[i + 1..]
  {
    ghost var s: seq<Digit> := a[..];
    assert b[..i] == b[..i + 1][..i];
    a[i] := ai;
    assert a[..] == s[i := ai];
    SliceUpdate(s, i, n, ai);
  }

  /** One digit of a right shift. */
  method RightShiftColumn(bi: Digit, c: nat, carry: Digit, ghost r: Digit, ghost x: seq<Digit>, ghost z: seq<Digit>)
    returns (ai: Digit, carry': Digit, ghost r': Digit)
    requires Shifted(x, z, c, r, carry)
    ensures Shifted([bi] + x, [ai] + z, c, r', carry')
  {
    assert c < 32 && r < Pow2(c) && carry == Shl(r, 32 - c);
    assert c == 0 ==> Pow2(c) == 1;
    assert Shl(0, 32 - c) == 0;
    hide *;
    RightShiftDigit(bi, c, r);
    LowBitsShifted(bi, c);
    ai := BitOr(Shr(bi, c), carry);
    r' := bi % Pow2(c);
    carry' := if c != 0 then Shl(bi, 32 - c) else 0;
    ShiftedNext(x, z, c, r, carry, bi, ai, r', carry');
  }
}
