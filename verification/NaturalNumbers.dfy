/** Multi-precision addition, subtraction, multiplication and shifts (nn.c). A C pointer into an
    array is an array with an offset; a result array may be one of the operand arrays. */
module NaturalNumbers {
  import opened Arithmetic
  import opened Words
  import opened DigitSequences
  import opened DigitArithmetic
  import opened Slices

  const MAX_NN_DIGITS: nat := 65

  /** The integer identity behind one column. */
  lemma ColumnIdentity(w: int, f: int, x: int, y: int, z: int, xi: int, yi: int, zi: int, c: int, c': int,
                       w': int, x': int, y': int, z': int)
    requires x + f * y == z + w * c
    requires xi + f * yi + c == zi + 0x1_0000_0000 * c'
    requires w' == 0x1_0000_0000 * w && x' == x + w * xi && y' == y + w * yi && z' == z + w * zi
    ensures x' + f * y' == z' + w' * c'
  {
    var p := f * yi;
    assert f * y' == f * y + w * p by { assert f * (w * yi) == w * p; }
    assert w * (xi + p + c) == w * xi + w * p + w * c;
    assert w * (zi + 0x1_0000_0000 * c') == w * zi + w' * c';
  }

  /** A column chain so far: x + f * y == z with a carry out of the last column. Addition uses
      f = 1, multiply-and-add the multiplier; a subtraction is the addition that undoes it. */
  ghost predicate Chain(x: seq<Digit>, f: Digit, y: seq<Digit>, z: seq<Digit>, carry: int)
  {
    && |x| == |y| == |z|
    && Val(x) + f * Val(y) == Val(z) + Weight(|z|) * carry
  }

  lemma ChainStart(f: Digit)
    ensures Chain([], f, [], [], 0)
  {}

  lemma ChainStep(x: seq<Digit>, f: Digit, y: seq<Digit>, z: seq<Digit>,
                  xi: Digit, yi: Digit, zi: Digit, c: int, c': int)
    requires Chain(x, f, y, z, c)
    requires xi + f * yi + c == zi + 0x1_0000_0000 * c'
    ensures Chain(x + [xi], f, y + [yi], z + [zi], c')
  {
    hide Val;
    ValSnoc(x, xi);
    ValSnoc(y, yi);
    ValSnoc(z, zi);
    ColumnIdentity(Weight(|z|), f, Val(x), Val(y), Val(z), xi, yi, zi, c, c',
      Weight(|z| + 1), Val(x + [xi]), Val(y + [yi]), Val(z + [zi]));
  }

  lemma ChainEnd(x: seq<Digit>, f: Digit, y: seq<Digit>, z: seq<Digit>, carry: int)
    requires Chain(x, f, y, z, carry)
    ensures |x| == |y| == |z| && Val(x) + f * Val(y) == Val(z) + Weight(|z|) * carry
  {}

  method Assign(a: array<Digit>, b: array<Digit>, n: nat)
    requires n <= a.Length && n <= b.Length
    modifies a
    ensures a[..n] == old(b[..n])
    ensures forall k :: n <= k < a.Length ==> a[k] == old(a[k])
  {
    for i := 0 to n
      invariant forall k :: 0 <= k < i ==> a[k] == old(b[k])
      invariant forall k :: i <= k < b.Length ==> b[k] == old(b[k])
      invariant forall k :: n <= k < a.Length ==> a[k] == old(a[k])
    {
      a[i] := b[i];
    }
  }

  method AssignZero(a: array<Digit>, n: nat)
    requires n <= a.Length
    modifies a
    ensures forall k :: 0 <= k < n ==> a[k] == 0
    ensures forall k :: n <= k < a.Length ==> a[k] == old(a[k])
    ensures Val(a[..n]) == 0
  {
    for i := 0 to n
      invariant forall k :: 0 <= k < i ==> a[k] == 0
      invariant forall k :: n <= k < a.Length ==> a[k] == old(a[k])
    {
      a[i] := 0;
    }
    ValZero(a[..n]);
  }

  /** NN_ASSIGN_DIGIT. */
  method AssignDigit(a: array<Digit>, b: Digit, n: nat)
    requires 0 < n <= a.Length
    modifies a
    ensures Val(a[..n]) == b
    ensures forall k :: n <= k < a.Length ==> a[k] == old(a[k])
  {
    AssignZero(a, n);
    a[0] := b;
    ValOne(a[..n]);
  }

  /** One digit of a sum; a carry in is kept when adding it wraps around. */
  method AddDigits(bi: Digit, ci: Digit, carry: Digit) returns (ai: Digit, carry': Digit)
    requires carry <= 1
    ensures carry' <= 1 && bi + ci + carry == ai + 0x1_0000_0000 * carry'
  {
    ai, carry' := Add32(bi, carry), carry;
    if ai < carry {
      ai := ci;
    } else {
      ai := Add32(ai, ci);
      if ai < ci { carry' := 1; } else { carry' := 0; }
    }
  }

  /** a = b + c; returns the carry. */
  method Add(a: array<Digit>, b: array<Digit>, c: array<Digit>, n: nat) returns (carry: Digit)
    requires n <= a.Length && n <= b.Length && n <= c.Length
    modifies a
    ensures carry <= 1
    ensures Val(a[..n]) + Weight(n) * carry == old(Val(b[..n])) + old(Val(c[..n]))
    ensures forall k :: n <= k < a.Length ==> a[k] == old(a[k])
  {
    carry := 0;
    ghost var x: seq<Digit>, y: seq<Digit> := b[..n], c[..n];
    hide *;
    ChainStart(1);
    assert x[..0] == [] && y[..0] == [] && a[..0] == [];
    for i := 0 to n
      invariant carry <= 1
      invariant forall k :: i <= k < n ==> b[k] == x[k] && c[k] == y[k]
      invariant forall k :: n <= k < a.Length ==> a[k] == old(a[k])
      invariant Chain(x[..i], 1, y[..i], a[..i], carry)
    {
      ghost var c0: Digit := carry;
      var ai: Digit;
      ai, carry := AddDigits(b[i], c[i], carry);
      ghost var s: seq<Digit> := a[..];
      ChainStep(x[..i], 1, y[..i], s[..i], x[i], y[i], ai, c0, carry);
      TakeNext(x, i);
      TakeNext(y, i);
      TakeUpdate(s, i, ai);
      a[i] := ai;
      assert a[..] == s[i := ai];
    }
    assert x[..n] == x && y[..n] == y;
    ChainEnd(x, 1, y, a[..n], carry);
  }

  /** One digit of a difference. */
  method SubDigits(bi: Digit, ci: Digit, borrow: Digit) returns (ai: Digit, borrow': Digit)
    requires borrow <= 1
    ensures borrow' <= 1 && ai + ci + borrow == bi + 0x1_0000_0000 * borrow'
  {
    ai, borrow' := Sub32(bi, borrow), borrow;
    if ai > MAX_DIGIT - borrow {
      ai := MAX_DIGIT - ci;
    } else {
      ai := Sub32(ai, ci);
      if ai > MAX_DIGIT - ci { borrow' := 1; } else { borrow' := 0; }
    }
  }

  /** a = b - c, where a and b are windows of n digits; returns the borrow. */
  method Sub(a: array<Digit>, ao: nat, b: array<Digit>, bo: nat, c: array<Digit>, n: nat) returns (borrow: Digit)
    requires ao + n <= a.Length && bo + n <= b.Length && n <= c.Length
    requires (a == b ==> ao == bo) && (a == c ==> ao == 0)
    modifies a
    ensures borrow <= 1
    ensures Val(a[ao..ao + n]) + old(Val(c[..n])) == old(Val(b[bo..bo + n])) + Weight(n) * borrow
    ensures forall k :: 0 <= k < ao || ao + n <= k < a.Length ==> a[k] == old(a[k])
  {
    borrow := 0;
    ghost var x: seq<Digit>, y: seq<Digit>, z: seq<Digit> := b[bo..bo + n], c[..n], [];
    hide *;
    ChainStart(1);
    assert x[..0] == [] && y[..0] == [];
    for i := 0 to n
      invariant borrow <= 1 && |z| == i
      invariant forall j :: bo + i <= j < bo + n ==> b[j] == x[j - bo]
      invariant forall k :: i <= k < n ==> c[k] == y[k]
      invariant forall j :: ao <= j < ao + i ==> a[j] == z[j - ao]
      invariant forall k :: 0 <= k < ao || ao + n <= k < a.Length ==> a[k] == old(a[k])
      invariant Chain(z, 1, y[..i], x[..i], borrow)
    {
      ghost var c0: Digit := borrow;
      var ai: Digit;
      ai, borrow := SubDigits(b[bo + i], c[i], borrow);
      ChainStep(z, 1, y[..i], x[..i], ai, y[i], x[i], c0, borrow);
      TakeNext(x, i);
      TakeNext(y, i);
      a[ao + i], z := ai, z + [ai];
    }
    assert x[..n] == x && y[..n] == y && a[ao..ao + n] == z;
    ChainEnd(z, 1, y, x, borrow);
  }

  /** a = b + c * d for a digit c; returns the carry. A zero c leaves a as it was. */
  method AddDigitMult(a: array<Digit>, ao: nat, b: array<Digit>, bo: nat, c: Digit, d: array<Digit>, n: nat)
    returns (carry: Digit)
    requires ao + n <= a.Length && bo + n <= b.Length && n <= d.Length
    requires (a == b ==> ao == bo) && a != d
    modifies a
    ensures c == 0 ==> carry == 0 && a[..] == old(a[..])
    ensures c != 0 ==> Val(a[ao..ao + n]) + Weight(n) * carry == old(Val(b[bo..bo + n])) + c * Val(d[..n])
    ensures forall k :: 0 <= k < ao || ao + n <= k < a.Length ==> a[k] == old(a[k])
  {
    if c == 0 { return 0; }
    carry := 0;
    ghost var x: seq<Digit>, y: seq<Digit> := b[bo..bo + n], d[..n];
    hide *;
    ChainStart(c);
    assert x[..0] == [] && y[..0] == [] && a[ao..ao] == [];
    for i := 0 to n
      invariant forall j :: bo + i <= j < bo + n ==> b[j] == x[j - bo]
      invariant d[..n] == y
      invariant forall k :: 0 <= k < ao || ao + n <= k < a.Length ==> a[k] == old(a[k])
      invariant Chain(x[..i], c, y[..i], a[ao..ao + i], carry)
    {
      ghost var c0: Digit := carry;
      var t0, t1 := DigitMult(c, d[i]);
      var ai: Digit;
      ai, carry := AddColumn(b[bo + i], carry, t0, t1, c, d[i]);
      ghost var s: seq<Digit> := a[..];
      ChainStep(x[..i], c, y[..i], s[ao..ao + i], x[i], y[i], ai, c0, carry);
      TakeNext(x, i);
      TakeNext(y, i);
      SliceSnocUpdate(s, ao, ao + i, ai);
      a[ao + i] := ai;
      assert a[..] == s[ao + i := ai];
    }
    assert x[..n] == x && y[..n] == y;
    ChainEnd(x, c, y, a[ao..ao + n], carry);
  }

  /** The column of AddDigitMult: bi + carry + (t1,t0), where (t1,t0) is the product c * di. */
  method AddColumn(bi: Digit, carry: Digit, t0: Digit, t1: Digit, ghost c: Digit, ghost di: Digit)
    returns (ai: Digit, carry': Digit)
    requires t0 + 0x1_0000_0000 * t1 == c * di
    ensures bi + c * di + carry == ai + 0x1_0000_0000 * carry'
  {
    DigitProductFits(c, di);
    ai := Add32(bi, carry);
    if ai < carry { carry' := 1; } else { carry' := 0; }
    ai := Add32(ai, t0);
    if ai < t0 { carry' := Add32(carry', 1); }
    carry' := Add32(carry', t1);
  }

  /** a = b - c * d for a digit c; returns the borrow. A zero c leaves a as it was. */
  method SubDigitMult(a: array<Digit>, ao: nat, b: array<Digit>, bo: nat, c: Digit, d: array<Digit>, n: nat)
    returns (borrow: Digit)
    requires ao + n <= a.Length && bo + n <= b.Length && n <= d.Length
    requires (a == b ==> ao == bo) && a != d
    modifies a
    ensures c == 0 ==> borrow == 0 && a[..] == old(a[..])
    ensures c != 0 ==> Val(a[ao..ao + n]) + c * Val(d[..n]) == old(Val(b[bo..bo + n])) + Weight(n) * borrow
    ensures forall k :: 0 <= k < ao || ao + n <= k < a.Length ==> a[k] == old(a[k])
  {
    if c == 0 { return 0; }
    borrow := 0;
    ghost var x: seq<Digit>, y: seq<Digit> := b[bo..bo + n], d[..n];
    hide *;
    ChainStart(c);
    assert x[..0] == [] && y[..0] == [] && a[ao..ao] == [];
    for i := 0 to n
      invariant forall j :: bo + i <= j < bo + n ==> b[j] == x[j - bo]
      invariant d[..n] == y
      invariant forall k :: 0 <= k < ao || ao + n <= k < a.Length ==> a[k] == old(a[k])
      invariant Chain(a[ao..ao + i], c, y[..i], x[..i], borrow)
    {
      ghost var c0: Digit := borrow;
      var t0, t1 := DigitMult(c, d[i]);
      var ai: Digit;
      ai, borrow := SubColumn(b[bo + i], borrow, t0, t1, c, d[i]);
      ghost var s: seq<Digit> := a[..];
      ChainStep(s[ao..ao + i], c, y[..i], x[..i], ai, y[i], x[i], c0, borrow);
      TakeNext(x, i);
      TakeNext(y, i);
      SliceSnocUpdate(s, ao, ao + i, ai);
      a[ao + i] := ai;
      assert a[..] == s[ao + i := ai];
    }
    assert x[..n] == x && y[..n] == y;
    ChainEnd(a[ao..ao + n], c, y, x, borrow);
  }

  /** The column of SubDigitMult: bi - borrow - (t1,t0), where (t1,t0) is the product c * di. */
  method SubColumn(bi: Digit, borrow: Digit, t0: Digit, t1: Digit, ghost c: Digit, ghost di: Digit)
    returns (ai: Digit, borrow': Digit)
    requires t0 + 0x1_0000_0000 * t1 == c * di
    ensures ai + c * di + borrow == bi + 0x1_0000_0000 * borrow'
  {
    DigitProductFits(c, di);
    ai := Sub32(bi, borrow);
    if ai > MAX_DIGIT - borrow { borrow' := 1; } else { borrow' := 0; }
    ai := Sub32(ai, t0);
    if ai > MAX_DIGIT - t0 { borrow' := Add32(borrow', 1); }
    borrow' := Add32(borrow', t1);
  }

  /** The sign of a - b on windows of n digits. */
  method Cmp(a: array<Digit>, ao: nat, b: array<Digit>, bo: nat, n: nat) returns (r: int)
    requires ao + n <= a.Length && bo + n <= b.Length
    ensures r == if Val(a[ao..ao + n]) > Val(b[bo..bo + n]) then 1
                 else if Val(a[ao..ao + n]) < Val(b[bo..bo + n]) then -1 else 0
  {
    hide Val;
    ghost var x: seq<Digit>, y: seq<Digit> := a[ao..ao + n], b[bo..bo + n];
    var i := n - 1;
    while i >= 0
      invariant -1 <= i < n
      invariant forall k :: i < k < n ==> x[k] == y[k]
    {
      if a[ao + i] > b[bo + i] {
        ValLess(y, x, i);
        return 1;
      }
      if a[ao + i] < b[bo + i] {
        ValLess(x, y, i);
        return -1;
      }
      i := i - 1;
    }
    assert x == y;
    return 0;
  }

  method Zero(a: array<Digit>, n: nat) returns (zero: bool)
    requires n <= a.Length
    ensures zero <==> Val(a[..n]) == 0
  {
    ValZero(a[..n]);
    for i := 0 to n
      invariant forall k :: 0 <= k < i ==> a[..n][k] == 0
    {
      assert a[..n][i] == a[i];
      if a[i] != 0 { return false; }
    }
    return true;
  }

  /** The number of significant digits. */
  method Digits(a: array<Digit>, n: nat) returns (k: nat)
    requires n <= a.Length
    ensures k <= n && (k > 0 ==> a[k - 1] != 0)
    ensures forall j :: k <= j < n ==> a[j] == 0
    ensures Val(a[..n]) == Val(a[..k])
  {
    var i := n - 1;
    while i >= 0 && a[i] == 0
      invariant -1 <= i < n
      invariant forall j :: i < j < n ==> a[j] == 0
    {
      i := i - 1;
    }
    k := i + 1;
    ValTrim(a[..n], k);
    assert a[..n][..k] == a[..k];
  }
}
