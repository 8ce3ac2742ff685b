/** Normalised long division (NN_Div and NN_Mod in nn.c). */
module Division {
  import opened Arithmetic
  import opened Words
  import opened DigitSequences
  import opened DigitArithmetic
  import opened NaturalNumbers
  import opened Shifts
  import opened Slices

  lemma EstimateIdentity(w: int, win: int, low: int, top2: int, dlow: int, d: int, t: int, q: int)
    requires w > 0 && d == dlow + w * t && dlow < w && 0 <= q && 0 <= low
    requires win == low + w * top2 && (t + 1) * q <= top2
    ensures q * d <= win
  {
    assert w * (t + 1) == w * t + w;
    MulMonotone(q, d, w * (t + 1));
    assert q * (w * (t + 1)) == w * ((t + 1) * q);
    MulMonotone(w, (t + 1) * q, top2);
  }

  /** A number below n + 1 digits by its two top digits. */
  lemma TopTwo(s: seq<Digit>)
    requires |s| >= 2
    ensures Val(s) == Val(s[..|s| - 2]) + Weight(|s| - 2) * (s[|s| - 2] as int + 0x1_0000_0000 * s[|s| - 1] as int)
  {
    var k := |s| - 2;
    assert Val(s[k..]) == s[k] as int + 0x1_0000_0000 * s[k + 1] as int by {
      assert s[k..] == [s[k], s[k + 1]];
      assert s[k..][1..] == [s[k + 1]];
      assert Val([s[k + 1]]) == s[k + 1];
    }
    hide Val, Weight;
    ValSplit(s, k);
  }

  /** The trial digit, from the two top digits of the window and the top digit of the divisor plus
      one, never exceeds the quotient of the whole window. */
  lemma TrialDigitUnderestimates(s: seq<Digit>, d: seq<Digit>, q: int)
    requires |d| >= 1 && |s| == |d| + 1
    requires q == (s[|d| - 1] as int + 0x1_0000_0000 * s[|d|] as int) / (d[|d| - 1] as int + 1)
    ensures 0 <= q && q * Val(d) <= Val(s)
  {
    hide Val, Weight;
    var n := |d|;
    var t: int, top2: int := d[n - 1], s[n - 1] as int + 0x1_0000_0000 * s[n] as int;
    FloorBelow(top2, t + 1, q);
    TopTwo(s);
    ValTop(d);
    ValBound(d[..n - 1]);
    var w: int := Weight(n - 1);
    EstimateIdentity(w, Val(s), Val(s[..n - 1]), top2, Val(d[..n - 1]), Val(d), t, q);
  }

  /** A window whose upper n digits are below the divisor: its top digit cannot exceed the divisor's,
      and its quotient fits one digit. */
  lemma WindowBelow(s: seq<Digit>, d: seq<Digit>)
    requires |d| >= 1 && |s| == |d| + 1 && Val(s[1..]) < Val(d)
    ensures s[|d|] <= d[|d| - 1]
    ensures Val(s) < 0x1_0000_0000 * Val(d)
  {
    var n, u := |d|, s[1..];
    assert Val(s) == s[0] + 0x1_0000_0000 * Val(u);
    hide Val, Weight;
    if d[n - 1] < s[n] {
      assert u[n..] == d[n..];
      ValLess(d, u, n - 1);
    }
  }

  lemma BorrowIdentity(s': int, win': int, top': int, s: int, win: int, top: int, w: int, p: int, borrow: int)
    requires s == win + w * top && 0 <= win' < w && p <= s
    requires win' + p == win + w * borrow
    requires top' == top - borrow && s' == win' + w * top'
    ensures 0 <= top' && s' + p == s
  {
    assert w * (top - borrow) == w * top - w * borrow;
    if top' < 0 { MulMonotone(w, top', -1); }
  }

  /** Subtracts q times the divisor from the window of cc at i, where q * d does not exceed it. */
  method SubtractMultiple(cc: array<Digit>, i: nat, q: Digit, dd: array<Digit>, n: nat)
    requires i + n < cc.Length && n <= dd.Length && cc != dd
    requires q * Val(dd[..n]) <= Val(cc[i..i + n + 1])
    modifies cc
    ensures Val(cc[i..i + n + 1]) + q * Val(dd[..n]) == old(Val(cc[i..i + n + 1]))
    ensures forall k :: 0 <= k < i || i + n < k < cc.Length ==> cc[k] == old(cc[k])
  {
    hide Val, Weight;
    ghost var s: seq<Digit>, top: Digit, win: seq<Digit> := cc[i..i + n + 1], cc[i + n], cc[i..i + n];
    assert s == win + [top];
    ValSnoc(win, top);
    var borrow := SubDigitMult(cc, i, cc, i, q, dd, n);
    ghost var win': seq<Digit> := cc[i..i + n];
    assert q == 0 ==> win' == win;
    assert Val(win') + q * Val(dd[..n]) == Val(win) + Weight(n) * borrow;
    assert cc[i + n] == top;
    cc[i + n] := Sub32(cc[i + n], borrow);
    ValBound(win');
    BorrowIdentity(Val(win') + Weight(n) * (top - borrow), Val(win'), top - borrow, Val(s), Val(win), top, Weight(n),
      q * Val(dd[..n]), borrow);
    assert cc[i + n] == top - borrow;
    assert cc[i..i + n + 1] == win' + [cc[i + n]];
    ValSnoc(win', cc[i + n]);
  }

  /** Subtracts the divisor once more from the window of cc at i. */
  method SubtractOnce(cc: array<Digit>, i: nat, dd: array<Digit>, n: nat)
    requires i + n < cc.Length && n <= dd.Length && cc != dd
    requires Val(dd[..n]) <= Val(cc[i..i + n + 1])
    modifies cc
    ensures Val(cc[i..i + n + 1]) + Val(dd[..n]) == old(Val(cc[i..i + n + 1]))
    ensures forall k :: 0 <= k < i || i + n < k < cc.Length ==> cc[k] == old(cc[k])
  {
    hide Val, Weight;
    ghost var s: seq<Digit>, top: Digit, win: seq<Digit> := cc[i..i + n + 1], cc[i + n], cc[i..i + n];
    assert s == win + [top];
    ValSnoc(win, top);
    var borrow := Sub(cc, i, cc, i, dd, n);
    ghost var win': seq<Digit> := cc[i..i + n];
    assert cc[i + n] == top;
    cc[i + n] := Sub32(cc[i + n], borrow);
    ValBound(win');
    BorrowIdentity(Val(win') + Weight(n) * (top - borrow), Val(win'), top - borrow, Val(s), Val(win), top, Weight(n),
      Val(dd[..n]), borrow);
    assert cc[i + n] == top - borrow;
    assert cc[i..i + n + 1] == win' + [cc[i + n]];
    ValSnoc(win', cc[i + n]);
  }

  /** The code's test for "the window is at least the divisor". */
  method WindowAtLeast(cc: array<Digit>, i: nat, dd: array<Digit>, n: nat) returns (r: bool)
    requires i + n < cc.Length && n <= dd.Length
    ensures r <==> Val(dd[..n]) <= Val(cc[i..i + n + 1])
    ensures !r ==> cc[i + n] == 0 && Val(cc[i..i + n + 1]) == Val(cc[i..i + n])
  {
    hide Val, Weight;
    assert cc[i..i + n + 1] == cc[i..i + n] + [cc[i + n]];
    ValSnoc(cc[i..i + n], cc[i + n]);
    ValBound(dd[..n]);
    if cc[i + n] != 0 {
      MulMonotone(Weight(n), 1, cc[i + n]);
      return true;
    }
    var s := Cmp(cc, i, dd, 0, n);
    assert dd[0..n] == dd[..n];
    return s >= 0;
  }

  /** One quotient digit: an underestimate, corrected upwards until the window is below the divisor. */
  method QuotientDigit(cc: array<Digit>, i: nat, dd: array<Digit>, n: nat) returns (ai: Digit)
    requires 0 < n <= dd.Length && i + n < cc.Length && cc != dd
    requires dd[n - 1] >= 0x8000_0000
    requires Val(cc[i + 1..i + n + 1]) < Val(dd[..n])
    modifies cc
    ensures Val(cc[i..i + n]) < Val(dd[..n]) && cc[i + n] == 0
    ensures old(Val(cc[i..i + n + 1])) == ai * Val(dd[..n]) + Val(cc[i..i + n])
    ensures forall k :: 0 <= k < i || i + n < k < cc.Length ==> cc[k] == old(cc[k])
  {
    hide Val, Weight;
    ghost var s, D := cc[i..i + n + 1], Val(dd[..n]);
    assert s[1..] == cc[i + 1..i + n + 1];
    WindowBelow(s, dd[..n]);
    var t: Digit := dd[n - 1];
    if t == MAX_DIGIT {
      ai := cc[i + n];
      DivModUnique(s[n - 1] as int + 0x1_0000_0000 * s[n] as int, 0x1_0000_0000, s[n], s[n - 1]);
    } else {
      ai := DigitDiv(cc, i + n - 1, t + 1);
    }
    TrialDigitUnderestimates(s, dd[..n], ai);
    SubtractMultiple(cc, i, ai, dd, n);
    ghost var p: int := ai * D;
    var more := WindowAtLeast(cc, i, dd, n);
    while more
      invariant dd[..n] == old(dd[..n])
      invariant forall k :: 0 <= k < i || i + n < k < cc.Length ==> cc[k] == old(cc[k])
      invariant p == ai * D && Val(cc[i..i + n + 1]) + p == Val(s)
      invariant more <==> D <= Val(cc[i..i + n + 1])
      invariant !more ==> cc[i + n] == 0 && Val(cc[i..i + n + 1]) == Val(cc[i..i + n])
      decreases Val(cc[i..i + n + 1])
    {
      NextQuotient(ai, D, p, Val(s), 0x1_0000_0000);
      ai, p := ai + 1, p + D;
      SubtractOnce(cc, i, dd, n);
      more := WindowAtLeast(cc, i, dd, n);
    }
  }

  lemma StepIdentity(low: int, w: int, win: int, ai: int, d: int, win': int,
                     q: int, w1: int, q': int, n: int, r: int, r': int)
    requires w1 == 0x1_0000_0000 * w && win == ai * d + win'
    requires r == low + w * win && r' == low + w * win'
    requires n == (q * w1) * d + r && q' == ai + 0x1_0000_0000 * q
    ensures n == (q' * w) * d + r'
  {
    assert w * (ai * d + win') == (ai * w) * d + w * win';
    assert q' * w == ai * w + q * w1;
    assert (ai * w + q * w1) * d == (ai * w) * d + (q * w1) * d;
  }

  /** What the division loop keeps while the quotient digits from i up are known: the dividend is
      quotient times divisor plus what is left in cc, whose top n digits are below the divisor. */
  ghost predicate Dividing(N: nat, D: nat, q: seq<Digit>, cc: seq<Digit>, i: nat, n: nat)
  {
    && i + n <= |cc|
    && N == (Val(q) * Weight(i)) * D + Val(cc[..i + n])
    && Val(cc[i..i + n]) < D
  }

  lemma DividingStep(N: nat, D: nat, q: seq<Digit>, cc: seq<Digit>, cc': seq<Digit>, i: nat, n: nat, ai: Digit)
    requires Dividing(N, D, q, cc, i + 1, n) && |cc'| == |cc|
    requires cc'[..i] == cc[..i] && Val(cc[i..i + n + 1]) == ai * D + Val(cc'[i..i + n]) && Val(cc'[i..i + n]) < D
    ensures Dividing(N, D, [ai] + q, cc', i, n)
  {
    assert Val([ai] + q) == ai + 0x1_0000_0000 * Val(q) by { assert ([ai] + q)[1..] == q; }
    assert Weight(i + 1) == 0x1_0000_0000 * Weight(i);
    hide Val, Weight;
    var r, r' := cc[..i + n + 1], cc'[..i + n];
    ValSplit(r, i);
    ValSplit(r', i);
    assert r[..i] == cc[..i] && r[i..] == cc[i..i + n + 1];
    assert r'[..i] == cc[..i] && r'[i..] == cc'[i..i + n];
    assert cc[..i + 1 + n] == r;
    StepIdentity(Val(cc[..i]), Weight(i), Val(cc[i..i + n + 1]), ai, D, Val(cc'[i..i + n]),
      Val(q), Weight(i + 1), Val([ai] + q), N, Val(r), Val(r'));
  }

  /** The division loop, from the top quotient digit down. */
  method DivideLoop(a: array<Digit>, cc: array<Digit>, cDigits: nat, dd: array<Digit>, n: nat)
    requires 0 < n <= dd.Length && n <= cDigits < cc.Length && cDigits <= a.Length
    requires a != cc && a != dd && cc != dd
    requires dd[n - 1] >= 0x8000_0000
    requires Val(cc[cDigits - n + 1..cDigits + 1]) < Val(dd[..n])
    requires forall k :: 0 <= k < cDigits ==> a[k] == 0
    modifies a, cc
    ensures old(Val(cc[..cDigits + 1])) == Val(a[..cDigits]) * Val(dd[..n]) + Val(cc[..n])
    ensures Val(cc[..n]) < Val(dd[..n])
    ensures forall k :: cDigits <= k < a.Length ==> a[k] == old(a[k])
  {
    hide Val, Weight, Dividing;
    ghost var N, D := Val(cc[..cDigits + 1]), Val(dd[..n]);
    ghost var q: seq<Digit> := a[cDigits - n + 1..cDigits];
    var i := cDigits - n;
    assert cc[..][..cDigits + 1] == cc[..cDigits + 1];
    assert cc[..][i + 1..i + 1 + n] == cc[i + 1..cDigits + 1];
    DividingStart(N, D, q, cc[..], i + 1, n);
    while i >= 0
      invariant -1 <= i <= cDigits - n
      invariant |q| == cDigits - i - 1
      invariant dd[..n] == old(dd[..n])
      invariant Dividing(N, D, q, cc[..], i + 1, n)
      invariant forall k :: i < k < cDigits ==> a[k] == q[k - i - 1]
      invariant forall k :: 0 <= k <= i ==> a[k] == 0
      invariant forall k :: cDigits <= k < a.Length ==> a[k] == old(a[k])
    {
      ghost var s: seq<Digit> := cc[..];
      DividingWindow(N, D, q, s, i + 1, n);
      assert s[i + 1..i + 1 + n] == cc[i + 1..i + n + 1] && s[i..i + n + 1] == cc[i..i + n + 1];
      var ai := QuotientDigit(cc, i, dd, n);
      assert cc[..][..i] == s[..i] && cc[..][i..i + n] == cc[i..i + n];
      DividingStep(N, D, q, s, cc[..], i, n, ai);
      a[i], q := ai, [ai] + q;
      i := i - 1;
    }
    assert a[..cDigits] == q;
    DividingEnd(N, D, q, cc[..], n);
    assert cc[..][..n] == cc[..n];
  }

  lemma DividingStart(N: nat, D: nat, q: seq<Digit>, cc: seq<Digit>, i: nat, n: nat)
    requires i + n <= |cc| && N == Val(cc[..i + n]) && Val(cc[i..i + n]) < D
    requires forall k :: 0 <= k < |q| ==> q[k] == 0
    ensures Dividing(N, D, q, cc, i, n)
  {
    hide Val, Weight;
    ValZero(q);
    assert 0 * Weight(i) == 0 && 0 * D == 0;
  }

  lemma DividingWindow(N: nat, D: nat, q: seq<Digit>, cc: seq<Digit>, i: nat, n: nat)
    requires Dividing(N, D, q, cc, i, n)
    ensures i + n <= |cc| && Val(cc[i..i + n]) < D
  {}

  lemma DividingEnd(N: nat, D: nat, q: seq<Digit>, cc: seq<Digit>, n: nat)
    requires Dividing(N, D, q, cc, 0, n)
    ensures n <= |cc| && N == Val(q) * D + Val(cc[..n]) && Val(cc[..n]) < D
  {
    assert Weight(0) == 1;
    hide Val, Weight;
    assert cc[0..0 + n] == cc[..n];
    assert cc[..0 + n] == cc[..n];
    assert Val(q) * 1 == Val(q);
  }

  /** The factor takes the top digit to the upper half of the digits. */
  ghost predicate TopFits(top: int, p: int)
  {
    0x8000_0000 <= top * p && (top + 1) * p <= 0x1_0000_0000
  }

  /** e, with a carry above its digits, is d scaled by p. */
  ghost predicate Scaled(e: int, w: int, carry: int, d: int, p: int)
  {
    e + (0x1_0000_0000 * w) * carry == d * p
  }

  lemma NormalIdentity(dlow: int, w: int, top: int, p: int, d: int, e: int, carry: int, elow: int, etop: int)
    requires w > 0 && p > 0 && 0 <= dlow < w && d == dlow + w * top
    requires TopFits(top, p) && e == elow + w * etop && 0 <= elow < w && 0 <= etop && 0 <= carry
    requires Scaled(e, w, carry, d, p)
    ensures carry == 0 && e == d * p && etop >= 0x8000_0000
  {
    NormalBounds(dlow, w, top, p, d, d * p);
    hide TopFits;
    NormalParts(e, elow, w, etop, carry, d * p);
  }

  lemma NormalBounds(dlow: int, w: int, top: int, p: int, d: int, dp: int)
    requires w > 0 && p > 0 && 0 <= dlow < w && d == dlow + w * top && TopFits(top, p) && dp == d * p
    ensures 0x8000_0000 * w <= dp < 0x1_0000_0000 * w
  {
    NormalUpper(w, (top + 1) * p, d, p, top);
    NormalLower(w, top * p, d, p, top);
  }

  lemma NormalUpper(w: int, q: int, d: int, p: int, top: int)
    requires w > 0 && p > 0 && d < w * top + w && q == (top + 1) * p && q <= 0x1_0000_0000
    ensures d * p < 0x1_0000_0000 * w
  {
    MulMonotone(p, d + 1, w * (top + 1));
    assert w * (top + 1) == w * top + w;
    assert p * (w * (top + 1)) == w * q && p * (d + 1) == d * p + p;
    MulMonotone(w, q, 0x1_0000_0000);
  }

  lemma NormalLower(w: int, q: int, d: int, p: int, top: int)
    requires w > 0 && p > 0 && w * top <= d && q == top * p && 0x8000_0000 <= q
    ensures 0x8000_0000 * w <= d * p
  {
    MulMonotone(p, w * top, d);
    assert p * (w * top) == w * q && p * d == d * p;
    MulMonotone(w, 0x8000_0000, q);
  }

  lemma NormalParts(e: int, elow: int, w: int, etop: int, carry: int, dp: int)
    requires w > 0 && e == elow + w * etop && 0 <= elow < w && 0 <= etop && 0 <= carry
    requires e + (0x1_0000_0000 * w) * carry == dp && 0x8000_0000 * w <= dp < 0x1_0000_0000 * w
    ensures carry == 0 && e == dp && etop >= 0x8000_0000
  {
    MulMonotone(w, 0, etop);
    if carry >= 1 { MulMonotone(0x1_0000_0000 * w, 1, carry); }
    if etop < 0x8000_0000 { MulMonotone(w, etop, 0x7fff_ffff); }
  }

  /** Shifting by the unused bits of the top digit loses nothing and sets its top bit. */
  lemma NormalisesTop(top: Digit, bits: nat)
    requires top != 0 && bits <= 32 && top < Pow2(bits) && (bits > 0 ==> Pow2(bits - 1) <= top)
    ensures bits >= 1 && TopFits(top, Pow2(32 - bits))
    ensures Pow2(32 - bits) <= 0x8000_0000
  {
    assert Pow2(0) == 1;
    hide Pow2;
    Pow2Of32();
    var p := Pow2(32 - bits);
    Pow2Add(bits - 1, 32 - bits);
    assert Pow2(bits - 1) * p == 0x8000_0000 by { assert bits - 1 + (32 - bits) == 31; }
    Pow2Add(bits, 32 - bits);
    assert Pow2(bits) * p == 0x1_0000_0000 by { assert bits + (32 - bits) == 32; }
    Pow2Monotone(32 - bits, 31);
    ScaleBounds(Pow2(bits - 1), Pow2(bits), top, p);
  }

  lemma ScaleBounds(x: int, y: int, t: int, p: int)
    requires p > 0 && x <= t < y && x * p == 0x8000_0000 && y * p == 0x1_0000_0000
    ensures 0x8000_0000 <= t * p && (t + 1) * p <= 0x1_0000_0000
  {
    MulMonotone(p, x, t);
    MulMonotone(p, t + 1, y);
  }

  /** Copies dividend and divisor, both shifted so that the divisor's top bit is set. */
  method Normalise(cc: array<Digit>, c: array<Digit>, cDigits: nat, dd: array<Digit>, d: array<Digit>, n: nat)
    returns (shift: nat)
    requires cDigits < cc.Length && n <= cc.Length && cDigits <= c.Length && 0 < n <= d.Length && n <= dd.Length
    requires cc != c && cc != d && dd != c && dd != d && cc != dd && d[n - 1] != 0
    modifies cc, dd
    ensures shift < 32 && dd[n - 1] >= 0x8000_0000
    ensures Val(dd[..n]) == Val(d[..n]) * Pow2(shift)
    ensures Val(cc[..cDigits + 1]) == Val(c[..cDigits]) * Pow2(shift)
    ensures cc[cDigits] < 0x8000_0000
    ensures forall k :: cDigits < k < n ==> cc[k] == 0
  {
    hide *;
    var bits := DigitBits(d[n - 1]);
    shift := 32 - bits;
    NormalisesTop(d[n - 1], bits);
    AssignZero(cc, n);
    var carry := LShift(cc, c, shift, cDigits);
    ghost var s: seq<Digit> := cc[..];
    TakeUpdate(s, cDigits, carry);
    cc[cDigits] := carry;
    assert cc[..] == s[cDigits := carry];
    ValSnoc(s[..cDigits], carry);
    var dcarry := LShift(dd, d, shift, n);
    NormalDivisor(d[..n], dd[..n], Pow2(shift), dcarry);
  }

  lemma NormalDivisor(d: seq<Digit>, e: seq<Digit>, p: nat, carry: Digit)
    requires d != [] && |d| == |e| && p > 0
    requires TopFits(d[|d| - 1], p)
    requires Val(e) + Weight(|e|) * carry == Val(d) * p
    ensures Val(e) == Val(d) * p && e[|e| - 1] >= 0x8000_0000
  {
    var n := |d| - 1;
    assert Scaled(Val(e), Weight(n), carry, Val(d), p) by { assert Weight(n + 1) == 0x1_0000_0000 * Weight(n); }
    hide *;
    ValTop(d);
    ValTop(e);
    ValBound(d[..n]);
    ValBound(e[..n]);
    NormalIdentity(Val(d[..n]), Weight(n), d[n], p, Val(d), Val(e), carry, Val(e[..n]), e[n]);
  }

  lemma UnscaleIdentity(C: int, D: int, p: int, q: int, r: int)
    requires p > 0 && D > 0 && 0 <= q && C * p == q * (D * p) + r && 0 <= r < D * p
    ensures r / p == C % D && q == C / D
  {
    var m := C - q * D;
    assert p * m == r by {
      assert (C - q * D) * p == C * p - q * (D * p);
      assert p * m == m * p;
    }
    DivModUnique(r, p, m, 0);
    if m < 0 { MulMonotone(p, m, -1); }
    assert p * D == D * p;
    if m >= D { MulMonotone(p, D, m); }
    DivModUnique(C, D, q, m);
  }

  /** The normalised division: quotient into a, shifted remainder left in cc[..n]. */
  method DivideNormalised(a: array<Digit>, cc: array<Digit>, cDigits: nat, dd: array<Digit>, n: nat,
                          ghost C: nat, ghost D: nat, ghost p: nat)
    requires 0 < n <= dd.Length && cDigits < cc.Length && n <= cc.Length && cDigits <= a.Length
    requires a != cc && a != dd && cc != dd
    requires dd[n - 1] >= 0x8000_0000 && cc[cDigits] < 0x8000_0000
    requires Val(dd[..n]) == D * p && Val(cc[..cDigits + 1]) == C * p
    requires p > 0 && D > 0 && (cDigits < n ==> C < D)
    requires forall k :: cDigits < k < n ==> cc[k] == 0
    requires forall k :: 0 <= k < cDigits ==> a[k] == 0
    modifies a, cc
    ensures Val(a[..cDigits]) == C / D && Val(cc[..n]) / p == C % D
    ensures forall k :: cDigits <= k < a.Length ==> a[k] == old(a[k])
  {
    hide Val, Weight;
    if cDigits < n {
      ValZero(a[..cDigits]);
      ValTrim(cc[..n], cDigits + 1);
      assert cc[..n][..cDigits + 1] == cc[..cDigits + 1];
      MulMonotone(p, C + 1, D);
      assert p * (C + 1) == C * p + p && p * D == D * p;
      UnscaleIdentity(C, D, p, 0, Val(cc[..n]));
    } else {
      ghost var win: seq<Digit> := cc[cDigits - n + 1..cDigits + 1];
      assert win[n..] == dd[..n][n..];
      ValLess(win, dd[..n], n - 1);
      DivideLoop(a, cc, cDigits, dd, n);
      UnscaleIdentity(C, D, p, Val(a[..cDigits]), Val(cc[..n]));
    }
  }

  /** a = c div d and b = c mod d. A zero divisor leaves both results alone. The remainder may
      overwrite the dividend or the divisor, and so may the quotient. */
  method Div(a: array<Digit>, b: array<Digit>, c: array<Digit>, cDigits: nat, d: array<Digit>, dDigits: nat)
    requires cDigits <= 2 * MAX_NN_DIGITS && dDigits <= MAX_NN_DIGITS
    requires cDigits <= a.Length && dDigits <= b.Length && cDigits <= c.Length && dDigits <= d.Length
    requires a != b
    modifies a, b
    ensures old(Val(d[..dDigits])) == 0 ==> a[..] == old(a[..]) && b[..] == old(b[..])
    ensures old(Val(d[..dDigits])) > 0 ==>
      && Val(a[..cDigits]) == old(Val(c[..cDigits])) / old(Val(d[..dDigits]))
      && Val(b[..dDigits]) == old(Val(c[..cDigits])) % old(Val(d[..dDigits]))
    ensures forall k :: cDigits <= k < a.Length ==> a[k] == old(a[k])
    ensures forall k :: dDigits <= k < b.Length ==> b[k] == old(b[k])
  {
    var n := Digits(d, dDigits);
    ghost var C, D := Val(c[..cDigits]), Val(d[..dDigits]);
    if n == 0 { return; }
    DivisorSize(d[..n], c[..cDigits]);
    hide Val, Weight, Pow2;
    var cc := new Digit[2 * MAX_NN_DIGITS + 1];
    var dd := new Digit[MAX_NN_DIGITS];
    var shift := Normalise(cc, c, cDigits, dd, d, n);
    AssignZero(a, cDigits);
    DivideNormalised(a, cc, cDigits, dd, n, C, D, Pow2(shift));
    ghost var q: seq<Digit> := a[..cDigits];
    AssignZero(b, dDigits);
    var _ := RShift(b, cc, shift, n);
    ValTrim(b[..dDigits], n);
    assert b[..dDigits][..n] == b[..n];
    assert a[..cDigits] == q;
  }

  lemma DivisorSize(d: seq<Digit>, c: seq<Digit>)
    requires d != [] && d[|d| - 1] != 0
    ensures Val(d) > 0 && (|c| < |d| ==> Val(c) < Val(d))
  {
    hide Val, Weight;
    ValTop(d);
    MulMonotone(Weight(|d| - 1), 1, d[|d| - 1]);
    ValBound(c);
    if |c| < |d| { WeightMonotone(|c|, |d| - 1); }
  }

  /** a = b mod c. The result may overwrite either operand. */
  method Mod(a: array<Digit>, b: array<Digit>, bDigits: nat, c: array<Digit>, cDigits: nat)
    requires bDigits <= 2 * MAX_NN_DIGITS && cDigits <= MAX_NN_DIGITS
    requires cDigits <= a.Length && bDigits <= b.Length && cDigits <= c.Length
    modifies a
    ensures old(Val(c[..cDigits])) == 0 ==> a[..] == old(a[..])
    ensures old(Val(c[..cDigits])) > 0 ==> Val(a[..cDigits]) == old(Val(b[..bDigits])) % old(Val(c[..cDigits]))
    ensures forall k :: cDigits <= k < a.Length ==> a[k] == old(a[k])
  {
    hide Val;
    var t := new Digit[2 * MAX_NN_DIGITS];
    Div(t, a, b, bDigits, c, cDigits);
  }
}
