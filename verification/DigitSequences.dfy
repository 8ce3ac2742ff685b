/** The number a little-endian sequence of 32-bit digits stands for. */
module DigitSequences {
  import opened Arithmetic
  import opened Words

  ghost function Val(s: seq<Digit>): nat
  {
    if s == [] then 0 else s[0] + 0x1_0000_0000 * Val(s[1..])
  }

  /** BASE^n, the weight of digit n. */
  ghost function Weight(n: nat): (w: nat)
    ensures w >= 1
  {
    if n == 0 then 1 else 0x1_0000_0000 * Weight(n - 1)
  }

  lemma {:induction false} WeightMonotone(m: nat, n: nat)
    requires m <= n
    ensures Weight(m) <= Weight(n)
    decreases n
  {
    if m < n { WeightMonotone(m, n - 1); }
  }

  lemma SplitIdentity(d: int, t: int, tl: int, w: int, h: int, s: int, sl: int, w': int)
    requires s == d + 0x1_0000_0000 * t && sl == d + 0x1_0000_0000 * tl && w' == 0x1_0000_0000 * w
    requires t == tl + w * h
    ensures s == sl + w' * h
  {
    assert w' * h == 0x1_0000_0000 * (w * h);
  }

  /** A number splits at any digit into its low part and its weighted high part. */
  lemma {:induction false} ValSplit(s: seq<Digit>, k: nat)
    requires k <= |s|
    ensures Val(s) == Val(s[..k]) + Weight(k) * Val(s[k..])
  {
    if k == 0 {
      assert s[..0] == [] && s[0..] == s;
    } else {
      var t := s[1..];
      ValSplit(t, k - 1);
      assert s[..k][1..] == t[..k - 1] && t[k - 1..] == s[k..];
      SplitIdentity(s[0], Val(t), Val(t[..k - 1]), Weight(k - 1), Val(s[k..]), Val(s), Val(s[..k]), Weight(k));
    }
  }

  lemma ValCons(d: Digit, s: seq<Digit>)
    ensures Val([d] + s) == d + 0x1_0000_0000 * Val(s)
  {
    assert ([d] + s)[1..] == s;
  }

  lemma ValSnoc(s: seq<Digit>, d: Digit)
    ensures Val(s + [d]) == Val(s) + Weight(|s|) * d
  {
    ValSplit(s + [d], |s|);
    assert (s + [d])[..|s|] == s && (s + [d])[|s|..] == [d];
    assert Val([d]) == d;
  }

  lemma {:induction false} ValBound(s: seq<Digit>)
    ensures Val(s) < Weight(|s|)
  {
    if s != [] { ValBound(s[1..]); }
  }

  lemma {:induction false} ValZero(s: seq<Digit>)
    ensures Val(s) == 0 <==> forall k :: 0 <= k < |s| ==> s[k] == 0
  {
    if s != [] {
      ValZero(s[1..]);
      if Val(s) == 0 {
        forall k | 0 <= k < |s| ensures s[k] == 0 {
          if k > 0 { assert s[k] == s[1..][k - 1]; }
        }
      }
    }
  }

  /** Digit sequences of one length are determined by their value. */
  lemma {:induction false} ValInjective(s: seq<Digit>, t: seq<Digit>)
    requires |s| == |t| && Val(s) == Val(t)
    ensures s == t
  {
    if s != [] {
      ValInjective(s[1..], t[1..]);
      assert s == [s[0]] + s[1..] && t == [t[0]] + t[1..];
    }
  }

  lemma ColumnLess(w: int, x: int, y: int, xk: int, yk: int)
    requires 0 <= x < w && 0 <= y && xk < yk
    ensures x + w * xk < y + w * yk
  {
    MulMonotone(w, xk + 1, yk);
    assert w * (xk + 1) == w * xk + w;
  }

  /** The more significant digit decides a comparison. */
  lemma ValLess(s: seq<Digit>, t: seq<Digit>, k: nat)
    requires |s| == |t| && k < |s|
    requires s[k] < t[k] && s[k + 1..] == t[k + 1..]
    ensures Val(s) < Val(t)
  {
    hide Val, Weight;
    ValSplit(s, k + 1);
    ValSplit(t, k + 1);
    var sl, tl := s[..k + 1], t[..k + 1];
    assert sl == s[..k] + [s[k]] && tl == t[..k] + [t[k]];
    ValSnoc(s[..k], s[k]);
    ValSnoc(t[..k], t[k]);
    ValBound(s[..k]);
    ColumnLess(Weight(k), Val(s[..k]), Val(t[..k]), s[k], t[k]);
  }

  /** Trailing zero digits do not change the value. */
  lemma ValTrim(s: seq<Digit>, k: nat)
    requires k <= |s|
    requires forall j :: k <= j < |s| ==> s[j] == 0
    ensures Val(s) == Val(s[..k])
  {
    ValSplit(s, k);
    assert forall j :: 0 <= j < |s[k..]| ==> s[k..][j] == s[k + j] == 0;
    ValZero(s[k..]);
  }

  /** A number whose top digit is not zero reaches the weight of that digit. */
  lemma ValTop(s: seq<Digit>)
    requires s != []
    ensures Val(s) == Val(s[..|s| - 1]) + Weight(|s| - 1) * s[|s| - 1]
  {
    assert s == s[..|s| - 1] + [s[|s| - 1]];
    ValSnoc(s[..|s| - 1], s[|s| - 1]);
  }

  lemma ValOne(s: seq<Digit>)
    requires s != [] && forall k :: 1 <= k < |s| ==> s[k] == 0
    ensures Val(s) == s[0]
  {
    ValTrim(s, 1);
    assert s[..1] == [s[0]];
  }
}
