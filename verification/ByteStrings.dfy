/** The number a big-endian byte string stands for. */
module ByteStrings {
  import opened Arithmetic
  import opened Words

  /** The number a byte string stands for, most significant byte first. */
  ghost function BigEndian(s: seq<Byte>): nat
  {
    if s == [] then 0 else 0x100 * BigEndian(s[..|s| - 1]) + s[|s| - 1]
  }

  /** 256^n. */
  ghost function ByteWeight(n: nat): (w: nat)
    ensures w >= 1
  {
    if n == 0 then 1 else 0x100 * ByteWeight(n - 1)
  }

  lemma {:induction false} ByteWeightIsPow2(n: nat)
    ensures ByteWeight(n) == Pow2(8 * n)
  {
    if n > 0 {
      ByteWeightIsPow2(n - 1);
      Pow2Add(8, 8 * (n - 1));
      Pow2Of32();
    }
  }

  lemma {:induction false} ByteWeightAdd(m: nat, n: nat)
    ensures ByteWeight(m + n) == ByteWeight(m) * ByteWeight(n)
  {
    if m > 0 {
      ByteWeightAdd(m - 1, n);
      assert (0x100 * ByteWeight(m - 1)) * ByteWeight(n) == 0x100 * (ByteWeight(m - 1) * ByteWeight(n));
    }
  }

  /** Byte strings of one length are determined by their value. */
  lemma {:induction false} BigEndianInjective(s: seq<Byte>, t: seq<Byte>)
    requires |s| == |t| && BigEndian(s) == BigEndian(t)
    ensures s == t
  {
    if s != [] {
      var n := |s| - 1;
      BigEndianInjective(s[..n], t[..n]);
      assert s == s[..n] + [s[n]] && t == t[..n] + [t[n]];
    }
  }

  lemma {:induction false} BigEndianBound(s: seq<Byte>)
    ensures BigEndian(s) < ByteWeight(|s|)
  {
    if s != [] { BigEndianBound(s[..|s| - 1]); }
  }

  lemma ConcatIdentity(x: int, w: int, y: int, b: int, xy: int, xyb: int, w': int, yb: int)
    requires xy == w * x + y && xyb == 0x100 * xy + b && w' == 0x100 * w && yb == 0x100 * y + b
    ensures xyb == w' * x + yb
  {
    assert 0x100 * (w * x) == w' * x;
  }

  lemma {:induction false} BigEndianConcat(s: seq<Byte>, t: seq<Byte>)
    ensures BigEndian(s + t) == ByteWeight(|t|) * BigEndian(s) + BigEndian(t)
  {
    if t == [] {
      assert s + t == s;
    } else {
      var n := |t| - 1;
      BigEndianConcat(s, t[..n]);
      assert (s + t)[..|s + t| - 1] == s + t[..n];
      assert t == t[..n] + [t[n]];
      ConcatIdentity(BigEndian(s), ByteWeight(n), BigEndian(t[..n]), t[n],
        BigEndian(s + t[..n]), BigEndian(s + t), ByteWeight(n + 1), BigEndian(t));
    }
  }

  lemma MulSwap(w: int, x: int, y: int)
    requires x == y
    ensures w * x == y * w
  {}

  /** A byte put in front of a string of n bytes. */
  lemma BigEndianCons(b: Byte, s: seq<Byte>)
    ensures BigEndian([b] + s) == b * ByteWeight(|s|) + BigEndian(s)
  {
    assert BigEndian([b]) == b by { assert [b][..0] == []; }
    hide *;
    BigEndianConcat([b], s);
    MulSwap(ByteWeight(|s|), BigEndian([b]), b);
  }
}
