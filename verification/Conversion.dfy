/** Conversion between digit arrays and big-endian byte strings (NN_Decode and NN_Encode in nn.c). */
module Conversion {
  import opened Arithmetic
  import opened Words
  import opened DigitSequences
  import opened NaturalNumbers
  import opened Slices
  import opened ByteStrings

  lemma {:induction false} ByteWeightIsWeight(n: nat)
    ensures ByteWeight(4 * n) == Weight(n)
  {
    if n > 0 {
      ByteWeightIsWeight(n - 1);
      var k := 4 * (n - 1);
      assert ByteWeight(k + 2) == 0x1_0000 * ByteWeight(k);
      assert ByteWeight(k + 4) == 0x1_0000 * ByteWeight(k + 2);
    }
  }

  /** Or-ing the byte b in above u bits. */
  lemma OrByte(t: Digit, b: Byte, k: nat)
    requires k < 4 && t < ByteWeight(k)
    ensures BitOr(t, Shl(b, 8 * k)) == t + b * ByteWeight(k) < 0x1_0000_0000
    ensures t + b * ByteWeight(k) < ByteWeight(k + 1)
  {
    ByteWeightIsPow2(k);
    assert ByteWeight(0) == 1 && ByteWeight(1) == 0x100 && ByteWeight(2) == 0x1_0000;
    assert ByteWeight(3) == 0x100_0000 && ByteWeight(4) == 0x1_0000_0000;
    assert b * ByteWeight(k) <= 0xff * ByteWeight(k) by { MulMonotone(ByteWeight(k), b, 0xff); }
    assert Shl(b, 8 * k) == b * ByteWeight(k) by {
      MulMonotone(ByteWeight(k), 0, b);
      ModSmall(b * ByteWeight(k), 0x1_0000_0000);
    }
    BitOrDisjoint(b, t, 8 * k);
  }

  lemma GatherByte(t: Digit, b: Byte, s: seq<Byte>)
    requires |s| < 4 && t == BigEndian(s)
    ensures BitOr(t, Shl(b, 8 * |s|)) == BigEndian([b] + s) < 0x1_0000_0000
  {
    hide *;
    BigEndianBound(s);
    OrByte(t, b, |s|);
    BigEndianCons(b, s);
  }

  /** Adds the byte at j above the k bytes behind it. */
  method Gather(t: Digit, b: seq<Byte>, j: nat, k: nat) returns (t': Digit)
    requires k < 4 && j + k < |b| && t == BigEndian(b[j + 1..j + 1 + k])
    ensures t' == BigEndian(b[j..j + 1 + k])
  {
    hide *;
    GatherByte(t, b[j], b[j + 1..j + 1 + k]);
    SliceCons(b, j, j + 1 + k);
    t' := BitOr(t, Shl(b[j], 8 * k));
  }

  /** Gathers up to four bytes ending at position j0 into one digit. */
  method DecodeDigit(b: seq<Byte>, j0: int) returns (t: Digit, j: int)
    requires 0 <= j0 < |b|
    ensures -1 <= j < j0 && j0 - j <= 4 && (j >= 0 ==> j0 - j == 4)
    ensures t == BigEndian(b[j + 1..j0 + 1])
  {
    assert BigEndian([]) == 0;
    hide *;
    t, j := 0, j0;
    var k := 0;
    assert b[j + 1..j0 + 1] == [];
    while j >= 0 && k < 4
      invariant -1 <= j && j == j0 - k && 0 <= k <= 4
      invariant t == BigEndian(b[j + 1..j0 + 1])
    {
      t := Gather(t, b, j, k);
      j, k := j - 1, k + 1;
    }
  }

  lemma AppendDigit(a: seq<Digit>, d: Digit, lo: seq<Byte>, hi: seq<Byte>)
    requires Val(a) == BigEndian(lo) && d == BigEndian(hi) && |lo| == 4 * |a|
    ensures Val(a + [d]) == BigEndian(hi + lo)
  {
    hide Val, Weight, BigEndian, ByteWeight;
    ValSnoc(a, d);
    ByteWeightIsWeight(|a|);
    BigEndianConcat(hi, lo);
  }

  /** The digits z filled from the last bytes lo of a string; only the first byte ends a digit early. */
  ghost predicate Decoded(z: seq<Digit>, lo: seq<Byte>, first: bool)
  {
    Val(z) == BigEndian(lo) && (!first ==> |lo| == 4 * |z|)
  }

  /** The next digit, above the digits z that the bytes behind j0 have filled. */
  method DecodeNext(b: seq<Byte>, j0: int, len: nat, ghost z: seq<Digit>) returns (t: Digit, j: int)
    requires 0 <= j0 < len <= |b| && Decoded(z, b[j0 + 1..len], false)
    ensures -1 <= j < j0 && Decoded(z + [t], b[j + 1..len], j < 0)
  {
    hide BigEndian, Val;
    t, j := DecodeDigit(b, j0);
    AppendDigit(z, t, b[j0 + 1..len], b[j + 1..j0 + 1]);
    SliceJoin(b, j + 1, j0 + 1, len);
  }

  /** Fills digits of a from the bytes of b, last byte first, until one of the two runs out. */
  method DecodeDigits(a: array<Digit>, digits: nat, b: seq<Byte>, len: nat) returns (i: nat, j: int)
    requires digits <= a.Length && len <= |b|
    modifies a
    ensures i <= digits && -1 <= j < len && (j >= 0 ==> i == digits)
    ensures Decoded(a[..i], b[j + 1..len], j < 0)
    ensures forall k :: digits <= k < a.Length ==> a[k] == old(a[k])
  {
    assert Decoded([], [], true) && Decoded([], [], false);
    hide *;
    i, j := 0, len - 1;
    assert b[j + 1..len] == [] && a[..0] == [];
    while i < digits && j >= 0
      invariant 0 <= i <= digits && -1 <= j < len
      invariant Decoded(a[..i], b[j + 1..len], j < 0)
      invariant forall k :: digits <= k < a.Length ==> a[k] == old(a[k])
    {
      j := DecodeInto(a, i, b, j, len);
      i := i + 1;
    }
  }

  /** Fills the digit at i. */
  method DecodeInto(a: array<Digit>, i: nat, b: seq<Byte>, j0: int, len: nat) returns (j: int)
    requires i < a.Length && 0 <= j0 < len <= |b| && Decoded(a[..i], b[j0 + 1..len], false)
    modifies a
    ensures -1 <= j < j0 && Decoded(a[..i + 1], b[j + 1..len], j < 0)
    ensures forall k :: i < k < a.Length ==> a[k] == old(a[k])
  {
    hide *;
    ghost var c: seq<Digit> := a[..];
    var t: Digit;
    t, j := DecodeNext(b, j0, len, a[..i]);
    TakeUpdate(c, i, t);
    a[i] := t;
    assert a[..] == c[i := t];
  }

  /** a = the number in the first len bytes of b, its most significant part cut off if it does not fit. */
  method Decode(a: array<Digit>, digits: nat, b: seq<Byte>, len: nat)
    requires digits <= a.Length && len <= |b|
    modifies a
    ensures Val(a[..digits]) == BigEndian(b[..len]) % Weight(digits)
    ensures forall k :: digits <= k < a.Length ==> a[k] == old(a[k])
  {
    hide *;
    var i, j := DecodeDigits(a, digits, b, len);
    ghost var z: seq<Digit>, k: nat := a[..i], i;
    while i < digits
      invariant k <= i <= digits
      invariant forall m :: 0 <= m < k ==> a[m] == z[m]
      invariant forall m :: k <= m < i ==> a[m] == 0
      invariant forall m :: digits <= m < a.Length ==> a[m] == old(a[m])
    {
      a[i] := 0;
      i := i + 1;
    }
    assert a[..digits][..k] == z;
    ValTrim(a[..digits], k);
    DecodeEnd(b[..j + 1], b[j + 1..len], z, digits);
    assert b[..j + 1] + b[j + 1..len] == b[..len];
  }

  lemma TruncateIdentity(n: int, w: int, h: int, l: int)
    requires 0 <= l < w && n == w * h + l
    ensures l == n % w
  {
    DivModUnique(n, w, h, l);
  }

  lemma DecodeEnd(hi: seq<Byte>, lo: seq<Byte>, z: seq<Digit>, digits: nat)
    requires Decoded(z, lo, hi == []) && |z| <= digits && (hi != [] ==> |z| == digits)
    ensures Val(z) == BigEndian(hi + lo) % Weight(digits)
  {
    hide Val, BigEndian, Weight, ByteWeight;
    ValBound(z);
    WeightMonotone(|z|, digits);
    if hi == [] {
      assert hi + lo == lo;
      ModSmall(Val(z), Weight(digits));
    } else {
      BigEndianConcat(hi, lo);
      ByteWeightIsWeight(digits);
      TruncateIdentity(BigEndian(hi + lo), Weight(digits), BigEndian(hi), Val(z));
    }
  }

  /** s holds the low bytes of t. */
  ghost predicate LowBytes(s: seq<Byte>, t: Digit)
  {
    BigEndian(s) == t % ByteWeight(|s|)
  }

  /** Writes the low bytes of t to positions j0, j0 - 1, ... of a, at most four of them. */
  method EncodeDigit(a: array<Byte>, t: Digit, j0: int) returns (j: int)
    requires 0 <= j0 < a.Length
    modifies a
    ensures -1 <= j < j0 && j0 - j <= 4 && (j >= 0 ==> j0 - j == 4)
    ensures a[..j + 1] == old(a[..])[..j + 1] && a[j0 + 1..] == old(a[j0 + 1..])
    ensures LowBytes(a[j + 1..j0 + 1], t)
  {
    j := j0;
    var k := 0;
    assert a[j + 1..j0 + 1] == [] && LowBytes([], t);
    hide *;
    while j >= 0 && k < 4
      invariant -1 <= j && j == j0 - k && 0 <= k <= 4
      invariant LowBytes(a[j + 1..j0 + 1], t)
      invariant a[..j + 1] == old(a[..])[..j + 1] && a[j0 + 1..] == old(a[j0 + 1..])
    {
      EncodeByte(a, t, j, k, j0);
      assert a[..j] == old(a[..])[..j];
      j, k := j - 1, k + 1;
    }
  }

  /** Writes byte k of t in front of the lower ones. */
  method EncodeByte(a: array<Byte>, t: Digit, j: nat, k: nat, ghost j0: nat)
    requires j <= j0 < a.Length && k == j0 - j && LowBytes(a[j + 1..j0 + 1], t)
    modifies a
    ensures a[..j] == old(a[..j]) && a[j0 + 1..] == old(a[j0 + 1..])
    ensures LowBytes(a[j..j0 + 1], t)
  {
    hide *;
    var byte: Byte := Shr(t, 8 * k) % 0x100;
    NextByte(t, k, byte, a[j + 1..j0 + 1]);
    SetByte(a, j, byte, j0);
  }

  /** Puts a byte in front of those from j + 1 to j0. */
  method SetByte(a: array<Byte>, j: nat, byte: Byte, ghost j0: nat)
    requires j <= j0 < a.Length
    modifies a
    ensures a[j..j0 + 1] == [byte] + old(a[j + 1..j0 + 1])
    ensures a[..j] == old(a[..j]) && a[j0 + 1..] == old(a[j0 + 1..])
  {
    ghost var c: seq<Byte> := a[..];
    SliceUpdate(c, j, j0 + 1, byte);
    a[j] := byte;
    assert a[..] == c[j := byte];
  }

  lemma NextByte(t: Digit, k: nat, byte: Byte, s: seq<Byte>)
    requires |s| == k && LowBytes(s, t) && byte == Shr(t, 8 * k) % 0x100
    ensures LowBytes([byte] + s, t)
  {
    BigEndianCons(byte, s);
    ByteWeightIsPow2(k);
    DivDiv(t, ByteWeight(k), 0x100);
  }

  lemma PrependDigit(a: seq<Digit>, d: Digit, lo: seq<Byte>, hi: seq<Byte>)
    requires Val(a) == BigEndian(lo) && |lo| == 4 * |a| && |hi| <= 4 && LowBytes(hi, d)
    ensures BigEndian(hi + lo) == Val(a + [d]) % ByteWeight(|hi + lo|)
    ensures |hi| == 4 ==> BigEndian(hi + lo) == Val(a + [d])
  {
    hide Val, Weight, BigEndian, ByteWeight;
    ValSnoc(a, d);
    ValBound(a);
    ByteWeightIsWeight(|a|);
    BigEndianConcat(hi, lo);
    ByteWeightAdd(|lo|, |hi|);
    if |hi| == 4 { ByteWeightOfDigit(); }
    PrependNumbers(Val(a), Weight(|a|), d, ByteWeight(|hi|), Val(a + [d]),
      BigEndian(hi), BigEndian(hi + lo), ByteWeight(|hi + lo|));
  }

  lemma ByteWeightOfDigit()
    ensures ByteWeight(4) == 0x1_0000_0000
  {}

  lemma PrependNumbers(low: int, w: int, d: nat, p: int, v: int, hi: int, whole: int, wp: int)
    requires 0 <= low < w && p >= 1 && v == low + w * d
    requires hi == d % p && whole == w * hi + low && wp == w * p
    ensures whole == v % wp && (d < p ==> whole == v)
  {
    LowPartMod(low, w, d, p, v);
    if d < p { ModSmall(d, p); }
  }

  lemma LowPartMod(low: int, w: int, d: int, p: int, v: int)
    requires 0 <= low < w && p >= 1 && v == low + w * d
    ensures v % (w * p) == low + w * (d % p)
  {
    DivModEquation(d, p);
    assert w * (p * (d / p) + d % p) == (w * p) * (d / p) + w * (d % p);
    MulMonotone(w, 0, d % p);
    MulMonotone(w, d % p, p - 1);
    assert w * (p - 1) == w * p - w;
    DivModUnique(v, w * p, d / p, low + w * (d % p));
  }

  /** The last bytes lo of a string of len bytes, written from the digits v. */
  ghost predicate Encoded(lo: seq<Byte>, v: seq<Digit>, len: nat)
  {
    && |lo| <= len
    && (|lo| < len ==> |lo| == 4 * |v| && BigEndian(lo) == Val(v))
    && (|lo| == len ==> len <= 4 * |v| && BigEndian(lo) == Val(v) % ByteWeight(len))
  }

  lemma EncodedStep(lo: seq<Byte>, v: seq<Digit>, len: nat, hi: seq<Byte>, d: Digit)
    requires Encoded(lo, v, len) && |lo| < len && |lo| + |hi| <= len
    requires |hi| == 4 || (|hi| < 4 && |lo| + |hi| == len)
    requires LowBytes(hi, d)
    ensures Encoded(hi + lo, v + [d], len)
  {
    hide BigEndian, Val, ByteWeight, LowBytes;
    PrependDigit(v, d, lo, hi);
  }

  /** Writes one more digit in front of the bytes written so far. */
  method EncodeNext(a: array<Byte>, len: nat, d: Digit, j0: int, ghost v: seq<Digit>) returns (j: int)
    requires 0 <= j0 < len <= a.Length && Encoded(a[j0 + 1..len], v, len)
    modifies a
    ensures -1 <= j < j0 && Encoded(a[j + 1..len], v + [d], len)
    ensures a[len..] == old(a[len..])
  {
    hide *;
    ghost var c: seq<Byte> := a[..];
    j := EncodeDigit(a, d, j0);
    ghost var hi: seq<Byte> := a[j + 1..j0 + 1];
    TailSlices(c, a[..], j + 1, j0 + 1, len);
    EncodedStep(c[j0 + 1..len], v, len, hi, d);
  }

  /** Two strings that agree from k on. */
  lemma TailSlices(c: seq<Byte>, a: seq<Byte>, i: nat, k: nat, len: nat)
    requires i <= k <= len <= |c| == |a| && a[k..] == c[k..]
    ensures a[i..len] == a[i..k] + c[k..len] && a[len..] == c[len..]
  {
    assert a[k..][..len - k] == a[k..len] && c[k..][..len - k] == c[k..len];
    assert a[k..][len - k..] == a[len..] && c[k..][len - k..] == c[len..];
  }

  /** Fills bytes of a, last byte first, from the digits of b until one of the two runs out. */
  method EncodeDigits(a: array<Byte>, len: nat, b: seq<Digit>, digits: nat) returns (i: nat, j: int)
    requires len <= a.Length && digits <= |b|
    modifies a
    ensures i <= digits && -1 <= j < len && (j >= 0 ==> i == digits)
    ensures Encoded(a[j + 1..len], b[..i], len)
    ensures a[len..] == old(a[len..])
  {
    assert Encoded([], [], len) by { assert ByteWeight(0) == 1; }
    hide *;
    i, j := 0, len - 1;
    assert b[..0] == [] && a[j + 1..len] == [];
    while i < digits && j >= 0
      invariant 0 <= i <= digits && -1 <= j < len
      invariant Encoded(a[j + 1..len], b[..i], len)
      invariant a[len..] == old(a[len..])
    {
      j := EncodeNext(a, len, b[i], j, b[..i]);
      assert b[..i + 1] == b[..i] + [b[i]];
      i := i + 1;
    }
  }

  /** a = the number b as len bytes, its most significant part cut off if it does not fit. */
  method Encode(a: array<Byte>, len: nat, b: seq<Digit>, digits: nat)
    requires len <= a.Length && digits <= |b|
    modifies a
    ensures BigEndian(a[..len]) == Val(b[..digits]) % ByteWeight(len)
    ensures a[len..] == old(a[len..])
  {
    hide *;
    var i, j := EncodeDigits(a, len, b, digits);
    EncodedEnd(a[j + 1..len], b[..i], len);
    if j < 0 {
      EncodeCut(b[..digits], i, len);
      assert b[..digits][..i] == b[..i] && a[j + 1..len] == a[..len];
    } else {
      ghost var lo: seq<Byte>, m := a[j + 1..len], j + 1;
      while j >= 0
        invariant -1 <= j < m
        invariant forall k :: m <= k < len ==> a[k] == lo[k - m]
        invariant forall k :: j < k < m ==> a[k] == 0
        invariant forall k :: len <= k < a.Length ==> a[k] == old(a[k])
      {
        a[j] := 0;
        j := j - 1;
      }
      assert a[..len] == a[..m] + lo;
      LeadingZeros(a[..m], lo);
      EncodeEnd(lo, a[..len], b[..digits]);
    }
  }

  lemma {:induction false} LeadingZeros(z: seq<Byte>, s: seq<Byte>)
    requires forall k :: 0 <= k < |z| ==> z[k] == 0
    ensures BigEndian(z + s) == BigEndian(s)
  {
    if z == [] {
      assert z + s == s;
    } else {
      assert z + s == [z[0]] + (z[1..] + s);
      BigEndianCons(0, z[1..] + s);
      LeadingZeros(z[1..], s);
    }
  }

  lemma EncodedEnd(lo: seq<Byte>, v: seq<Digit>, len: nat)
    requires Encoded(lo, v, len)
    ensures |lo| < len ==> BigEndian(lo) == Val(v)
    ensures |lo| == len ==> len <= 4 * |v| && BigEndian(lo) == Val(v) % ByteWeight(len)
  {}

  lemma EncodeEnd(lo: seq<Byte>, a: seq<Byte>, b: seq<Digit>)
    requires BigEndian(lo) == Val(b) && BigEndian(a) == BigEndian(lo)
    ensures BigEndian(a) == Val(b) % ByteWeight(|a|)
  {
    BigEndianBound(a);
    ModSmall(Val(b), ByteWeight(|a|));
  }

  /** Digits beyond the last byte do not reach the bytes. */
  lemma EncodeCut(b: seq<Digit>, i: nat, len: nat)
    requires i <= |b| && len <= 4 * i
    ensures Val(b) % ByteWeight(len) == Val(b[..i]) % ByteWeight(len)
  {
    hide Val, Weight, ByteWeight;
    ValSplit(b, i);
    ByteWeightIsWeight(i);
    ByteWeightAdd(len, 4 * i - len);
    var w, r, h := ByteWeight(len), ByteWeight(4 * i - len), Val(b[i..]);
    assert Weight(i) * h == w * (r * h);
    ModMultiple(Val(b[..i]), r * h, w);
  }

  /** Digits come back from their bytes if and only if the bytes can hold the number. */
  lemma EncodeDecode(v: seq<Digit>, bytes: seq<Byte>, back: seq<Digit>)
    requires BigEndian(bytes) == Val(v) % ByteWeight(|bytes|)
    requires |back| == |v| && Val(back) == BigEndian(bytes) % Weight(|v|)
    ensures back == v <==> Val(v) < ByteWeight(|bytes|)
  {
    hide Val, Weight, BigEndian, ByteWeight;
    ValBound(v);
    DivModEquation(Val(v), ByteWeight(|bytes|));
    if Val(v) < ByteWeight(|bytes|) {
      ModSmall(Val(v), ByteWeight(|bytes|));
      ModSmall(Val(v), Weight(|v|));
      ValInjective(back, v);
    } else {
      ModSmall(BigEndian(bytes), Weight(|v|));
    }
  }

  /** Bytes come back from their digits if and only if the digits can hold the number. */
  lemma DecodeEncode(bytes: seq<Byte>, v: seq<Digit>, back: seq<Byte>)
    requires Val(v) == BigEndian(bytes) % Weight(|v|)
    requires |back| == |bytes| && BigEndian(back) == Val(v) % ByteWeight(|bytes|)
    ensures back == bytes <==> BigEndian(bytes) < Weight(|v|)
  {
    hide Val, Weight, BigEndian, ByteWeight;
    BigEndianBound(bytes);
    DivModEquation(BigEndian(bytes), Weight(|v|));
    if BigEndian(bytes) < Weight(|v|) {
      ModSmall(BigEndian(bytes), Weight(|v|));
      ModSmall(BigEndian(bytes), ByteWeight(|bytes|));
      BigEndianInjective(back, bytes);
    } else {
      ModSmall(Val(v), ByteWeight(|bytes|));
    }
  }

  /** NN_Encode and then NN_Decode. */
  method ThroughBytes(v: seq<Digit>, bytes: array<Byte>, a: array<Digit>)
    requires a.Length == |v|
    modifies bytes, a
    ensures a[..] == v <==> Val(v) < ByteWeight(bytes.Length)
  {
    hide *;
    Encode(bytes, bytes.Length, v, |v|);
    ghost var b: seq<Byte> := bytes[..];
    Decode(a, a.Length, bytes[..], bytes.Length);
    assert v[..|v|] == v && a[..a.Length] == a[..] && b[..|b|] == b && bytes[..bytes.Length] == b;
    EncodeDecode(v, b, a[..]);
  }

  /** NN_Decode and then NN_Encode. */
  method ThroughDigits(b: seq<Byte>, a: array<Digit>, bytes: array<Byte>)
    requires bytes.Length == |b|
    modifies bytes, a
    ensures bytes[..] == b <==> BigEndian(b) < Weight(a.Length)
  {
    hide *;
    Decode(a, a.Length, b, |b|);
    ghost var v: seq<Digit> := a[..];
    Encode(bytes, bytes.Length, a[..], a.Length);
    assert b[..|b|] == b && a[..a.Length] == v && v[..|v|] == v && bytes[..bytes.Length] == bytes[..];
    DecodeEncode(b, v, bytes[..]);
  }
}
