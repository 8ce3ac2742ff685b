/** MD5 over a stream of updates (md5c.c), for any block transform. */
module Md5 {
  import opened Arithmetic
  import opened Words
  import opened Slices
  import opened Buffers
  import opened BlockStreams

  datatype State = State(a: Digit, b: Digit, c: Digit, d: Digit)
  type Transform = (State, seq<Byte>) -> State

  const INITIAL: State := State(0x67452301, 0xefcdab89, 0x98badcfe, 0x10325476)
  const PADDING: seq<Byte> := [0x80] + seq(63, _ => 0)
  const TWO64: nat := 0x1_0000_0000 * 0x1_0000_0000

  /** The k lowest bytes of n, least significant first. */
  function LittleEndian(n: nat, k: nat): (s: seq<Byte>)
    ensures |s| == k
    decreases k
  {
    if k == 0 then [] else [n % 256] + LittleEndian(n / 256, k - 1)
  }

  function Zeros(n: nat): (s: seq<Byte>)
    ensures |s| == n && forall i :: 0 <= i < n ==> s[i] == 0
  {
    seq(n, _ => 0)
  }

  /** Zero bytes that lead from n bytes and one more to 56 modulo 64. */
  function Gap(n: nat): (k: nat)
    ensures k < 64 && (n + k) % 64 == 55
  {
    (55 - n) % 64
  }

  /** What is put behind a message of n bytes, by section 3 of RFC 1321: a one bit, zero bits up to 56 bytes
      modulo 64, and the length in bits modulo 2^64 as eight bytes. */
  function Tail(n: nat): (r: seq<Byte>)
    ensures |r| == 9 + Gap(n)
  {
    [0x80] + Zeros(Gap(n)) + LittleEndian(8 * n % TWO64, 8)
  }

  function Padded(msg: seq<Byte>): seq<Byte>
  {
    msg + Tail(|msg|)
  }

  lemma PaddedWhole(msg: seq<Byte>)
    ensures |Padded(msg)| % 64 == 0
  {
    var n, k := |msg|, Gap(|msg|);
    hide Tail, Gap;
    assert |Padded(msg)| == n + k + 9;
    GapCloses(n + k);
  }

  lemma GapCloses(n: nat)
    requires n % 64 == 55
    ensures (n + 9) % 64 == 0
  {}

  function DigestOf(s: State): (r: seq<Byte>)
    ensures |r| == 16
  {
    LittleEndian(s.a, 4) + LittleEndian(s.b, 4) + LittleEndian(s.c, 4) + LittleEndian(s.d, 4)
  }

  /** Section 3.3 of RFC 1321: the registers start from these bytes, the low-order byte of each first. */
  lemma InitialBytes()
    ensures DigestOf(INITIAL) ==
      [0x01, 0x23, 0x45, 0x67, 0x89, 0xab, 0xcd, 0xef, 0xfe, 0xdc, 0xba, 0x98, 0x76, 0x54, 0x32, 0x10]
  {
    FourBytes(INITIAL.a);
    FourBytes(INITIAL.b);
    FourBytes(INITIAL.c);
    FourBytes(INITIAL.d);
    hide LittleEndian;
  }

  /** The number whose bytes these are, the low-order byte first. */
  function Value(s: seq<Byte>): nat
  {
    if s == [] then 0 else s[0] as int + 256 * Value(s[1..])
  }

  lemma {:induction false} LittleEndianValue(n: nat, k: nat)
    requires n < Pow(256, k)
    ensures Value(LittleEndian(n, k)) == n
    decreases k
  {
    if k > 0 {
      LittleEndianValue(n / 256, k - 1);
      assert LittleEndian(n, k)[1..] == LittleEndian(n / 256, k - 1);
    }
  }

  lemma PowOfEight()
    ensures Pow(256, 8) == 0x1_0000_0000_0000_0000
  {
    PowOf256();
    assert Pow(256, 5) == 256 * Pow(256, 4) && Pow(256, 6) == 256 * Pow(256, 5);
    assert Pow(256, 7) == 256 * Pow(256, 6) && Pow(256, 8) == 256 * Pow(256, 7);
  }

  /** Sections 3.1 and 3.2, place by place: a one bit behind the message, zero bits, and in the last eight bytes the
      number of bits modulo 2^64, low-order byte first; nothing more than the next multiple of 64 bytes. */
  lemma PaddedLayout(msg: seq<Byte>)
    ensures var p := Padded(msg);
      && |msg| + 9 <= |p| <= |msg| + 72 && |p| % 64 == 0 && p[..|msg|] == msg && p[|msg|] == 0x80
      && (forall i :: |msg| < i < |p| - 8 ==> p[i] == 0)
      && Value(p[|p| - 8..]) == 8 * |msg| % 0x1_0000_0000_0000_0000
  {
    hide *;
    PaddedWhole(msg);
    PaddedIs(msg);
    TailLayout(|msg|);
    TailBehind(msg, Tail(|msg|));
  }

  lemma TailBehind(msg: seq<Byte>, t: seq<Byte>)
    requires |t| >= 9 && forall i :: 0 < i < |t| - 8 ==> t[i] == 0
    ensures var p := msg + t;
      && p[..|msg|] == msg && p[|msg|] == t[0] && p[|p| - 8..] == t[|t| - 8..]
      && forall i :: |msg| < i < |p| - 8 ==> p[i] == 0
  {
    var p := msg + t;
    forall i | |msg| < i < |p| - 8
      ensures p[i] == 0
    {
      assert p[i] == t[i - |msg|];
    }
  }

  lemma PaddedIs(msg: seq<Byte>)
    ensures Padded(msg) == msg + Tail(|msg|)
  {}

  lemma TailLayout(n: nat)
    ensures var t := Tail(n);
      && 9 <= |t| <= 72 && t[0] == 0x80 && (forall i :: 0 < i < |t| - 8 ==> t[i] == 0)
      && Value(t[|t| - 8..]) == 8 * n % 0x1_0000_0000_0000_0000
  {
    PowOfEight();
    LittleEndianValue(8 * n % TWO64, 8);
    hide LittleEndian, Gap, Value;
    var t := Tail(n);
    assert t[|t| - 8..] == LittleEndian(8 * n % TWO64, 8);
  }

  /** The digest of a whole message. */
  ghost function Digest(f: Transform, msg: seq<Byte>): seq<Byte>
  {
    PaddedWhole(msg);
    DigestOf(Fold(f, 64, INITIAL, Padded(msg)))
  }

  /** The bit count as one number. */
  ghost predicate Counts(count0: int, count1: int, n: nat)
  {
    count0 + 0x1_0000_0000 * count1 == 8 * n % TWO64
  }

  /** The place in the buffer that follows the buffered bytes. */
  lemma IndexOf(count0: Digit, count1: Digit, n: nat)
    requires Counts(count0, count1, n)
    ensures (count0 / 8) % 64 == n % 64
  {
    DivModEquation(8 * n, TWO64);
    var q := 8 * n / TWO64;
    assert count0 as int == 8 * (n - 0x2000_0000 * (0x1_0000_0000 * q + count1));
    var k := n - 0x2000_0000 * (0x1_0000_0000 * q + count1);
    assert count0 / 8 == k;
    assert k == n - 64 * (0x80_0000 * (0x1_0000_0000 * q + count1));
  }

  /** Adding the bits of len bytes, with the carry found by comparison, is exact modulo 2^64. */
  method AddBits(count0: Digit, count1: Digit, len: Digit, ghost n: nat) returns (c0: Digit, c1: Digit)
    requires Counts(count0, count1, n)
    ensures Counts(c0, c1, n + len as int)
  {
    var bits: Digit := (len * 8) % 0x1_0000_0000;
    c0, c1 := Add32(count0, bits), count1;
    if c0 < bits {
      c1 := Add32(c1, 1);
    }
    c1 := Add32(c1, len / 0x2000_0000);
    hide Counts;
    assert 8 * len as int == 0x1_0000_0000 * (len as int / 0x2000_0000) + bits as int;
    BitsAdded(count0, count1, len, n, bits, c0, c1, if count0 as int + bits as int >= 0x1_0000_0000 then 1 else 0);
  }

  lemma BitsAdded(count0: int, count1: int, len: int, n: nat, bits: int, c0: int, c1: int, carry: int)
    requires 0 <= count0 < 0x1_0000_0000 && 0 <= count1 < 0x1_0000_0000 && 0 <= len < 0x1_0000_0000
    requires Counts(count0, count1, n) && 8 * len == 0x1_0000_0000 * (len / 0x2000_0000) + bits
    requires c0 == count0 + bits - 0x1_0000_0000 * carry && 0 <= c0 < 0x1_0000_0000
    requires c1 == (count1 + carry + len / 0x2000_0000) % 0x1_0000_0000
    ensures Counts(c0, c1, n + len)
  {
    DivModEquation(8 * n, TWO64);
    var h := count1 + carry + len / 0x2000_0000;
    DivModEquation(h, 0x1_0000_0000);
    var q := 8 * n / TWO64 + h / 0x1_0000_0000;
    DivModUnique(8 * (n + len), TWO64, q, c0 + 0x1_0000_0000 * c1);
  }

  lemma CountsNothing()
    ensures Counts(0, 0, 0)
  {}

  class Context {
    const transform: Transform
    var state: State
    var count0: Digit
    var count1: Digit
    const buffer: array<Byte>
    ghost var msg: seq<Byte>

    /** msg is everything given to the context so far. */
    ghost predicate Valid()
      reads this, buffer
    {
      && buffer.Length == 64
      && Counts(count0, count1, |msg|)
      && Absorbed(transform, 64, INITIAL, msg, state, buffer[..])
    }

    /** Room for a context. */
    constructor (transform: Transform)
      ensures buffer.Length == 64 && fresh(buffer) && this.transform == transform
    {
      this.transform := transform;
      count0, count1, state, msg := 0, 0, INITIAL, [];
      buffer := new Byte[64];
    }

    /** MD5Init */
    method Init()
      requires buffer.Length == 64
      modifies this
      ensures Valid() && msg == []
    {
      count0, count1 := 0, 0;
      state, msg := INITIAL, [];
      Started();
    }

    lemma Started()
      requires buffer.Length == 64 && count0 == 0 && count1 == 0 && state == INITIAL && msg == []
      ensures Valid()
    {
      assert |msg| == 0;
      hide Counts, Absorbed;
      CountsNothing();
      AbsorbedNothing(transform, 64, INITIAL, buffer[..]);
    }

    /** The buffered block, completed by the first bytes of the input. */
    method First(input: seq<Byte>, index: nat)
      requires Valid() && index == |msg| % 64 && 64 - index <= |input|
      modifies this`state, buffer
      ensures Folded(transform, 64, INITIAL, msg + input, |msg| + (64 - index), state)
    {
      ghost var was: seq<Byte>, s, front := buffer[..], state, input[..64 - index];
      hide Folded, Absorbed, Counts;
      CopyInto(buffer, index, input[..64 - index]);
      FrontCopied(was, index, front, buffer[..]);
      state := transform(state, buffer[..]);
      FirstBlock(transform, 64, INITIAL, msg, s, was, input, buffer[..]);
    }

    /** A block that lies in the input. */
    method OneBlock(input: seq<Byte>, i: nat)
      requires i + 64 <= |input| && Folded(transform, 64, INITIAL, msg + input, |msg| + i, state)
      modifies this`state
      ensures Folded(transform, 64, INITIAL, msg + input, |msg| + (i + 64), state)
    {
      hide Folded;
      NextBlock(transform, 64, INITIAL, msg, input, i, state);
      state := transform(state, input[i..i + 64]);
      assert |msg| + (i + 64) == |msg| + i + 64;
    }

    /** The whole blocks of an update: the buffered one, and those that lie in the input. */
    method Blocks(input: seq<Byte>, index: nat) returns (i: nat)
      requires Valid() && index == |msg| % 64 && 64 - index <= |input| && index + |input| < 0x1_0000_0000
      modifies this`state, buffer
      ensures i <= |input| < i + 64 && Folded(transform, 64, INITIAL, msg + input, |msg| + i, state)
    {
      hide Folded, Absorbed, Counts;
      First(input, index);
      i := 64 - index;
      assert Aligned(index, i, 64);
      hide Aligned, Add32;
      while Add32(i, 63) < |input|
        invariant i <= |input| && Aligned(index, i, 64)
        invariant Folded(transform, 64, INITIAL, msg + input, |msg| + i, state)
      {
        GuardExact(index, i, |input|, 64);
        OneBlock(input, i);
        i := i + 64;
      }
      GuardExact(index, i, |input|, 64);
    }

    method Long(input: seq<Byte>, index: nat)
      requires Valid() && index == |msg| % 64 && 64 - index <= |input| && index + |input| < 0x1_0000_0000
      modifies this`state, buffer
      ensures Absorbed(transform, 64, INITIAL, msg + input, state, buffer[..])
    {
      var i := Blocks(input, index);
      hide Absorbed, Folded, Counts;
      ghost var was: seq<Byte> := buffer[..];
      CopyInto(buffer, 0, input[i..]);
      FrontCopied(was, 0, input[i..], buffer[..]);
      RestBuffered(transform, 64, INITIAL, msg, input, i, state, buffer[..]);
    }

    method Short(input: seq<Byte>, index: nat)
      requires Valid() && index == |msg| % 64 && |input| < 64 - index
      modifies buffer
      ensures Absorbed(transform, 64, INITIAL, msg + input, state, buffer[..])
    {
      hide Absorbed, Counts;
      ghost var was: seq<Byte> := buffer[..];
      CopyInto(buffer, index, input[0..]);
      assert input[0..] == input;
      FrontCopied(was, index, input, buffer[..]);
      OnlyBuffered(transform, 64, INITIAL, msg, state, was, input, buffer[..]);
    }

    /** MD5Update; `CounterExact` says that a piece for which this is not so makes the source read beyond it. */
    method Update(input: seq<Byte>)
      requires Valid() && |msg| % 64 + |input| < 0x1_0000_0000
      modifies this, buffer
      ensures Valid() && msg == old(msg) + input
    {
      IndexOf(count0, count1, |msg|);
      var index := (count0 / 8) % 64;
      hide Absorbed, Counts;
      var c0, c1 := AddBits(count0, count1, |input|, |msg|);
      if |input| >= 64 - index {
        Long(input, index);
      } else {
        Short(input, index);
      }
      count0, count1, msg := c0, c1, msg + input;
    }

    /** MD5Final: the digest of everything that was given to the context. */
    method Final(digest: array<Byte>)
      requires Valid() && digest.Length == 16 && digest != buffer
      modifies this, buffer, digest
      ensures digest[..] == Digest(transform, old(msg))
    {
      ghost var n, msg0 := |msg|, msg;
      var bits := new Byte[8];
      Encode(bits, [count0, count1]);
      SavedCount(count0, count1, n);
      IndexOf(count0, count1, n);
      var index := (count0 / 8) % 64;
      var padLen := if index < 56 then 56 - index else 120 - index;
      hide Absorbed, Counts, LittleEndian, Digest, EncodeAll;
      Update(PADDING[..padLen]);
      Update(bits[..]);
      TailParts(n, padLen);
      assert msg == Padded(msg0) by { Regroup(msg0, PADDING[..padLen], bits[..]); }
      FoldedDigest(transform, msg0, state, buffer[..]);
      Encode(digest, [state.a, state.b, state.c, state.d]);
      EncodedState(state);
    }
  }

  lemma Regroup(a: seq<Byte>, b: seq<Byte>, c: seq<Byte>)
    ensures a + b + c == a + (b + c)
  {}

  lemma TailParts(n: nat, padLen: nat)
    requires padLen == if n % 64 < 56 then 56 - n % 64 else 120 - n % 64
    ensures Tail(n) == PADDING[..padLen] + LittleEndian(8 * n % TWO64, 8)
  {
    assert padLen == 1 + Gap(n);
    hide LittleEndian, Gap;
    assert PADDING[..padLen] == [0x80] + Zeros(Gap(n));
  }

  lemma FoldedDigest(f: Transform, msg: seq<Byte>, s: State, buffer: seq<Byte>)
    requires |buffer| == 64 && Absorbed(f, 64, INITIAL, Padded(msg), s, buffer)
    ensures Digest(f, msg) == DigestOf(s)
  {
    PaddedWhole(msg);
    AbsorbedAll(f, 64, INITIAL, Padded(msg), s, buffer);
  }

  lemma EncodedState(s: State)
    ensures EncodeAll([s.a, s.b, s.c, s.d]) == DigestOf(s)
  {
    hide LittleEndian;
    assert [s.a, s.b, s.c, s.d][..3] == [s.a, s.b, s.c] && [s.a, s.b, s.c][..2] == [s.a, s.b]
      && [s.a, s.b][..1] == [s.a] && [s.a][..0] == [];
    assert EncodeAll([s.a]) == LittleEndian(s.a, 4);
    assert EncodeAll([s.a, s.b]) == EncodeAll([s.a]) + LittleEndian(s.b, 4);
    assert EncodeAll([s.a, s.b, s.c]) == EncodeAll([s.a, s.b]) + LittleEndian(s.c, 4);
  }

  /** Pieces each of which, with the bytes buffered before it, has a length of 32 bits. */
  ghost predicate FittingPieces(chunks: seq<seq<Byte>>)
  {
    forall i :: 0 <= i < |chunks| ==> |Concat(chunks[..i])| % 64 + |chunks[i]| < 0x1_0000_0000
  }

  method UpdateAll(context: Context, chunks: seq<seq<Byte>>)
    requires context.Valid() && context.msg == [] && FittingPieces(chunks)
    modifies context, context.buffer
    ensures context.Valid() && context.msg == Concat(chunks)
  {
    ConcatNone(chunks);
    hide Absorbed, Counts, Concat;
    for i := 0 to |chunks|
      invariant context.Valid() && context.msg == Concat(chunks[..i])
    {
      context.Update(chunks[i]);
      ConcatNext(chunks, i);
    }
    ConcatAll(chunks);
  }

  /** A whole run: however a message is cut into updates, the result is the digest of the message. */
  method DigestInPieces(f: Transform, chunks: seq<seq<Byte>>) returns (r: seq<Byte>)
    requires FittingPieces(chunks)
    ensures r == Digest(f, Concat(chunks))
  {
    hide Absorbed, Counts, Digest, Concat;
    var context := new Context(f);
    context.Init();
    UpdateAll(context, chunks);
    var digest := new Byte[16];
    context.Final(digest);
    r := digest[..];
  }

  /** Encode: the words of a sequence as bytes. */
  function EncodeAll(words: seq<Digit>): (r: seq<Byte>)
    ensures |r| == 4 * |words|
  {
    if words == [] then [] else EncodeAll(words[..|words| - 1]) + LittleEndian(words[|words| - 1], 4)
  }

  method Encode(output: array<Byte>, input: seq<Digit>)
    requires output.Length == 4 * |input|
    modifies output
    ensures output[..] == EncodeAll(input)
  {
    var j := 0;
    assert output[..0] == EncodeAll(input[..0]);
    hide EncodeAll, LittleEndian;
    for i := 0 to |input|
      invariant j == 4 * i && output[..j] == EncodeAll(input[..i])
    {
      EncodeWord(output, j, input[i]);
      EncodeNext(input, i);
      j := j + 4;
    }
    assert input[..|input|] == input && output[..j] == output[..];
  }

  lemma EncodeNext(words: seq<Digit>, i: nat)
    requires i < |words|
    ensures EncodeAll(words[..i + 1]) == EncodeAll(words[..i]) + LittleEndian(words[i], 4)
  {
    hide LittleEndian;
    assert words[..i + 1][..i] == words[..i];
  }

  method EncodeWord(output: array<Byte>, j: nat, x: Digit)
    requires j + 4 <= output.Length
    modifies output
    ensures output[..j + 4] == old(output[..j]) + LittleEndian(x, 4)
  {
    FourBytes(x);
    hide LittleEndian;
    ghost var done: seq<Byte> := output[..j];
    output[j] := x % 256;
    output[j + 1] := (x / 0x100) % 256;
    output[j + 2] := (x / 0x1_0000) % 256;
    output[j + 3] := (x / 0x100_0000) % 256;
    assert output[..j + 4] == done + [output[j], output[j + 1], output[j + 2], output[j + 3]];
  }

  lemma FourBytes(x: Digit)
    ensures LittleEndian(x, 4) == [x % 256, (x / 0x100) % 256, (x / 0x1_0000) % 256, (x / 0x100_0000) % 256]
  {
    assert LittleEndian(x / 0x100_0000, 1) == [(x / 0x100_0000) % 256];
    assert LittleEndian(x / 0x1_0000, 2) == [(x / 0x1_0000) % 256] + LittleEndian(x / 0x1_0000 / 256, 1);
    assert LittleEndian(x / 0x100, 3) == [(x / 0x100) % 256] + LittleEndian(x / 0x100 / 256, 2);
  }

  /** The low bytes of a number are those of its remainder, and the others those of its quotient. */
  lemma {:induction false} LittleEndianSplit(lo: nat, hi: nat, j: nat, p: nat, k: nat)
    requires p == Pow(256, j) && lo < p
    ensures LittleEndian(lo + p * hi, j + k) == LittleEndian(lo, j) + LittleEndian(hi, k)
    decreases j
  {
    if j == 0 {
      assert p == 1 && lo == 0;
      assert LittleEndian(lo, 0) == [];
    } else {
      var p' := Pow(256, j - 1);
      var n := lo + p * hi;
      assert p == 256 * p';
      assert n == lo + 256 * (p' * hi) by { assert p * hi == 256 * (p' * hi); }
      assert n % 256 == lo % 256 && n / 256 == lo / 256 + p' * hi;
      assert p' * hi >= 0;
      LittleEndianSplit(lo / 256, hi, j - 1, p', k);
    }
  }

  lemma PowOf256()
    ensures Pow(256, 4) == 0x1_0000_0000
  {
    assert Pow(256, 1) == 256 && Pow(256, 2) == 65536 && Pow(256, 3) == 0x100_0000;
  }

  /** The saved count is the length in bits. */
  lemma SavedCount(count0: Digit, count1: Digit, n: nat)
    requires Counts(count0, count1, n)
    ensures EncodeAll([count0, count1]) == LittleEndian(8 * n % TWO64, 8)
  {
    assert count0 + 0x1_0000_0000 * count1 == 8 * n % TWO64;
    hide *;
    PowOf256();
    LittleEndianSplit(count0, count1, 4, 0x1_0000_0000, 4);
    EncodeTwo(count0, count1);
  }

  lemma EncodeTwo(a: Digit, b: Digit)
    ensures EncodeAll([a, b]) == LittleEndian(a, 4) + LittleEndian(b, 4)
  {
    hide LittleEndian;
    var both := [a, b];
    assert both[..1] == [a] && [a][..0] == [];
    assert EncodeAll([a]) == [] + LittleEndian(a, 4);
  }
}
