/** MD2 over a stream of updates (md2c.c), for any block transform whose new state depends on state and block
    and whose new checksum depends on checksum and block. */
module Md2 {
  import opened Arithmetic
  import opened Words
  import opened Slices
  import opened Buffers
  import opened BlockStreams

  type Block = s: seq<Byte> | |s| == 16 witness [0, 0, 0, 0, 0, 0, 0, 0, 0, 0, 0, 0, 0, 0, 0, 0]
  type Step = (Block, seq<Byte>) -> Block

  /** Sixteen zero bytes. */
  function Zero(): Block
  {
    [0, 0, 0, 0, 0, 0, 0, 0, 0, 0, 0, 0, 0, 0, 0, 0]
  }

  /** Section 3.1 of RFC 1319: n bytes of value n, with n from 1 to 16. */
  function Padding(len: nat): (r: seq<Byte>)
    ensures 1 <= |r| <= 16 && (len + |r|) % 16 == 0 && forall i :: 0 <= i < |r| ==> r[i] == |r|
  {
    var n: Byte := 16 - len % 16;
    seq(n, _ => n)
  }

  function Padded(msg: seq<Byte>): seq<Byte>
  {
    msg + Padding(|msg|)
  }

  lemma PaddedWhole(msg: seq<Byte>)
    ensures |Padded(msg)| % 16 == 0 && |Padded(msg)| > 0
  {
    var n, t := |msg|, Padding(|msg|);
    assert (n + |t|) % 16 == 0;
    hide Padding;
    assert |Padded(msg)| == n + |t|;
  }

  /** Section 3.2: the checksum of the padded message. */
  ghost function Checksum(sum: Step, msg: seq<Byte>): Block
  {
    PaddedWhole(msg);
    Fold<Block>(sum, 16, Zero(), Padded(msg))
  }

  lemma ExtendedWhole(p: seq<Byte>, c: Block)
    requires |p| % 16 == 0
    ensures |p + c| % 16 == 0
  {}

  /** Sections 3.3 to 3.5: the digest is the state after the padded message and its checksum. */
  ghost function Digest(mix: Step, sum: Step, msg: seq<Byte>): Block
  {
    PaddedWhole(msg);
    ExtendedWhole(Padded(msg), Checksum(sum, msg));
    Fold<Block>(mix, 16, Zero(), Padded(msg) + Checksum(sum, msg))
  }

  lemma Rest(input: seq<Byte>, bytes: seq<Byte>, i: nat, same: bool)
    requires i <= |bytes| <= |input| && (if same then bytes == input[..|bytes|] else i == |bytes|)
    ensures input[i..|bytes|] == bytes[i..]
  {}

  class Context {
    const mix: Step
    const sum: Step
    var state: Block
    const checksum: array<Byte>
    var count: nat
    const buffer: array<Byte>
    ghost var msg: seq<Byte>

    ghost predicate Shape()
      reads this
    {
      buffer.Length == 16 && checksum.Length == 16 && buffer != checksum
    }

    /** Both folds have taken in the message; msg is everything given to the context so far. */
    ghost predicate Holds(all: seq<Byte>)
      requires Shape()
      reads this, buffer, checksum
    {
      Absorbed<Block>(mix, 16, Zero(), all, state, buffer[..])
        && Absorbed<Block>(sum, 16, Zero(), all, checksum[..], buffer[..])
    }

    ghost predicate Valid()
      reads this, buffer, checksum
    {
      Shape() && count == |msg| % 16 && Holds(msg)
    }

    /** Room for a context. */
    constructor (mix: Step, sum: Step)
      ensures Shape() && fresh(buffer) && fresh(checksum) && this.mix == mix && this.sum == sum
    {
      this.mix, this.sum := mix, sum;
      count, state, msg := 0, Zero(), [];
      checksum := new Byte[16];
      buffer := new Byte[16];
    }

    /** MD2Init */
    method Init()
      requires Shape()
      modifies this, checksum
      ensures Valid() && msg == []
    {
      count, msg := 0, [];
      hide Zero, Absorbed, Holds;
      state := Zero();
      Clear(checksum);
      StartedBoth();
      assert count == |msg| % 16;
    }

    lemma StartedBoth()
      requires Shape() && msg == [] && state == Zero() && checksum[..] == Zero()
      ensures Holds(msg)
    {
      hide Zero, Absorbed;
      Started(mix, msg, state, buffer[..]);
      Started(sum, msg, checksum[..], buffer[..]);
    }

    /** MD2Transform */
    method Transform(block: seq<Byte>)
      requires Shape() && |block| == 16
      modifies this`state, checksum
      ensures state == mix(old(state), block) && checksum[..] == sum(old(checksum[..]), block)
    {
      state := mix(state, block);
      var c := sum(checksum[..], block);
      for i := 0 to 16
        modifies checksum
        invariant checksum[..i] == c[..i]
      {
        checksum[i] := c[i];
      }
      assert checksum[..] == checksum[..16] && c[..16] == c;
    }

    ghost predicate HasFolded(all: seq<Byte>, n: nat)
      requires Shape()
      reads this, checksum
    {
      Folded<Block>(mix, 16, Zero(), all, n, state) && Folded<Block>(sum, 16, Zero(), all, n, checksum[..])
    }

    /** The buffered block, completed by the first bytes of the input. */
    method First(input: array<Byte>, index: nat, ghost bytes: seq<Byte>)
      requires Shape() && input != buffer && Holds(msg) && index == |msg| % 16 && 16 - index <= |bytes| <= input.Length
      requires bytes == input[..|bytes|]
      modifies this`state, buffer, checksum
      ensures HasFolded(msg + bytes, |msg| + (16 - index))
    {
      var partLen := 16 - index;
      ghost var was: seq<Byte>, s, c: seq<Byte> := buffer[..], state, checksum[..];
      CopyInto(buffer, index, input[..partLen]);
      assert input[..partLen] == bytes[..partLen];
      FrontCopied(was, index, bytes[..partLen], buffer[..]);
      FirstBlock<Block>(mix, 16, Zero(), msg, s, was, bytes, buffer[..]);
      FirstBlock<Block>(sum, 16, Zero(), msg, c, was, bytes, buffer[..]);
      hide Folded, Absorbed;
      Transform(buffer[..]);
    }

    method Next(input: array<Byte>, i: nat, ghost bytes: seq<Byte>)
      requires Shape() && input != checksum && i + 16 <= |bytes| <= input.Length && bytes == input[..|bytes|]
      requires HasFolded(msg + bytes, |msg| + i)
      modifies this`state, checksum
      ensures HasFolded(msg + bytes, |msg| + i + 16)
    {
      hide Folded;
      assert input[i..i + 16] == bytes[i..i + 16];
      NextBlock<Block>(mix, 16, Zero(), msg, bytes, i, state);
      NextBlock<Block>(sum, 16, Zero(), msg, bytes, i, checksum[..]);
      Transform(input[i..i + 16]);
    }

    /** The whole blocks of an update. */
    method Blocks(input: array<Byte>, len: nat, index: nat, ghost bytes: seq<Byte>) returns (i: nat)
      requires Shape() && Holds(msg) && input != buffer && index == |msg| % 16 && 16 - index <= len
      requires index + len < 0x1_0000_0000
      requires len <= input.Length && bytes == input[..len] && (input == checksum ==> len <= 16 - index)
      modifies this`state, buffer, checksum
      ensures i <= len < i + 16 && HasFolded(msg + bytes, |msg| + i) && (input == checksum ==> i == len)
      ensures input != checksum ==> bytes == input[..len]
    {
      hide Folded, Absorbed;
      First(input, index, bytes);
      i := 16 - index;
      assert Aligned(index, i, 16);
      hide Aligned, Add32;
      while Add32(i, 15) < len
        invariant i <= len && Aligned(index, i, 16)
        invariant HasFolded(msg + bytes, |msg| + i) && (input == checksum ==> i == len)
        invariant input != checksum ==> bytes == input[..len]
      {
        GuardExact(index, i, len, 16);
        Next(input, i, bytes);
        i := i + 16;
      }
      GuardExact(index, i, len, 16);
    }

    method Long(input: array<Byte>, len: nat, index: nat, ghost bytes: seq<Byte>)
      requires Shape() && Holds(msg) && input != buffer && index == |msg| % 16 && 16 - index <= len
      requires index + len < 0x1_0000_0000
      requires len <= input.Length && bytes == input[..len] && (input == checksum ==> len <= 16 - index)
      modifies this`state, buffer, checksum
      ensures Holds(msg + bytes)
    {
      hide Folded, Absorbed;
      var i := Blocks(input, len, index, bytes);
      ghost var was: seq<Byte> := buffer[..];
      CopyInto(buffer, 0, input[i..len]);
      Rest(input[..], bytes, i, input != checksum);
      FrontCopied(was, 0, bytes[i..], buffer[..]);
      RestBuffered<Block>(mix, 16, Zero(), msg, bytes, i, state, buffer[..]);
      RestBuffered<Block>(sum, 16, Zero(), msg, bytes, i, checksum[..], buffer[..]);
    }

    method Short(input: array<Byte>, len: nat, index: nat, ghost bytes: seq<Byte>)
      requires Shape() && Holds(msg) && input != buffer && index == |msg| % 16 && len < 16 - index
      requires len <= input.Length && bytes == input[..len]
      modifies buffer
      ensures Holds(msg + bytes)
    {
      hide Absorbed;
      ghost var was: seq<Byte> := buffer[..];
      CopyInto(buffer, index, input[..len]);
      FrontCopied(was, index, bytes, buffer[..]);
      OnlyBuffered<Block>(mix, 16, Zero(), msg, state, was, bytes, buffer[..]);
      OnlyBuffered<Block>(sum, 16, Zero(), msg, checksum[..], was, bytes, buffer[..]);
    }

    /** MD2Update; the input may be the context's own checksum, if it does not go beyond the block begun.
        `CounterExact` says that a longer piece makes the source read beyond it. */
    method Update(input: array<Byte>, len: nat)
      requires Valid() && len <= input.Length && count + len < 0x1_0000_0000
      requires input != buffer && (input == checksum ==> len <= 16 - count)
      modifies this, buffer, checksum
      ensures Valid() && msg == old(msg) + old(input[..len])
    {
      hide Absorbed;
      ghost var bytes: seq<Byte> := input[..len];
      var index := count;
      count := (index + len) % 0x1_0000_0000 % 16;
      CountAdded(index, |msg|, len);
      if len >= 16 - index {
        Long(input, len, index, bytes);
      } else {
        Short(input, len, index, bytes);
      }
      msg := msg + bytes;
    }

    /** MD2Final: the digest of everything that was given to the context. */
    method Final(digest: array<Byte>)
      requires Valid() && digest.Length == 16 && digest != buffer && digest != checksum
      modifies this, buffer, checksum, digest
      ensures digest[..] == Digest(mix, sum, old(msg))
    {
      ghost var msg0 := msg;
      var index := count;
      var padLen: Byte := 16 - index;
      var padding := new Byte[padLen](_ => padLen);
      assert padding[..padLen] == Padding(|msg|);
      hide Absorbed, Padding;
      Update(padding, padLen);
      assert msg == Padded(msg0);
      PaddedWhole(msg0);
      AbsorbedAll<Block>(sum, 16, Zero(), msg, checksum[..], buffer[..]);
      assert checksum[..16] == checksum[..];
      Update(checksum, 16);
      FoldedDigest(mix, sum, msg0, msg, state, buffer[..]);
      for i := 0 to 16
        invariant digest[..i] == state[..i] && state == Digest(mix, sum, msg0)
      {
        digest[i] := state[i];
      }
    }
  }

  lemma Started(f: Step, msg: seq<Byte>, s: Block, buffer: seq<Byte>)
    requires |buffer| == 16 && msg == [] && s == Zero()
    ensures Absorbed<Block>(f, 16, Zero(), msg, s, buffer)
  {
    AbsorbedNothing<Block>(f, 16, Zero(), buffer);
  }

  /** MD2_memset with zeros. */
  method Clear(a: array<Byte>)
    requires a.Length == 16
    modifies a
    ensures a[..] == Zero()
  {
    for i := 0 to 16
      invariant forall k :: 0 <= k < i ==> a[k] == 0
    {
      a[i] := 0;
    }
    AllZero(a[..]);
  }

  lemma AllZero(s: seq<Byte>)
    requires |s| == 16 && forall i :: 0 <= i < 16 ==> s[i] == 0
    ensures s == Zero()
  {
    assert |Zero()| == 16;
  }

  lemma CountAdded(index: nat, n: nat, len: nat)
    requires index == n % 16
    ensures (index + len) % 0x1_0000_0000 % 16 == (n + len) % 16
  {}

  lemma FoldedDigest(mix: Step, sum: Step, msg: seq<Byte>, all: seq<Byte>, s: Block, buffer: seq<Byte>)
    requires |buffer| == 16 && all == Padded(msg) + Checksum(sum, msg)
    requires Absorbed<Block>(mix, 16, Zero(), all, s, buffer)
    ensures s == Digest(mix, sum, msg)
  {
    PaddedWhole(msg);
    ExtendedWhole(Padded(msg), Checksum(sum, msg));
    AbsorbedAll<Block>(mix, 16, Zero(), all, s, buffer);
  }

  /** Pieces each of which, with the bytes buffered before it, has a length of 32 bits. */
  ghost predicate FittingPieces(chunks: seq<seq<Byte>>)
  {
    forall i :: 0 <= i < |chunks| ==> |Concat(chunks[..i])| % 16 + |chunks[i]| < 0x1_0000_0000
  }

  /** Puts a piece of the message into a buffer and updates from there. */
  method UpdateFrom(context: Context, chunk: seq<Byte>)
    requires context.Valid() && context.count + |chunk| < 0x1_0000_0000
    modifies context, context.buffer, context.checksum
    ensures context.Valid() && context.msg == old(context.msg) + chunk
  {
    hide Absorbed;
    var input := new Byte[|chunk|](i requires 0 <= i < |chunk| => chunk[i]);
    assert input[..|chunk|] == chunk;
    context.Update(input, |chunk|);
  }

  method UpdateAll(context: Context, chunks: seq<seq<Byte>>)
    requires context.Valid() && context.msg == [] && FittingPieces(chunks)
    modifies context, context.buffer, context.checksum
    ensures context.Valid() && context.msg == Concat(chunks)
  {
    ConcatNone(chunks);
    hide Absorbed, Concat;
    for i := 0 to |chunks|
      invariant context.Valid() && context.msg == Concat(chunks[..i])
    {
      UpdateFrom(context, chunks[i]);
      ConcatNext(chunks, i);
    }
    ConcatAll(chunks);
  }

  /** A whole run: however a message is cut into updates, the result is the digest of the message. */
  method DigestInPieces(mix: Step, sum: Step, chunks: seq<seq<Byte>>) returns (r: seq<Byte>)
    requires FittingPieces(chunks)
    ensures r == Digest(mix, sum, Concat(chunks))
  {
    hide Absorbed, Digest, Concat;
    var context := new Context(mix, sum);
    context.Init();
    UpdateAll(context, chunks);
    var digest := new Byte[16];
    context.Final(digest);
    r := digest[..];
  }
}
