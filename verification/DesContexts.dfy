/** The cipher contexts of desc.c: initialisation, update and restart of DES, DESX and triple DES in CBC
    mode. As in the source, each context has its own copy of the update; the three classes differ in their fields,
    their initialisation and in `Process`, the work on one block. */
module DesContexts {
  import opened Slices
  import opened DesCipher
  import opened DesKeys
  import opened DesChaining

  datatype Status = Done | LengthError

  /** The part of a message that is done after n blocks. */
  ghost predicate Progress(sp: Boxes, c: Suite, encrypt: bool, iv0: Block, src: seq<bv8>, dst: seq<bv8>, iv: Block,
                           n: nat)
    requires GoodKeys(c)
  {
    && 8 * n <= |src| && 8 * n <= |dst|
    && dst[..8 * n] == Update(sp, c, encrypt, iv0, src[..8 * n]) && iv == IvAfter(sp, c, encrypt, iv0, src[..8 * n])
  }

  lemma UpdateSnoc(sp: Boxes, c: Suite, encrypt: bool, iv0: Block, src: seq<bv8>, n: nat)
    requires GoodKeys(c) && 8 * n + 8 <= |src|
    ensures var iv, b := IvAfter(sp, c, encrypt, iv0, src[..8 * n]), Pack(src, 8 * n);
      && Update(sp, c, encrypt, iv0, src[..8 * n + 8]) ==
         Update(sp, c, encrypt, iv0, src[..8 * n]) + Unpack(ChainBlock(sp, c, encrypt, iv, b))
      && IvAfter(sp, c, encrypt, iv0, src[..8 * n + 8]) == NextIv(sp, c, encrypt, iv, b)
  {
    hide Blocks, Chain, ChainIv, Bytes, ChainBlock, NextIv, Pack, Unpack;
    var bs, b := Blocks(src[..8 * n]), Pack(src, 8 * n);
    var iv := ChainIv(sp, c, encrypt, iv0, bs);
    BlocksSnoc(src, n);
    ChainSplit(sp, c, encrypt, iv0, bs, [b]);
    ChainOne(sp, c, encrypt, iv, b);
    BytesSnoc(Chain(sp, c, encrypt, iv0, bs), ChainBlock(sp, c, encrypt, iv, b));
  }

  lemma ProgressNext(sp: Boxes, c: Suite, encrypt: bool, iv0: Block, src: seq<bv8>, dst: seq<bv8>, dst': seq<bv8>,
                     iv: Block, n: nat)
    requires GoodKeys(c) && Progress(sp, c, encrypt, iv0, src, dst, iv, n) && 8 * n + 8 <= |src| && |dst'| == |dst|
    requires 8 * n + 8 <= |dst| && dst'[..8 * n] == dst[..8 * n]
    requires dst'[8 * n..8 * n + 8] == Unpack(ChainBlock(sp, c, encrypt, iv, Pack(src, 8 * n)))
    ensures Progress(sp, c, encrypt, iv0, src, dst', NextIv(sp, c, encrypt, iv, Pack(src, 8 * n)), n + 1)
  {
    UpdateSnoc(sp, c, encrypt, iv0, src, n);
    SliceJoin(dst', 0, 8 * n, 8 * n + 8);
    hide Update, IvAfter, ChainBlock, NextIv, Pack, Unpack, GoodKeys;
    assert 8 * (n + 1) == 8 * n + 8;
  }

  lemma ChainOne(sp: Boxes, c: Suite, encrypt: bool, iv: Block, b: Block)
    requires GoodKeys(c)
    ensures Chain(sp, c, encrypt, iv, [b]) == [ChainBlock(sp, c, encrypt, iv, b)]
    ensures ChainIv(sp, c, encrypt, iv, [b]) == NextIv(sp, c, encrypt, iv, b)
  {
    hide ChainBlock, NextIv;
    var rest := [b][1..];
    assert rest == [];
  }

  /** A buffer with eight of its bytes replaced. */
  ghost function Placed(s: seq<bv8>, at: nat, b: seq<bv8>): (r: seq<bv8>)
    requires at + 8 <= |s| && |b| == 8
    ensures |r| == |s|
  {
    s[..at] + b + s[at + 8..]
  }

  /** The state of an update after n blocks: what is done is done, and the rest of both buffers is as it
      was, whether or not they are the same. */
  ghost predicate Halfway(sp: Boxes, c: Suite, encrypt: bool, iv0: Block, in0: seq<bv8>, out0: seq<bv8>, len: nat,
                          input: seq<bv8>, output: seq<bv8>, iv: Block, n: nat)
    requires GoodKeys(c)
  {
    && 8 * n <= len <= |in0| && len <= |out0| && |input| == |in0| && |output| == |out0|
    && Progress(sp, c, encrypt, iv0, in0[..len], output, iv, n)
    && input[8 * n..] == in0[8 * n..] && output[8 * n..] == out0[8 * n..]
  }

  lemma HalfwayNext(sp: Boxes, c: Suite, encrypt: bool, iv0: Block, in0: seq<bv8>, out0: seq<bv8>, len: nat,
                    input: seq<bv8>, output: seq<bv8>, iv: Block, n: nat, input': seq<bv8>, output': seq<bv8>,
                    work: Block, iv': Block)
    requires GoodKeys(c) && Halfway(sp, c, encrypt, iv0, in0, out0, len, input, output, iv, n) && 8 * n + 8 <= len
    requires work == ChainBlock(sp, c, encrypt, iv, Pack(input, 8 * n))
    requires iv' == NextIv(sp, c, encrypt, iv, Pack(input, 8 * n))
    requires output' == Placed(output, 8 * n, Unpack(work))
    requires input' == input || (input == output && input' == output')
    ensures Halfway(sp, c, encrypt, iv0, in0, out0, len, input', output', iv', n + 1)
  {
    hide ChainBlock, NextIv, Pack, Unpack, Progress, GoodKeys;
    SameBlock(input, in0, 8 * n, len);
    PlacedParts(output, 8 * n, Unpack(work));
    ProgressNext(sp, c, encrypt, iv0, in0[..len], output, output', iv, n);
    SameTail(input, in0, 8 * n);
    SameTail(output, out0, 8 * n);
  }

  lemma PlacedParts(s: seq<bv8>, at: nat, b: seq<bv8>)
    requires at + 8 <= |s| && |b| == 8
    ensures var r := Placed(s, at, b); r[..at] == s[..at] && r[at..at + 8] == b && r[at + 8..] == s[at + 8..]
  {}

  lemma HalfwayStart(sp: Boxes, c: Suite, encrypt: bool, iv: Block, input: seq<bv8>, output: seq<bv8>, len: nat)
    requires GoodKeys(c) && len <= |input| && len <= |output|
    ensures Halfway(sp, c, encrypt, iv, input, output, len, input, output, iv, 0)
  {
    assert input[..len][..0] == [] && output[..0] == [];
  }

  lemma HalfwayDone(sp: Boxes, c: Suite, encrypt: bool, iv0: Block, in0: seq<bv8>, out0: seq<bv8>, len: nat,
                    input: seq<bv8>, output: seq<bv8>, iv: Block)
    requires GoodKeys(c) && len % 8 == 0 && Halfway(sp, c, encrypt, iv0, in0, out0, len, input, output, iv, len / 8)
    ensures Finished(sp, c, encrypt, iv0, in0, out0, len, output, iv)
  {
    hide Update, IvAfter, GoodKeys;
    assert 8 * (len / 8) == len;
    assert in0[..len][..len] == in0[..len];
    SliceJoin(output, 0, len, |output|);
    assert output[..len] + output[len..] == output;
  }

  /** What an update leaves behind. */
  ghost predicate Finished(sp: Boxes, c: Suite, encrypt: bool, iv0: Block, in0: seq<bv8>, out0: seq<bv8>, len: nat,
                           output: seq<bv8>, iv: Block)
    requires GoodKeys(c) && len <= |in0| && len <= |out0| && len % 8 == 0
  {
    && |output| == |out0| && iv == IvAfter(sp, c, encrypt, iv0, in0[..len])
    && output == Update(sp, c, encrypt, iv0, in0[..len]) + out0[len..]
  }

  lemma FinishedIsCbc(sp: Boxes, c: Suite, encrypt: bool, iv0: Block, in0: seq<bv8>, out0: seq<bv8>, len: nat,
                      output: seq<bv8>, iv: Block)
    requires GoodKeys(c) && len <= |in0| && len <= |out0| && len % 8 == 0
    requires Finished(sp, c, encrypt, iv0, in0, out0, len, output, iv)
    ensures IsCbc(sp, c, encrypt, iv0, in0[..len], output[..len], iv)
  {
    UpdateIsCbc(sp, c, encrypt, iv0, in0[..len]);
    hide Update, IvAfter, IsCbc, GoodKeys;
    assert output[..len] == Update(sp, c, encrypt, iv0, in0[..len]);
  }

  /** Unpack into a buffer. */
  method UnpackTo(output: array<bv8>, at: nat, b: Block)
    requires at + 8 <= output.Length
    modifies output
    ensures output[..] == Placed(old(output[..]), at, Unpack(b))
  {
    hide Byte0, Byte1, Byte2, Byte3;
    output[at] := Byte0(b.left);
    output[at + 1] := Byte1(b.left);
    output[at + 2] := Byte2(b.left);
    output[at + 3] := Byte3(b.left);
    output[at + 4] := Byte0(b.right);
    output[at + 5] := Byte1(b.right);
    output[at + 6] := Byte2(b.right);
    output[at + 7] := Byte3(b.right);
  }

  /** DESFunction on a block held in two words. */
  method Encipher(sp: Boxes, b: Block, subkeys: array<bv32>) returns (r: Block)
    requires subkeys.Length == 32
    ensures r == Cipher(sp, b, KeyPairs(subkeys[..]))
  {
    var work := new bv32[2];
    work[0], work[1] := b.left, b.right;
    hide Cipher, KeyPairs;
    DESFunction(sp, work, subkeys[..]);
    r := Block(work[0], work[1]);
  }

  /** DES_CBC_CTX */
  class DesCbc {
    const sp: Boxes
    const subkeys: array<bv32>
    var iv: Block
    var originalIV: Block
    var encrypt: bool
    ghost var suite: Suite

    ghost predicate Valid()
      reads this, subkeys
    {
      subkeys.Length == 32 && suite.Single? && GoodKeys(suite) && KeyPairs(subkeys[..]) == Schedule(suite.key, encrypt)
    }

    /** DES_CBCInit */
    constructor (sp: Boxes, key: seq<bv8>, iv: seq<bv8>, encrypt: bool)
      requires |key| == 8 && |iv| == 8
      ensures Valid() && fresh(subkeys) && this.sp == sp && suite == Single(key) && this.encrypt == encrypt
      ensures this.iv == Pack(iv, 0) && originalIV == this.iv
    {
      hide KeyPairs, Schedule, Pack;
      this.sp := sp;
      this.encrypt := encrypt;
      this.iv := Pack(iv, 0);
      originalIV := Pack(iv, 0);
      subkeys := new bv32[32];
      suite := Single(key);
      new;
      DESKey(subkeys, key, encrypt);
    }

    method Process(inputBlock: Block) returns (work: Block)
      requires Valid()
      modifies this`iv
      ensures Valid()
      ensures work == ChainBlock(sp, suite, encrypt, old(iv), inputBlock)
      ensures iv == NextIv(sp, suite, encrypt, old(iv), inputBlock)
    {
      hide Cipher, KeyPairs, Schedule, Xor;
      work := if encrypt then XorBlock(inputBlock, iv) else inputBlock;
      work := Encipher(sp, work, subkeys);
      if encrypt {
        iv := work;
      } else {
        work := XorBlock(work, iv);
        iv := inputBlock;
      }
    }

    /** One pass of the loop of DES_CBCUpdate. */
    method Step(output: array<bv8>, input: array<bv8>, i: nat, ghost iv0: Block, ghost in0: seq<bv8>,
                ghost out0: seq<bv8>, ghost len: nat)
      requires Valid() && 8 * i + 8 <= len <= input.Length && len <= output.Length
      requires Halfway(sp, suite, encrypt, iv0, in0, out0, len, input[..], output[..], iv, i)
      modifies this`iv, output
      ensures Valid() && Halfway(sp, suite, encrypt, iv0, in0, out0, len, input[..], output[..], iv, i + 1)
    {
      hide Halfway, ChainBlock, NextIv, Pack, Unpack, Schedule, KeyPairs, Placed;
      ghost var input0: seq<bv8>, output0: seq<bv8>, before := input[..], output[..], iv;
      var inputBlock := Pack(input[..], 8 * i);
      var work := Process(inputBlock);
      UnpackTo(output, 8 * i, work);
      HalfwayNext(sp, suite, encrypt, iv0, in0, out0, len, input0, output0, before, i, input[..], output[..], work, iv);
    }

    /** DES_CBCUpdate; output may be the input buffer itself. */
    method CBCUpdate(output: array<bv8>, input: array<bv8>, len: nat) returns (status: Status)
      requires Valid() && len <= input.Length && len <= output.Length
      modifies this`iv, output
      ensures Valid()
      ensures status == (if len % 8 == 0 then Done else LengthError)
      ensures status == LengthError ==> iv == old(iv) && output[..] == old(output[..])
      ensures status == Done ==>
        Finished(sp, suite, encrypt, old(iv), old(input[..]), old(output[..]), len, output[..], iv)
      ensures status == Done ==> IsCbc(sp, suite, encrypt, old(iv), old(input[..len]), output[..len], iv)
    {
      if len % 8 != 0 {
        return LengthError;
      }
      ghost var in0: seq<bv8>, out0: seq<bv8>, iv0 := input[..], output[..], iv;
      HalfwayStart(sp, suite, encrypt, iv0, in0, out0, len);
      hide Halfway, Finished, IsCbc, ChainBlock, NextIv, Pack, Unpack, Schedule, KeyPairs, Placed;
      for i := 0 to len / 8
        invariant Valid() && Halfway(sp, suite, encrypt, iv0, in0, out0, len, input[..], output[..], iv, i)
      {
        Step(output, input, i, iv0, in0, out0, len);
      }
      HalfwayDone(sp, suite, encrypt, iv0, in0, out0, len, input[..], output[..], iv);
      FinishedIsCbc(sp, suite, encrypt, iv0, in0, out0, len, output[..], iv);
      status := Done;
    }

    /** One piece of a message, updated in place. */
    method Piece(piece: seq<bv8>) returns (out: seq<bv8>)
      requires Valid() && |piece| % 8 == 0
      modifies this`iv
      ensures Valid() && out == Update(sp, suite, encrypt, old(iv), piece)
      ensures iv == IvAfter(sp, suite, encrypt, old(iv), piece)
    {
      hide Update, IvAfter, Schedule, KeyPairs;
      var buffer := new bv8[|piece|](i requires 0 <= i < |piece| => piece[i]);
      assert buffer[..] == piece;
      var _ := CBCUpdate(buffer, buffer, |piece|);
      assert piece[..|piece|] == piece && piece[|piece|..] == [];
      out := buffer[..];
    }

    /** A message in any number of updates. */
    method Pieces(pieces: seq<seq<bv8>>) returns (out: seq<bv8>)
      requires Valid() && WholeBlocks(pieces)
      modifies this`iv
      ensures Valid() && out == Run(sp, suite, encrypt, old(iv), pieces)
    {
      hide Update, IvAfter, Schedule, KeyPairs, Run;
      out := [];
      assert pieces[0..] == pieces;
      for i := 0 to |pieces|
        invariant Valid() && WholeBlocks(pieces[i..])
        invariant out + Run(sp, suite, encrypt, iv, pieces[i..]) == Run(sp, suite, encrypt, old(iv), pieces)
      {
        RunNext(sp, suite, encrypt, iv, pieces, i);
        var done := Piece(pieces[i]);
        out := out + done;
      }
      RunEnd(sp, suite, encrypt, iv, pieces[|pieces|..]);
    }

    /** DES_CBCRestart */
    method CBCRestart()
      modifies this`iv
      ensures iv == originalIV
    {
      iv := originalIV;
    }
  }

  /** DESX_CBC_CTX */
  class DesxCbc {
    const sp: Boxes
    const subkeys: array<bv32>
    var iv: Block
    var inputWhitener: Block
    var outputWhitener: Block
    var originalIV: Block
    var encrypt: bool
    ghost var suite: Suite

    ghost predicate Valid()
      reads this, subkeys
    {
      && subkeys.Length == 32 && suite.Whitened? && GoodKeys(suite)
      && KeyPairs(subkeys[..]) == Schedule(suite.key, encrypt)
      && suite.before == inputWhitener && suite.after == outputWhitener
    }

    /** DESX_CBCInit: the key holds the DES key and the two whiteners. */
    constructor (sp: Boxes, key: seq<bv8>, iv: seq<bv8>, encrypt: bool)
      requires |key| == 24 && |iv| == 8
      ensures Valid() && fresh(subkeys) && this.sp == sp && this.encrypt == encrypt
      ensures suite == Whitened(key[..8], Pack(key, 8), Pack(key, 16))
      ensures this.iv == Pack(iv, 0) && originalIV == this.iv
    {
      hide KeyPairs, Schedule, Pack;
      this.sp := sp;
      this.encrypt := encrypt;
      this.iv := Pack(iv, 0);
      inputWhitener := Pack(key, 8);
      outputWhitener := Pack(key, 16);
      originalIV := Pack(iv, 0);
      subkeys := new bv32[32];
      suite := Whitened(key[..8], Pack(key, 8), Pack(key, 16));
      new;
      DESKey(subkeys, key[..8], encrypt);
    }

    method Process(inputBlock: Block) returns (work: Block)
      requires Valid()
      modifies this`iv
      ensures Valid()
      ensures work == ChainBlock(sp, suite, encrypt, old(iv), inputBlock)
      ensures iv == NextIv(sp, suite, encrypt, old(iv), inputBlock)
    {
      hide Cipher, KeyPairs, Schedule, Xor;
      work := if encrypt then XorBlock(XorBlock(inputBlock, iv), inputWhitener)
        else XorBlock(inputBlock, outputWhitener);
      work := Encipher(sp, work, subkeys);
      if encrypt {
        work := XorBlock(work, outputWhitener);
        iv := work;
      } else {
        XorBoth(work.left, iv.left, inputWhitener.left);
        XorBoth(work.right, iv.right, inputWhitener.right);
        work := XorBlock(work, XorBlock(iv, inputWhitener));
        iv := inputBlock;
      }
    }

    /** One pass of the loop of DESX_CBCUpdate. */
    method Step(output: array<bv8>, input: array<bv8>, i: nat, ghost iv0: Block, ghost in0: seq<bv8>,
                ghost out0: seq<bv8>, ghost len: nat)
      requires Valid() && 8 * i + 8 <= len <= input.Length && len <= output.Length
      requires Halfway(sp, suite, encrypt, iv0, in0, out0, len, input[..], output[..], iv, i)
      modifies this`iv, output
      ensures Valid() && Halfway(sp, suite, encrypt, iv0, in0, out0, len, input[..], output[..], iv, i + 1)
    {
      hide Halfway, ChainBlock, NextIv, Pack, Unpack, Schedule, KeyPairs, Placed;
      ghost var input0: seq<bv8>, output0: seq<bv8>, before := input[..], output[..], iv;
      var inputBlock := Pack(input[..], 8 * i);
      var work := Process(inputBlock);
      UnpackTo(output, 8 * i, work);
      HalfwayNext(sp, suite, encrypt, iv0, in0, out0, len, input0, output0, before, i, input[..], output[..], work, iv);
    }

    /** DESX_CBCUpdate; output may be the input buffer itself. */
    method CBCUpdate(output: array<bv8>, input: array<bv8>, len: nat) returns (status: Status)
      requires Valid() && len <= input.Length && len <= output.Length
      modifies this`iv, output
      ensures Valid()
      ensures status == (if len % 8 == 0 then Done else LengthError)
      ensures status == LengthError ==> iv == old(iv) && output[..] == old(output[..])
      ensures status == Done ==>
        Finished(sp, suite, encrypt, old(iv), old(input[..]), old(output[..]), len, output[..], iv)
      ensures status == Done ==> IsCbc(sp, suite, encrypt, old(iv), old(input[..len]), output[..len], iv)
    {
      if len % 8 != 0 {
        return LengthError;
      }
      ghost var in0: seq<bv8>, out0: seq<bv8>, iv0 := input[..], output[..], iv;
      HalfwayStart(sp, suite, encrypt, iv0, in0, out0, len);
      hide Halfway, Finished, IsCbc, ChainBlock, NextIv, Pack, Unpack, Schedule, KeyPairs, Placed;
      for i := 0 to len / 8
        invariant Valid() && Halfway(sp, suite, encrypt, iv0, in0, out0, len, input[..], output[..], iv, i)
      {
        Step(output, input, i, iv0, in0, out0, len);
      }
      HalfwayDone(sp, suite, encrypt, iv0, in0, out0, len, input[..], output[..], iv);
      FinishedIsCbc(sp, suite, encrypt, iv0, in0, out0, len, output[..], iv);
      status := Done;
    }

    /** One piece of a message, updated in place. */
    method Piece(piece: seq<bv8>) returns (out: seq<bv8>)
      requires Valid() && |piece| % 8 == 0
      modifies this`iv
      ensures Valid() && out == Update(sp, suite, encrypt, old(iv), piece)
      ensures iv == IvAfter(sp, suite, encrypt, old(iv), piece)
    {
      hide Update, IvAfter, Schedule, KeyPairs;
      var buffer := new bv8[|piece|](i requires 0 <= i < |piece| => piece[i]);
      assert buffer[..] == piece;
      var _ := CBCUpdate(buffer, buffer, |piece|);
      assert piece[..|piece|] == piece && piece[|piece|..] == [];
      out := buffer[..];
    }

    /** A message in any number of updates. */
    method Pieces(pieces: seq<seq<bv8>>) returns (out: seq<bv8>)
      requires Valid() && WholeBlocks(pieces)
      modifies this`iv
      ensures Valid() && out == Run(sp, suite, encrypt, old(iv), pieces)
    {
      hide Update, IvAfter, Schedule, KeyPairs, Run;
      out := [];
      assert pieces[0..] == pieces;
      for i := 0 to |pieces|
        invariant Valid() && WholeBlocks(pieces[i..])
        invariant out + Run(sp, suite, encrypt, iv, pieces[i..]) == Run(sp, suite, encrypt, old(iv), pieces)
      {
        RunNext(sp, suite, encrypt, iv, pieces, i);
        var done := Piece(pieces[i]);
        out := out + done;
      }
      RunEnd(sp, suite, encrypt, iv, pieces[|pieces|..]);
    }

    /** DESX_CBCRestart */
    method CBCRestart()
      modifies this`iv
      ensures iv == originalIV
    {
      iv := originalIV;
    }
  }

  /** DES3_CBC_CTX */
  class Des3Cbc {
    const sp: Boxes
    const subkeys0: array<bv32>
    const subkeys1: array<bv32>
    const subkeys2: array<bv32>
    var iv: Block
    var originalIV: Block
    var encrypt: bool
    ghost var suite: Suite

    ghost predicate Valid()
      reads this, subkeys0, subkeys1, subkeys2
    {
      && subkeys0.Length == 32 && subkeys1.Length == 32 && subkeys2.Length == 32 && suite.Triple? && GoodKeys(suite)
      && KeyPairs(subkeys0[..]) == Schedule(if encrypt then suite.key else suite.key3, encrypt)
      && KeyPairs(subkeys1[..]) == Schedule(suite.key2, !encrypt)
      && KeyPairs(subkeys2[..]) == Schedule(if encrypt then suite.key3 else suite.key, encrypt)
    }

    /** DES3_CBCInit: three DES keys, used in the reversed order when decrypting. */
    constructor (sp: Boxes, key: seq<bv8>, iv: seq<bv8>, encrypt: bool)
      requires |key| == 24 && |iv| == 8
      ensures Valid() && fresh(subkeys0) && fresh(subkeys1) && fresh(subkeys2) && this.sp == sp
      ensures this.encrypt == encrypt
      ensures suite == Triple(key[..8], key[8..16], key[16..])
      ensures this.iv == Pack(iv, 0) && originalIV == this.iv
    {
      hide KeyPairs, Schedule, Pack;
      this.sp := sp;
      this.encrypt := encrypt;
      this.iv := Pack(iv, 0);
      originalIV := Pack(iv, 0);
      subkeys0, subkeys1, subkeys2 := new bv32[32], new bv32[32], new bv32[32];
      suite := Triple(key[..8], key[8..16], key[16..]);
      new;
      DESKey(subkeys0, if encrypt then key[..8] else key[16..], encrypt);
      DESKey(subkeys1, key[8..16], !encrypt);
      DESKey(subkeys2, if encrypt then key[16..] else key[..8], encrypt);
    }

    method Process(inputBlock: Block) returns (work: Block)
      requires Valid()
      modifies this`iv
      ensures Valid()
      ensures work == ChainBlock(sp, suite, encrypt, old(iv), inputBlock)
      ensures iv == NextIv(sp, suite, encrypt, old(iv), inputBlock)
    {
      hide Cipher, KeyPairs, Schedule, Xor;
      work := if encrypt then XorBlock(inputBlock, iv) else inputBlock;
      work := Encipher(sp, work, subkeys0);
      work := Encipher(sp, work, subkeys1);
      work := Encipher(sp, work, subkeys2);
      if encrypt {
        iv := work;
      } else {
        work := XorBlock(work, iv);
        iv := inputBlock;
      }
    }

    /** One pass of the loop of DES3_CBCUpdate. */
    method Step(output: array<bv8>, input: array<bv8>, i: nat, ghost iv0: Block, ghost in0: seq<bv8>,
                ghost out0: seq<bv8>, ghost len: nat)
      requires Valid() && 8 * i + 8 <= len <= input.Length && len <= output.Length
      requires Halfway(sp, suite, encrypt, iv0, in0, out0, len, input[..], output[..], iv, i)
      modifies this`iv, output
      ensures Valid() && Halfway(sp, suite, encrypt, iv0, in0, out0, len, input[..], output[..], iv, i + 1)
    {
      hide Halfway, ChainBlock, NextIv, Pack, Unpack, Schedule, KeyPairs, Placed;
      ghost var input0: seq<bv8>, output0: seq<bv8>, before := input[..], output[..], iv;
      var inputBlock := Pack(input[..], 8 * i);
      var work := Process(inputBlock);
      UnpackTo(output, 8 * i, work);
      HalfwayNext(sp, suite, encrypt, iv0, in0, out0, len, input0, output0, before, i, input[..], output[..], work, iv);
    }

    /** DES3_CBCUpdate; output may be the input buffer itself. */
    method CBCUpdate(output: array<bv8>, input: array<bv8>, len: nat) returns (status: Status)
      requires Valid() && len <= input.Length && len <= output.Length
      modifies this`iv, output
      ensures Valid()
      ensures status == (if len % 8 == 0 then Done else LengthError)
      ensures status == LengthError ==> iv == old(iv) && output[..] == old(output[..])
      ensures status == Done ==>
        Finished(sp, suite, encrypt, old(iv), old(input[..]), old(output[..]), len, output[..], iv)
      ensures status == Done ==> IsCbc(sp, suite, encrypt, old(iv), old(input[..len]), output[..len], iv)
    {
      if len % 8 != 0 {
        return LengthError;
      }
      ghost var in0: seq<bv8>, out0: seq<bv8>, iv0 := input[..], output[..], iv;
      HalfwayStart(sp, suite, encrypt, iv0, in0, out0, len);
      hide Halfway, Finished, IsCbc, ChainBlock, NextIv, Pack, Unpack, Schedule, KeyPairs, Placed;
      for i := 0 to len / 8
        invariant Valid() && Halfway(sp, suite, encrypt, iv0, in0, out0, len, input[..], output[..], iv, i)
      {
        Step(output, input, i, iv0, in0, out0, len);
      }
      HalfwayDone(sp, suite, encrypt, iv0, in0, out0, len, input[..], output[..], iv);
      FinishedIsCbc(sp, suite, encrypt, iv0, in0, out0, len, output[..], iv);
      status := Done;
    }

    /** One piece of a message, updated in place. */
    method Piece(piece: seq<bv8>) returns (out: seq<bv8>)
      requires Valid() && |piece| % 8 == 0
      modifies this`iv
      ensures Valid() && out == Update(sp, suite, encrypt, old(iv), piece)
      ensures iv == IvAfter(sp, suite, encrypt, old(iv), piece)
    {
      hide Update, IvAfter, Schedule, KeyPairs;
      var buffer := new bv8[|piece|](i requires 0 <= i < |piece| => piece[i]);
      assert buffer[..] == piece;
      var _ := CBCUpdate(buffer, buffer, |piece|);
      assert piece[..|piece|] == piece && piece[|piece|..] == [];
      out := buffer[..];
    }

    /** A message in any number of updates. */
    method Pieces(pieces: seq<seq<bv8>>) returns (out: seq<bv8>)
      requires Valid() && WholeBlocks(pieces)
      modifies this`iv
      ensures Valid() && out == Run(sp, suite, encrypt, old(iv), pieces)
    {
      hide Update, IvAfter, Schedule, KeyPairs, Run;
      out := [];
      assert pieces[0..] == pieces;
      for i := 0 to |pieces|
        invariant Valid() && WholeBlocks(pieces[i..])
        invariant out + Run(sp, suite, encrypt, iv, pieces[i..]) == Run(sp, suite, encrypt, old(iv), pieces)
      {
        RunNext(sp, suite, encrypt, iv, pieces, i);
        var done := Piece(pieces[i]);
        out := out + done;
      }
      RunEnd(sp, suite, encrypt, iv, pieces[|pieces|..]);
    }

    /** DES3_CBCRestart */
    method CBCRestart()
      modifies this`iv
      ensures iv == originalIV
    {
      iv := originalIV;
    }
  }

  lemma SameBlock(a: seq<bv8>, b: seq<bv8>, at: nat, len: nat)
    requires at + 8 <= len <= |b| && |a| == |b| && a[at..] == b[at..]
    ensures Pack(a, at) == Pack(b[..len], at)
  {
    PackSlice(a, at);
    PackSlice(b[..len], at);
    hide Pack;
    assert a[at..at + 8] == a[at..][..8];
    assert b[..len][at..at + 8] == b[at..][..8];
  }

  lemma SameTail(a: seq<bv8>, b: seq<bv8>, at: nat)
    requires at + 8 <= |b| && |a| == |b| && a[at..] == b[at..]
    ensures a[at + 8..] == b[at + 8..]
  {
    assert a[at..][8..] == b[at..][8..];
  }

  lemma RunNext(sp: Boxes, c: Suite, encrypt: bool, iv: Block, pieces: seq<seq<bv8>>, i: nat)
    requires GoodKeys(c) && i < |pieces| && WholeBlocks(pieces[i..])
    ensures |pieces[i]| % 8 == 0 && WholeBlocks(pieces[i + 1..])
    ensures Run(sp, c, encrypt, iv, pieces[i..]) == Update(sp, c, encrypt, iv, pieces[i])
      + Run(sp, c, encrypt, IvAfter(sp, c, encrypt, iv, pieces[i]), pieces[i + 1..])
  {
    hide Update, IvAfter;
    assert pieces[i..][0] == pieces[i] && pieces[i..][1..] == pieces[i + 1..];
  }

  lemma RunEnd(sp: Boxes, c: Suite, encrypt: bool, iv: Block, pieces: seq<seq<bv8>>)
    requires GoodKeys(c) && pieces == []
    ensures Run(sp, c, encrypt, iv, pieces) == []
  {}

  /** A run gives as many bytes as it takes. */
  lemma RunLength(sp: Boxes, c: Suite, encrypt: bool, iv: Block, pieces: seq<seq<bv8>>)
    requires GoodKeys(c) && WholeBlocks(pieces)
    ensures |Run(sp, c, encrypt, iv, pieces)| == |Concat(pieces)|
    ensures |Concat(pieces)| % 8 == 0
  {
    RunIsUpdate(sp, c, encrypt, iv, pieces);
    hide Run, Concat;
  }

  /** s cut into pieces of the given numbers of blocks, as far as it goes, and the rest. */
  function Cut(s: seq<bv8>, sizes: seq<nat>): (pieces: seq<seq<bv8>>)
    decreases |sizes|
  {
    if sizes == [] then [s]
    else
      var n := if 8 * sizes[0] < |s| then 8 * sizes[0] else |s|;
      [s[..n]] + Cut(s[n..], sizes[1..])
  }

  lemma {:induction false} CutWhole(s: seq<bv8>, sizes: seq<nat>)
    requires |s| % 8 == 0
    ensures WholeBlocks(Cut(s, sizes)) && Concat(Cut(s, sizes)) == s
    decreases |sizes|
  {
    if sizes == [] {
      assert [s][1..] == [];
    } else {
      var n := if 8 * sizes[0] < |s| then 8 * sizes[0] else |s|;
      WholeRest(|s|, sizes[0], n);
      CutWhole(s[n..], sizes[1..]);
      var rest := Cut(s[n..], sizes[1..]);
      assert Cut(s, sizes) == [s[..n]] + rest;
      hide Cut;
      WholeCons(s[..n], rest);
      assert s[..n] + s[n..] == s;
    }
  }

  lemma WholeRest(len: nat, blocks: nat, n: nat)
    requires len % 8 == 0 && n == if 8 * blocks < len then 8 * blocks else len
    ensures n % 8 == 0 && (len - n) % 8 == 0
  {}

  lemma WholeCons(s: seq<bv8>, rest: seq<seq<bv8>>)
    requires |s| % 8 == 0 && WholeBlocks(rest)
    ensures WholeBlocks([s] + rest) && Concat([s] + rest) == s + Concat(rest)
  {
    assert ([s] + rest)[1..] == rest;
  }

  /** A message sent through two DES contexts with the same key and vector, one in each direction. */
  method RoundTripDes(sp: Boxes, key: seq<bv8>, iv: seq<bv8>, encrypt: bool,
    pieces: seq<seq<bv8>>, sizes: seq<nat>)
    returns (there: seq<bv8>, back: seq<bv8>)
    requires |key| == 8 && |iv| == 8 && WholeBlocks(pieces)
    ensures there == Run(sp, Single(key), encrypt, Pack(iv, 0), pieces)
    ensures |there| == |back| && back == Concat(pieces)
  {
    hide Update, IvAfter, Schedule, KeyPairs, Run, Cut, Concat, Pack;
    var sender := new DesCbc(sp, key, iv, encrypt);
    ghost var suite, iv0 := sender.suite, sender.iv;
    there := sender.Pieces(pieces);
    RunLength(sp, suite, encrypt, iv0, pieces);
    CutWhole(there, sizes);
    var receiver := new DesCbc(sp, key, iv, !encrypt);
    back := receiver.Pieces(Cut(there, sizes));
    DecryptionInvertsEncryption(sp, suite, encrypt, iv0, pieces, Cut(there, sizes));
  }

  /** A message sent through two DESX contexts with the same key and vector, one in each direction. */
  method RoundTripDesx(sp: Boxes, key: seq<bv8>, iv: seq<bv8>, encrypt: bool,
    pieces: seq<seq<bv8>>, sizes: seq<nat>)
    returns (there: seq<bv8>, back: seq<bv8>)
    requires |key| == 24 && |iv| == 8 && WholeBlocks(pieces)
    ensures there == Run(sp, Whitened(key[..8], Pack(key, 8), Pack(key, 16)), encrypt, Pack(iv, 0), pieces)
    ensures |there| == |back| && back == Concat(pieces)
  {
    hide Update, IvAfter, Schedule, KeyPairs, Run, Cut, Concat, Pack;
    var sender := new DesxCbc(sp, key, iv, encrypt);
    ghost var suite, iv0 := sender.suite, sender.iv;
    there := sender.Pieces(pieces);
    RunLength(sp, suite, encrypt, iv0, pieces);
    CutWhole(there, sizes);
    var receiver := new DesxCbc(sp, key, iv, !encrypt);
    back := receiver.Pieces(Cut(there, sizes));
    DecryptionInvertsEncryption(sp, suite, encrypt, iv0, pieces, Cut(there, sizes));
  }

  /** A message sent through two triple DES contexts with the same key and vector, one in each direction. */
  method RoundTripDes3(sp: Boxes, key: seq<bv8>, iv: seq<bv8>, encrypt: bool,
    pieces: seq<seq<bv8>>, sizes: seq<nat>)
    returns (there: seq<bv8>, back: seq<bv8>)
    requires |key| == 24 && |iv| == 8 && WholeBlocks(pieces)
    ensures there == Run(sp, Triple(key[..8], key[8..16], key[16..]), encrypt, Pack(iv, 0), pieces)
    ensures |there| == |back| && back == Concat(pieces)
  {
    hide Update, IvAfter, Schedule, KeyPairs, Run, Cut, Concat, Pack;
    var sender := new Des3Cbc(sp, key, iv, encrypt);
    ghost var suite, iv0 := sender.suite, sender.iv;
    there := sender.Pieces(pieces);
    RunLength(sp, suite, encrypt, iv0, pieces);
    CutWhole(there, sizes);
    var receiver := new Des3Cbc(sp, key, iv, !encrypt);
    back := receiver.Pieces(Cut(there, sizes));
    DecryptionInvertsEncryption(sp, suite, encrypt, iv0, pieces, Cut(there, sizes));
  }
}
