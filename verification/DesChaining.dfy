/** Cipher block chaining over DES, DESX and triple DES, as a law about sequences of blocks. */
module DesChaining {
  import opened Slices
  import opened DesCipher
  import opened DesKeys

  /** The three ciphers of desc.c, with their keys. */
  datatype Suite =
    | Single(key: seq<bv8>)
    | Whitened(key: seq<bv8>, before: Block, after: Block)
    | Triple(key: seq<bv8>, key2: seq<bv8>, key3: seq<bv8>)

  predicate GoodKeys(c: Suite)
  {
    |c.key| == 8 && (c.Triple? ==> |c.key2| == 8 && |c.key3| == 8)
  }

  function XorBlock(a: Block, b: Block): Block
  {
    Block(Xor(a.left, b.left), Xor(a.right, b.right))
  }

  lemma XorBlockTwice(a: Block, b: Block)
    ensures XorBlock(XorBlock(a, b), b) == a
  {
    hide Xor;
    XorTwice(a.left, b.left);
    XorTwice(a.right, b.right);
  }

  lemma XorBoth(x: bv32, y: bv32, z: bv32)
    ensures Xor(x, Xor(y, z)) == Xor(Xor(x, z), y)
  {}

  /** The cipher without chaining, on one block, in one direction. */
  function Transform(sp: Boxes, c: Suite, encrypt: bool, b: Block): Block
    requires GoodKeys(c)
  {
    match c
    case Single(key) => Cipher(sp, b, Schedule(key, encrypt))
    case Whitened(key, before, after) =>
      if encrypt then XorBlock(Cipher(sp, XorBlock(b, before), Schedule(key, true)), after)
      else XorBlock(Cipher(sp, XorBlock(b, after), Schedule(key, false)), before)
    case Triple(key, key2, key3) =>
      var b1 := Cipher(sp, b, Schedule(if encrypt then key else key3, encrypt));
      var b2 := Cipher(sp, b1, Schedule(key2, !encrypt));
      Cipher(sp, b2, Schedule(if encrypt then key3 else key, encrypt))
  }

  /** Each direction of each cipher undoes the other. */
  lemma TransformUndone(sp: Boxes, c: Suite, encrypt: bool, b: Block)
    requires GoodKeys(c)
    ensures Transform(sp, c, !encrypt, Transform(sp, c, encrypt, b)) == b
  {
    hide Cipher, Schedule, XorBlock;
    match c
    case Single(key) => ScheduleUndone(sp, b, key, encrypt);
    case Whitened(key, before, after) =>
      var first, last := if encrypt then before else after, if encrypt then after else before;
      var x := XorBlock(b, first);
      XorBlockTwice(Cipher(sp, x, Schedule(key, encrypt)), last);
      ScheduleUndone(sp, x, key, encrypt);
      XorBlockTwice(b, first);
    case Triple(key, key2, key3) =>
      var first, last := if encrypt then key else key3, if encrypt then key3 else key;
      var b1 := Cipher(sp, b, Schedule(first, encrypt));
      var b2 := Cipher(sp, b1, Schedule(key2, !encrypt));
      ScheduleUndone(sp, b2, last, encrypt);
      ScheduleUndone(sp, b1, key2, !encrypt);
      ScheduleUndone(sp, b, first, encrypt);
  }

  /** One block of cipher block chaining: the output block. */
  function ChainBlock(sp: Boxes, c: Suite, encrypt: bool, iv: Block, b: Block): Block
    requires GoodKeys(c)
  {
    if encrypt then Transform(sp, c, true, XorBlock(b, iv)) else XorBlock(Transform(sp, c, false, b), iv)
  }

  /** What the next block is chained to: always the ciphertext block. */
  function NextIv(sp: Boxes, c: Suite, encrypt: bool, iv: Block, b: Block): Block
    requires GoodKeys(c)
  {
    if encrypt then ChainBlock(sp, c, true, iv, b) else b
  }

  function Chain(sp: Boxes, c: Suite, encrypt: bool, iv: Block, bs: seq<Block>): (r: seq<Block>)
    requires GoodKeys(c)
    ensures |r| == |bs|
    decreases |bs|
  {
    if bs == [] then []
    else [ChainBlock(sp, c, encrypt, iv, bs[0])] + Chain(sp, c, encrypt, NextIv(sp, c, encrypt, iv, bs[0]), bs[1..])
  }

  function ChainIv(sp: Boxes, c: Suite, encrypt: bool, iv: Block, bs: seq<Block>): Block
    requires GoodKeys(c)
    decreases |bs|
  {
    if bs == [] then iv else ChainIv(sp, c, encrypt, NextIv(sp, c, encrypt, iv, bs[0]), bs[1..])
  }

  /** Chaining a message in two parts. */
  lemma {:induction false} ChainSplit(sp: Boxes, c: Suite, encrypt: bool, iv: Block, a: seq<Block>, b: seq<Block>)
    requires GoodKeys(c)
    ensures Chain(sp, c, encrypt, iv, a + b) ==
            Chain(sp, c, encrypt, iv, a) + Chain(sp, c, encrypt, ChainIv(sp, c, encrypt, iv, a), b)
    ensures ChainIv(sp, c, encrypt, iv, a + b) == ChainIv(sp, c, encrypt, ChainIv(sp, c, encrypt, iv, a), b)
    decreases |a|
  {
    hide ChainBlock, NextIv;
    var ab := a + b;
    if a == [] {
      assert ab == b;
    } else {
      var iv' := NextIv(sp, c, encrypt, iv, a[0]);
      assert ab[1..] == a[1..] + b;
      ChainSplit(sp, c, encrypt, iv', a[1..], b);
    }
  }

  lemma BlockUndone(sp: Boxes, c: Suite, encrypt: bool, iv: Block, b: Block)
    requires GoodKeys(c)
    ensures var d := ChainBlock(sp, c, encrypt, iv, b);
      ChainBlock(sp, c, !encrypt, iv, d) == b && NextIv(sp, c, !encrypt, iv, d) == NextIv(sp, c, encrypt, iv, b)
  {
    hide Transform, XorBlock;
    if encrypt {
      TransformUndone(sp, c, true, XorBlock(b, iv));
      XorBlockTwice(b, iv);
    } else {
      var x := Transform(sp, c, false, b);
      XorBlockTwice(x, iv);
      TransformUndone(sp, c, false, b);
    }
  }

  lemma ChainCons(sp: Boxes, c: Suite, encrypt: bool, iv: Block, bs: seq<Block>)
    requires GoodKeys(c) && bs != []
    ensures Chain(sp, c, encrypt, iv, bs) ==
            [ChainBlock(sp, c, encrypt, iv, bs[0])] + Chain(sp, c, encrypt, NextIv(sp, c, encrypt, iv, bs[0]), bs[1..])
  {}

  lemma ChainJoin(sp: Boxes, c: Suite, encrypt: bool, iv: Block, b: Block, bs: seq<Block>)
    requires GoodKeys(c)
    ensures Chain(sp, c, encrypt, iv, [b] + bs) ==
            [ChainBlock(sp, c, encrypt, iv, b)] + Chain(sp, c, encrypt, NextIv(sp, c, encrypt, iv, b), bs)
  {
    var all := [b] + bs;
    ChainCons(sp, c, encrypt, iv, all);
    hide *;
    assert all[1..] == bs;
  }

  lemma ChainEmpty(sp: Boxes, c: Suite, encrypt: bool, iv: Block, bs: seq<Block>)
    requires GoodKeys(c) && bs == []
    ensures Chain(sp, c, encrypt, iv, bs) == bs
  {}

  lemma ChainUndoneStep(sp: Boxes, c: Suite, encrypt: bool, iv: Block, b: Block, rest: seq<Block>)
    requires GoodKeys(c)
    requires var iv' := NextIv(sp, c, encrypt, iv, b);
      Chain(sp, c, !encrypt, iv', Chain(sp, c, encrypt, iv', rest)) == rest
    ensures Chain(sp, c, !encrypt, iv, Chain(sp, c, encrypt, iv, [b] + rest)) == [b] + rest
  {
    hide *;
    var d, done := ChainBlock(sp, c, encrypt, iv, b), Chain(sp, c, encrypt, NextIv(sp, c, encrypt, iv, b), rest);
    BlockUndone(sp, c, encrypt, iv, b);
    ChainJoin(sp, c, encrypt, iv, b, rest);
    ChainJoin(sp, c, !encrypt, iv, d, done);
  }

  /** Chaining in one direction is undone by chaining in the other from the same vector, on messages of
      any number of blocks. */
  lemma {:induction false} ChainUndone(sp: Boxes, c: Suite, encrypt: bool, iv: Block, bs: seq<Block>)
    requires GoodKeys(c)
    ensures Chain(sp, c, !encrypt, iv, Chain(sp, c, encrypt, iv, bs)) == bs
    decreases |bs|
  {
    hide *;
    if bs == [] {
      ChainEmpty(sp, c, encrypt, iv, bs);
      ChainEmpty(sp, c, !encrypt, iv, bs);
    } else {
      var b, rest := bs[0], bs[1..];
      assert bs == [b] + rest;
      ChainUndone(sp, c, encrypt, NextIv(sp, c, encrypt, iv, b), rest);
      ChainUndoneStep(sp, c, encrypt, iv, b, rest);
    }
  }

  /** Block i of cipher block chaining, in both directions: the ciphertext block is the cipher of the plaintext block
      XOR
      the ciphertext block before it, which is the vector for the first. */
  predicate BlockChained(sp: Boxes, c: Suite, plain: Block, cipher: Block, before: Block)
    requires GoodKeys(c)
  {
    cipher == Transform(sp, c, true, XorBlock(plain, before))
      && plain == XorBlock(Transform(sp, c, false, cipher), before)
  }

  ghost predicate ChainedAt(sp: Boxes, c: Suite, iv: Block, plain: seq<Block>, cipher: seq<Block>, i: nat)
    requires GoodKeys(c) && i < |plain| == |cipher|
  {
    BlockChained(sp, c, plain[i], cipher[i], if i == 0 then iv else cipher[i - 1])
  }

  ghost predicate AllChained(sp: Boxes, c: Suite, iv: Block, plain: seq<Block>, cipher: seq<Block>)
    requires GoodKeys(c)
  {
    |plain| == |cipher| && forall i: nat :: i < |plain| ==> ChainedAt(sp, c, iv, plain, cipher, i)
  }

  /** The last ciphertext block, or the vector where there is none. */
  function LastBlock(iv: Block, cipher: seq<Block>): Block
  {
    if cipher == [] then iv else cipher[|cipher| - 1]
  }

  lemma BlockIsChained(sp: Boxes, c: Suite, encrypt: bool, iv: Block, b: Block)
    requires GoodKeys(c)
    ensures var d := ChainBlock(sp, c, encrypt, iv, b);
      BlockChained(sp, c, if encrypt then b else d, if encrypt then d else b, iv)
    ensures NextIv(sp, c, encrypt, iv, b) == if encrypt then ChainBlock(sp, c, encrypt, iv, b) else b
  {
    hide Transform, XorBlock;
    if encrypt {
      var x := XorBlock(b, iv);
      TransformUndone(sp, c, true, x);
      XorBlockTwice(b, iv);
    } else {
      var x := Transform(sp, c, false, b);
      XorBlockTwice(x, iv);
      TransformUndone(sp, c, false, b);
    }
  }

  lemma ChainedCons(sp: Boxes, c: Suite, iv: Block, p: Block, q: Block, plain: seq<Block>, cipher: seq<Block>)
    requires GoodKeys(c) && BlockChained(sp, c, p, q, iv) && AllChained(sp, c, q, plain, cipher)
    ensures AllChained(sp, c, iv, [p] + plain, [q] + cipher)
    ensures LastBlock(iv, [q] + cipher) == LastBlock(q, cipher)
  {
    hide BlockChained, GoodKeys;
    var ps, qs := [p] + plain, [q] + cipher;
    forall i: nat | i < |ps|
      ensures ChainedAt(sp, c, iv, ps, qs, i)
    {
      if i > 0 { assert ChainedAt(sp, c, q, plain, cipher, i - 1); }
    }
  }

  /** The mode is CBC: in either direction every block is chained to the ciphertext block before it, and the vector left
      behind is the last ciphertext block. */
  lemma {:induction false} ChainIsCbc(sp: Boxes, c: Suite, encrypt: bool, iv: Block, bs: seq<Block>)
    requires GoodKeys(c)
    ensures var out := Chain(sp, c, encrypt, iv, bs); var cipher := if encrypt then out else bs;
      && AllChained(sp, c, iv, if encrypt then bs else out, cipher)
      && ChainIv(sp, c, encrypt, iv, bs) == LastBlock(iv, cipher)
    decreases |bs|
  {
    hide ChainBlock, NextIv, BlockChained, GoodKeys;
    if bs != [] {
      var b, rest := bs[0], bs[1..];
      var d, iv' := ChainBlock(sp, c, encrypt, iv, b), NextIv(sp, c, encrypt, iv, b);
      var out := Chain(sp, c, encrypt, iv', rest);
      BlockIsChained(sp, c, encrypt, iv, b);
      ChainIsCbc(sp, c, encrypt, iv', rest);
      assert bs == [b] + rest;
      hide AllChained, LastBlock;
      if encrypt { ChainedCons(sp, c, iv, b, d, rest, out); } else { ChainedCons(sp, c, iv, d, b, out, rest); }
    }
  }

  /** Big-endian packing of eight bytes into two words. */
  function Word(b0: bv8, b1: bv8, b2: bv8, b3: bv8): bv32
  {
    ((b0 as bv32) << 24) | ((b1 as bv32) << 16) | ((b2 as bv32) << 8) | (b3 as bv32)
  }

  function Byte0(w: bv32): bv8 { ((w >> 24) & 0xff) as bv8 }
  function Byte1(w: bv32): bv8 { ((w >> 16) & 0xff) as bv8 }
  function Byte2(w: bv32): bv8 { ((w >> 8) & 0xff) as bv8 }
  function Byte3(w: bv32): bv8 { (w & 0xff) as bv8 }

  lemma WordBytes(b0: bv8, b1: bv8, b2: bv8, b3: bv8)
    ensures var w := Word(b0, b1, b2, b3); Byte0(w) == b0 && Byte1(w) == b1 && Byte2(w) == b2 && Byte3(w) == b3
  {}

  lemma BytesWord(w: bv32)
    ensures Word(Byte0(w), Byte1(w), Byte2(w), Byte3(w)) == w
  {}

  /** Pack */
  function Pack(s: seq<bv8>, at: nat): Block
    requires at + 8 <= |s|
  {
    Block(Word(s[at], s[at + 1], s[at + 2], s[at + 3]), Word(s[at + 4], s[at + 5], s[at + 6], s[at + 7]))
  }

  /** Unpack */
  function Unpack(b: Block): (s: seq<bv8>)
    ensures |s| == 8
  {
    [Byte0(b.left), Byte1(b.left), Byte2(b.left), Byte3(b.left), Byte0(b.right), Byte1(b.right), Byte2(b.right),
      Byte3(b.right)]
  }

  lemma PackUnpack(b: Block)
    ensures Pack(Unpack(b), 0) == b
  {
    hide Word, Byte0, Byte1, Byte2, Byte3;
    BytesWord(b.left);
    BytesWord(b.right);
  }

  lemma UnpackPack(s: seq<bv8>, at: nat)
    requires at + 8 <= |s|
    ensures Unpack(Pack(s, at)) == s[at..at + 8]
  {
    hide Word, Byte0, Byte1, Byte2, Byte3;
    WordBytes(s[at], s[at + 1], s[at + 2], s[at + 3]);
    WordBytes(s[at + 4], s[at + 5], s[at + 6], s[at + 7]);
  }

  /** A message of whole blocks. */
  function Blocks(s: seq<bv8>): (bs: seq<Block>)
    requires |s| % 8 == 0
    ensures |bs| == |s| / 8
    decreases |s|
  {
    if s == [] then [] else [Pack(s, 0)] + Blocks(s[8..])
  }

  function Bytes(bs: seq<Block>): (s: seq<bv8>)
    ensures |s| == 8 * |bs|
    decreases |bs|
  {
    if bs == [] then [] else Unpack(bs[0]) + Bytes(bs[1..])
  }

  lemma {:induction false} BlocksOfBytes(bs: seq<Block>)
    ensures Blocks(Bytes(bs)) == bs
    decreases |bs|
  {
    if bs != [] {
      var s := Bytes(bs);
      hide Unpack;
      assert Pack(s, 0) == bs[0] by { PackUnpack(bs[0]); PackPrefix(Unpack(bs[0]), Bytes(bs[1..])); }
      assert s[8..] == Bytes(bs[1..]);
      BlocksOfBytes(bs[1..]);
    }
  }

  lemma PackPrefix(a: seq<bv8>, b: seq<bv8>)
    requires |a| == 8
    ensures Pack(a + b, 0) == Pack(a, 0)
  {
    hide Word;
  }

  lemma {:induction false} BytesOfBlocks(s: seq<bv8>)
    requires |s| % 8 == 0
    ensures Bytes(Blocks(s)) == s
    decreases |s|
  {
    if s != [] {
      hide Unpack, Pack;
      UnpackPack(s, 0);
      BytesOfBlocks(s[8..]);
      assert s == s[0..8] + s[8..];
    }
  }

  lemma PackSlice(s: seq<bv8>, at: nat)
    requires at + 8 <= |s|
    ensures Pack(s, at) == Pack(s[at..at + 8], 0)
  {
    hide Word;
  }

  lemma BlocksOne(s: seq<bv8>)
    requires |s| == 8
    ensures Blocks(s) == [Pack(s, 0)]
  {
    assert s[8..] == [];
  }

  lemma BlocksSnoc(s: seq<bv8>, n: nat)
    requires 8 * n + 8 <= |s|
    ensures Blocks(s[..8 * n + 8]) == Blocks(s[..8 * n]) + [Pack(s, 8 * n)]
  {
    hide *;
    PackSlice(s, 8 * n);
    BlocksOne(s[8 * n..8 * n + 8]);
    BlocksJoin(s[..8 * n], s[8 * n..8 * n + 8]);
    assert s[..8 * n + 8] == s[..8 * n] + s[8 * n..8 * n + 8];
  }

  lemma {:induction false} BytesSnoc(bs: seq<Block>, b: Block)
    ensures Bytes(bs + [b]) == Bytes(bs) + Unpack(b)
    decreases |bs|
  {
    hide Unpack;
    var all := bs + [b];
    if bs != [] {
      assert all[1..] == bs[1..] + [b];
      BytesSnoc(bs[1..], b);
    } else {
      assert all[1..] == [];
    }
  }

  lemma {:induction false} BlocksJoin(s: seq<bv8>, t: seq<bv8>)
    requires |s| % 8 == 0 && |t| % 8 == 0
    ensures Blocks(s + t) == Blocks(s) + Blocks(t)
    decreases |s|
  {
    var st := s + t;
    if s == [] {
      assert st == t;
    } else {
      assert st[8..] == s[8..] + t;
      assert Pack(st, 0) == Pack(s, 0) by { hide Word; }
      hide Pack;
      BlocksJoin(s[8..], t);
    }
  }

  lemma {:induction false} BytesJoin(a: seq<Block>, b: seq<Block>)
    ensures Bytes(a + b) == Bytes(a) + Bytes(b)
    decreases |a|
  {
    hide Unpack;
    var ab := a + b;
    if a == [] {
      assert ab == b;
    } else {
      assert ab[1..] == a[1..] + b;
      BytesJoin(a[1..], b);
    }
  }

  /** What one update call puts out, and the vector it leaves in the context. */
  function Update(sp: Boxes, c: Suite, encrypt: bool, iv: Block, input: seq<bv8>): (out: seq<bv8>)
    requires GoodKeys(c) && |input| % 8 == 0
    ensures |out| == |input|
  {
    Bytes(Chain(sp, c, encrypt, iv, Blocks(input)))
  }

  function IvAfter(sp: Boxes, c: Suite, encrypt: bool, iv: Block, input: seq<bv8>): Block
    requires GoodKeys(c) && |input| % 8 == 0
  {
    ChainIv(sp, c, encrypt, iv, Blocks(input))
  }

  lemma {:induction false} BlockAt(s: seq<bv8>, i: nat)
    requires |s| % 8 == 0 && 8 * i + 8 <= |s|
    ensures Blocks(s)[i] == Pack(s, 8 * i)
    decreases i
  {
    if i > 0 {
      BlockAt(s[8..], i - 1);
      hide Word;
    }
  }

  /** Block i of a message is chained, in terms of the eight bytes at 8 * i. */
  ghost predicate BytesChained(sp: Boxes, c: Suite, iv: Block, plain: seq<bv8>, cipher: seq<bv8>, i: nat)
    requires GoodKeys(c) && |plain| == |cipher| && 8 * i + 8 <= |plain|
  {
    BlockChained(sp, c, Pack(plain, 8 * i), Pack(cipher, 8 * i), if i == 0 then iv else Pack(cipher, 8 * (i - 1)))
  }

  /** The input and the output of an update are the plaintext and the ciphertext of cipher block chaining, or the other
      way round, and the vector left behind is the last block of the ciphertext. */
  ghost predicate IsCbc(sp: Boxes, c: Suite, encrypt: bool, iv: Block, input: seq<bv8>, output: seq<bv8>, iv': Block)
    requires GoodKeys(c)
  {
    var plain, cipher := if encrypt then input else output, if encrypt then output else input;
    && |plain| == |cipher|
    && (forall i: nat :: i < |plain| / 8 ==> BytesChained(sp, c, iv, plain, cipher, i))
    && iv' == if |cipher| < 8 then iv else Pack(cipher, |cipher| - 8)
  }

  lemma UpdateIsCbc(sp: Boxes, c: Suite, encrypt: bool, iv: Block, input: seq<bv8>)
    requires GoodKeys(c) && |input| % 8 == 0
    ensures IsCbc(sp, c, encrypt, iv, input, Update(sp, c, encrypt, iv, input), IvAfter(sp, c, encrypt, iv, input))
  {
    hide Blocks, Bytes, Chain, ChainIv, BytesChained, AllChained, Pack, LastBlock, GoodKeys;
    var bs := Blocks(input);
    var out := Chain(sp, c, encrypt, iv, bs);
    BlocksOfBytes(out);
    ChainIsCbc(sp, c, encrypt, iv, bs);
    if encrypt {
      CbcBytes(sp, c, iv, input, Bytes(out));
    } else {
      CbcBytes(sp, c, iv, Bytes(out), input);
    }
  }

  lemma CbcBytes(sp: Boxes, c: Suite, iv: Block, plain: seq<bv8>, cipher: seq<bv8>)
    requires GoodKeys(c) && |plain| == |cipher| && |plain| % 8 == 0
    requires AllChained(sp, c, iv, Blocks(plain), Blocks(cipher))
    ensures forall i: nat :: i < |plain| / 8 ==> BytesChained(sp, c, iv, plain, cipher, i)
    ensures LastBlock(iv, Blocks(cipher)) == if |cipher| < 8 then iv else Pack(cipher, |cipher| - 8)
  {
    hide Blocks, BlockChained, Pack, GoodKeys;
    forall i: nat | i < |plain| / 8
      ensures BytesChained(sp, c, iv, plain, cipher, i)
    {
      assert ChainedAt(sp, c, iv, Blocks(plain), Blocks(cipher), i);
      BlockAt(plain, i);
      BlockAt(cipher, i);
      if i > 0 { BlockAt(cipher, i - 1); }
    }
    if |cipher| >= 8 { BlockAt(cipher, |cipher| / 8 - 1); }
  }

  lemma UpdateSplit(sp: Boxes, c: Suite, encrypt: bool, iv: Block, a: seq<bv8>, b: seq<bv8>)
    requires GoodKeys(c) && |a| % 8 == 0 && |b| % 8 == 0
    ensures Update(sp, c, encrypt, iv, a + b) ==
            Update(sp, c, encrypt, iv, a) + Update(sp, c, encrypt, IvAfter(sp, c, encrypt, iv, a), b)
  {
    BlocksJoin(a, b);
    ChainSplit(sp, c, encrypt, iv, Blocks(a), Blocks(b));
    hide Blocks, Chain, ChainIv, Bytes;
    BytesJoin(Chain(sp, c, encrypt, iv, Blocks(a)),
      Chain(sp, c, encrypt, ChainIv(sp, c, encrypt, iv, Blocks(a)), Blocks(b)));
  }

  ghost predicate WholeBlocks(chunks: seq<seq<bv8>>)
  {
    forall i :: 0 <= i < |chunks| ==> |chunks[i]| % 8 == 0
  }

  /** What a run of update calls puts out altogether. */
  ghost function Run(sp: Boxes, c: Suite, encrypt: bool, iv: Block, chunks: seq<seq<bv8>>): seq<bv8>
    requires GoodKeys(c) && WholeBlocks(chunks)
    decreases |chunks|
  {
    if chunks == [] then []
    else
      Update(sp, c, encrypt, iv, chunks[0])
      + Run(sp, c, encrypt, IvAfter(sp, c, encrypt, iv, chunks[0]), chunks[1..])
  }

  /** However a message is cut into update calls, the output is the same. */
  lemma {:induction false} RunIsUpdate(sp: Boxes, c: Suite, encrypt: bool, iv: Block, chunks: seq<seq<bv8>>)
    requires GoodKeys(c) && WholeBlocks(chunks)
    ensures |Concat(chunks)| % 8 == 0
    ensures Run(sp, c, encrypt, iv, chunks) == Update(sp, c, encrypt, iv, Concat(chunks))
    decreases |chunks|
  {
    if chunks != [] {
      RunIsUpdate(sp, c, encrypt, IvAfter(sp, c, encrypt, iv, chunks[0]), chunks[1..]);
      hide Update, IvAfter;
      UpdateSplit(sp, c, encrypt, iv, chunks[0], Concat(chunks[1..]));
    }
  }

  lemma UpdateUndone(sp: Boxes, c: Suite, encrypt: bool, iv: Block, s: seq<bv8>)
    requires GoodKeys(c) && |s| % 8 == 0
    ensures Update(sp, c, !encrypt, iv, Update(sp, c, encrypt, iv, s)) == s
  {
    var bs := Blocks(s);
    BlocksOfBytes(Chain(sp, c, encrypt, iv, bs));
    ChainUndone(sp, c, encrypt, iv, bs);
    BytesOfBlocks(s);
    hide Blocks, Chain, Bytes;
  }

  /** The law of the cipher: for every key, vector and message of whole blocks, decryption gives back the
      message, however the message and however the ciphertext were cut into update calls. */
  lemma DecryptionInvertsEncryption(sp: Boxes, c: Suite, encrypt: bool, iv: Block, chunks: seq<seq<bv8>>,
                                    cut: seq<seq<bv8>>)
    requires GoodKeys(c) && WholeBlocks(chunks) && WholeBlocks(cut)
    requires Concat(cut) == Run(sp, c, encrypt, iv, chunks)
    ensures Run(sp, c, !encrypt, iv, cut) == Concat(chunks)
  {
    RunIsUpdate(sp, c, encrypt, iv, chunks);
    RunIsUpdate(sp, c, !encrypt, iv, cut);
    UpdateUndone(sp, c, encrypt, iv, Concat(chunks));
  }
}
