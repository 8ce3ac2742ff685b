/** The DES block transform and its key schedule (desc.c), over arbitrary S-box tables. */
module DesCipher {

  /** The combined substitution and permutation tables SP1 to SP8; each is read at six bits. */
  datatype Boxes = Boxes(sp1: bv32 -> bv32, sp2: bv32 -> bv32, sp3: bv32 -> bv32, sp4: bv32 -> bv32,
                         sp5: bv32 -> bv32, sp6: bv32 -> bv32, sp7: bv32 -> bv32, sp8: bv32 -> bv32)

  datatype Block = Block(left: bv32, right: bv32)
  datatype RoundKey = RoundKey(even: bv32, odd: bv32)

  function Swapped(b: Block): Block
  {
    Block(b.right, b.left)
  }

  function Xor(x: bv32, y: bv32): bv32
  {
    x ^ y
  }

  /** The bits in which x, moved n places down, and y differ under the mask m. */
  function Differ(n: bv32, m: bv32, x: bv32, y: bv32): bv32
    requires n < 32
  {
    ((x >> n) ^ y) & m
  }

  function Up(n: bv32, w: bv32): bv32
    requires n < 32
  {
    w << n
  }

  function DifferOdd(x: bv32, y: bv32): bv32
  {
    (x ^ y) & 0xaaaaaaaa
  }

  /** Exchanging bits of two words: those of y under the mask m with those of x that are n places further up. */
  function Exchange(n: bv32, m: bv32, x: bv32, y: bv32): Block
    requires n < 32
  {
    var work := Differ(n, m, x, y);
    Block(Xor(x, Up(n, work)), Xor(y, work))
  }

  function ExchangeOdd(x: bv32, y: bv32): Block
  {
    var work := DifferOdd(x, y);
    Block(Xor(x, work), Xor(y, work))
  }

  function RotateUp(x: bv32): bv32
  {
    ((x << 1) | ((x >> 31) & 1)) & 0xffffffff
  }

  function RotateDown(x: bv32): bv32
  {
    (x << 31) | (x >> 1)
  }

  lemma XorTwice(x: bv32, w: bv32)
    ensures Xor(Xor(x, w), w) == x
  {}

  /** The masks of the code: every other group of n bits. */
  predicate Regular(n: bv32, m: bv32)
  {
    || (n == 4 && m == 0x0f0f0f0f)
    || (n == 16 && m == 0x0000ffff)
    || (n == 2 && m == 0x33333333)
    || (n == 8 && m == 0x00ff00ff)
  }

  lemma DifferIs(n: bv32, m: bv32, x: bv32, y: bv32)
    requires n < 32
    ensures Differ(n, m, x, y) == ((x >> n) ^ y) & m
  {}

  lemma UpIs(n: bv32, w: bv32)
    requires n < 32
    ensures Up(n, w) == w << n
  {}

  lemma XorIs(x: bv32, w: bv32)
    ensures Xor(x, w) == x ^ w
  {}

  lemma DifferSame(n: bv32, m: bv32, x: bv32, y: bv32, w: bv32)
    requires Regular(n, m) && n < 32 && w == Differ(n, m, x, y)
    ensures Differ(n, m, Xor(x, Up(n, w)), Xor(y, w)) == w
  {
    hide *;
    var u := Up(n, w);
    var x', y' := Xor(x, u), Xor(y, w);
    DifferIs(n, m, x, y);
    UpIs(n, w);
    XorIs(x, u);
    XorIs(y, w);
    RawSame(n, m, x, y, w, u, x', y');
    DifferIs(n, m, x', y');
  }

  lemma RawSame(n: bv32, m: bv32, x: bv32, y: bv32, w: bv32, u: bv32, x': bv32, y': bv32)
    requires Regular(n, m) && w == ((x >> n) ^ y) & m && u == w << n && x' == x ^ u && y' == y ^ w
    ensures ((x' >> n) ^ y') & m == w
  {}

  lemma DifferOddSame(x: bv32, y: bv32, w: bv32)
    requires w == DifferOdd(x, y)
    ensures DifferOdd(Xor(x, w), Xor(y, w)) == w && DifferOdd(y, x) == w
  {}

  lemma ExchangeUndone(n: bv32, m: bv32, x: bv32, y: bv32)
    requires Regular(n, m) && n < 32
    ensures var b := Exchange(n, m, x, y); Exchange(n, m, b.left, b.right) == Block(x, y)
  {
    hide Differ, Up, Xor;
    var w := Differ(n, m, x, y);
    DifferSame(n, m, x, y, w);
    XorTwice(x, Up(n, w));
    XorTwice(y, w);
  }

  lemma ExchangeOddUndone(x: bv32, y: bv32)
    ensures var b := ExchangeOdd(x, y); ExchangeOdd(b.left, b.right) == Block(x, y) && ExchangeOdd(y, x) == Swapped(b)
  {
    hide DifferOdd, Xor;
    var w := DifferOdd(x, y);
    DifferOddSame(x, y, w);
    XorTwice(x, w);
    XorTwice(y, w);
  }

  lemma RotationsUndone(x: bv32)
    ensures RotateUp(RotateDown(x)) == x
    ensures RotateDown(RotateUp(x)) == x
  {
  }

  /** The exchanges before the rounds. */
  function Initial(b: Block): Block
  {
    var c1 := Exchange(4, 0x0f0f0f0f, b.left, b.right);
    var c2 := Exchange(16, 0x0000ffff, c1.left, c1.right);
    var c3 := Exchange(2, 0x33333333, c2.right, c2.left);
    var c4 := Exchange(8, 0x00ff00ff, c3.left, c3.right);
    var c5 := ExchangeOdd(c4.right, RotateUp(c4.left));
    Block(RotateUp(c5.left), c5.right)
  }

  /** The exchanges after the rounds. */
  function Final(b: Block): Block
  {
    var c1 := ExchangeOdd(b.left, RotateDown(b.right));
    var c2 := Exchange(8, 0x00ff00ff, RotateDown(c1.left), c1.right);
    var c3 := Exchange(2, 0x33333333, c2.left, c2.right);
    var c4 := Exchange(16, 0x0000ffff, c3.right, c3.left);
    Exchange(4, 0x0f0f0f0f, c4.left, c4.right)
  }

  /** The final exchanges undo the initial ones, up to the order of the halves, and the other way round. */
  lemma InitialFinal(b: Block)
    ensures Initial(Final(b)) == Swapped(b)
  {
    hide Exchange, ExchangeOdd, RotateUp, RotateDown;
    var c1 := ExchangeOdd(b.left, RotateDown(b.right));
    var c2 := Exchange(8, 0x00ff00ff, RotateDown(c1.left), c1.right);
    var c3 := Exchange(2, 0x33333333, c2.left, c2.right);
    var c4 := Exchange(16, 0x0000ffff, c3.right, c3.left);
    ExchangeUndone(4, 0x0f0f0f0f, c4.left, c4.right);
    ExchangeUndone(16, 0x0000ffff, c3.right, c3.left);
    ExchangeUndone(2, 0x33333333, c2.left, c2.right);
    ExchangeUndone(8, 0x00ff00ff, RotateDown(c1.left), c1.right);
    RotationsUndone(c1.left);
    ExchangeOddUndone(b.left, RotateDown(b.right));
    ExchangeOddUndone(c1.left, c1.right);
    RotationsUndone(b.right);
  }

  lemma FinalInitial(b: Block)
    ensures Final(Swapped(Initial(b))) == b
  {
    hide Exchange, ExchangeOdd, RotateUp, RotateDown;
    var c1 := Exchange(4, 0x0f0f0f0f, b.left, b.right);
    var c2 := Exchange(16, 0x0000ffff, c1.left, c1.right);
    var c3 := Exchange(2, 0x33333333, c2.right, c2.left);
    var c4 := Exchange(8, 0x00ff00ff, c3.left, c3.right);
    var c5 := ExchangeOdd(c4.right, RotateUp(c4.left));
    RotationsUndone(c5.left);
    ExchangeOddUndone(c4.right, RotateUp(c4.left));
    ExchangeOddUndone(c5.left, c5.right);
    RotationsUndone(c4.left);
    ExchangeUndone(8, 0x00ff00ff, c3.left, c3.right);
    ExchangeUndone(2, 0x33333333, c2.right, c2.left);
    ExchangeUndone(16, 0x0000ffff, c1.left, c1.right);
    ExchangeUndone(4, 0x0f0f0f0f, b.left, b.right);
  }

  function RotateRight4(x: bv32): bv32
  {
    (x << 28) | (x >> 4)
  }

  /** Six of the bits of x, from the given place on. */
  function Six0(x: bv32): bv32 { x & 0x3f }
  function Six8(x: bv32): bv32 { (x >> 8) & 0x3f }
  function Six16(x: bv32): bv32 { (x >> 16) & 0x3f }
  function Six24(x: bv32): bv32 { (x >> 24) & 0x3f }

  /** The round function: what half x contributes to the other half under a round key. */
  function Scrambled(sp: Boxes, x: bv32, k: RoundKey): bv32
  {
    var w0, w1 := Xor(RotateRight4(x), k.even), Xor(x, k.odd);
    sp.sp7(Six0(w0)) | sp.sp5(Six8(w0)) | sp.sp3(Six16(w0)) | sp.sp1(Six24(w0))
    | sp.sp8(Six0(w1)) | sp.sp6(Six8(w1)) | sp.sp4(Six16(w1)) | sp.sp2(Six24(w1))
  }

  /** One round of a Feistel network: the halves change places. */
  function Round(sp: Boxes, b: Block, k: RoundKey): Block
  {
    Block(b.right, Xor(b.left, Scrambled(sp, b.right, k)))
  }

  function Rounds(sp: Boxes, b: Block, ks: seq<RoundKey>): Block
    decreases |ks|
  {
    if ks == [] then b else Rounds(sp, Round(sp, b, ks[0]), ks[1..])
  }

  function Reversed(ks: seq<RoundKey>): (r: seq<RoundKey>)
    ensures |r| == |ks|
  {
    if ks == [] then [] else Reversed(ks[1..]) + [ks[0]]
  }

  lemma {:induction false} RoundsSnoc(sp: Boxes, b: Block, ks: seq<RoundKey>, k: RoundKey)
    ensures Rounds(sp, b, ks + [k]) == Round(sp, Rounds(sp, b, ks), k)
    decreases |ks|
  {
    hide Round;
    var all := ks + [k];
    if ks != [] {
      assert all[1..] == ks[1..] + [k];
      RoundsSnoc(sp, Round(sp, b, ks[0]), ks[1..], k);
    } else {
      assert all[1..] == [];
    }
  }

  lemma RoundUndone(sp: Boxes, b: Block, k: RoundKey)
    ensures Round(sp, Swapped(Round(sp, b, k)), k) == Swapped(b)
  {
    hide Scrambled, Xor;
    XorTwice(b.left, Scrambled(sp, b.right, k));
  }

  /** Any number of rounds is undone by the same rounds with the keys in the reversed order. */
  lemma {:induction false} RoundsUndone(sp: Boxes, b: Block, ks: seq<RoundKey>)
    ensures Rounds(sp, Swapped(Rounds(sp, b, ks)), Reversed(ks)) == Swapped(b)
    decreases |ks|
  {
    hide Round, Swapped;
    if ks != [] {
      var b' := Round(sp, b, ks[0]);
      RoundsUndone(sp, b', ks[1..]);
      RoundsSnoc(sp, Swapped(Rounds(sp, b', ks[1..])), Reversed(ks[1..]), ks[0]);
      RoundUndone(sp, b, ks[0]);
    }
  }

  /** DES on one block. */
  function Cipher(sp: Boxes, b: Block, ks: seq<RoundKey>): Block
  {
    Final(Rounds(sp, Initial(b), ks))
  }

  /** The cipher with the reversed keys undoes the cipher. */
  lemma CipherUndone(sp: Boxes, b: Block, ks: seq<RoundKey>)
    ensures Cipher(sp, Cipher(sp, b, ks), Reversed(ks)) == b
  {
    hide Initial, Final, Rounds, Swapped, Reversed;
    var r := Rounds(sp, Initial(b), ks);
    InitialFinal(r);
    RoundsUndone(sp, Initial(b), ks);
    FinalInitial(b);
  }

  lemma {:induction false} ReversedAt(ks: seq<RoundKey>, i: nat)
    requires i < |ks|
    ensures Reversed(ks)[i] == ks[|ks| - 1 - i]
    decreases |ks|
  {
    if i < |ks| - 1 { ReversedAt(ks[1..], i); }
  }

  lemma ReversedTwice(ks: seq<RoundKey>)
    ensures Reversed(Reversed(ks)) == ks
  {
    forall i | 0 <= i < |ks|
      ensures Reversed(Reversed(ks))[i] == ks[i]
    {
      ReversedAt(Reversed(ks), i);
      ReversedAt(ks, |ks| - 1 - i);
    }
  }

  /** A key schedule of 32 words as 16 round keys. */
  function KeyPairs(w: seq<bv32>): (ks: seq<RoundKey>)
    requires |w| == 32
    ensures |ks| == 16
  {
    seq(16, i requires 0 <= i < 16 => RoundKey(w[2 * i], w[2 * i + 1]))
  }

  /** One round on a half, as the code computes it. */
  method Contribution(sp: Boxes, x: bv32, k0: bv32, k1: bv32) returns (fval: bv32)
    ensures fval == Scrambled(sp, x, RoundKey(k0, k1))
  {
    var work := RotateRight4(x);
    work := Xor(work, k0);
    fval := sp.sp7(Six0(work));
    fval := fval | sp.sp5(Six8(work));
    fval := fval | sp.sp3(Six16(work));
    fval := fval | sp.sp1(Six24(work));
    work := Xor(x, k1);
    fval := fval | sp.sp8(Six0(work));
    fval := fval | sp.sp6(Six8(work));
    fval := fval | sp.sp4(Six16(work));
    fval := fval | sp.sp2(Six24(work));
  }

  /** One pass of the loop over the rounds, which makes two of them. */
  method Pass(sp: Boxes, b: Block, subkeys: seq<bv32>, round: nat) returns (b': Block)
    requires |subkeys| == 32 && round < 8
    ensures b' == Round(sp, Round(sp, b, RoundKey(subkeys[4 * round], subkeys[4 * round + 1])),
      RoundKey(subkeys[4 * round + 2], subkeys[4 * round + 3]))
  {
    hide Scrambled, Xor;
    var left, right, k := b.left, b.right, 4 * round;
    var fval := Contribution(sp, right, subkeys[k], subkeys[k + 1]);
    left := Xor(left, fval);
    fval := Contribution(sp, left, subkeys[k + 2], subkeys[k + 3]);
    right := Xor(right, fval);
    b' := Block(left, right);
  }

  lemma RoundsPass(sp: Boxes, b: Block, w: seq<bv32>, round: nat)
    requires |w| == 32 && round < 8
    ensures Rounds(sp, b, KeyPairs(w)[..2 * (round + 1)]) ==
            Round(sp, Round(sp, Rounds(sp, b, KeyPairs(w)[..2 * round]), RoundKey(w[4 * round], w[4 * round + 1])),
                  RoundKey(w[4 * round + 2], w[4 * round + 3]))
  {
    var i, ks := 2 * round, KeyPairs(w);
    KeyPairsAt(w, i);
    KeyPairsAt(w, i + 1);
    hide Round, Rounds, KeyPairs;
    assert ks[i] == RoundKey(w[4 * round], w[4 * round + 1]);
    assert ks[i + 1] == RoundKey(w[4 * round + 2], w[4 * round + 3]);
    TwoRounds(sp, b, ks, i);
    assert i + 2 == 2 * (round + 1);
  }

  /** The sixteen rounds. */
  method RunRounds(sp: Boxes, b0: Block, subkeys: seq<bv32>) returns (b: Block)
    requires |subkeys| == 32
    ensures b == Rounds(sp, b0, KeyPairs(subkeys))
  {
    b := b0;
    ghost var ks := KeyPairs(subkeys);
    NoRounds(sp, b0, ks[..0]);
    hide *;
    for round := 0 to 8
      invariant b == Rounds(sp, b0, ks[..2 * round])
    {
      b := Pass(sp, b, subkeys, round);
      RoundsPass(sp, b0, subkeys, round);
    }
    assert ks[..16] == ks;
  }

  lemma KeyPairsAt(w: seq<bv32>, i: nat)
    requires |w| == 32 && i < 16
    ensures KeyPairs(w)[i] == RoundKey(w[2 * i], w[2 * i + 1])
  {}

  lemma NoRounds(sp: Boxes, b: Block, ks: seq<RoundKey>)
    requires ks == []
    ensures Rounds(sp, b, ks) == b
  {}

  lemma TwoRounds(sp: Boxes, b: Block, ks: seq<RoundKey>, i: nat)
    requires i + 2 <= |ks|
    ensures Rounds(sp, b, ks[..i + 2]) == Round(sp, Round(sp, Rounds(sp, b, ks[..i]), ks[i]), ks[i + 1])
  {
    hide Round, Rounds;
    assert ks[..i + 2] == ks[..i + 1] + [ks[i + 1]];
    assert ks[..i + 1] == ks[..i] + [ks[i]];
    RoundsSnoc(sp, b, ks[..i], ks[i]);
    RoundsSnoc(sp, b, ks[..i + 1], ks[i + 1]);
  }

  /** DESFunction: the block in place. */
  method DESFunction(sp: Boxes, block: array<bv32>, subkeys: seq<bv32>)
    requires block.Length == 2 && |subkeys| == 32
    modifies block
    ensures Block(block[0], block[1]) == Cipher(sp, old(Block(block[0], block[1])), KeyPairs(subkeys))
  {
    hide Xor, Differ, DifferOdd, Up, RotateUp, RotateDown, Rounds, KeyPairs;
    var left, right := block[0], block[1];
    var work := Differ(4, 0x0f0f0f0f, left, right);
    right := Xor(right, work);
    left := Xor(left, Up(4, work));
    work := Differ(16, 0x0000ffff, left, right);
    right := Xor(right, work);
    left := Xor(left, Up(16, work));
    work := Differ(2, 0x33333333, right, left);
    left := Xor(left, work);
    right := Xor(right, Up(2, work));
    work := Differ(8, 0x00ff00ff, right, left);
    left := Xor(left, work);
    right := Xor(right, Up(8, work));
    right := RotateUp(right);
    work := DifferOdd(left, right);
    left := Xor(left, work);
    right := Xor(right, work);
    left := RotateUp(left);
    assert Block(left, right) == Initial(old(Block(block[0], block[1])));
    var b := RunRounds(sp, Block(left, right), subkeys);
    left, right := b.left, b.right;
    right := RotateDown(right);
    work := DifferOdd(left, right);
    left := Xor(left, work);
    right := Xor(right, work);
    left := RotateDown(left);
    work := Differ(8, 0x00ff00ff, left, right);
    right := Xor(right, work);
    left := Xor(left, Up(8, work));
    work := Differ(2, 0x33333333, left, right);
    right := Xor(right, work);
    left := Xor(left, Up(2, work));
    work := Differ(16, 0x0000ffff, right, left);
    left := Xor(left, work);
    right := Xor(right, Up(16, work));
    work := Differ(4, 0x0f0f0f0f, right, left);
    left := Xor(left, work);
    right := Xor(right, Up(4, work));
    block[0] := right;
    block[1] := left;
  }
}
