/** The block transform of desc.c against the definitions of FIPS 46-3. The code keeps both halves rotated up
    by one bit; bits are numbered from 1 at the most significant end, as in the standard. */
module DesStandard {
  import opened DesCipher
  import opened DesKeys

  /** The selection E: the six bits of a half for S-box j, which overlap their neighbours by one bit each. */
  function Select1(r: bv32): bv32 { ((r << 31) | (r >> 1)) >> 26 }
  function Select2(r: bv32): bv32 { ((r << 3) | (r >> 29)) >> 26 }
  function Select3(r: bv32): bv32 { ((r << 7) | (r >> 25)) >> 26 }
  function Select4(r: bv32): bv32 { ((r << 11) | (r >> 21)) >> 26 }
  function Select5(r: bv32): bv32 { ((r << 15) | (r >> 17)) >> 26 }
  function Select6(r: bv32): bv32 { ((r << 19) | (r >> 13)) >> 26 }
  function Select7(r: bv32): bv32 { ((r << 23) | (r >> 9)) >> 26 }
  function Select8(r: bv32): bv32 { ((r << 27) | (r >> 5)) >> 26 }

  /** A 24-bit half of a round key in groups of six, from its most significant bit on. */
  function Group0(k: bv32): bv32 { (k >> 18) & 0x3f }
  function Group1(k: bv32): bv32 { (k >> 12) & 0x3f }
  function Group2(k: bv32): bv32 { (k >> 6) & 0x3f }
  function Group3(k: bv32): bv32 { k & 0x3f }

  lemma EvenSelected(r: bv32)
    ensures var x := RotateRight4(RotateUp(r));
      Six24(x) == Select1(r) && Six16(x) == Select3(r) && Six8(x) == Select5(r) && Six0(x) == Select7(r)
  {}

  lemma OddSelected(r: bv32)
    ensures var x := RotateUp(r);
      Six24(x) == Select2(r) && Six16(x) == Select4(r) && Six8(x) == Select6(r) && Six0(x) == Select8(r)
  {}

  lemma EvenCooked(even: bv32, odd: bv32)
    ensures var k := CookedEven(RoundKey(even, odd));
      Six24(k) == Group0(even) && Six16(k) == Group2(even) && Six8(k) == Group0(odd) && Six0(k) == Group2(odd)
  {}

  lemma OddCooked(even: bv32, odd: bv32)
    ensures var k := CookedOdd(RoundKey(even, odd));
      Six24(k) == Group1(even) && Six16(k) == Group3(even) && Six8(k) == Group1(odd) && Six0(k) == Group3(odd)
  {}

  lemma MaskXor(x: bv32, y: bv32)
    ensures (x ^ y) & 0x3f == (x & 0x3f) ^ (y & 0x3f)
  {}

  lemma SixXor0(x: bv32, y: bv32)
    ensures Six0(Xor(x, y)) == Xor(Six0(x), Six0(y))
  {
    MaskXor(x, y);
  }

  lemma SixXor8(x: bv32, y: bv32)
    ensures Six8(Xor(x, y)) == Xor(Six8(x), Six8(y))
  {
    MaskXor(x >> 8, y >> 8);
  }

  lemma SixXor16(x: bv32, y: bv32)
    ensures Six16(Xor(x, y)) == Xor(Six16(x), Six16(y))
  {
    MaskXor(x >> 16, y >> 16);
  }

  lemma SixXor24(x: bv32, y: bv32)
    ensures Six24(Xor(x, y)) == Xor(Six24(x), Six24(y))
  {
    MaskXor(x >> 24, y >> 24);
  }

  /** The index that the code gives to each S-box table is the standard's: the selected bits of the half, XOR
      the six bits of the round key for that box. */
  lemma ScrambledIsStandard(sp: Boxes, r: bv32, raw: RoundKey)
    ensures Scrambled(sp, RotateUp(r), Cooked(raw)) ==
      sp.sp7(Xor(Select7(r), Group2(raw.odd))) | sp.sp5(Xor(Select5(r), Group0(raw.odd)))
      | sp.sp3(Xor(Select3(r), Group2(raw.even))) | sp.sp1(Xor(Select1(r), Group0(raw.even)))
      | sp.sp8(Xor(Select8(r), Group3(raw.odd))) | sp.sp6(Xor(Select6(r), Group1(raw.odd)))
      | sp.sp4(Xor(Select4(r), Group3(raw.even))) | sp.sp2(Xor(Select2(r), Group1(raw.even)))
  {
    hide Six0, Six8, Six16, Six24, Xor, RotateRight4, RotateUp, CookedEven, CookedOdd, Group0, Group1, Group2, Group3,
         Select1, Select2, Select3, Select4, Select5, Select6, Select7, Select8;
    var x, k := RotateUp(r), Cooked(raw);
    var y := RotateRight4(x);
    EvenSelected(r);
    OddSelected(r);
    EvenCooked(raw.even, raw.odd);
    OddCooked(raw.even, raw.odd);
    SixXor0(y, k.even);
    SixXor8(y, k.even);
    SixXor16(y, k.even);
    SixXor24(y, k.even);
    SixXor0(x, k.odd);
    SixXor8(x, k.odd);
    SixXor16(x, k.odd);
    SixXor24(x, k.odd);
    assert raw == RoundKey(raw.even, raw.odd);
  }

  /** Bit i of two words, counted from 0 at the most significant end of the first. */
  function PairBit(l: bv32, r: bv32, i: bv32): bv32
    requires i < 64
  {
    if i < 32 then (l >> (31 - i)) & 1 else (r >> (63 - i)) & 1
  }

  lemma PairBitIs(l: bv32, r: bv32, i: bv32)
    requires i < 64
    ensures PairBit(l, r, i) == if i < 32 then (l >> (31 - i)) & 1 else (r >> (63 - i)) & 1
  {}

  /** Where the bit in place i comes from when groups of n bits are exchanged. */
  function From(n: bv32, i: bv32): bv32
  {
    if i < 32 && (31 - i) & n != 0 then i + 32 + n else if i >= 32 && (31 - i) & n == 0 then i - 32 - n else i
  }

  lemma Raw(n: bv32, m: bv32, x: bv32, y: bv32, i: bv32, x': bv32, y': bv32, w: bv32, u: bv32, j: bv32)
    requires Regular(n, m)
    requires i < 64 && w == ((x >> n) ^ y) & m && u == w << n && x' == x ^ u && y' == y ^ w
    requires j == if i < 32 && (31 - i) & n != 0 then i + 32 + n
      else if i >= 32 && (31 - i) & n == 0 then i - 32 - n else i
    ensures j < 64
    ensures (if i < 32 then (x' >> (31 - i)) & 1 else (y' >> (63 - i)) & 1)
      == if j < 32 then (x >> (31 - j)) & 1 else (y >> (63 - j)) & 1
  {}

  lemma FromIs(n: bv32, i: bv32)
    ensures From(n, i) == if i < 32 && (31 - i) & n != 0 then i + 32 + n
      else if i >= 32 && (31 - i) & n == 0 then i - 32 - n else i
  {}

  lemma Moves(n: bv32, m: bv32, x: bv32, y: bv32, i: bv32)
    requires Regular(n, m) && n < 32 && i < 64
    ensures From(n, i) < 64 && var b := Exchange(n, m, x, y); PairBit(b.left, b.right, i) == PairBit(x, y, From(n, i))
  {
    hide Differ, Up, Xor, PairBit, From, Regular;
    var w := Differ(n, m, x, y);
    var u := Up(n, w);
    var x', y', j := Xor(x, u), Xor(y, w), From(n, i);
    DifferIs(n, m, x, y);
    UpIs(n, w);
    XorIs(x, u);
    XorIs(y, w);
    FromIs(n, i);
    Raw(n, m, x, y, i, x', y', w, u, j);
    PairBitIs(x', y', i);
    PairBitIs(x, y, j);
  }

  /** The same for the exchange of the odd bits, for a rotation of the second word, and for changing places. */
  function FromOdd(i: bv32): bv32
  {
    if (31 - i) & 1 != 0 then i ^ 32 else i
  }

  lemma RawOdd(x: bv32, y: bv32, i: bv32, x': bv32, y': bv32, w: bv32, j: bv32)
    requires i < 64 && w == (x ^ y) & 0xaaaaaaaa && x' == x ^ w && y' == y ^ w
    requires j == if (31 - i) & 1 != 0 then i ^ 32 else i
    ensures j < 64
    ensures (if i < 32 then (x' >> (31 - i)) & 1 else (y' >> (63 - i)) & 1)
      == if j < 32 then (x >> (31 - j)) & 1 else (y >> (63 - j)) & 1
  {}

  lemma DifferOddIs(x: bv32, y: bv32)
    ensures DifferOdd(x, y) == (x ^ y) & 0xaaaaaaaa
  {}

  lemma FromOddIs(i: bv32)
    ensures FromOdd(i) == if (31 - i) & 1 != 0 then i ^ 32 else i
  {}

  lemma MovesOdd(x: bv32, y: bv32, i: bv32)
    requires i < 64
    ensures FromOdd(i) < 64 && var b := ExchangeOdd(x, y); PairBit(b.left, b.right, i) == PairBit(x, y, FromOdd(i))
  {
    hide DifferOdd, Xor, PairBit, FromOdd;
    var w := DifferOdd(x, y);
    var x', y', j := Xor(x, w), Xor(y, w), FromOdd(i);
    DifferOddIs(x, y);
    XorIs(x, w);
    XorIs(y, w);
    FromOddIs(i);
    RawOdd(x, y, i, x', y', w, j);
    PairBitIs(x', y', i);
    PairBitIs(x, y, j);
  }

  function Next(i: bv32): bv32
  {
    if i < 32 then i else 32 + ((i + 1) & 31)
  }

  function Previous(i: bv32): bv32
  {
    if i < 32 then i else 32 + ((i + 31) & 31)
  }

  lemma MovesUp(x: bv32, y: bv32, i: bv32)
    requires i < 64
    ensures Next(i) < 64 && PairBit(x, RotateUp(y), i) == PairBit(x, y, Next(i))
  {}

  lemma MovesDown(x: bv32, y: bv32, i: bv32)
    requires i < 64
    ensures Previous(i) < 64 && PairBit(x, RotateDown(y), i) == PairBit(x, y, Previous(i))
  {}

  function Across(i: bv32): bv32
  {
    i ^ 32
  }

  lemma MovesAcross(x: bv32, y: bv32, i: bv32)
    requires i < 64
    ensures Across(i) < 64 && PairBit(x, y, i) == PairBit(y, x, Across(i))
  {}

  /** The bit that the initial permutation IP puts in place i, counted from 0 like PairBit: the table of the
      standard starts its halves at 58 and 57, goes down by 8 in a row and up by 2 from row to row, and counts
      from 1. */
  function IpSource(i: bv32): bv32
  {
    (if i < 32 then 57 else 56) - 8 * (i & 7) + 2 * ((i & 31) >> 3)
  }

  lemma SourceFound(i: bv32)
    requires i < 64
    ensures From(4, From(16, Across(From(2, From(8, Across(Next(FromOdd(Previous(i))))))))) == IpSource(i)
  {}

  /** The exchanges before the rounds are the initial permutation of the standard, with both halves rotated up by
      one bit. */
  lemma InitialIsIP(b: Block, i: bv32)
    requires i < 64
    ensures IpSource(i) < 64
    ensures PairBit(RotateDown(Initial(b).left), RotateDown(Initial(b).right), i)
      == PairBit(b.left, b.right, IpSource(i))
  {
    SourceFound(i);
    hide Exchange, ExchangeOdd, RotateUp, RotateDown, PairBit, From, FromOdd,
         Next, Previous, Across, IpSource;
    var c1 := Exchange(4, 0x0f0f0f0f, b.left, b.right);
    var c2 := Exchange(16, 0x0000ffff, c1.left, c1.right);
    var c3 := Exchange(2, 0x33333333, c2.right, c2.left);
    var c4 := Exchange(8, 0x00ff00ff, c3.left, c3.right);
    var c5 := ExchangeOdd(c4.right, RotateUp(c4.left));
    RotationsUndone(c5.left);
    MovesDown(c5.left, c5.right, i);
    var j := Previous(i);
    MovesOdd(c4.right, RotateUp(c4.left), j);
    j := FromOdd(j);
    MovesUp(c4.right, c4.left, j);
    j := Next(j);
    MovesAcross(c4.right, c4.left, j);
    j := Across(j);
    Moves(8, 0x00ff00ff, c3.left, c3.right, j);
    j := From(8, j);
    Moves(2, 0x33333333, c2.right, c2.left, j);
    j := From(2, j);
    MovesAcross(c2.right, c2.left, j);
    j := Across(j);
    Moves(16, 0x0000ffff, c1.left, c1.right, j);
    j := From(16, j);
    Moves(4, 0x0f0f0f0f, b.left, b.right, j);
  }
}
