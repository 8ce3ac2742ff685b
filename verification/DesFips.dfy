/** DES as FIPS 46-3 writes it, in the numbering of the standard, and the code's schedule and block transform against
    it. The S-boxes, with the permutation P behind them, stay the tables that the code is given. */
module DesFips {
  import opened DesChaining
  import opened DesCipher
  import opened DesKeys
  import opened DesStandard

  /** Permuted choice 1: the key bits, numbered from 1, that start in the registers C and D. */
  const PERMUTED_CHOICE_1: seq<nat> :=
    [57, 49, 41, 33, 25, 17, 9, 1, 58, 50, 42, 34, 26, 18] +
    [10, 2, 59, 51, 43, 35, 27, 19, 11, 3, 60, 52, 44, 36] +
    [63, 55, 47, 39, 31, 23, 15, 7, 62, 54, 46, 38, 30, 22] +
    [14, 6, 61, 53, 45, 37, 29, 21, 13, 5, 28, 20, 12, 4]

  /** The left shifts of the sixteen rounds. */
  const LEFT_SHIFTS: seq<nat> := [1, 1, 2, 2, 2, 2, 2, 2, 1, 2, 2, 2, 2, 2, 2, 1]

  /** Permuted choice 2: the places of C and D together that make a round key. */
  const PERMUTED_CHOICE_2: seq<nat> :=
    [14, 17, 11, 24, 1, 5, 3, 28, 15, 6, 21, 10] +
    [23, 19, 12, 4, 26, 8, 16, 7, 27, 20, 13, 2] +
    [41, 52, 31, 37, 47, 55, 30, 40, 51, 45, 33, 48] +
    [44, 49, 39, 56, 34, 53, 46, 42, 50, 36, 29, 32]

  lemma StandardTables()
    ensures |PERMUTED_CHOICE_1| == 56 && forall j :: 0 <= j < 56 ==> 1 <= PERMUTED_CHOICE_1[j] <= 64
    ensures |LEFT_SHIFTS| == 16 && forall i :: 0 <= i < 16 ==> 1 <= LEFT_SHIFTS[i] <= 2
    ensures |PERMUTED_CHOICE_2| == 48 && forall j :: 0 <= j < 48 ==> 1 <= PERMUTED_CHOICE_2[j] <= 56
  {}

  function LeftShift(register: seq<nat>, k: nat): seq<nat>
    requires k <= |register|
  {
    register[k..] + register[..k]
  }

  /** A register of 28 key bits after n rounds. */
  ghost function Register(start: seq<nat>, n: nat): (r: seq<nat>)
    requires |start| == 28 && n <= 16
    ensures |r| == 28
  {
    StandardTables();
    if n == 0 then start else LeftShift(Register(start, n - 1), LEFT_SHIFTS[n - 1])
  }

  /** C and D after n rounds. */
  ghost function Registers(n: nat): (r: seq<nat>)
    requires n <= 16
    ensures |r| == 56
  {
    StandardTables();
    Register(PERMUTED_CHOICE_1[..28], n) + Register(PERMUTED_CHOICE_1[28..], n)
  }

  /** The number of the key bit at place p of the key of round n. */
  ghost function KeySource(n: nat, p: nat): nat
    requires 1 <= n <= 16 && 1 <= p <= 48
  {
    StandardTables();
    Registers(n)[PERMUTED_CHOICE_2[p - 1] - 1]
  }

  function BitMask(m: nat): bv8
  {
    if m == 0 then 0x80 else BitMask(m - 1) >> 1
  }

  /** Bit n of a key, counted from 1 at the most significant bit of the first byte. */
  predicate KeyBit(key: seq<bv8>, n: nat)
    requires |key| == 8 && 1 <= n <= 64
  {
    key[(n - 1) / 8] & BitMask((n - 1) % 8) != 0
  }

  function PlaceMask(p: nat): bv32
  {
    if p <= 1 then 0x80_0000 else PlaceMask(p - 1) >> 1
  }

  /** The words have a bit in common. */
  predicate Meets(w: bv32, m: bv32)
  {
    w & m != 0
  }

  predicate PlaceBit(w: bv32, p: nat)
  {
    Meets(w, PlaceMask(p))
  }

  /** Place p of a round key of 48 bits, counted from 1 at the most significant of the 24 bits of the first word. */
  predicate RoundKeyBit(k: RoundKey, p: nat)
    requires 1 <= p <= 48
  {
    if p <= 24 then PlaceBit(k.even, p) else PlaceBit(k.odd, p - 24)
  }

  lemma {:induction false} MasksAre(j: nat)
    requires j < 24
    ensures PlaceMask(j + 1) == BIG_BYTE[j] && (j < 8 ==> BitMask(j) == BYTE_BIT[j])
  {
    NextMasks(j);
    hide BIG_BYTE, BYTE_BIT;
    if j > 0 { MasksAre(j - 1); }
  }

  lemma NextMasks(j: nat)
    requires j < 24
    ensures j > 0 ==> BIG_BYTE[j] == BIG_BYTE[j - 1] >> 1 && BIG_BYTE[j - 1] == BIG_BYTE[j] << 1
    ensures 0 < j < 8 ==> BYTE_BIT[j] == BYTE_BIT[j - 1] >> 1
    ensures BIG_BYTE[0] == 0x80_0000 && BIG_BYTE[23] == 1 && BYTE_BIT[0] == 0x80
  {}

  lemma {:induction false} OneBit(j: nat)
    requires j < 24
    ensures 0 < BIG_BYTE[j] <= 0x80_0000 && BIG_BYTE[j] & (BIG_BYTE[j] - 1) == 0
    decreases 24 - j
  {
    NextMasks(j);
    hide BIG_BYTE;
    if j < 23 {
      NextMasks(j + 1);
      OneBit(j + 1);
      MasksFall(j);
      Doubled(BIG_BYTE[j + 1], BIG_BYTE[j]);
    }
  }

  lemma {:induction false} MasksFall(j: nat)
    requires j < 24
    ensures BIG_BYTE[j] <= 0x80_0000
  {
    NextMasks(j);
    hide BIG_BYTE;
    if j > 0 {
      MasksFall(j - 1);
      HalfAtMost(BIG_BYTE[j - 1]);
    }
  }

  lemma HalfAtMost(w: bv32)
    requires w <= 0x80_0000
    ensures w >> 1 <= 0x80_0000 && (w != 0 ==> w >> 1 < w)
  {}

  lemma Doubled(w: bv32, v: bv32)
    requires v == w << 1 && 0 < w <= 0x80_0000 && w & (w - 1) == 0
    ensures v > 0 && v & (v - 1) == 0
  {}

  lemma FirstTableIs(k: nat)
    requires k < 56
    ensures |PC1| == 56 && |PERMUTED_CHOICE_1| == 56 && PERMUTED_CHOICE_1[k] == PC1[k] + 1
  {
    if k < 14 { FirstTableA(k); } else if k < 28 { FirstTableB(k); } else if k < 42 { FirstTableC(k); }
      else { FirstTableD(k); }
    hide PC1, PERMUTED_CHOICE_1;
  }

  lemma FirstTableA(k: nat)
    requires k < 14
    ensures |PC1| == 56 && |PERMUTED_CHOICE_1| == 56 && PERMUTED_CHOICE_1[k] == PC1[k] + 1
  {}

  lemma FirstTableB(k: nat)
    requires 14 <= k < 28
    ensures |PC1| == 56 && |PERMUTED_CHOICE_1| == 56 && PERMUTED_CHOICE_1[k] == PC1[k] + 1
  {}

  lemma FirstTableC(k: nat)
    requires 28 <= k < 42
    ensures |PC1| == 56 && |PERMUTED_CHOICE_1| == 56 && PERMUTED_CHOICE_1[k] == PC1[k] + 1
  {}

  lemma FirstTableD(k: nat)
    requires 42 <= k < 56
    ensures |PC1| == 56 && |PERMUTED_CHOICE_1| == 56 && PERMUTED_CHOICE_1[k] == PC1[k] + 1
  {}

  lemma SecondTableIs(k: nat)
    requires k < 48
    ensures |PC2| == 48 && |PERMUTED_CHOICE_2| == 48 && PERMUTED_CHOICE_2[k] == PC2[k] + 1
  {
    if k < 12 { SecondTableA(k); } else if k < 24 { SecondTableB(k); } else if k < 36 { SecondTableC(k); }
      else { SecondTableD(k); }
    hide PC2, PERMUTED_CHOICE_2;
  }

  lemma SecondTableA(k: nat)
    requires k < 12
    ensures |PC2| == 48 && |PERMUTED_CHOICE_2| == 48 && PERMUTED_CHOICE_2[k] == PC2[k] + 1
  {}

  lemma SecondTableB(k: nat)
    requires 12 <= k < 24
    ensures |PC2| == 48 && |PERMUTED_CHOICE_2| == 48 && PERMUTED_CHOICE_2[k] == PC2[k] + 1
  {}

  lemma SecondTableC(k: nat)
    requires 24 <= k < 36
    ensures |PC2| == 48 && |PERMUTED_CHOICE_2| == 48 && PERMUTED_CHOICE_2[k] == PC2[k] + 1
  {}

  lemma SecondTableD(k: nat)
    requires 36 <= k < 48
    ensures |PC2| == 48 && |PERMUTED_CHOICE_2| == 48 && PERMUTED_CHOICE_2[k] == PC2[k] + 1
  {}

  predicate HasBit(w: bv32, j: nat)
    requires j < 24
  {
    Meets(w, BIG_BYTE[j])
  }

  /** The bits of a gathered word. */
  lemma {:induction false} GatheredBits(bits: seq<bool>, half: nat, n: nat, j: nat)
    requires |bits| == 56 && half <= 24 && n <= 24 && j < 24
    ensures |PC2| == 48 && PC2[half + j] < 56
    ensures HasBit(Gathered(bits, half, n), j) <==> j < n && bits[PC2[half + j]]
  {
    Pc2InRange();
    GatheredNext(bits, half, n);
    hide PC2, WithBit, HasBit, Gathered;
    if n == 0 {
      NoBits(j);
    } else {
      GatheredBits(bits, half, n - 1, j);
      SetBit(Gathered(bits, half, n - 1), n - 1, j);
    }
  }

  lemma GatheredNext(bits: seq<bool>, half: nat, n: nat)
    requires |bits| == 56 && half <= 24 && n <= 24
    ensures n == 0 ==> Gathered(bits, half, n) == 0
    ensures |PC2| == 48 && (n > 0 ==> PC2[half + n - 1] < 56)
    ensures n > 0 ==>
      Gathered(bits, half, n) == if bits[PC2[half + n - 1]] then WithBit(Gathered(bits, half, n - 1), n - 1)
        else Gathered(bits, half, n - 1)
  {
    Pc2InRange();
    hide PC2, WithBit;
  }

  lemma NoBits(j: nat)
    requires j < 24
    ensures !HasBit(0, j)
  {
    NoneOf(BIG_BYTE[j]);
    hide BIG_BYTE;
  }

  lemma NoneOf(m: bv32)
    ensures !Meets(0, m)
  {}

  lemma SetBit(w: bv32, i: nat, j: nat)
    requires i < 24 && j < 24
    ensures HasBit(WithBit(w, i), j) <==> i == j || HasBit(w, j)
  {
    hide *;
    Masks(i, j);
    WithBitIs(w, i);
    HasBitIs(w, j);
    HasBitIs(WithBit(w, i), j);
    SetMeets(w, BIG_BYTE[i], BIG_BYTE[j], i == j);
  }

  lemma SetMeets(w: bv32, a: bv32, m: bv32, same: bool)
    requires SameOrApart(a, m, same)
    ensures Meets(Joined(w, a), m) <==> same || Meets(w, m)
  {
    MeetsJoined(w, a, m);
    hide Meets, Joined;
  }

  function Joined(w: bv32, a: bv32): bv32
  {
    w | a
  }

  ghost predicate SameOrApart(a: bv32, m: bv32, same: bool)
  {
    m != 0 && (a == m <==> same) && (a != m ==> a & m == 0)
  }

  lemma MeetsJoined(w: bv32, a: bv32, m: bv32)
    requires m != 0 && (a == m || a & m == 0)
    ensures Meets(Joined(w, a), m) <==> a == m || Meets(w, m)
  {
    hide Joined, Meets;
    JoinedIs(w, a);
    MeetsIs(w, m);
    MeetsIs(Joined(w, a), m);
    OrMask(w, a, m, Joined(w, a));
  }

  lemma JoinedIs(w: bv32, a: bv32)
    ensures Joined(w, a) == w | a
  {}

  lemma MeetsIs(w: bv32, m: bv32)
    ensures Meets(w, m) <==> w & m != 0
  {}

  lemma OrMask(w: bv32, a: bv32, m: bv32, r: bv32)
    requires m != 0 && (a == m || a & m == 0) && r == w | a
    ensures r & m != 0 <==> a == m || w & m != 0
  {}

  lemma Masks(i: nat, j: nat)
    requires i < 24 && j < 24
    ensures |BIG_BYTE| == 24 && SameOrApart(BIG_BYTE[i], BIG_BYTE[j], i == j)
  {
    OneBit(i);
    OneBit(j);
    hide BIG_BYTE;
    if i < j {
      Falling(i, j);
      Apart(BIG_BYTE[i], BIG_BYTE[j]);
    } else if j < i {
      Falling(j, i);
      Apart(BIG_BYTE[j], BIG_BYTE[i]);
    }
  }

  /** A power of two and a smaller number have no bit in common. */
  lemma Apart(a: bv32, m: bv32)
    requires m < a && a & (a - 1) == 0
    ensures a & m == 0 && m & a == 0
  {}

  lemma WithBitIs(w: bv32, i: nat)
    requires i < 24
    ensures |BIG_BYTE| == 24 && WithBit(w, i) == Joined(w, BIG_BYTE[i])
  {}

  lemma HasBitIs(w: bv32, j: nat)
    requires j < 24
    ensures |BIG_BYTE| == 24 && (HasBit(w, j) <==> Meets(w, BIG_BYTE[j]))
  {
    hide Meets;
  }

  lemma {:induction false} Falling(i: nat, j: nat)
    requires i < j < 24
    ensures BIG_BYTE[j] < BIG_BYTE[i]
    decreases j
  {
    NextMasks(j);
    OneBit(j);
    OneBit(j - 1);
    hide BIG_BYTE;
    HalfAtMost(BIG_BYTE[j - 1]);
    if i < j - 1 { Falling(i, j - 1); }
  }

  /** The shifts of n rounds together. */
  ghost function Shifts(n: nat): nat
    requires n <= 16
  {
    StandardTables();
    if n == 0 then 0 else Shifts(n - 1) + LEFT_SHIFTS[n - 1]
  }

  lemma {:induction false} ShiftsAre(n: nat)
    requires 1 <= n <= 16
    ensures |TOTAL_ROTATIONS| == 16 && Shifts(n) == TOTAL_ROTATIONS[n - 1] <= 28
  {
    NextShift(n);
    StandardTables();
    hide LEFT_SHIFTS, TOTAL_ROTATIONS;
    if n > 1 { ShiftsAre(n - 1); }
  }

  lemma NextShift(n: nat)
    requires 1 <= n <= 16
    ensures |TOTAL_ROTATIONS| == 16 && TOTAL_ROTATIONS[n - 1] <= 28
    ensures n == 1 ==> TOTAL_ROTATIONS[0] == LEFT_SHIFTS[0]
    ensures n > 1 ==> TOTAL_ROTATIONS[n - 1] == TOTAL_ROTATIONS[n - 2] + LEFT_SHIFTS[n - 1]
  {}

  /** Where the bit at place k of a register comes from when it is shifted by t. */
  function Wrapped(k: nat, t: nat): (r: nat)
    requires k < 28 && t <= 28
    ensures r < 28
  {
    if k + t < 28 then k + t else k + t - 28
  }

  lemma WrappedTwice(k: nat, s: nat, t: nat)
    requires k < 28 && s + t <= 28
    ensures Wrapped(Wrapped(k, s), t) == Wrapped(k, s + t)
  {}

  /** A register after its shifts. */
  lemma {:induction false} RegisterAt(start: seq<nat>, n: nat, k: nat)
    requires |start| == 28 && n <= 16 && k < 28
    ensures Shifts(n) <= 28 && Register(start, n)[k] == start[Wrapped(k, Shifts(n))]
  {
    ShiftsBound(n);
    if n > 0 {
      StandardTables();
      var s := LEFT_SHIFTS[n - 1];
      hide LEFT_SHIFTS, LeftShift, Wrapped;
      ShiftsBound(n - 1);
      ShiftedAt(Register(start, n - 1), s, k);
      RegisterAt(start, n - 1, Wrapped(k, s));
      WrappedTwice(k, s, Shifts(n - 1));
    }
  }

  lemma ShiftsBound(n: nat)
    requires n <= 16
    ensures Shifts(n) <= 28
  {
    if n > 0 { ShiftsAre(n); }
  }

  lemma ShiftedAt(register: seq<nat>, s: nat, k: nat)
    requires |register| == 28 && s <= 2 && k < 28
    ensures LeftShift(register, s)[k] == register[Wrapped(k, s)]
  {}

  /** C and D hold the bits that the code's tables select and rotate. */
  lemma RegistersAre(n: nat, k: nat)
    requires 1 <= n <= 16 && k < 56
    ensures |TOTAL_ROTATIONS| == 16 && TOTAL_ROTATIONS[n - 1] <= 28 && |PC1| == 56
    ensures Registers(n)[k] == PC1[RotatedFrom(k, TOTAL_ROTATIONS[n - 1])] + 1
  {
    ShiftsAre(n);
    StandardTables();
    var t := TOTAL_ROTATIONS[n - 1];
    FirstTableIs(RotatedFrom(k, t));
    hide PC1, PERMUTED_CHOICE_1, TOTAL_ROTATIONS, LEFT_SHIFTS;
    RegistersAt(n, k);
    hide Registers, Shifts;
  }

  lemma RegistersAt(n: nat, k: nat)
    requires 1 <= n <= 16 && k < 56
    ensures |PERMUTED_CHOICE_1| == 56 && Shifts(n) <= 28
    ensures Registers(n)[k] ==
      PERMUTED_CHOICE_1[if k < 28 then Wrapped(k, Shifts(n)) else 28 + Wrapped(k - 28, Shifts(n))]
  {
    StandardTables();
    hide PERMUTED_CHOICE_1, Register, Shifts, Wrapped;
    var c, d := PERMUTED_CHOICE_1[..28], PERMUTED_CHOICE_1[28..];
    if k < 28 { RegisterAt(c, n, k); } else { RegisterAt(d, n, k - 28); }
  }

  lemma SelectedIs(key: seq<bv8>, j: nat)
    requires |key| == 8 && j < 56
    ensures |PC1| == 56 && PC1[j] < 63
    ensures Selected(key)[j] <==> KeyBit(key, PC1[j] + 1)
  {
    Pc1InRange();
    hide PC1;
    MasksAre(PC1[j] % 8);
  }

  /** The bit at a place of a raw round key, in the numbering of the code. */
  lemma RawBit(key: seq<bv8>, n: nat, p: nat)
    requires |key| == 8 && 1 <= n <= 16 && 1 <= p <= 48
    ensures |TOTAL_ROTATIONS| == 16 && TOTAL_ROTATIONS[n - 1] <= 28 && |PC2| == 48 && PC2[p - 1] < 56
    ensures RoundKeyBit(RawKeys(key)[n - 1], p) <==> Selected(key)[RotatedFrom(PC2[p - 1], TOTAL_ROTATIONS[n - 1])]
  {
    RotationsInRange();
    hide PC2, TOTAL_ROTATIONS, Selected;
    var pcr := RotatedBits(Selected(key), TOTAL_ROTATIONS[n - 1]);
    var half, j := if p <= 24 then 0 else 24, if p <= 24 then p - 1 else p - 25;
    GatheredBits(pcr, half, 24, j);
    MasksAre(j);
    PlacesOf(RawKeys(key)[n - 1], p);
    RawKeyIs(key, n);
    hide Gathered, HasBit, RoundKeyBit;
  }

  lemma PlacesOf(k: RoundKey, p: nat)
    requires 1 <= p <= 48
    ensures RoundKeyBit(k, p) <==> if p <= 24 then HasBit(k.even, p - 1) else HasBit(k.odd, p - 25)
  {
    if p <= 24 { PlaceIs(k.even, p); } else { PlaceIs(k.odd, p - 24); }
    hide PlaceBit, HasBit;
  }

  lemma PlaceIs(w: bv32, p: nat)
    requires 1 <= p <= 24
    ensures PlaceBit(w, p) <==> HasBit(w, p - 1)
  {
    hide *;
    MasksAre(p - 1);
    HasBitIs(w, p - 1);
    PlaceBitIs(w, p);
  }

  lemma PlaceBitIs(w: bv32, p: nat)
    ensures PlaceBit(w, p) <==> Meets(w, PlaceMask(p))
  {
    hide PlaceMask, Meets;
  }

  lemma RawKeyIs(key: seq<bv8>, n: nat)
    requires |key| == 8 && 1 <= n <= 16
    ensures |TOTAL_ROTATIONS| == 16 && TOTAL_ROTATIONS[n - 1] <= 28
    ensures var pcr := RotatedBits(Selected(key), TOTAL_ROTATIONS[n - 1]);
      RawKeys(key)[n - 1] == RoundKey(Gathered(pcr, 0, 24), Gathered(pcr, 24, 24))
  {
    RotationsInRange();
    hide TOTAL_ROTATIONS, Gathered, Selected, RotatedBits;
  }

  /** The key schedule of the code is that of the standard: each bit of each round key is the key bit that permuted
      choice 1, the left shifts of the rounds so far and permuted choice 2 select. */
  lemma ScheduleIsStandard(key: seq<bv8>, n: nat, p: nat)
    requires |key| == 8 && 1 <= n <= 16 && 1 <= p <= 48
    ensures 1 <= KeySource(n, p) <= 64
    ensures RoundKeyBit(RawKeys(key)[n - 1], p) <==> KeyBit(key, KeySource(n, p))
  {
    hide *;
    RawBit(key, n, p);
    KeySourceIs(n, p);
    var k := PC2[p - 1];
    RegistersAre(n, k);
    SelectedIs(key, RotatedFrom(k, TOTAL_ROTATIONS[n - 1]));
  }

  lemma KeySourceIs(n: nat, p: nat)
    requires 1 <= n <= 16 && 1 <= p <= 48
    ensures |PC2| == 48 && PC2[p - 1] < 56 && KeySource(n, p) == Registers(n)[PC2[p - 1]]
  {
    SecondTableIs(p - 1);
    Pc2InRange();
    hide PC2, PERMUTED_CHOICE_2, Registers;
  }

  /** The cipher function of the standard: the bits that E selects from a half, XOR the round key, through the S-boxes
      and P; the code's tables hold its output rotated up by one. */
  function CipherFunction(sp: Boxes, r: bv32, k: RoundKey): bv32
  {
    RotateDown(
      sp.sp7(Xor(Select7(r), Group2(k.odd))) | sp.sp5(Xor(Select5(r), Group0(k.odd)))
      | sp.sp3(Xor(Select3(r), Group2(k.even))) | sp.sp1(Xor(Select1(r), Group0(k.even)))
      | sp.sp8(Xor(Select8(r), Group3(k.odd))) | sp.sp6(Xor(Select6(r), Group1(k.odd)))
      | sp.sp4(Xor(Select4(r), Group3(k.even))) | sp.sp2(Xor(Select2(r), Group1(k.even))))
  }

  /** The rounds: each left half is the right half before, and each right half the left half before XOR the cipher
      function of the right one. */
  function Feistel(sp: Boxes, b: Block, ks: seq<RoundKey>): Block
    decreases |ks|
  {
    if ks == [] then b
    else
      var r := b.right;
      Feistel(sp, Block(r, Xor(b.left, CipherFunction(sp, r, ks[0]))), ks[1..])
  }

  /** s holds the bits of b as the initial permutation IP orders them. */
  ghost predicate PermutedByIP(b: Block, s: Block)
  {
    forall i: bv32 :: i < 64 ==> PermutedAt(b, s, i)
  }

  predicate PermutedAt(b: Block, s: Block, i: bv32)
    requires i < 64
  {
    IpSource(i) < 64 && PairBit(s.left, s.right, i) == PairBit(b.left, b.right, IpSource(i))
  }

  /** The sixteen round keys of a key. */
  ghost predicate RoundKeysOf(key: seq<bv8>, ks: seq<RoundKey>)
    requires |key| == 8
  {
    |ks| == 16 && forall n: nat, p: nat :: 1 <= n <= 16 && 1 <= p <= 48 ==> IsKeyBit(key, ks, n, p)
  }

  ghost predicate IsKeyBit(key: seq<bv8>, ks: seq<RoundKey>, n: nat, p: nat)
    requires |key| == 8 && |ks| == 16 && 1 <= n <= 16 && 1 <= p <= 48
  {
    1 <= KeySource(n, p) <= 64 && (RoundKeyBit(ks[n - 1], p) <==> KeyBit(key, KeySource(n, p)))
  }

  /** c is what DES makes of p: IP, the sixteen rounds, and the halves exchanged before the inverse of IP. */
  ghost predicate Enciphers(sp: Boxes, key: seq<bv8>, p: Block, c: Block)
    requires |key| == 8
  {
    exists s: Block, ks: seq<RoundKey> ::
      PermutedByIP(p, s) && RoundKeysOf(key, ks) && PermutedByIP(c, Swapped(Feistel(sp, s, ks)))
  }

  function Raised(b: Block): Block
  {
    Block(RotateUp(b.left), RotateUp(b.right))
  }

  lemma XorRaised(x: bv32, y: bv32)
    ensures Xor(RotateUp(x), RotateUp(y)) == RotateUp(Xor(x, y))
  {}

  lemma RoundRaised(sp: Boxes, b: Block, raw: RoundKey)
    ensures Round(sp, Raised(b), Cooked(raw)) == Raised(Block(b.right, Xor(b.left, CipherFunction(sp, b.right, raw))))
  {
    ScrambledIsStandard(sp, b.right, raw);
    hide RotateUp, RotateDown, Xor, Cooked, Scrambled, Select1, Select2, Select3, Select4, Select5, Select6, Select7,
      Select8,
         Group0, Group1, Group2, Group3;
    var f := CipherFunction(sp, b.right, raw);
    RotationsUndone(Scrambled(sp, RotateUp(b.right), Cooked(raw)));
    XorRaised(b.left, f);
  }

  /** The code's rounds, with its rotated halves and its cooked keys. */
  lemma {:induction false} RoundsAreFeistel(sp: Boxes, b: Block, raw: seq<RoundKey>)
    ensures Rounds(sp, Raised(b), AllCooked(raw)) == Raised(Feistel(sp, b, raw))
    decreases |raw|
  {
    hide Raised, Round, Cooked, CipherFunction, Xor;
    if raw != [] {
      RoundRaised(sp, b, raw[0]);
      RoundsAreFeistel(sp, Block(b.right, Xor(b.left, CipherFunction(sp, b.right, raw[0]))), raw[1..]);
      assert AllCooked(raw)[1..] == AllCooked(raw[1..]);
    }
  }

  lemma ScheduleKeys(key: seq<bv8>)
    requires |key| == 8
    ensures RoundKeysOf(key, RawKeys(key)) && Schedule(key, true) == AllCooked(RawKeys(key))
  {
    var ks := RawKeys(key);
    hide RawKeys, AllCooked, KeySource, KeyBit, RoundKeyBit;
    forall n: nat, p: nat | 1 <= n <= 16 && 1 <= p <= 48
      ensures IsKeyBit(key, ks, n, p)
    {
      ScheduleIsStandard(key, n, p);
    }
  }

  lemma InitialPermutes(b: Block)
    ensures PermutedByIP(b, Block(RotateDown(Initial(b).left), RotateDown(Initial(b).right)))
  {
    hide Initial, RotateDown, IpSource, PairBit;
    var s := Block(RotateDown(Initial(b).left), RotateDown(Initial(b).right));
    forall i: bv32 | i < 64
      ensures PermutedAt(b, s, i)
    {
      InitialIsIP(b, i);
    }
  }

  /** The block transform with the schedule of a key is DES with that key, and with the reversed schedule its
      inverse. */
  lemma CipherIsDes(sp: Boxes, key: seq<bv8>, b: Block)
    requires |key| == 8
    ensures Enciphers(sp, key, b, Cipher(sp, b, Schedule(key, true)))
    ensures Enciphers(sp, key, Cipher(sp, b, Schedule(key, false)), b)
  {
    ForwardIsDes(sp, key, b);
    ForwardIsDes(sp, key, Cipher(sp, b, Schedule(key, false)));
    ScheduleUndone(sp, b, key, false);
    hide Enciphers, Cipher, Schedule;
  }

  lemma ForwardIsDes(sp: Boxes, key: seq<bv8>, b: Block)
    requires |key| == 8
    ensures Enciphers(sp, key, b, Cipher(sp, b, Schedule(key, true)))
  {
    var out := Cipher(sp, b, Schedule(key, true));
    var raw, start := RawKeys(key), Initial(b);
    var s := Block(RotateDown(start.left), RotateDown(start.right));
    ScheduleKeys(key);
    InitialPermutes(b);
    InitialPermutes(out);
    InitialFinal(Rounds(sp, start, AllCooked(raw)));
    RaisedBack(start);
    RaisedBack(Initial(out));
    RoundsAreFeistel(sp, s, raw);
    LoweredSwapped(Feistel(sp, s, raw));
    hide Initial, Final, Rounds, Feistel, RotateDown, RotateUp, RawKeys, AllCooked, PermutedByIP, RoundKeysOf;
  }

  lemma RaisedBack(b: Block)
    ensures Raised(Block(RotateDown(b.left), RotateDown(b.right))) == b
  {
    RotationsUndone(b.left);
    RotationsUndone(b.right);
    hide RotateUp, RotateDown;
  }

  lemma LoweredSwapped(b: Block)
    ensures var r := Swapped(Raised(b)); Block(RotateDown(r.left), RotateDown(r.right)) == Swapped(b)
  {
    RotationsUndone(b.left);
    RotationsUndone(b.right);
    hide RotateUp, RotateDown;
  }

  /** What the three ciphers are in terms of DES: the standard alone, with a block XORed before and one after, and
      enciphering, deciphering and enciphering with three keys. */
  ghost predicate SuiteEnciphers(sp: Boxes, c: Suite, p: Block, q: Block)
    requires GoodKeys(c)
  {
    match c
    case Single(key) => Enciphers(sp, key, p, q)
    case Whitened(key, before, after) => Enciphers(sp, key, XorBlock(p, before), XorBlock(q, after))
    case Triple(key, key2, key3) =>
      exists m1: Block, m2: Block ::
        Enciphers(sp, key, p, m1) && Enciphers(sp, key2, m2, m1) && Enciphers(sp, key3, m2, q)
  }

  /** The transforms of the contexts are these ciphers, in both directions. */
  lemma TransformIsStandard(sp: Boxes, c: Suite, b: Block)
    requires GoodKeys(c)
    ensures SuiteEnciphers(sp, c, b, Transform(sp, c, true, b))
    ensures SuiteEnciphers(sp, c, Transform(sp, c, false, b), b)
  {
    ForwardStandard(sp, c, b);
    ForwardStandard(sp, c, Transform(sp, c, false, b));
    TransformUndone(sp, c, false, b);
    hide SuiteEnciphers, Transform, GoodKeys;
  }

  lemma ForwardStandard(sp: Boxes, c: Suite, b: Block)
    requires GoodKeys(c)
    ensures SuiteEnciphers(sp, c, b, Transform(sp, c, true, b))
  {
    hide Enciphers, Cipher, Schedule, XorBlock;
    match c
    case Single(key) => CipherIsDes(sp, key, b);
    case Whitened(key, before, after) =>
      var x := XorBlock(b, before);
      CipherIsDes(sp, key, x);
      XorBlockTwice(Cipher(sp, x, Schedule(key, true)), after);
    case Triple(key, key2, key3) =>
      var m1 := Cipher(sp, b, Schedule(key, true));
      var m2 := Cipher(sp, m1, Schedule(key2, false));
      CipherIsDes(sp, key, b);
      CipherIsDes(sp, key2, m1);
      CipherIsDes(sp, key3, m2);
  }

  /** A block that is chained is enciphered as the standard has it: the plaintext block XOR the block before. */
  lemma ChainedIsStandard(sp: Boxes, c: Suite, plain: Block, cipher: Block, before: Block)
    requires GoodKeys(c) && BlockChained(sp, c, plain, cipher, before)
    ensures SuiteEnciphers(sp, c, XorBlock(plain, before), cipher)
  {
    hide SuiteEnciphers, Transform, GoodKeys, XorBlock;
    TransformIsStandard(sp, c, XorBlock(plain, before));
  }

  function ByteBit(b: bv8, m: bv32): bv32
    requires m < 8
  {
    ((b as bv32) >> (7 - m)) & 1
  }

  lemma WordBit(b0: bv8, b1: bv8, b2: bv8, b3: bv8, m: bv32)
    requires m < 8
    ensures var w := Word(b0, b1, b2, b3);
      && PairBit(w, 0, m) == ByteBit(b0, m) && PairBit(w, 0, 8 + m) == ByteBit(b1, m)
      && PairBit(w, 0, 16 + m) == ByteBit(b2, m) && PairBit(w, 0, 24 + m) == ByteBit(b3, m)
  {}

  lemma PairParts(l: bv32, r: bv32, i: bv32)
    requires i < 32
    ensures PairBit(l, r, i) == PairBit(l, 0, i) && PairBit(l, r, 32 + i) == PairBit(r, 0, i)
  {}

  /** A block is read as the standard numbers its bits: byte by byte, the most significant bit of each first. */
  lemma PackIsBigEndian(s: seq<bv8>, at: nat, k: nat, m: bv32)
    requires at + 8 <= |s| && k < 8 && m < 8
    ensures var b := Pack(s, at); PairBit(b.left, b.right, PlaceIn(k, m)) == ByteBit(s[at + k], m)
  {
    hide Word, PairBit, ByteBit;
    var b := Pack(s, at);
    var i: bv32 := PlaceIn(if k < 4 then k else k - 4, m);
    WordBit(s[at], s[at + 1], s[at + 2], s[at + 3], m);
    WordBit(s[at + 4], s[at + 5], s[at + 6], s[at + 7], m);
    PairParts(b.left, b.right, i);
  }

  /** The number of bit m of byte k, from 0. */
  function PlaceIn(k: nat, m: bv32): (i: bv32)
    requires k < 8 && m < 8
    ensures i < 64 && (k < 4 ==> i < 32)
  {
    (match k case 0 => 0 case 1 => 8 case 2 => 16 case 3 => 24 case 4 => 32 case 5 => 40 case 6 => 48 case _ => 56) + m
  }
}
