/** The DES key schedule: DESKey and CookKey (desc.c). */
module DesKeys {
  import opened DesCipher

  const BIG_BYTE: seq<bv32> := [
    0x800000, 0x400000, 0x200000, 0x100000, 0x80000, 0x40000, 0x20000, 0x10000,
    0x8000, 0x4000, 0x2000, 0x1000, 0x800, 0x400, 0x200, 0x100,
    0x80, 0x40, 0x20, 0x10, 0x8, 0x4, 0x2, 0x1]

  const PC1: seq<nat> :=
    [56, 48, 40, 32, 24, 16, 8, 0, 57, 49, 41, 33, 25, 17] +
    [9, 1, 58, 50, 42, 34, 26, 18, 10, 2, 59, 51, 43, 35] +
    [62, 54, 46, 38, 30, 22, 14, 6, 61, 53, 45, 37, 29, 21] +
    [13, 5, 60, 52, 44, 36, 28, 20, 12, 4, 27, 19, 11, 3]

  const TOTAL_ROTATIONS: seq<nat> := [1, 2, 4, 6, 8, 10, 12, 14, 15, 17, 19, 21, 23, 25, 27, 28]

  const PC2: seq<nat> :=
    [13, 16, 10, 23, 0, 4, 2, 27, 14, 5, 20, 9] +
    [22, 18, 11, 3, 25, 7, 15, 6, 26, 19, 12, 1] +
    [40, 51, 30, 36, 46, 54, 29, 39, 50, 44, 32, 47] +
    [43, 48, 38, 55, 33, 52, 45, 41, 49, 35, 28, 31]

  const BYTE_BIT: seq<bv8> := [0x80, 0x40, 0x20, 0x10, 0x08, 0x04, 0x02, 0x01]

  /** What the code relies on when it indexes by the tables; no selected key bit is the last of its byte. */
  lemma Pc1InRange()
    ensures |PC1| == 56 && forall j :: 0 <= j < 56 ==> PC1[j] < 63 && PC1[j] % 8 != 7
  {}

  lemma Pc2InRange()
    ensures |PC2| == 48 && forall j :: 0 <= j < 48 ==> PC2[j] < 56
  {}

  lemma RotationsInRange()
    ensures |TOTAL_ROTATIONS| == 16 && forall i :: 0 <= i < 16 ==> TOTAL_ROTATIONS[i] <= 28
  {}

  function BitOf(b: bv8, m: nat): bool
    requires m < 8
  {
    b & BYTE_BIT[m] != 0
  }

  function SelectedBit(key: seq<bv8>, j: nat): bool
    requires |key| == 8 && j < 56
  {
    Pc1InRange();
    BitOf(key[PC1[j] / 8], PC1[j] % 8)
  }

  /** The 56 key bits that count, as two halves of 28. */
  function Selected(key: seq<bv8>): (bits: seq<bool>)
    requires |key| == 8
    ensures |bits| == 56
  {
    seq(56, j requires 0 <= j < 56 => SelectedBit(key, j))
  }

  /** Where the bit at place j comes from when both halves are rotated by n. */
  function RotatedFrom(j: nat, n: nat): (k: nat)
    requires j < 56 && n <= 28
    ensures k < 56 && (j < 28 <==> k < 28)
  {
    if j < 28 then (if j + n < 28 then j + n else j + n - 28)
    else if j + n < 56 then j + n else j + n - 28
  }

  function RotatedBits(bits: seq<bool>, n: nat): (r: seq<bool>)
    requires |bits| == 56 && n <= 28
    ensures |r| == 56
  {
    seq(56, j requires 0 <= j < 56 => bits[RotatedFrom(j, n)])
  }

  function WithBit(w: bv32, j: nat): bv32
    requires j < 24
  {
    w | BIG_BYTE[j]
  }

  /** The first n of 24 bits, picked by one half of PC2, as a word. */
  function Gathered(bits: seq<bool>, half: nat, n: nat): bv32
    requires |bits| == 56 && half <= 24 && n <= 24
  {
    if n == 0 then 0
    else
      Pc2InRange();
      if bits[PC2[half + n - 1]] then WithBit(Gathered(bits, half, n - 1), n - 1) else Gathered(bits, half, n - 1)
  }

  function RawKey(bits: seq<bool>, i: nat): RoundKey
    requires |bits| == 56 && i < 16
  {
    RotationsInRange();
    var pcr := RotatedBits(bits, TOTAL_ROTATIONS[i]);
    RoundKey(Gathered(pcr, 0, 24), Gathered(pcr, 24, 24))
  }

  function CookedEven(raw: RoundKey): bv32
  {
    ((raw.even & 0x00fc0000) << 6) | ((raw.even & 0x00000fc0) << 10) | ((raw.odd & 0x00fc0000) >> 10)
      | ((raw.odd & 0x00000fc0) >> 6)
  }

  function CookedOdd(raw: RoundKey): bv32
  {
    ((raw.even & 0x0003f000) << 12) | ((raw.even & 0x0000003f) << 16) | ((raw.odd & 0x0003f000) >> 4)
      | (raw.odd & 0x0000003f)
  }

  function Cooked(raw: RoundKey): RoundKey
  {
    RoundKey(CookedEven(raw), CookedOdd(raw))
  }

  function AllCooked(raw: seq<RoundKey>): (ks: seq<RoundKey>)
    ensures |ks| == |raw|
  {
    seq(|raw|, i requires 0 <= i < |raw| => Cooked(raw[i]))
  }

  function RawKeys(key: seq<bv8>): (ks: seq<RoundKey>)
    requires |key| == 8
    ensures |ks| == 16
  {
    seq(16, i requires 0 <= i < 16 => RawKey(Selected(key), i))
  }

  /** The round keys in the order in which they are used. */
  function Schedule(key: seq<bv8>, encrypt: bool): (ks: seq<RoundKey>)
    requires |key| == 8
    ensures |ks| == 16
  {
    var ks := AllCooked(RawKeys(key));
    if encrypt then ks else Reversed(ks)
  }

  /** Decrypting with a key undoes encrypting with it, and the other way round. */
  lemma ScheduleUndone(sp: Boxes, b: Block, key: seq<bv8>, encrypt: bool)
    requires |key| == 8
    ensures Cipher(sp, Cipher(sp, b, Schedule(key, encrypt)), Schedule(key, !encrypt)) == b
  {
    hide Cipher, AllCooked, RawKeys, Reversed;
    CipherUndone(sp, b, Schedule(key, encrypt));
    ReversedTwice(AllCooked(RawKeys(key)));
  }

  lemma SameBit(b: bv8, c: bv8, m: nat)
    requires m < 7 && b & 0xfe == c & 0xfe
    ensures BitOf(b, m) == BitOf(c, m)
  {
    BitsBelow(b, c);
  }

  lemma BitsBelow(b: bv8, c: bv8)
    requires b & 0xfe == c & 0xfe
    ensures b & 0x80 == c & 0x80 && b & 0x40 == c & 0x40 && b & 0x20 == c & 0x20 && b & 0x10 == c & 0x10
    ensures b & 0x08 == c & 0x08 && b & 0x04 == c & 0x04 && b & 0x02 == c & 0x02
  {}

  /** The last bit of every key byte, its parity bit, has no effect. */
  lemma ParityIgnored(key: seq<bv8>, key': seq<bv8>, encrypt: bool)
    requires |key| == 8 && |key'| == 8 && forall i :: 0 <= i < 8 ==> key[i] & 0xfe == key'[i] & 0xfe
    ensures Schedule(key, encrypt) == Schedule(key', encrypt)
  {
    forall j | 0 <= j < 56
      ensures Selected(key)[j] == Selected(key')[j]
    {
      Pc1InRange();
      SameBit(key[PC1[j] / 8], key'[PC1[j] / 8], PC1[j] % 8);
    }
    assert Selected(key) == Selected(key');
  }

  /** CookKey: fills the schedule from the front, or from the back when decrypting. */
  method CookKey(subkeys: array<bv32>, kn: seq<bv32>, encrypt: bool)
    requires subkeys.Length == 32 && |kn| == 32
    modifies subkeys
    ensures var ks := AllCooked(KeyPairs(kn)); KeyPairs(subkeys[..]) == if encrypt then ks else Reversed(ks)
  {
    hide CookedEven, CookedOdd;
    var raw1 := 0;
    var cooked := if encrypt then 0 else 30;
    var increment := if encrypt then 1 else -3;
    ghost var ks := AllCooked(KeyPairs(kn));
    for i := 0 to 16
      invariant raw1 == 2 * i && cooked == if encrypt then 2 * i else 30 - 2 * i
      invariant forall j :: 0 <= j < i ==> PairAt(subkeys[..], Place(j, encrypt), ks[j])
    {
      var raw0 := raw1;
      raw1 := raw1 + 1;
      var raw := RoundKey(kn[raw0], kn[raw1]);
      subkeys[cooked] := CookedEven(raw);
      cooked := cooked + 1;
      subkeys[cooked] := CookedOdd(raw);
      cooked := cooked + increment;
      raw1 := raw1 + 1;
    }
    CookedOrder(subkeys[..], ks, encrypt);
  }

  ghost function Place(j: nat, encrypt: bool): nat
    requires j < 16
  {
    if encrypt then j else 15 - j
  }

  ghost predicate PairAt(w: seq<bv32>, i: nat, k: RoundKey)
  {
    2 * i + 1 < |w| && w[2 * i] == k.even && w[2 * i + 1] == k.odd
  }

  lemma CookedOrder(w: seq<bv32>, ks: seq<RoundKey>, encrypt: bool)
    requires |w| == 32 && |ks| == 16
    requires forall j :: 0 <= j < 16 ==> PairAt(w, Place(j, encrypt), ks[j])
    ensures KeyPairs(w) == if encrypt then ks else Reversed(ks)
  {
    var have, want := KeyPairs(w), if encrypt then ks else Reversed(ks);
    hide KeyPairs, Reversed;
    forall i | 0 <= i < 16
      ensures have[i] == want[i]
    {
      KeyPairsAt(w, i);
      assert PairAt(w, Place(Place(i, encrypt), encrypt), ks[Place(i, encrypt)]);
      if !encrypt { ReversedAt(ks, i); }
    }
  }

  /** The selection of key bits. */
  method SelectBits(key: seq<bv8>, pc1m: array<bool>)
    requires |key| == 8 && pc1m.Length == 56
    modifies pc1m
    ensures pc1m[..] == Selected(key)
  {
    Pc1InRange();
    for j := 0 to 56
      invariant forall k :: 0 <= k < j ==> pc1m[k] == SelectedBit(key, k)
    {
      var l := PC1[j];
      pc1m[j] := BitOf(key[l / 8], l % 8);
    }
  }

  /** The rotation of both halves. */
  method RotateBits(pc1m: array<bool>, pcr: array<bool>, n: nat)
    requires pc1m.Length == 56 && pcr.Length == 56 && pc1m != pcr && n <= 28
    modifies pcr
    ensures pcr[..] == RotatedBits(pc1m[..], n)
  {
    for j := 0 to 28
      invariant forall k :: 0 <= k < j ==> pcr[k] == pc1m[RotatedFrom(k, n)]
    {
      var l := j + n;
      pcr[j] := if l < 28 then pc1m[l] else pc1m[l - 28];
    }
    for j := 28 to 56
      invariant forall k :: 0 <= k < j ==> pcr[k] == pc1m[RotatedFrom(k, n)]
    {
      var l := j + n;
      pcr[j] := if l < 56 then pc1m[l] else pc1m[l - 28];
    }
  }

  /** The two words of one round. */
  method GatherBits(pcr: array<bool>) returns (even: bv32, odd: bv32)
    requires pcr.Length == 56
    ensures even == Gathered(pcr[..], 0, 24) && odd == Gathered(pcr[..], 24, 24)
  {
    even, odd := 0, 0;
    Pc2InRange();
    hide WithBit, PC2;
    for j := 0 to 24
      invariant even == Gathered(pcr[..], 0, j) && odd == Gathered(pcr[..], 24, j)
    {
      if pcr[PC2[j]] {
        even := WithBit(even, j);
      }
      if pcr[PC2[j + 24]] {
        odd := WithBit(odd, j);
      }
    }
  }

  /** The first n rounds of the raw schedule are in place. */
  ghost predicate RawUpTo(w: seq<bv32>, bits: seq<bool>, n: nat)
    requires |bits| == 56 && n <= 16
  {
    |w| == 32 && forall j :: 0 <= j < n ==> PairAt(w, j, RawKey(bits, j))
  }

  lemma RawNext(w: seq<bv32>, w': seq<bv32>, bits: seq<bool>, i: nat, k: RoundKey)
    requires |bits| == 56 && i < 16 && RawUpTo(w, bits, i) && k == RawKey(bits, i)
    requires w' == w[2 * i := k.even][2 * i + 1 := k.odd]
    ensures RawUpTo(w', bits, i + 1)
  {
    hide RawKey;
    forall j | 0 <= j < i + 1
      ensures PairAt(w', j, RawKey(bits, j))
    {
      if j < i { assert PairAt(w, j, RawKey(bits, j)); }
    }
  }

  lemma RawOrder(w: seq<bv32>, key: seq<bv8>)
    requires |key| == 8 && RawUpTo(w, Selected(key), 16)
    ensures KeyPairs(w) == RawKeys(key)
  {
    hide RawKey, Selected;
    forall i | 0 <= i < 16
      ensures KeyPairs(w)[i] == RawKeys(key)[i]
    {
      assert PairAt(w, i, RawKey(Selected(key), i));
    }
  }

  /** One pass of the loop over the rounds. */
  method RawRound(pc1m: array<bool>, pcr: array<bool>, kn: array<bv32>, i: nat)
    requires pc1m.Length == 56 && pcr.Length == 56 && pc1m != pcr && kn.Length == 32 && i < 16
    requires RawUpTo(kn[..], pc1m[..], i)
    modifies pcr, kn
    ensures RawUpTo(kn[..], pc1m[..], i + 1)
  {
    RotationsInRange();
    hide Gathered, RotatedBits, TOTAL_ROTATIONS, RawUpTo;
    ghost var bits := pc1m[..];
    RotateBits(pc1m, pcr, TOTAL_ROTATIONS[i]);
    var even, odd := GatherBits(pcr);
    kn[2 * i] := even;
    kn[2 * i + 1] := odd;
    RawNext(old(kn[..]), kn[..], bits, i, RoundKey(even, odd));
  }

  /** DESKey: the round keys of a key, in the order of their use. */
  method DESKey(subkeys: array<bv32>, key: seq<bv8>, encrypt: bool)
    requires subkeys.Length == 32 && |key| == 8
    modifies subkeys
    ensures KeyPairs(subkeys[..]) == Schedule(key, encrypt)
  {
    var pc1m, pcr, kn := new bool[56], new bool[56], new bv32[32];
    SelectBits(key, pc1m);
    assert RawUpTo(kn[..], pc1m[..], 0);
    hide Selected, RawUpTo, KeyPairs, RawKeys, AllCooked;
    for i := 0 to 16
      modifies pcr, kn
      invariant pc1m[..] == Selected(key) && RawUpTo(kn[..], pc1m[..], i)
    {
      RawRound(pc1m, pcr, kn, i);
    }
    RawOrder(kn[..], key);
    CookKey(subkeys, kn[..], encrypt);
  }
}
