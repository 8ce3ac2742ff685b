/** Diffie-Hellman key agreement (r_dh.c). */
module DiffieHellman {
  import opened Arithmetic
  import opened Words
  import opened DigitSequences
  import opened NaturalNumbers
  import opened ModularExponent
  import opened ByteStrings
  import opened Conversion
  import opened Primality

  datatype Params = Params(prime: seq<Byte>, generator: seq<Byte>)

  /** The number of digits NN_Digits finds in a number. */
  ghost function DigitCount(v: nat): nat
  {
    if v == 0 then 0 else 1 + DigitCount(v / 0x1_0000_0000)
  }

  lemma {:induction false} DigitCountOf(s: seq<Digit>)
    requires s != [] ==> s[|s| - 1] != 0
    ensures DigitCount(Val(s)) == |s|
  {
    if s != [] {
      assert s[1..] != [] ==> s[1..][|s| - 2] == s[|s| - 1];
      DigitCountOf(s[1..]);
      if Val(s[1..]) == 0 { assert s[1..] == []; }
    }
  }

  /** The modulus as the code reads it: at most MAX_NN_DIGITS digits. */
  ghost function Modulus(params: Params): nat
  {
    BigEndian(params.prime) % Weight(MAX_NN_DIGITS)
  }

  /** A byte string as the code reads it: cut to the digits of the modulus. */
  ghost function ReadBy(bytes: seq<Byte>, params: Params): nat
  {
    BigEndian(bytes) % Weight(DigitCount(Modulus(params)))
  }

  /** What NN_ModExp computes: an exponent of zero gives 1. */
  ghost function Power(g: nat, x: nat, p: nat): nat
    requires p > 0
  {
    if x == 0 then 1 else PowMod(g, x, p)
  }

  /** Reads the modulus and its digit count. */
  method ReadModulus(p: array<Digit>, params: Params) returns (pDigits: nat)
    requires p.Length == MAX_NN_DIGITS
    modifies p
    ensures pDigits <= MAX_NN_DIGITS && pDigits == DigitCount(Modulus(params))
    ensures Val(p[..pDigits]) == Modulus(params)
  {
    hide Val, Weight, BigEndian;
    Decode(p, MAX_NN_DIGITS, params.prime, |params.prime|);
    assert params.prime[..|params.prime|] == params.prime;
    pDigits := Digits(p, MAX_NN_DIGITS);
    DigitCountOf(p[..pDigits]);
  }

  /** out = base^x mod p as |prime| bytes, where x is given as bytes. */
  method PowerBytes(out: array<Byte>, base: array<Digit>, x: seq<Byte>, p: array<Digit>, pDigits: nat, params: Params)
    requires pDigits <= MAX_NN_DIGITS && pDigits <= p.Length && pDigits <= base.Length
    requires pDigits == DigitCount(Modulus(params)) && Val(p[..pDigits]) == Modulus(params) > 0
    requires |params.prime| <= out.Length
    modifies out
    ensures BigEndian(out[..|params.prime|]) == Power(Val(base[..pDigits]), ReadBy(x, params), Modulus(params))
    ensures forall k :: |params.prime| <= k < out.Length ==> out[k] == old(out[k])
  {
    var xd, y := new Digit[MAX_NN_DIGITS], new Digit[MAX_NN_DIGITS];
    hide Val, Weight, BigEndian, PowMod, DigitCount;
    assert x[..|x|] == x;
    Decode(xd, pDigits, x, |x|);
    var xDigits := Digits(xd, pDigits);
    ModExp(y, base, xd, xDigits, p, pDigits);
    PowerFits(Val(base[..pDigits]), ReadBy(x, params), params);
    Encode(out, |params.prime|, y[..], pDigits);
    assert y[..][..pDigits] == y[..pDigits];
  }

  /** A power modulo the prime fits into as many bytes as the prime. */
  lemma PowerFits(g: nat, x: nat, params: Params)
    requires Modulus(params) > 0
    ensures Power(g, x, Modulus(params)) % ByteWeight(|params.prime|) == Power(g, x, Modulus(params))
  {
    var len, p := |params.prime|, Modulus(params);
    BigEndianBound(params.prime);
    ModAtMost(BigEndian(params.prime), Weight(MAX_NN_DIGITS));
    assert 0 < p < ByteWeight(len);
    if len == 0 { assert ByteWeight(len) == 1; }
    hide *;
    PowerBelow(g, x, p, ByteWeight(len));
    ModSmall(Power(g, x, p), ByteWeight(len));
  }

  lemma ModAtMost(v: nat, w: nat)
    requires w > 0
    ensures v % w <= v
  {
    FloorBelow(v, w, v / w);
    MulMonotone(w, 0, v / w);
    DivModEquation(v, w);
  }

  lemma PowerBelow(g: nat, x: nat, p: nat, w: nat)
    requires 0 < p <= w && w >= 2
    ensures Power(g, x, p) < w
  {}

  /** R_GenerateBytes on a seeded generator: the bytes are whatever the generator yields. */
  method GenerateBytes(block: array<Byte>, bytes: seq<Byte>)
    requires |bytes| <= block.Length
    modifies block
    ensures block[..|bytes|] == bytes
  {
    for i := 0 to |bytes|
      invariant forall k :: 0 <= k < i ==> block[k] == bytes[k]
    {
      block[i] := bytes[i];
    }
  }

  /** Draws a private value and computes the public one. */
  method SetupDHAgreement(publicValue: array<Byte>, privateValue: array<Byte>, privateValueLen: nat, params: Params,
                          random: Random) returns (status: int)
    requires |params.prime| <= publicValue.Length && privateValueLen <= privateValue.Length
    requires publicValue != privateValue && Modulus(params) > 0
    requires random.Bytes? ==> |random.block| == privateValueLen
    modifies publicValue, privateValue
    ensures random.Unseeded? ==> status == RE_NEED_RANDOM && publicValue[..] == old(publicValue[..])
    ensures random.Bytes? ==>
      && status == 0
      && privateValue[..privateValueLen] == random.block
      && BigEndian(publicValue[..|params.prime|])
         == Power(ReadBy(params.generator, params), ReadBy(random.block, params), Modulus(params))
  {
    hide Val, Weight, BigEndian, Power, Modulus;
    var p, g := new Digit[MAX_NN_DIGITS], new Digit[MAX_NN_DIGITS];
    var pDigits := ReadModulus(p, params);
    assert params.generator[..|params.generator|] == params.generator;
    Decode(g, pDigits, params.generator, |params.generator|);
    if random.Unseeded? { return RE_NEED_RANDOM; }
    GenerateBytes(privateValue, random.block);
    PowerBytes(publicValue, g, random.block, p, pDigits, params);
    status := 0;
  }

  /** Computes the agreed key from the other party's public value and one's own private value. */
  method ComputeDHAgreedKey(agreedKey: array<Byte>, otherPublicValue: seq<Byte>, privateValue: seq<Byte>,
                            params: Params)
    returns (status: int)
    requires |params.prime| <= agreedKey.Length && |params.prime| <= |otherPublicValue| && Modulus(params) > 0
    modifies agreedKey
    ensures var y := ReadBy(otherPublicValue[..|params.prime|], params);
      if y >= Modulus(params) then status == RE_DATA && agreedKey[..] == old(agreedKey[..])
      else
        && status == 0
        && BigEndian(agreedKey[..|params.prime|]) == Power(y, ReadBy(privateValue, params), Modulus(params))
  {
    hide Val, Weight, BigEndian, Power, Modulus;
    var p, y := new Digit[MAX_NN_DIGITS], new Digit[MAX_NN_DIGITS];
    var pDigits := ReadModulus(p, params);
    Decode(y, pDigits, otherPublicValue, |params.prime|);
    assert y[0..0 + pDigits] == y[..pDigits] && p[0..0 + pDigits] == p[..pDigits];
    var c := Cmp(y, 0, p, 0, pDigits);
    if c >= 0 { return RE_DATA; }
    PowerBytes(agreedKey, y, privateValue, p, pDigits, params);
    status := 0;
  }

  /** An honest public value passes the range check, unless the modulus is 1 and the private value 0. */
  lemma HonestValueAccepted(g: nat, x: nat, p: nat)
    requires p > 0
    ensures Power(g, x, p) < p <==> p > 1 || x != 0
  {}

  /** Both parties reach the same number. */
  lemma PowersCommute(g: nat, x: nat, y: nat, p: nat)
    requires p > 1
    ensures Power(Power(g, y, p), x, p) == Power(Power(g, x, p), y, p)
  {
    if x == 0 || y == 0 {
      PowerOfOne(x, p);
      PowerOfOne(y, p);
    } else {
      PowerOfPower(g, y, x, p);
      PowerOfPower(g, x, y, p);
      assert x * y == y * x;
    }
  }

  lemma {:induction false} PowOne(e: nat)
    ensures Pow(1, e) == 1
  {
    if e > 0 { PowOne(e - 1); }
  }

  lemma PowerOfOne(x: nat, p: nat)
    requires p > 1
    ensures Power(1, x, p) == 1
  {
    PowOne(x);
    ModSmall(1, p);
  }

  lemma PowerOfPower(g: nat, x: nat, y: nat, p: nat)
    requires p > 1 && x > 0 && y > 0
    ensures x * y > 0 && Power(Power(g, x, p), y, p) == Pow(g, x * y) % p
  {
    MulPositive(x, y);
    PowCongruent(Pow(g, x), y, p);
    PowMul(g, x, y);
  }

  /** Reading back a public value gives the number that was written. */
  lemma ReadBack(bytes: seq<Byte>, v: nat, params: Params)
    requires BigEndian(bytes) == v && v < Modulus(params)
    ensures ReadBy(bytes, params) == v
  {
    var p := Modulus(params);
    assert p < Weight(DigitCount(p)) by { DigitCountBound(p); }
    ModSmall(v, Weight(DigitCount(p)));
  }

  lemma {:induction false} DigitCountBound(v: nat)
    ensures v < Weight(DigitCount(v))
  {
    if v > 0 { DigitCountBound(v / 0x1_0000_0000); }
  }

  /** A whole run of the protocol: with any modulus above 1 and any private values, of any lengths,
      nothing is rejected and the two keys are byte for byte the same. */
  method Agreement(params: Params, blockA: seq<Byte>, blockB: seq<Byte>) returns (keyA: seq<Byte>, keyB: seq<Byte>)
    requires Modulus(params) > 1
    ensures keyA == keyB && |keyA| == |params.prime|
  {
    hide Val, Weight, BigEndian, Power, Modulus, ReadBy;
    var len := |params.prime|;
    var publicA, publicB, a, b := new Byte[len], new Byte[len], new Byte[len], new Byte[len];
    var privateA, privateB := new Byte[|blockA|], new Byte[|blockB|];
    var status := SetupDHAgreement(publicA, privateA, |blockA|, params, Bytes(blockA));
    assert status == 0;
    status := SetupDHAgreement(publicB, privateB, |blockB|, params, Bytes(blockB));
    assert status == 0;
    ghost var p, g, x, y := Modulus(params), ReadBy(params.generator, params), ReadBy(blockA, params),
      ReadBy(blockB, params);
    assert publicA[..][..len] == publicA[..len] && publicB[..][..len] == publicB[..len];
    HonestValueAccepted(g, x, p);
    HonestValueAccepted(g, y, p);
    ReadBack(publicA[..len], Power(g, x, p), params);
    ReadBack(publicB[..len], Power(g, y, p), params);
    assert privateA[..] == blockA && privateB[..] == blockB;
    status := ComputeDHAgreedKey(a, publicB[..], privateA[..], params);
    assert status == 0;
    status := ComputeDHAgreedKey(b, publicA[..], privateB[..], params);
    assert status == 0;
    PowersCommute(g, x, y, p);
    BigEndianInjective(a[..len], b[..len]);
    keyA, keyB := a[..len], b[..len];
  }
}
