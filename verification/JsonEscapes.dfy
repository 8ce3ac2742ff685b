/** What the characters of a JSON string stand for: how cJSON.c reads them, and what section 7 of RFC 8259 and the
    UTF-8 of
    RFC 3629 say. Reading at or past the end of the text gives the terminating zero. */
module JsonEscapes {
  import opened Words
  import opened JsonText

  function Ch(s: seq<Byte>, i: nat): Byte
  {
    if i < |s| then s[i] else 0
  }

  function Within(s: seq<Byte>, i: nat): (r: nat)
    ensures r <= |s| && r <= i
  {
    if i <= |s| then i else |s|
  }

  /** The value of a hexadecimal digit, or 16. */
  function HexValue(c: Byte): (v: nat)
    ensures v <= 16
  {
    if 48 <= c <= 57 then c as int - 48 else if 65 <= c <= 70 then c as int - 55
      else if 97 <= c <= 102 then c as int - 87 else 16
  }

  /** parse_hex4 */
  function Hex4(s: seq<Byte>, at: nat): (h: nat)
    ensures h < 0x1_0000
  {
    var a, b, c, d := HexValue(Ch(s, at)), HexValue(Ch(s, at + 1)), HexValue(Ch(s, at + 2)), HexValue(Ch(s, at + 3));
    if a == 16 || b == 16 || c == 16 || d == 16 then 0 else a * 4096 + b * 256 + c * 16 + d
  }

  /** A code point below 2^21 as UTF-8. */
  function Utf8(uc: nat): (r: seq<Byte>)
    requires uc < 0x20_0000
    ensures 1 <= |r| <= 4
  {
    if uc < 0x80 then [uc]
    else if uc < 0x800 then [0xc0 + uc / 64, 0x80 + uc % 64]
    else if uc < 0x1_0000 then [0xe0 + uc / 4096, 0x80 + uc / 64 % 64, 0x80 + uc % 64]
    else [0xf0 + uc / 0x4_0000, 0x80 + uc / 4096 % 64, 0x80 + uc / 64 % 64, 0x80 + uc % 64]
  }

  /** The code point of a surrogate pair. */
  function Joined(uc: nat, uc2: nat): (r: nat)
    ensures r < 0x20_0000
  {
    0x1_0000 + uc % 0x400 * 0x400 + uc2 % 0x400
  }

  /** A \u escape, with its u at the given place: the bytes it stands for and the place of its last digit. */
  function Unicode(s: seq<Byte>, u: nat): (r: (seq<Byte>, nat))
    ensures r.1 > u
  {
    var uc := Hex4(s, u + 1);
    if 0xdc00 <= uc <= 0xdfff || uc == 0 then ([], u + 4)
    else if 0xd800 <= uc <= 0xdbff then
      if Ch(s, u + 5) != BACKSLASH || Ch(s, u + 6) != LOWER_U then ([], u + 4)
      else
        var uc2 := Hex4(s, u + 7);
        if uc2 < 0xdc00 || uc2 > 0xdfff then ([], u + 10)
        else (Utf8(Joined(uc, uc2)), u + 10)
    else (Utf8(uc), u + 4)
  }

  /** What an escape with its letter at the given place stands for, and the place of its last character. */
  function Unescape(s: seq<Byte>, e: nat): (r: (seq<Byte>, nat))
    ensures r.1 >= e
  {
    var c := Ch(s, e);
    if c == 98 then ([8], e) else if c == 102 then ([12], e) else if c == 110 then ([10], e)
    else if c == 114 then ([13], e) else if c == 116 then ([9], e)
    else if c == LOWER_U then Unicode(s, e) else ([c], e)
  }

  /** The inside of a string from the given place on: its bytes, and the place of the closing quote or of the
      end of the text. */
  function Body(s: seq<Byte>, at: nat): (r: (seq<Byte>, nat))
    requires at <= |s|
    ensures at <= r.1 <= |s|
    decreases |s| - at
  {
    var c := Ch(s, at);
    if c == QUOTE || c == 0 then ([], at)
    else if c != BACKSLASH then
      var rest := Body(s, at + 1);
      ([c] + rest.0, rest.1)
    else
      var one := Unescape(s, at + 1);
      var rest := Body(s, Within(s, one.1 + 1));
      (one.0 + rest.0, rest.1)
  }

  predicate IsHex(s: seq<Byte>, at: nat)
  {
    && HexValue(Ch(s, at)) < 16 && HexValue(Ch(s, at + 1)) < 16
    && HexValue(Ch(s, at + 2)) < 16 && HexValue(Ch(s, at + 3)) < 16
  }

  lemma HexIs(s: seq<Byte>, at: nat)
    ensures Hex4(s, at) != 0 ==> IsHex(s, at)
    ensures IsHex(s, at) ==> at + 4 <= |s|
  {}

  /** The inside of a string and its closing quote by section 7 of RFC 8259. */
  predicate ValidBody(s: seq<Byte>, at: nat)
    requires at <= |s|
    decreases |s| - at
  {
    var c, e := Ch(s, at), Ch(s, at + 1);
    if c == QUOTE then true
    else if c < 32 then false
    else if c != BACKSLASH then ValidBody(s, at + 1)
    else if e == LOWER_U then IsHex(s, at + 2) && (HexIs(s, at + 2); ValidBody(s, at + 6))
    else e in {QUOTE, BACKSLASH, 47, 98, 102, 110, 114, 116} && ValidBody(s, at + 2)
  }

  /** The hexadecimal digits in order; either case may be used. */
  const LOWER_DIGITS: seq<Byte> := [48, 49, 50, 51, 52, 53, 54, 55, 56, 57, 97, 98, 99, 100, 101, 102]
  const UPPER_DIGITS: seq<Byte> := [48, 49, 50, 51, 52, 53, 54, 55, 56, 57, 65, 66, 67, 68, 69, 70]

  /** What the letters behind a backslash stand for, but for u. */
  const SHORT_ESCAPES: map<Byte, Byte> :=
    map[34 := 0x22, 92 := 0x5c, 47 := 0x2f, 98 := 0x08, 102 := 0x0c, 110 := 0x0a, 114 := 0x0d, 116 := 0x09]

  predicate Digit(c: Byte, v: nat)
  {
    v < 16 && |LOWER_DIGITS| == 16 && |UPPER_DIGITS| == 16 && (c == LOWER_DIGITS[v] || c == UPPER_DIGITS[v])
  }

  predicate EscapeAt(s: seq<Byte>, b: nat)
  {
    Ch(s, b) == BACKSLASH && Ch(s, b + 1) == LOWER_U
  }

  /** The escape at b stands for a UTF-16 unit. */
  predicate UnitAt(s: seq<Byte>, b: nat, unit: nat)
  {
    && Ch(s, b) == BACKSLASH && Ch(s, b + 1) == LOWER_U && unit < 0x1_0000
    && Digit(Ch(s, b + 2), unit / 0x1000) && Digit(Ch(s, b + 3), unit / 0x100 % 0x10)
    && Digit(Ch(s, b + 4), unit / 0x10 % 0x10) && Digit(Ch(s, b + 5), unit % 0x10)
  }

  predicate HighSurrogate(unit: nat)
  {
    0xd800 <= unit <= 0xdbff
  }

  predicate LowSurrogate(unit: nat)
  {
    0xdc00 <= unit <= 0xdfff
  }

  /** A code point that is no surrogate. */
  predicate Scalar(cp: nat)
  {
    cp <= 0x10_ffff && !HighSurrogate(cp) && !LowSurrogate(cp)
  }

  /** The n characters at b write a code point: as one escape, or above the basic plane as a pair. */
  predicate Writes(s: seq<Byte>, b: nat, n: nat, cp: nat)
  {
    Scalar(cp) &&
    if cp < 0x1_0000 then n == 6 && UnitAt(s, b, cp)
    else
      n == 12 && UnitAt(s, b, 0xd800 + (cp - 0x1_0000) / 0x400) && UnitAt(s, b + 6, 0xdc00 + (cp - 0x1_0000) % 0x400)
  }

  /** The bytes from i on are n continuation bytes. */
  predicate Trail(b: seq<Byte>, n: nat)
  {
    n < |b| && forall i :: 1 <= i <= n ==> 0x80 <= b[i] < 0xc0
  }

  /** A decoder of UTF-8: the first code point and the number of its bytes, or (0, 0) where there is none. Longer forms
      than needed and surrogates are refused. */
  function FirstPoint(b: seq<Byte>): (nat, nat)
  {
    if b == [] then (0, 0)
    else if b[0] < 0x80 then (b[0], 1)
    else if 0xc0 <= b[0] < 0xe0 && Trail(b, 1) then Checked(Sixes(b[0] as int - 0xc0, b, 1), 2, 0x80)
    else if 0xe0 <= b[0] < 0xf0 && Trail(b, 2) then Checked(Sixes(b[0] as int - 0xe0, b, 2), 3, 0x800)
    else if 0xf0 <= b[0] < 0xf8 && Trail(b, 3) then Checked(Sixes(b[0] as int - 0xf0, b, 3), 4, 0x1_0000)
    else (0, 0)
  }

  /** The bits of a first byte with the six bits of each of n continuation bytes behind them. */
  function Sixes(first: nat, b: seq<Byte>, n: nat): nat
    requires Trail(b, n)
  {
    if n == 0 then first else Sixes(first, b, n - 1) * 0x40 + (b[n] as int - 0x80)
  }

  function Checked(cp: nat, n: nat, least: nat): (nat, nat)
  {
    if least <= cp && Scalar(cp) then (cp, n) else (0, 0)
  }

  lemma DigitIs(c: Byte, v: nat)
    requires Digit(c, v)
    ensures HexValue(c) == v
  {}

  lemma UnitIs(s: seq<Byte>, b: nat, unit: nat)
    requires UnitAt(s, b, unit)
    ensures Hex4(s, b + 2) == unit && IsHex(s, b + 2)
  {
    DigitIs(Ch(s, b + 2), unit / 0x1000);
    DigitIs(Ch(s, b + 3), unit / 0x100 % 0x10);
    DigitIs(Ch(s, b + 4), unit / 0x10 % 0x10);
    DigitIs(Ch(s, b + 5), unit % 0x10);
    hide HexValue, Digit;
    FourDigits(unit);
  }

  lemma FourDigits(unit: nat)
    requires unit < 0x1_0000
    ensures unit == unit / 0x1000 * 0x1000 + unit / 0x100 % 0x10 * 0x100 + unit / 0x10 % 0x10 * 0x10 + unit % 0x10
    ensures unit / 0x1000 < 16
  {
    var tens, hundreds, thousands := unit / 0x10, unit / 0x10 / 0x10, unit / 0x10 / 0x10 / 0x10;
    var d0, d1, d2 := unit % 0x10, tens % 0x10, hundreds % 0x10;
    ByDigit(unit);
    ByDigit(tens);
    ByDigit(hundreds);
    LastTwo(unit, hundreds, d1 * 0x10 + d0);
    LastThree(unit, thousands, d2 * 0x100 + d1 * 0x10 + d0);
  }

  lemma ByDigit(n: nat)
    ensures n == n / 0x10 * 0x10 + n % 0x10 && n % 0x10 < 0x10
  {}

  /** The decoder gives back every code point that is encoded, whatever comes behind. */
  lemma Utf8Decoded(cp: nat, rest: seq<Byte>)
    requires cp < 0x20_0000 && Scalar(cp)
    ensures FirstPoint(Utf8(cp) + rest) == (cp, |Utf8(cp)|)
  {
    hide Scalar, Sixes;
    var b: seq<Byte> := Utf8(cp) + rest;
    SixBits(cp);
    if 0x80 <= cp < 0x800 {
      OneSix(cp / 64, b);
    } else if 0x800 <= cp < 0x1_0000 {
      TwoSixes(cp / 4096, b);
    } else if 0x1_0000 <= cp {
      ThreeSixes(cp / 0x4_0000, b);
    }
  }

  lemma SixBits(cp: nat)
    ensures cp == cp / 64 * 64 + cp % 64 && cp / 64 == cp / 4096 * 64 + cp / 64 % 64
    ensures cp / 4096 == cp / 0x4_0000 * 64 + cp / 4096 % 64
  {}

  lemma OneSix(first: nat, b: seq<Byte>)
    requires Trail(b, 1)
    ensures Sixes(first, b, 1) == first * 64 + (b[1] as int - 0x80)
  {
    assert Sixes(first, b, 0) == first;
  }

  lemma TwoSixes(first: nat, b: seq<Byte>)
    requires Trail(b, 2)
    ensures Sixes(first, b, 2) == (first * 64 + (b[1] as int - 0x80)) * 64 + (b[2] as int - 0x80)
  {
    OneSix(first, b);
  }

  lemma ThreeSixes(first: nat, b: seq<Byte>)
    requires Trail(b, 3)
    ensures Sixes(first, b, 3) ==
      ((first * 64 + (b[1] as int - 0x80)) * 64 + (b[2] as int - 0x80)) * 64 + (b[3] as int - 0x80)
  {
    TwoSixes(first, b);
  }

  /** Every code point from 1 on that is written by escapes is read as bytes that decode to it. */
  lemma PointReadBack(s: seq<Byte>, b: nat, n: nat, cp: nat, rest: seq<Byte>)
    requires Writes(s, b, n, cp) && cp > 0
    ensures var one := Unescape(s, b + 1); one.1 == b + n - 1 && FirstPoint(one.0 + rest) == (cp, |one.0|)
  {
    Utf8Decoded(cp, rest);
    if cp < 0x1_0000 { SingleRead(s, b, cp); } else { PairRead(s, b, cp); }
    hide Utf8, FirstPoint, Unescape, UnitAt, Scalar;
  }

  lemma SingleRead(s: seq<Byte>, b: nat, cp: nat)
    requires 0 < cp < 0x1_0000 && Scalar(cp) && UnitAt(s, b, cp)
    ensures Unescape(s, b + 1) == (Utf8(cp), b + 5)
  {
    hide *;
    UnitIs(s, b, cp);
    UnitParts(s, b, cp);
    SingleUnescaped(s, b);
    ScalarIs(cp);
  }

  lemma ScalarIs(cp: nat)
    ensures Scalar(cp) <==> cp <= 0x10_ffff && !(0xd800 <= cp <= 0xdfff)
    ensures HighSurrogate(cp) <==> 0xd800 <= cp <= 0xdbff
    ensures LowSurrogate(cp) <==> 0xdc00 <= cp <= 0xdfff
  {}

  lemma SingleUnescaped(s: seq<Byte>, b: nat)
    requires EscapeAt(s, b)
    ensures var uc := Hex4(s, b + 2);
      uc != 0 && !(0xd800 <= uc <= 0xdfff) ==> Unescape(s, b + 1) == (Utf8(uc), b + 5)
  {
    hide Utf8, Hex4;
  }

  lemma PairRead(s: seq<Byte>, b: nat, cp: nat)
    requires 0x1_0000 <= cp && Scalar(cp)
    requires UnitAt(s, b, 0xd800 + (cp - 0x1_0000) / 0x400) && UnitAt(s, b + 6, 0xdc00 + (cp - 0x1_0000) % 0x400)
    ensures Unescape(s, b + 1) == (Utf8(cp), b + 11)
  {
    hide *;
    ScalarIs(cp);
    PairIs(cp);
    PairUnescaped(s, b, 0xd800 + (cp - 0x1_0000) / 0x400, 0xdc00 + (cp - 0x1_0000) % 0x400);
  }

  lemma PairUnescaped(s: seq<Byte>, b: nat, hi: nat, lo: nat)
    requires UnitAt(s, b, hi) && UnitAt(s, b + 6, lo) && HighSurrogate(hi) && LowSurrogate(lo)
    ensures Unescape(s, b + 1) == (Utf8(Joined(hi, lo)), b + 11)
  {
    hide *;
    UnitIs(s, b, hi);
    UnitIs(s, b + 6, lo);
    UnitParts(s, b, hi);
    UnitParts(s, b + 6, lo);
    ScalarIs(hi);
    ScalarIs(lo);
    TwoUnescaped(s, b);
  }

  lemma TwoUnescaped(s: seq<Byte>, b: nat)
    requires EscapeAt(s, b) && EscapeAt(s, b + 6)
    ensures var uc, uc2 := Hex4(s, b + 2), Hex4(s, b + 8);
      && (0xd800 <= uc <= 0xdbff && 0xdc00 <= uc2 <= 0xdfff ==> Unescape(s, b + 1) == (Utf8(Joined(uc, uc2)), b + 11))
      && (0xd800 <= uc <= 0xdbff && !(0xdc00 <= uc2 <= 0xdfff) ==> Unescape(s, b + 1) == ([], b + 11))
  {
    hide Utf8, Hex4, Joined;
  }

  lemma NoneUnescaped(s: seq<Byte>, b: nat)
    requires EscapeAt(s, b)
    ensures var uc := Hex4(s, b + 2);
      0xdc00 <= uc <= 0xdfff || uc == 0 || (0xd800 <= uc <= 0xdbff && !EscapeAt(s, b + 6)) ==>
        Unescape(s, b + 1) == ([], b + 5)
  {
    hide Utf8, Hex4, Joined;
  }

  lemma UnitParts(s: seq<Byte>, b: nat, unit: nat)
    requires UnitAt(s, b, unit)
    ensures EscapeAt(s, b) && unit < 0x1_0000
  {}

  lemma PairIs(cp: nat)
    requires 0x1_0000 <= cp <= 0x10_ffff
    ensures var hi, lo := 0xd800 + (cp - 0x1_0000) / 0x400, 0xdc00 + (cp - 0x1_0000) % 0x400;
      HighSurrogate(hi) && LowSurrogate(lo) && Joined(hi, lo) == cp
  {}

  /** The UTF-16 unit that an escape stands for. */
  ghost function UnitOf(s: seq<Byte>, b: nat): (unit: nat)
    requires EscapeAt(s, b) && IsHex(s, b + 2)
    ensures UnitAt(s, b, unit)
  {
    UnitExists(s, b);
    Hex4(s, b + 2)
  }

  lemma DigitExists(c: Byte)
    requires HexValue(c) < 16
    ensures Digit(c, HexValue(c))
  {}

  lemma UnitExists(s: seq<Byte>, b: nat)
    requires EscapeAt(s, b) && IsHex(s, b + 2)
    ensures UnitAt(s, b, Hex4(s, b + 2))
  {
    hide HexValue, Digit, UnitAt, Ch;
    var d0, d1, d2, d3 :=
      HexValue(Ch(s, b + 2)), HexValue(Ch(s, b + 3)), HexValue(Ch(s, b + 4)), HexValue(Ch(s, b + 5));
    DigitExists(Ch(s, b + 2));
    DigitExists(Ch(s, b + 3));
    DigitExists(Ch(s, b + 4));
    DigitExists(Ch(s, b + 5));
    DigitsOf(d0, d1, d2, d3);
    UnitAtIs(s, b, Hex4(s, b + 2));
  }

  lemma UnitAtIs(s: seq<Byte>, b: nat, unit: nat)
    ensures UnitAt(s, b, unit) <==>
      && EscapeAt(s, b) && unit < 0x1_0000 && Digit(Ch(s, b + 2), unit / 0x1000)
      && Digit(Ch(s, b + 3), unit / 0x100 % 0x10) && Digit(Ch(s, b + 4), unit / 0x10 % 0x10)
      && Digit(Ch(s, b + 5), unit % 0x10)
  {
    hide Digit, Ch;
  }

  lemma DigitsOf(a: nat, b: nat, c: nat, d: nat)
    requires a < 16 && b < 16 && c < 16 && d < 16
    ensures var unit := a * 4096 + b * 256 + c * 16 + d;
      && unit < 0x1_0000 && unit / 0x1000 == a && unit / 0x100 % 0x10 == b && unit / 0x10 % 0x10 == c
      && unit % 0x10 == d
  {
    var unit := a * 4096 + b * 256 + c * 16 + d;
    LastDigit(unit, a * 256 + b * 16 + c, d);
    LastTwo(unit, a * 16 + b, c * 16 + d);
    LastThree(unit, a, b * 256 + c * 16 + d);
    LastDigit(a * 256 + b * 16 + c, a * 16 + b, c);
    LastDigit(a * 16 + b, a, b);
  }

  lemma LastDigit(n: nat, q: nat, r: nat)
    requires n == q * 0x10 + r && r < 0x10
    ensures n / 0x10 == q && n % 0x10 == r
  {}

  lemma LastTwo(n: nat, q: nat, r: nat)
    requires n == q * 0x100 + r && r < 0x100
    ensures n / 0x100 == q
  {}

  lemma LastThree(n: nat, q: nat, r: nat)
    requires n == q * 0x1000 + r && r < 0x1000
    ensures n / 0x1000 == q
  {}

  /** The bytes begin with the UTF-8 of a code point. */
  predicate BeginsWith(bytes: seq<Byte>, cp: nat)
  {
    FirstPoint(bytes).0 == cp && 0 < FirstPoint(bytes).1 <= |bytes|
  }

  /** What is left behind the first code point. */
  function AfterPoint(bytes: seq<Byte>): seq<Byte>
  {
    if FirstPoint(bytes).1 <= |bytes| then bytes[FirstPoint(bytes).1..] else []
  }

  /** What the escape at b writes, or zero for nothing, and the number of its characters: a surrogate of the high half
      takes an escape behind it with it, and writes a code point if that is one of the low half. As in the code, any
      other surrogate writes nothing, and nor does the code point zero. */
  ghost function PointAt(s: seq<Byte>, b: nat): (r: (nat, nat))
    requires EscapeAt(s, b) && IsHex(s, b + 2) && (EscapeAt(s, b + 6) ==> IsHex(s, b + 8))
    ensures r.1 == 12 || r.1 == 6
  {
    var unit := UnitOf(s, b);
    if HighSurrogate(unit) && EscapeAt(s, b + 6) then
      var unit2 := UnitOf(s, b + 6);
      (if LowSurrogate(unit2) then 0x1_0000 + (unit - 0xd800) * 0x400 + (unit2 - 0xdc00) else 0, 12)
    else (if HighSurrogate(unit) || LowSurrogate(unit) then 0 else unit, 6)
  }

  lemma ValidEscape(s: seq<Byte>, b: nat)
    requires b <= |s| && ValidBody(s, b) && EscapeAt(s, b)
    ensures IsHex(s, b + 2) && b + 6 <= |s| && ValidBody(s, b + 6)
    ensures EscapeAt(s, b + 6) ==> IsHex(s, b + 8) && b + 12 <= |s| && ValidBody(s, b + 12)
  {
    HexIs(s, b + 2);
    if EscapeAt(s, b + 6) { HexIs(s, b + 8); }
    hide IsHex, Hex4;
  }

  /** The same inside a valid string. */
  ghost function NextPoint(s: seq<Byte>, b: nat): (r: (nat, nat))
    requires b <= |s| && ValidBody(s, b) && EscapeAt(s, b)
    ensures r.1 > 0 && b + r.1 <= |s| && ValidBody(s, b + r.1)
  {
    ValidEscape(s, b);
    PointStays(s, b);
    PointAt(s, b)
  }

  lemma PointStays(s: seq<Byte>, b: nat)
    requires EscapeAt(s, b) && IsHex(s, b + 2) && (EscapeAt(s, b + 6) ==> IsHex(s, b + 8))
    ensures PointAt(s, b).1 == 12 ==> EscapeAt(s, b + 6)
  {
    hide *;
    PointIsOf(s, b);
  }

  /** The bytes, and the place of the closing quote, are what the inside of a string from b on stands for: characters
      stand for themselves, the letters of the table for what it says, and escapes for the UTF-8 of the code point they
      write. */
  ghost predicate Means(s: seq<Byte>, b: nat, bytes: seq<Byte>, end: nat)
    requires b <= |s| && ValidBody(s, b)
    decreases |s| - b
  {
    if Ch(s, b) == QUOTE then bytes == [] && end == b
    else if Ch(s, b) != BACKSLASH then bytes != [] && bytes[0] == Ch(s, b) && Means(s, b + 1, bytes[1..], end)
    else if !EscapeAt(s, b) then
      && Ch(s, b + 1) in SHORT_ESCAPES
      && bytes != [] && bytes[0] == SHORT_ESCAPES[Ch(s, b + 1)] && Means(s, b + 2, bytes[1..], end)
    else
      hide NextPoint;
      var (cp, n) := NextPoint(s, b);
      if cp == 0 then Means(s, b + n, bytes, end)
      else BeginsWith(bytes, cp) && Means(s, b + n, AfterPoint(bytes), end)
  }

  /** The code's escapes are these. */
  lemma PointIs(s: seq<Byte>, b: nat)
    requires EscapeAt(s, b) && IsHex(s, b + 2) && (EscapeAt(s, b + 6) ==> IsHex(s, b + 8))
    ensures var (cp, n) := PointAt(s, b);
      (n == 12 ==> EscapeAt(s, b + 6)) && Written(Unescape(s, b + 1).0, cp) && Unescape(s, b + 1).1 == b + n - 1
  {
    hide *;
    PointIsOf(s, b);
    if HighSurrogate(UnitOf(s, b)) && EscapeAt(s, b + 6) { PointOfTwo(s, b); } else { PointOfOne(s, b); }
  }

  /** The bytes of a code point, or none for zero. */
  predicate Written(bytes: seq<Byte>, cp: nat)
  {
    if cp == 0 then bytes == [] else cp < 0x20_0000 && Scalar(cp) && bytes == Utf8(cp)
  }

  lemma WrittenIs(cp: nat)
    ensures Written([], 0)
    ensures 0 < cp < 0x20_0000 && Scalar(cp) ==> Written(Utf8(cp), cp)
  {}

  lemma PointOfOne(s: seq<Byte>, b: nat)
    requires EscapeAt(s, b) && IsHex(s, b + 2)
    requires !(HighSurrogate(UnitOf(s, b)) && EscapeAt(s, b + 6))
    ensures var unit := UnitOf(s, b);
      Written(Unescape(s, b + 1).0, if HighSurrogate(unit) || LowSurrogate(unit) then 0 else unit)
    ensures Unescape(s, b + 1).1 == b + 5
  {
    hide *;
    var unit := UnitOf(s, b);
    UnitIs(s, b, unit);
    UnitParts(s, b, unit);
    SingleUnescaped(s, b);
    NoneUnescaped(s, b);
    ScalarIs(unit);
    WrittenIs(unit);
  }

  lemma PointOfTwo(s: seq<Byte>, b: nat)
    requires EscapeAt(s, b) && EscapeAt(s, b + 6) && IsHex(s, b + 2) && IsHex(s, b + 8) && HighSurrogate(UnitOf(s, b))
    ensures var unit, unit2 := UnitOf(s, b), UnitOf(s, b + 6);
      Written(Unescape(s, b + 1).0,
        if LowSurrogate(unit2) then 0x1_0000 + (unit - 0xd800) * 0x400 + (unit2 - 0xdc00) else 0)
    ensures Unescape(s, b + 1).1 == b + 11
  {
    hide *;
    var unit, unit2 := UnitOf(s, b), UnitOf(s, b + 6);
    UnitIs(s, b, unit);
    UnitIs(s, b + 6, unit2);
    TwoUnescaped(s, b);
    ScalarIs(unit);
    ScalarIs(unit2);
    if LowSurrogate(unit2) { PairPoint(unit, unit2); }
    WrittenIs(Joined(unit, unit2));
  }

  lemma PointIsOf(s: seq<Byte>, b: nat)
    requires EscapeAt(s, b) && IsHex(s, b + 2) && (EscapeAt(s, b + 6) ==> IsHex(s, b + 8))
    ensures var unit := UnitOf(s, b);
      if HighSurrogate(unit) && EscapeAt(s, b + 6) then
        var unit2 := UnitOf(s, b + 6);
        PointAt(s, b) ==
          (if LowSurrogate(unit2) then 0x1_0000 + (unit - 0xd800) * 0x400 + (unit2 - 0xdc00) else 0, 12)
      else PointAt(s, b) == (if HighSurrogate(unit) || LowSurrogate(unit) then 0 else unit, 6)
  {
    hide UnitOf, IsHex;
  }

  lemma Utf8Begins(cp: nat, rest: seq<Byte>)
    requires cp < 0x20_0000 && Scalar(cp)
    ensures BeginsWith(Utf8(cp) + rest, cp) && AfterPoint(Utf8(cp) + rest) == rest
  {
    Utf8Decoded(cp, rest);
    hide FirstPoint, Utf8, Scalar;
  }

  lemma PairPoint(hi: nat, lo: nat)
    requires HighSurrogate(hi) && LowSurrogate(lo)
    ensures var cp := 0x1_0000 + (hi - 0xd800) * 0x400 + (lo - 0xdc00);
      cp == Joined(hi, lo) && Scalar(cp) && 0x1_0000 <= cp
  {}

  lemma ShortMeans(s: seq<Byte>, b: nat)
    requires b <= |s| && ValidBody(s, b) && Ch(s, b) == BACKSLASH && Ch(s, b + 1) != LOWER_U
    ensures Ch(s, b + 1) in SHORT_ESCAPES && Unescape(s, b + 1) == ([SHORT_ESCAPES[Ch(s, b + 1)]], b + 1)
    ensures b + 2 <= |s| && ValidBody(s, b + 2)
  {}

  lemma PointNext(s: seq<Byte>, b: nat)
    requires b <= |s| && ValidBody(s, b) && EscapeAt(s, b)
    ensures var (cp, n) := NextPoint(s, b);
      n > 0 && b + n <= |s| && Written(Unescape(s, b + 1).0, cp) && Unescape(s, b + 1).1 == b + n - 1
  {
    ValidEscape(s, b);
    PointIs(s, b);
    hide PointAt, Unescape, Written, ValidBody, EscapeAt, IsHex;
  }

  /** Every valid string is read as what it stands for, up to its closing quote. */
  lemma {:induction false} BodyMeans(s: seq<Byte>, b: nat)
    requires b <= |s| && ValidBody(s, b)
    ensures Means(s, b, Body(s, b).0, Body(s, b).1)
    decreases |s| - b
  {
    hide HexValue, Digit, UnitAt, IsHex, Hex4, Utf8, BeginsWith, AfterPoint, Scalar, PointAt, Unicode, NextPoint;
    if Ch(s, b) == QUOTE {
    } else if Ch(s, b) != BACKSLASH {
      BodyMeans(s, b + 1);
      assert ([Ch(s, b)] + Body(s, b + 1).0)[1..] == Body(s, b + 1).0;
    } else if Ch(s, b + 1) != LOWER_U {
      ShortMeans(s, b);
      BodyMeans(s, b + 2);
      var c: Byte := SHORT_ESCAPES[Ch(s, b + 1)];
      assert ([c] + Body(s, b + 2).0)[1..] == Body(s, b + 2).0;
    } else {
      PointNext(s, b);
      hide Unescape;
      var (cp, n) := NextPoint(s, b);
      BodyMeans(s, b + n);
      if cp == 0 {
        assert [] + Body(s, b + n).0 == Body(s, b + n).0;
      } else {
        Utf8Begins(cp, Body(s, b + n).0);
      }
    }
  }
}
