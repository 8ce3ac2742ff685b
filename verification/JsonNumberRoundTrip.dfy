/** The texts of print_number are read through to their ends by parse_number. */
module JsonNumberRoundTrip {
  import opened Words
  import opened Slices
  import opened Doubles
  import opened JsonNumbers
  import opened JsonText
  import opened JsonEscapes
  import opened JsonStrings
  import opened JsonParse
  import opened JsonReading

  /** One digit is read. */
  lemma DigitRead(s: seq<Byte>, at: nat, c: Byte, v: nat, w: Number)
    requires IsDigit(c) && Has(s, at, [c])
    ensures at < |s| && DigitsEnd(s, at) == DigitsEnd(s, at + 1)
    ensures DigitsValue(s, at, v) == DigitsValue(s, at + 1, v * 10 + (c as int - 48))
    ensures DigitsRead(s, at, w) == DigitsRead(s, at + 1, NextDigit(w, c))
  {
    HasFirst(s, at, [c]);
    hide NextDigit;
  }

  /** A run of digits is read through to its value, and to the double that they give. */
  lemma {:induction false} DigitsThrough(s: seq<Byte>, at: nat, n: nat)
    requires Has(s, at, Digits(n))
    ensures var end := at + |Digits(n)|;
      && end <= |s| && DigitsEnd(s, at) == DigitsEnd(s, end) && DigitsValue(s, at, 0) == DigitsValue(s, end, n)
      && DigitsRead(s, at, Finite(0.0)) == DigitsRead(s, end, Gathered(n))
    decreases n
  {
    hide Has, DigitsEnd, DigitsValue, DigitsRead, NextDigit;
    var c: Byte := DigitByte(n);
    if n < 10 {
      DigitRead(s, at, c, 0, Finite(0.0));
    } else {
      HasSplit(s, at, Digits(n / 10), [c]);
      DigitsThrough(s, at, n / 10);
      DigitRead(s, at + |Digits(n / 10)|, c, n / 10, Gathered(n / 10));
    }
  }

  lemma {:induction false} FirstDigit(n: nat)
    ensures IsDigit(Digits(n)[0]) && (n > 0 ==> Digits(n)[0] != 48)
  {
    if n >= 10 { FirstDigit(n / 10); }
  }

  /** What may follow a number without becoming part of it. */
  ghost predicate Delimited(s: seq<Byte>, at: nat)
  {
    var c := Ch(s, at);
    !IsDigit(c) && c != 46 && c != 101 && c != 69
  }

  lemma IntegerBack(s: seq<Byte>, at: nat, n: nat)
    requires Has(s, at, Digits(n)) && !IsDigit(Ch(s, at + |Digits(n)|))
    ensures IntegerPart(s, at) == (Gathered(n), at + |Digits(n)|)
  {
    hide *;
    GatheredZero();
    DigitsThrough(s, at, n);
    DigitsStop(s, at + |Digits(n)|, Gathered(n));
    ChFirst(s, at, Digits(n));
    IntegerPartIs(s, at, n);
  }

  lemma GatheredZero()
    ensures Gathered(0) == Finite(0.0)
  {
    GatheredExact(0);
    hide Gathered;
  }

  lemma IntegerPartIs(s: seq<Byte>, at: nat, n: nat)
    requires at < |s| && Ch(s, at) == Digits(n)[0] && !IsDigit(Ch(s, at + |Digits(n)|))
    ensures n == 0 ==> IntegerPart(s, at) == (Finite(0.0), at + |Digits(n)|)
    ensures n > 0 ==> IntegerPart(s, at) == (DigitsRead(s, at, Finite(0.0)), DigitsEnd(s, at))
  {
    FirstDigit(n);
    hide DigitsRead, DigitsEnd;
    if n > 0 { hide Digits; }
  }

  lemma DigitsStop(s: seq<Byte>, at: nat, v: Number)
    requires at <= |s| && !IsDigit(Ch(s, at))
    ensures DigitsRead(s, at, v) == v && DigitsEnd(s, at) == at
  {}

  /** An integer in decimal digits. */
  lemma DecimalBack(pow: PowerOfTen, s: seq<Byte>, at: nat, n: int)
    requires Has(s, at, Decimal(n)) && Delimited(s, at + |Decimal(n)|)
    ensures ParseNumber(pow, s, at) == Ok(Num(ReadingWhole(pow, n)), at + |Decimal(n)|)
  {
    hide Digits, IntegerPart, Scaled, Gathered;
    if n < 0 {
      HasSplit(s, at, [MINUS], Digits(-n));
      HasFirst(s, at, [MINUS]);
      IntegerBack(s, at + 1, -n);
    } else {
      FirstDigit(n);
      HasFirst(s, at, Digits(n));
      IntegerBack(s, at, n);
    }
  }

  /** A run of digits with leading zeros, behind the digits v. */
  lemma {:induction false} PaddedThrough(s: seq<Byte>, at: nat, n: nat, k: nat, v: nat, w: Number)
    requires Has(s, at, Padded(n, k)) && n < Tens(k)
    ensures DigitsEnd(s, at) == DigitsEnd(s, at + k)
    ensures DigitsValue(s, at, v) == DigitsValue(s, at + k, Behind(v, n, k))
    ensures DigitsRead(s, at, w) == DigitsRead(s, at + k, GatheredBehind(w, n, k))
    decreases k
  {
    hide *;
    if k > 0 {
      PaddedNext(w, n, k);
      BehindNext(v, n, k);
      var c: Byte := DigitByte(n);
      HasSplit(s, at, Padded(n / 10, k - 1), [c]);
      PaddedThrough(s, at, n / 10, k - 1, v, w);
      DigitRead(s, at + (k - 1), c, Behind(v, n / 10, k - 1), GatheredBehind(w, n / 10, k - 1));
    } else {
      PaddedNone(v, w, n);
    }
  }

  lemma PaddedNone(v: nat, w: Number, n: nat)
    requires n < Tens(0)
    ensures Behind(v, n, 0) == v && GatheredBehind(w, n, 0) == w
  {
    assert v * 1 == v;
  }

  lemma PaddedNext(w: Number, n: nat, k: nat)
    requires k > 0
    ensures Padded(n, k) == Padded(n / 10, k - 1) + [DigitByte(n)]
    ensures GatheredBehind(w, n, k) == NextDigit(GatheredBehind(w, n / 10, k - 1), DigitByte(n))
  {
    hide NextDigit;
  }

  lemma TwoDigitsBack(s: seq<Byte>, at: nat, n: nat)
    requires Has(s, at, TwoDigits(n)) && !IsDigit(Ch(s, at + |TwoDigits(n)|))
    ensures DigitsValue(s, at, 0) == n && DigitsEnd(s, at) == at + |TwoDigits(n)|
  {
    hide Digits, Padded, Behind, Gathered, GatheredBehind, DigitsRead;
    TensOf(0, n);
    if n < 10 { PaddedThrough(s, at, n, 2, 0, NotANumber); } else { DigitsThrough(s, at, n); }
  }

  /** The exponent comes back. */
  lemma ExponentBack(s: seq<Byte>, at: nat, e: int)
    requires Has(s, at, ExponentText(e)) && !IsDigit(Ch(s, at + |ExponentText(e)|))
    ensures Exponent(s, at) == (e, at + |ExponentText(e)|)
  {
    var n, sign: Byte := if e < 0 then -e else e, if e < 0 then MINUS else PLUS;
    hide TwoDigits, DigitsValue, DigitsEnd;
    assert ExponentText(e) == [LOWER_E] + ([sign] + TwoDigits(n));
    HasSplit(s, at, [LOWER_E], [sign] + TwoDigits(n));
    HasFirst(s, at, [LOWER_E]);
    HasSplit(s, at + 1, [sign], TwoDigits(n));
    HasFirst(s, at + 1, [sign]);
    TwoDigitsBack(s, at + 2, n);
  }

  /** The text of a number with a point: six places, and an exponent that may be missing. */
  function Pointed(h: nat, l: nat, tail: seq<Byte>): seq<Byte>
  {
    Digits(h) + ([POINT] + (Padded(l, 6) + tail))
  }

  lemma PointedIs(h: nat, l: nat, tail: seq<Byte>)
    ensures Pointed(h, l, tail) == Digits(h) + ([POINT] + (Padded(l, 6) + tail))
  {}

  /** Where its parts lie. */
  lemma PointedParts(s: seq<Byte>, at: nat, h: nat, l: nat, tail: seq<Byte>)
    requires Has(s, at, Pointed(h, l, tail)) && l < 1000000
    ensures var dot := at + |Digits(h)|;
      && dot < |s| && Ch(s, dot) == POINT && IsDigit(Ch(s, dot + 1)) && Has(s, at, Digits(h))
      && Has(s, dot + 1, Padded(l, 6)) && Has(s, dot + 7, tail) && |Pointed(h, l, tail)| == |Digits(h)| + 7 + |tail|
  {
    hide *;
    PointedIs(h, l, tail);
    HasSplit(s, at, Digits(h), [POINT] + (Padded(l, 6) + tail));
    PlacesParts(s, at + |Digits(h)|, l, tail);
  }

  lemma PlacesParts(s: seq<Byte>, dot: nat, l: nat, tail: seq<Byte>)
    requires Has(s, dot, [POINT] + (Padded(l, 6) + tail))
    ensures dot < |s| && Ch(s, dot) == POINT && IsDigit(Ch(s, dot + 1))
    ensures Has(s, dot + 1, Padded(l, 6)) && Has(s, dot + 7, tail)
  {
    hide *;
    var point: seq<Byte> := [POINT];
    FirstPadded(l, 6);
    HasSplit(s, dot, point, Padded(l, 6) + tail);
    HasSplit(s, dot + 1, Padded(l, 6), tail);
    ChFirst(s, dot, point);
    ChFirst(s, dot + 1, Padded(l, 6));
  }

  lemma ChFirst(s: seq<Byte>, at: nat, t: seq<Byte>)
    requires Has(s, at, t) && t != []
    ensures at < |s| && Ch(s, at) == t[0]
  {
    HasFirst(s, at, t);
  }

  lemma {:induction false} FirstPadded(n: nat, k: nat)
    requires k > 0
    ensures IsDigit(Padded(n, k)[0])
  {
    if k > 1 { FirstPadded(n / 10, k - 1); }
  }

  /** Such a number without its sign: the integer part, and the fraction behind it. */
  lemma PointedBack(s: seq<Byte>, at: nat, h: nat, l: nat, n: nat, tail: seq<Byte>)
    requires Has(s, at, Pointed(h, l, tail)) && l < 1000000 && !IsDigit(Ch(s, at + |Digits(h)| + 7))
    requires n == h * 1000000 + l && n <= TWO53
    ensures var dot := at + |Digits(h)|;
      && dot + 7 <= |s| && FractionEnd(s, dot) == dot + 7 && IntegerPart(s, at).1 == dot
      && DigitsRead(s, dot + 1, IntegerPart(s, at).0) == Finite(n as real)
  {
    var dot := at + |Digits(h)|;
    hide *;
    HighPart(h, l, n);
    PointedParts(s, at, h, l, tail);
    PointNoDigit(s, dot);
    IntegerBack(s, at, h);
    GatheredExact(h);
    PlacesRead(s, dot + 1, l, h, n);
    FractionThere(s, dot);
  }

  lemma HighPart(h: nat, l: nat, n: nat)
    requires n == h * 1000000 + l && n <= TWO53
    ensures h <= TWO53
  {}

  lemma PointNoDigit(s: seq<Byte>, at: nat)
    requires Ch(s, at) == POINT
    ensures !IsDigit(Ch(s, at))
  {}

  lemma FractionThere(s: seq<Byte>, dot: nat)
    requires dot < |s| && Ch(s, dot) == POINT && IsDigit(Ch(s, dot + 1))
    ensures FractionEnd(s, dot) == DigitsEnd(s, dot + 1)
  {}

  lemma PlacesRead(s: seq<Byte>, at: nat, l: nat, h: nat, n: nat)
    requires Has(s, at, Padded(l, 6)) && l < 1000000 && !IsDigit(Ch(s, at + 6))
    requires n == h * 1000000 + l && n <= TWO53
    ensures at + 6 <= |s| && DigitsEnd(s, at) == at + 6
    ensures DigitsRead(s, at, Finite(h as real)) == Finite(n as real)
  {
    hide Padded, Behind, GatheredBehind, DigitsValue, DigitsRead, DigitsEnd;
    TensOf(h, l);
    BehindExact(h, l, 6);
    PaddedThrough(s, at, l, 6, h, Finite(h as real));
    DigitsStop(s, at + 6, Finite(n as real));
  }

  /** And with it. */
  lemma SignedBack(pow: PowerOfTen, s: seq<Byte>, at: nat, x: real, h: nat, l: nat, n: nat, tail: seq<Byte>, e: int)
    requires Has(s, at, Signed(x, Pointed(h, l, tail))) && l < 1000000 && n == h * 1000000 + l && n <= TWO53
    requires var f := at + |Signed(x, Pointed(h, l, tail))| - |tail|;
      0 <= f <= |s| && !IsDigit(Ch(s, f)) && Exponent(s, f) == (e, f + |tail|)
    ensures ParseNumber(pow, s, at) == Ok(Num(Scaled(pow, x < 0.0, Finite(n as real), e - 6)),
      at + |Signed(x, Pointed(h, l, tail))|)
  {
    var p := if x < 0.0 then at + 1 else at;
    hide Digits, Padded, Pointed, IntegerPart, FractionEnd, DigitsRead, Exponent, Scaled, Has;
    SignedParts(s, at, x, h, l, tail);
    PointedParts(s, p, h, l, tail);
    PointedBack(s, p, h, l, n, tail);
  }

  lemma SignedParts(s: seq<Byte>, at: nat, x: real, h: nat, l: nat, tail: seq<Byte>)
    requires Has(s, at, Signed(x, Pointed(h, l, tail)))
    ensures at < |s| && (Ch(s, at) == MINUS <==> x < 0.0)
    ensures Has(s, if x < 0.0 then at + 1 else at, Pointed(h, l, tail))
    ensures |Signed(x, Pointed(h, l, tail))| == |Pointed(h, l, tail)| + if x < 0.0 then 1 else 0
  {
    var t := Pointed(h, l, tail);
    if x < 0.0 {
      HasSplit(s, at, [MINUS], t);
      HasFirst(s, at, [MINUS]);
    } else {
      FirstDigit(h);
      HasFirst(s, at, t);
    }
  }

  /** What the texts look like. */
  lemma FixedIs(x: real)
    ensures var q := Millionths(x); Fixed(x) == Signed(x, Pointed(q / 1000000, q % 1000000, []))
  {
    hide Digits, Millionths;
    assert Padded(Millionths(x) % 1000000, 6) + [] == Padded(Millionths(x) % 1000000, 6);
  }

  lemma ScientificIs(x: real)
    requires x != 0.0
    ensures var m := Mantissa(Magnitude(x));
      && 1000000 <= m.0 < 10000000
      && Scientific(x) == Signed(x, Pointed(m.0 / 1000000, m.0 % 1000000, ExponentText(m.1)))
  {
    MantissaRange(Magnitude(x));
    hide Digits, Padded, Mantissa, ExponentText;
  }

  lemma FixedBack(pow: PowerOfTen, s: seq<Byte>, at: nat, x: real)
    requires Has(s, at, Fixed(x)) && Delimited(s, at + |Fixed(x)|) && FormatOf(x).Decimals?
    ensures ParseNumber(pow, s, at)
      == Ok(Num(Scaled(pow, x < 0.0, Finite(Millionths(x) as real), -6)), at + |Fixed(x)|)
  {
    var q := Millionths(x);
    FixedIs(x);
    MillionthsBelow(x);
    hide Fixed, Pointed, Millionths, ParseNumber, Scaled, FormatOf;
    SignedBack(pow, s, at, x, q / 1000000, q % 1000000, q, [], 0);
  }

  /** Such a number has no more than sixteen digits, which are gathered exactly. */
  lemma MillionthsBelow(x: real)
    requires FormatOf(x).Decimals?
    ensures Millionths(x) <= TWO53
  {
    assert TenTo(5) == 100000.0 && TenTo(9) == 1000000000.0;
    hide TenTo, Close;
  }

  lemma ScientificBack(pow: PowerOfTen, s: seq<Byte>, at: nat, x: real)
    requires x != 0.0 && Has(s, at, Scientific(x)) && Delimited(s, at + |Scientific(x)|)
    ensures var m := Mantissa(Magnitude(x));
      ParseNumber(pow, s, at) == Ok(Num(Scaled(pow, x < 0.0, Finite(m.0 as real), m.1 - 6)), at + |Scientific(x)|)
  {
    var m := Mantissa(Magnitude(x));
    assert TWO53 > 10000000;
    hide *;
    ScientificIs(x);
    ScientificFrom(pow, s, at, x, m.0 / 1000000, m.0 % 1000000, m.0, m.1);
  }

  lemma ScientificFrom(pow: PowerOfTen, s: seq<Byte>, at: nat, x: real, h: nat, l: nat, n: nat, e: int)
    requires l < 1000000 && n == h * 1000000 + l && n <= TWO53 && Has(s, at, Signed(x, Pointed(h, l, ExponentText(e))))
    requires Delimited(s, at + |Signed(x, Pointed(h, l, ExponentText(e)))|)
    ensures ParseNumber(pow, s, at) == Ok(Num(Scaled(pow, x < 0.0, Finite(n as real), e - 6)),
      at + |Signed(x, Pointed(h, l, ExponentText(e)))|)
  {
    hide *;
    var tail: seq<Byte> := ExponentText(e);
    var p := if x < 0.0 then at + 1 else at;
    ExponentFirst(e);
    SignedParts(s, at, x, h, l, tail);
    PointedParts(s, p, h, l, tail);
    var f := p + |Digits(h)| + 7;
    NotDigitFirst(s, f, tail);
    NotDigit(s, f + |tail|);
    ExponentBack(s, f, e);
    SignedBack(pow, s, at, x, h, l, n, tail, e);
  }

  lemma ExponentFirst(e: int)
    ensures ExponentText(e) != [] && !IsDigit(ExponentText(e)[0])
  {
    hide Digits;
  }

  lemma NotDigitFirst(s: seq<Byte>, at: nat, t: seq<Byte>)
    requires Has(s, at, t) && t != [] && !IsDigit(t[0])
    ensures !IsDigit(Ch(s, at))
  {
    ChFirst(s, at, t);
  }

  lemma NotDigit(s: seq<Byte>, at: nat)
    requires Delimited(s, at)
    ensures !IsDigit(Ch(s, at))
  {}

  /** The text of any number is read through, and what it is read as. */
  lemma NumberBack(pow: PowerOfTen, s: seq<Byte>, at: nat, x: real)
    requires Has(s, at, NumberText(x)) && Delimited(s, at + |NumberText(x)|)
    ensures ParseNumber(pow, s, at) == Ok(Num(Reading(pow, x)), at + |NumberText(x)|)
  {
    hide Decimal, Fixed, Scientific, ParseNumber, Scaled, Mantissa, Millionths, Nearest, Truncated, FormatOf,
      ReadingWhole;
    match FormatOf(x)
    case Integer => DecimalBack(pow, s, at, Truncated(x));
    case Whole => DecimalBack(pow, s, at, Nearest(x));
    case Exponential => ScientificBack(pow, s, at, x);
    case Decimals => FixedBack(pow, s, at, x);
  }

  /** Its text starts with a sign or a digit. */
  lemma NumberFirst(x: real)
    ensures NumberText(x) != [] && (NumberText(x)[0] == MINUS || IsDigit(NumberText(x)[0]))
  {
    hide Digits, Mantissa, Millionths, Padded, ExponentText, Nearest, Truncated;
    match FormatOf(x)
    case Integer => FirstOfDecimal(Truncated(x));
    case Whole => FirstOfDecimal(Nearest(x));
    case Exponential =>
      MantissaRange(Magnitude(x));
      FirstDigit(Mantissa(Magnitude(x)).0 / 1000000);
    case Decimals => FirstDigit(Millionths(x) / 1000000);
  }

  lemma FirstOfDecimal(n: int)
    ensures Decimal(n) != [] && (Decimal(n)[0] == MINUS || IsDigit(Decimal(n)[0]))
  {
    FirstDigit(if n < 0 then -n else n);
  }
}
