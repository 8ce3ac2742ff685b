/** Numbers as print_number of cJSON.c writes them, and what reading them gives. A number is a real here: the
    decimal formats are those of the C library, rounded to the nearest, on the exact value. */
module JsonNumbers {
  import opened Words
  import opened Doubles

  const MINUS: Byte := 45
  const PLUS: Byte := 43
  const POINT: Byte := 46
  const LOWER_E: Byte := 101

  const EPSILON: real := 1.0 / 4503599627370496.0

  /** pow(10.0, z) */
  function TenTo(z: int): (p: real)
    ensures p > 0.0
  {
    Power(10.0, z)
  }

  lemma TenToNext(z: int)
    ensures TenTo(z + 1) == 10.0 * TenTo(z)
  {
    PowerNext(10.0, z);
    hide Power;
  }

  lemma TenToProduct(y: int, z: int)
    ensures Product(TenTo(y), TenTo(z)) == TenTo(y + z)
  {
    PowerAdd(10.0, y, z);
    hide Power, Product;
  }

  lemma TenToGrows(y: int, z: int)
    requires y <= z
    ensures TenTo(y) <= TenTo(z)
  {
    PowerGrows(10.0, y, z);
    hide Power;
  }

  /** The conversion of a double to int. */
  function Truncated(x: real): int
  {
    if x < 0.0 then -(-x).Floor else x.Floor
  }

  predicate Close(n: int, x: real)
  {
    Magnitude(n as real - x) <= EPSILON
  }

  /** The decimal exponent of a positive number. */
  function Exponent10(x: real): (e: int)
    requires x > 0.0
    ensures TenTo(e) <= x < TenTo(e + 1)
  {
    ExponentOf(10.0, x)
  }

  /** What a number in a text can be: the doubles lie between these powers of ten. */
  predicate Double(x: real)
  {
    x == 0.0 || TenTo(-324) <= Magnitude(x) < TenTo(309)
  }

  /** The decimal digits of a number, and those of a number with leading zeros up to a width. */
  function Digits(n: nat): (r: seq<Byte>)
    ensures |r| > 0
  {
    if n < 10 then [48 + n] else Digits(n / 10) + [48 + n % 10]
  }

  function Padded(n: nat, width: nat): (r: seq<Byte>)
    ensures |r| == width
  {
    if width == 0 then [] else Padded(n / 10, width - 1) + [48 + n % 10]
  }

  /** %d, and %.0f of a number that has been rounded. */
  function Decimal(n: int): seq<Byte>
  {
    if n < 0 then [MINUS] + Digits(-n) else Digits(n)
  }

  function Signed(x: real, text: seq<Byte>): seq<Byte>
  {
    if x < 0.0 then [MINUS] + text else text
  }

  /** The number of millionths that %f prints. */
  function Millionths(x: real): nat
  {
    Nearest(Magnitude(x) * 1000000.0)
  }

  /** %f */
  function Fixed(x: real): seq<Byte>
  {
    var q := Millionths(x);
    Signed(x, Digits(q / 1000000) + ([POINT] + Padded(q % 1000000, 6)))
  }

  /** Seven digits of a number whose exponent is e, or a power of ten with eight. */
  function SevenDigits(x: real, e: int): (m: int)
  {
    Nearest(Product(x, TenTo(6 - e)))
  }

  lemma SevenDigitsRange(x: real, e: int)
    requires TenTo(e) <= x < TenTo(e + 1)
    ensures 1000000 <= SevenDigits(x, e) <= 10000000
  {
    hide TenTo, Nearest, Product;
    var t := TenTo(6 - e);
    TenToProduct(e, 6 - e);
    TenToProduct(e + 1, 6 - e);
    Million();
    if TenTo(e) < x { ProductLess(t, TenTo(e), x); }
    ProductLess(t, x, TenTo(e + 1));
    NearestWithin(Product(x, t), 1000000, 10000000);
  }

  lemma NearestWithin(y: real, lo: int, hi: int)
    requires lo as real <= y <= hi as real
    ensures lo <= Nearest(y) <= hi
  {}

  /** The seven digits that %e prints, and the exponent of the first one; rounding up to a power of ten makes
      one more. */
  function Mantissa(x: real): (r: (int, int))
    requires x > 0.0
  {
    var e := Exponent10(x);
    var m := SevenDigits(x, e);
    if m == 10000000 then (1000000, e + 1) else (m, e)
  }

  lemma MantissaRange(x: real)
    requires x > 0.0
    ensures 1000000 <= Mantissa(x).0 < 10000000
  {
    SevenDigitsRange(x, Exponent10(x));
    hide TenTo, SevenDigits, Exponent10;
  }

  lemma Million()
    ensures TenTo(6) == 1000000.0 && TenTo(7) == 10000000.0 && TenTo(-6) == 1.0 / 1000000.0
  {
    assert TenTo(1) == 10.0 && TenTo(2) == 100.0 && TenTo(3) == 1000.0 && TenTo(4) == 10000.0;
    assert TenTo(5) == 100000.0;
    assert TenTo(-1) == 1.0 / 10.0 && TenTo(-2) == 1.0 / 100.0 && TenTo(-3) == 1.0 / 1000.0;
    assert TenTo(-4) == 1.0 / 10000.0 && TenTo(-5) == 1.0 / 100000.0;
  }

  /** %e */
  function Scientific(x: real): seq<Byte>
    requires x != 0.0
  {
    var m := Mantissa(Magnitude(x));
    MantissaRange(Magnitude(x));
    Signed(x, Digits(m.0 / 1000000) + ([POINT] + (Padded(m.0 % 1000000, 6) + ExponentText(m.1))))
  }

  /** The exponent has a sign and two digits or more. */
  function ExponentText(e: int): seq<Byte>
  {
    [LOWER_E, if e < 0 then MINUS else PLUS] + TwoDigits(if e < 0 then -e else e)
  }

  function TwoDigits(n: nat): seq<Byte>
  {
    if n < 10 then Padded(n, 2) else Digits(n)
  }

  /** The characters of numbers, byte by byte. */
  lemma CharactersShown(n: nat, x: real)
    ensures n < 10 ==> Digits(n) == [0x30 + n]
    ensures n > 0 ==> Decimal(0 - n) == [0x2d] + Digits(n)
    ensures 9 < n < 100 ==>
      ExponentText(n) == [0x65, 0x2b] + Digits(n) && ExponentText(0 - n) == [0x65, 0x2d] + Digits(n)
    ensures var q := Millionths(x);
      var text := Digits(q / 1000000) + ([0x2e] + Padded(q % 1000000, 6));
      Fixed(x) == if x < 0.0 then [0x2d] + text else text
  {
    hide Millionths, Padded;
  }

  /** Which of its formats print_number takes. */
  datatype Format = Integer | Whole | Exponential | Decimals

  function FormatOf(x: real): (f: Format)
    ensures f.Exponential? ==> x != 0.0
  {
    if Close(Truncated(x), x) && -2147483648.0 <= x <= 2147483647.0 then Integer
    else if Close(x.Floor, x) && Magnitude(x) < TenTo(60) then Whole
    else if Magnitude(x) < TenTo(-6) || Magnitude(x) > TenTo(9) then Exponential
    else Decimals
  }

  /** The text of a number. */
  function NumberText(x: real): seq<Byte>
  {
    match FormatOf(x)
    case Integer => Decimal(Truncated(x))
    case Whole => Decimal(Nearest(x))
    case Exponential => Scientific(x)
    case Decimals => Fixed(x)
  }

  /** n * 10^z */
  function Scale(n: int, z: int): real
  {
    n as real * TenTo(z)
  }

  ghost predicate Near(a: real, x: real, d: real)
  {
    -d <= a - x <= d
  }

  /** The number that the text stands for. */
  function Printed(x: real): real
  {
    match FormatOf(x)
    case Integer => Truncated(x) as real
    case Whole => Nearest(x) as real
    case Exponential =>
      var m := Mantissa(Magnitude(x));
      Scale(WithSign(x, m.0), m.1 - 6)
    case Decimals => Scale(WithSign(x, Millionths(x)), -6)
  }

  function WithSign(x: real, n: int): int
  {
    if x < 0.0 then -n else n
  }

  /** How near that is: within 2^-52 for the whole formats, half a millionth for %f, and half of the seventh
      digit for %e. */
  lemma PrintedNear(x: real)
    ensures match FormatOf(x)
      case Integer => Near(Printed(x), x, EPSILON)
      case Whole => Near(Printed(x), x, EPSILON)
      case Exponential => Near(Printed(x), x, 0.0000005 * Magnitude(x))
      case Decimals => Near(Printed(x), x, 0.0000005)
  {
    match FormatOf(x)
    case Integer =>
    case Whole => NearestIsFloor(x);
    case Exponential => ExponentialNear(x);
    case Decimals => DecimalsNear(x);
    hide TenTo, Mantissa, Millionths, Nearest, WithSign;
  }

  /** The same by the size of the number: half a millionth between 10^-6 and 10^9, half of the seventh digit above, and
      below half of the seventh digit or, where that is 0, 2^-52. */
  lemma AccuracyBySize(x: real)
    ensures 0.000001 <= Magnitude(x) <= 1000000000.0 ==> Near(Printed(x), x, 0.0000005)
    ensures Magnitude(x) > 1000000000.0 ==> Near(Printed(x), x, 0.0000005 * Magnitude(x))
    ensures Magnitude(x) < 0.000001 ==>
      Near(Printed(x), x, if Magnitude(x) <= 1.0 / 4503599627370496.0 then Magnitude(x) else 0.0000005 * Magnitude(x))
  {
    PrintedNear(x);
    Million();
    Billion();
    hide TenTo, Printed;
    if Magnitude(x) < 0.000001 { SmallPrinted(x); }
  }

  lemma Billion()
    ensures TenTo(9) == 1000000000.0
  {
    Million();
    TenToNext(7);
    TenToNext(8);
  }

  lemma SmallPrinted(x: real)
    requires Magnitude(x) < 0.000001
    ensures FormatOf(x) == if Magnitude(x) <= EPSILON then Integer else Exponential
    ensures Magnitude(x) <= EPSILON ==> Printed(x) == 0.0
  {
    Million();
    hide TenTo;
  }

  /** Decimal digits. */
  ghost predicate AllDigits(s: seq<Byte>)
  {
    forall i :: 0 <= i < |s| ==> 48 <= s[i] <= 57
  }

  lemma {:induction false} DigitsOnly(n: nat)
    ensures AllDigits(Digits(n))
  {
    if n >= 10 { DigitsOnly(n / 10); }
  }

  lemma {:induction false} PaddedOnly(n: nat, width: nat)
    ensures AllDigits(Padded(n, width))
    decreases width
  {
    if width > 0 { PaddedOnly(n / 10, width - 1); }
  }

  /** No whole number lies within 2^-52. */
  ghost predicate NoWholeNear(x: real)
  {
    forall n: int :: !WholeNear(n, x)
  }

  ghost predicate WholeNear(n: int, x: real)
  {
    Near(n as real, x, 1.0 / 4503599627370496.0)
  }

  /** Between 10^-6 and 10^9 the text has no exponent; below it has one but for what is printed as 0, and above it has
      one
      for every number that is not near a whole one. */
  lemma ExponentBySize(x: real)
    ensures 0.000001 <= Magnitude(x) <= 1000000000.0 ==> LOWER_E !in NumberText(x)
    ensures 1.0 / 4503599627370496.0 < Magnitude(x) < 0.000001 ==> LOWER_E in NumberText(x)
    ensures Magnitude(x) > 1000000000.0 && NoWholeNear(x) ==> LOWER_E in NumberText(x)
  {
    Million();
    Billion();
    assert NoWholeNear(x) ==> !WholeNear(Truncated(x), x) && !WholeNear(x.Floor, x);
    match FormatOf(x)
    case Integer => DigitsOnly(if Truncated(x) < 0 then -Truncated(x) else Truncated(x));
    case Whole => DigitsOnly(if Nearest(x) < 0 then -Nearest(x) else Nearest(x));
    case Decimals => DigitsOnly(Millionths(x) / 1000000); PaddedOnly(Millionths(x) % 1000000, 6);
    case Exponential => ExponentShown(x);
    hide TenTo, Digits, Padded;
  }

  lemma ExponentShown(x: real)
    requires x != 0.0
    ensures LOWER_E in Scientific(x)
  {
    var m := Mantissa(Magnitude(x));
    MantissaRange(Magnitude(x));
    hide Mantissa, Digits, Padded, TwoDigits;
    var front: seq<Byte>, fraction := Digits(m.0 / 1000000), Padded(m.0 % 1000000, 6);
    assert ExponentText(m.1)[0] == LOWER_E;
    assert (front + ([POINT] + (fraction + ExponentText(m.1))))[|front| + 7] == LOWER_E;
  }

  lemma ExponentialNear(x: real)
    requires FormatOf(x) == Exponential
    ensures Near(Printed(x), x, 0.0000005 * Magnitude(x))
  {
    hide Scale, Mantissa, FormatOf, Near;
    var m := Mantissa(Magnitude(x));
    MantissaNear(Magnitude(x));
    SignNear(x, m.0, m.1 - 6, 0.0000005 * Magnitude(x));
  }

  lemma DecimalsNear(x: real)
    requires FormatOf(x) == Decimals
    ensures Near(Printed(x), x, 0.0000005)
  {
    hide Scale, FormatOf, Millionths, Near;
    MillionthsNear(x);
    SignNear(x, Millionths(x), -6, 0.0000005);
  }

  lemma SignNear(x: real, n: int, z: int, d: real)
    requires Near(Scale(n, z), Magnitude(x), d)
    ensures Near(Scale(WithSign(x, n), z), x, d)
  {
    hide TenTo;
    assert (-n) as real * TenTo(z) == -(n as real * TenTo(z));
  }

  lemma NearestIsFloor(x: real)
    requires Close(x.Floor, x)
    ensures Nearest(x) == x.Floor
  {}

  lemma MillionthsNear(x: real)
    ensures Near(Scale(Millionths(x), -6), Magnitude(x), 0.0000005)
  {
    Million();
  }

  lemma MantissaNear(x: real)
    requires x > 0.0
    ensures var m := Mantissa(x); Near(Scale(m.0, m.1 - 6), x, 0.0000005 * x)
  {
    hide *;
    MantissaValue(x);
    SevenDigitsNear(x, Exponent10(x));
  }

  lemma MantissaValue(x: real)
    requires x > 0.0
    ensures var m, e := Mantissa(x), Exponent10(x);
      Scale(m.0, m.1 - 6) == Scale(SevenDigits(x, e), e - 6)
  {
    hide TenTo, SevenDigits, Exponent10;
    TenToNext(Exponent10(x) - 6);
  }

  lemma SevenDigitsNear(x: real, e: int)
    requires TenTo(e) <= x
    ensures Near(Scale(SevenDigits(x, e), e - 6), x, 0.0000005 * x)
  {
    hide TenTo, Nearest, Product;
    Inverses(e - 6);
    Millionfold(e);
    ScaledNear(x, TenTo(6 - e), TenTo(e - 6), SevenDigits(x, e) as real);
  }

  lemma Inverses(z: int)
    ensures Product(TenTo(-z), TenTo(z)) == 1.0
  {
    assert TenTo(0) == 1.0;
    hide *;
    TenToProduct(-z, z);
  }

  lemma Millionfold(e: int)
    ensures Product(TenTo(e - 6), 1000000.0) == TenTo(e)
  {
    hide *;
    TenToProduct(e - 6, 6);
    Million();
  }

  lemma ScaledNear(x: real, t: real, u: real, n: real)
    requires Product(t, u) == 1.0 && u > 0.0 && Near(n, Product(x, t), 0.5) && Product(u, 1000000.0) <= x
    ensures Near(n * u, x, 0.0000005 * x)
  {
    var d := n - x * t;
    assert (x * t) * u == x * (t * u);
    assert n * u - x == d * u;
    assert (0.5 - d) * u >= 0.0 && (d + 0.5) * u >= 0.0;
  }

  /** Whole numbers below 10^60 are printed exactly. */
  lemma WholeExact(n: int)
    requires Magnitude(n as real) < TenTo(60)
    ensures Printed(n as real) == n as real
  {
    WholeParts(n);
    hide Truncated, Nearest, TenTo;
  }

  lemma WholeParts(n: int)
    ensures Truncated(n as real) == n && (n as real).Floor == n && Nearest(n as real) == n
  {}

  lemma {:induction false} DigitsLength(n: nat, k: nat)
    requires n as real < TenTo(k) && k > 0
    ensures |Digits(n)| <= k
    decreases k
  {
    if n >= 10 {
      assert TenTo(1) == 10.0;
      TenToNext(k - 1);
      DigitsLength(n / 10, k - 1);
    }
  }

  /** The text of every double is shorter than the memory that print_number allocates for it. */
  lemma NumberTextFits(x: real)
    requires Double(x)
    ensures |NumberText(x)| < if FormatOf(x).Integer? then 21 else 64
  {
    match FormatOf(x)
    case Integer => SmallDigits(Truncated(x));
    case Whole => NearestIsFloor(x); WholeDigits(x);
    case Exponential => ExponentDigits(x);
    case Decimals => FixedDigits(x);
  }

  lemma SmallDigits(n: int)
    requires -0x8000_0000 <= n < 0x8000_0000
    ensures |Decimal(n)| <= 11
  {
    assert TenTo(5) == 100000.0 && TenTo(8) == 100000000.0 && TenTo(10) == 10000000000.0;
    DigitsLength(if n < 0 then -n else n, 10);
  }

  lemma WholeDigits(x: real)
    requires Magnitude(x) < TenTo(60) && Close(x.Floor, x)
    ensures |Decimal(x.Floor)| <= 62
  {
    var n := if x.Floor < 0 then -x.Floor else x.Floor;
    TenToNext(60);
    DigitsLength(n, 61);
  }

  lemma FixedDigits(x: real)
    requires Magnitude(x) <= TenTo(9)
    ensures |Fixed(x)| <= 20
  {
    assert TenTo(5) == 100000.0 && TenTo(9) == 1000000000.0 && TenTo(12) == 1000000000000.0;
    DigitsLength(Millionths(x) / 1000000, 12);
  }

  lemma ExponentDigits(x: real)
    requires Double(x) && x != 0.0
    ensures |Scientific(x)| <= 14
  {
    var m := Mantissa(Magnitude(x));
    assert TenTo(1) == 10.0 && TenTo(3) == 1000.0;
    hide TenTo, Mantissa, Digits;
    ExponentBound(Magnitude(x));
    MantissaRange(Magnitude(x));
    DigitsLength(m.0 / 1000000, 1);
    DigitsLength(if m.1 < 0 then -m.1 else m.1, 3);
  }

  lemma ExponentBound(x: real)
    requires TenTo(-324) <= x < TenTo(309)
    ensures -324 <= Mantissa(x).1 <= 309
  {
    var e := Exponent10(x);
    if e < -324 { TenToGrows(e + 1, -324); }
    if e > 308 { TenToGrows(309, e); }
  }
}
