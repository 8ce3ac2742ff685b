/** The texts of RFC 8259, with any white space between their parts, and that the parser of cJSON.c reads each as what
    it
    stands for. */
module JsonGrammar {
  import opened Words
  import opened Slices
  import opened Doubles
  import opened JsonNumbers
  import opened JsonText
  import opened JsonEscapes
  import opened JsonStrings
  import opened JsonParse
  import opened JsonNumberRoundTrip
  import opened JsonRoundTrip

  /** The exponent of a number: its letter, a sign or none, and digits. */
  datatype Power = NoPower | Power(letter: Byte, sign: seq<Byte>, digits: seq<Byte>)

  /** How a value is written, with the white space inside it. */
  datatype Spelling =
    | Word(j: Json)
    | Numeral(minus: bool, whole: seq<Byte>, fraction: seq<Byte>, power: Power)
    | Chars(body: seq<Byte>)
    | List(inner: seq<Byte>, elements: Elements)
    | Record(inner: seq<Byte>, fields: Fields)

  datatype Elements = Done | Element(before: seq<Byte>, value: Spelling, after: seq<Byte>, rest: Elements)

  datatype Fields = NoField
    | Field(before: seq<Byte>, name: seq<Byte>, mid: seq<Byte>, gap: seq<Byte>, value: Spelling, after: seq<Byte>,
            rest: Fields)

  /** Space, tab, line feed and carriage return. */
  ghost predicate White(b: seq<Byte>)
  {
    forall i :: 0 <= i < |b| ==> b[i] == 0x20 || b[i] == 0x09 || b[i] == 0x0a || b[i] == 0x0d
  }

  ghost predicate GoodPower(p: Power)
  {
    match p
    case NoPower => true
    case Power(letter, sign, digits) =>
      && (letter == 0x65 || letter == 0x45) && (sign == [] || sign == [0x2b] || sign == [0x2d])
      && digits != [] && AllDigits(digits)
  }

  /** Digits without a leading zero, but for zero itself. */
  ghost predicate GoodWhole(whole: seq<Byte>)
  {
    whole != [] && AllDigits(whole) && (whole[0] == 0x30 ==> whole == [0x30])
  }

  /** The inside of a string, up to its first quote that is not escaped. */
  ghost predicate GoodBody(body: seq<Byte>)
  {
    ValidBody(body + [0x22], 0) && Body(body + [0x22], 0).1 == |body|
  }

  /** What the grammar asks for. */
  ghost predicate WellSpelled(t: Spelling)
  {
    match t
    case Word(j) => j.Null? || j.True? || j.False?
    case Numeral(_, whole, fraction, power) => GoodWhole(whole) && AllDigits(fraction) && GoodPower(power)
    case Chars(body) => GoodBody(body)
    case List(inner, elements) => White(inner) && GoodElements(elements)
    case Record(inner, fields) => White(inner) && GoodFields(fields)
  }

  ghost predicate GoodElements(es: Elements)
  {
    es.Element? ==> White(es.before) && WellSpelled(es.value) && White(es.after) && GoodElements(es.rest)
  }

  ghost predicate GoodFields(fs: Fields)
  {
    fs.Field? ==>
      && White(fs.before) && GoodBody(fs.name) && White(fs.mid) && White(fs.gap) && WellSpelled(fs.value)
      && White(fs.after) && GoodFields(fs.rest)
  }

  function WordText(j: Json): seq<Byte>
  {
    match j
    case Null => [0x6e, 0x75, 0x6c, 0x6c]
    case True => [0x74, 0x72, 0x75, 0x65]
    case False => [0x66, 0x61, 0x6c, 0x73, 0x65]
    case _ => []
  }

  function PowerText(p: Power): seq<Byte>
  {
    match p
    case NoPower => []
    case Power(letter, sign, digits) => [letter] + (sign + digits)
  }

  function FractionText(fraction: seq<Byte>): seq<Byte>
  {
    if fraction == [] then [] else [0x2e] + fraction
  }

  function NumeralText(minus: bool, whole: seq<Byte>, fraction: seq<Byte>, power: Power): seq<Byte>
  {
    (if minus then [0x2d] else []) + (whole + (FractionText(fraction) + PowerText(power)))
  }

  function StringText(body: seq<Byte>): seq<Byte>
  {
    [0x22] + (body + [0x22])
  }

  /** The text of a value. */
  function Spelled(t: Spelling): seq<Byte>
    decreases t, 0
  {
    match t
    case Word(j) => WordText(j)
    case Numeral(minus, whole, fraction, power) => NumeralText(minus, whole, fraction, power)
    case Chars(body) => StringText(body)
    case List(inner, es) => [0x5b] + if es.Done? then inner + [0x5d] else ElementText(es)
    case Record(inner, fs) => [0x7b] + if fs.NoField? then inner + [0x7d] else FieldText(fs)
  }

  function ElementText(es: Elements): seq<Byte>
    requires es.Element?
    decreases es, 0
  {
    es.before + (Spelled(es.value) + (es.after + RestText(es.rest)))
  }

  function RestText(es: Elements): seq<Byte>
    decreases es, 1
  {
    if es.Done? then [0x5d] else [0x2c] + ElementText(es)
  }

  function FieldText(fs: Fields): seq<Byte>
    requires fs.Field?
    decreases fs, 0
  {
    fs.before + (StringText(fs.name)
      + (fs.mid + ([0x3a] + (fs.gap + (Spelled(fs.value) + (fs.after + MoreText(fs.rest)))))))
  }

  function MoreText(fs: Fields): seq<Byte>
    decreases fs, 1
  {
    if fs.NoField? then [0x7d] else [0x2c] + FieldText(fs)
  }

  /** A run of digits in double arithmetic, and as a number. */
  function RunRead(digits: seq<Byte>, n: Number): Number
  {
    if digits == [] then n
    else if IsDigit(digits[0]) then RunRead(digits[1..], NextDigit(n, digits[0])) else n
  }

  function RunValue(digits: seq<Byte>, n: nat): nat
  {
    if digits == [] then n
    else if IsDigit(digits[0]) then RunValue(digits[1..], n * 10 + (digits[0] as int - 48)) else n
  }

  function PowerValue(p: Power): int
  {
    match p
    case NoPower => 0
    case Power(_, sign, digits) => if sign == [0x2d] then 0 - RunValue(digits, 0) else RunValue(digits, 0)
  }

  /** What a value stands for: the digits of a number before and behind the point are one number, scaled by the power of
      ten less the places behind the point; a string is what `Means` says of it. */
  ghost function Stands(pow: PowerOfTen, t: Spelling): Json
  {
    match t
    case Word(j) => j
    case Numeral(minus, whole, fraction, power) =>
      var n := if whole == [0x30] then Finite(0.0) else RunRead(whole, Finite(0.0));
      Num(Scaled(pow, minus, RunRead(fraction, n), PowerValue(power) - |fraction|))
    case Chars(body) => Str(Inside(body))
    case List(_, es) => Arr(StandsItems(pow, es))
    case Record(_, fs) => Obj(StandsMembers(pow, fs))
  }

  ghost function StandsItems(pow: PowerOfTen, es: Elements): Items
  {
    match es
    case Done => Nil
    case Element(_, value, _, rest) => Cons(Stands(pow, value), StandsItems(pow, rest))
  }

  ghost function StandsMembers(pow: PowerOfTen, fs: Fields): Members
  {
    match fs
    case NoField => End
    case Field(_, name, _, _, value, _, rest) => Member(Inside(name), Stands(pow, value), StandsMembers(pow, rest))
  }

  ghost function Inside(body: seq<Byte>): seq<Byte>
  {
    Body(body + [0x22], 0).0
  }

  /** The bytes of a string are what section 7 of RFC 8259 says of it. */
  lemma InsideMeans(body: seq<Byte>)
    requires GoodBody(body)
    ensures Means(body + [0x22], 0, Inside(body), |body|)
  {
    hide Means, ValidBody, Body;
    BodyMeans(body + [0x22], 0);
  }

  lemma WhiteBlank(b: seq<Byte>)
    requires White(b)
    ensures Blank(b)
  {}

  /** Over white space to what follows. */
  lemma OverWhite(s: seq<Byte>, at: nat, b: seq<Byte>, t: seq<Byte>)
    requires White(b) && t != [] && t[0] > 32 && Has(s, at, b + t)
    ensures at + |b| < |s| && Skip(s, at) == at + |b| && Ch(s, at + |b|) == t[0] && Has(s, at + |b|, t)
    ensures Skip(s, at + |b|) == at + |b|
    ensures Delimited(s, at) || (b == [] && !Delimiting(t[0]))
  {
    hide Skip, Blank, Has;
    WhiteBlank(b);
    HasSplit(s, at, b, t);
    HasFirst(s, at + |b|, t);
    SkipOver(s, at, b);
    SkipNone(s, at + |b|);
    if b != [] { HasFirst(s, at, b); }
  }

  predicate Delimiting(c: Byte)
  {
    !IsDigit(c) && c != 46 && c != 101 && c != 69
  }

  /** What a value starts with. */
  lemma SpelledFirst(t: Spelling)
    requires WellSpelled(t)
    ensures Spelled(t) != [] && Spelled(t)[0] > 32 && Spelled(t)[0] != RBRACKET && Spelled(t)[0] != RBRACE
  {
    hide GoodBody, GoodElements, GoodFields, White;
    match t
    case Numeral(minus, whole, fraction, power) => NumeralFirst(t);
    case _ =>
  }

  lemma NumeralFirst(t: Spelling)
    requires t.Numeral? && WellSpelled(t)
    ensures Spelled(t) != [] && (Spelled(t)[0] == 0x2d || IsDigit(Spelled(t)[0]))
  {
    hide FractionText, PowerText;
  }

  lemma {:induction false} RunBack(s: seq<Byte>, at: nat, d: seq<Byte>, n: Number, v: nat)
    requires Has(s, at, d) && AllDigits(d) && !IsDigit(Ch(s, at + |d|))
    ensures at + |d| <= |s|
    ensures DigitsEnd(s, at) == at + |d| && DigitsRead(s, at, n) == RunRead(d, n)
    ensures DigitsValue(s, at, v) == RunValue(d, v)
    decreases |d|
  {
    hide NextDigit;
    if d != [] {
      HasFirst(s, at, d);
      hide Has;
      RunBack(s, at + 1, d[1..], NextDigit(n, d[0]), v * 10 + (d[0] as int - 48));
    }
  }

  lemma IntegerSpelled(s: seq<Byte>, at: nat, whole: seq<Byte>)
    requires GoodWhole(whole) && Has(s, at, whole) && !IsDigit(Ch(s, at + |whole|))
    ensures at <= |s|
    ensures IntegerPart(s, at) == (if whole == [0x30] then Finite(0.0) else RunRead(whole, Finite(0.0)), at + |whole|)
  {
    hide DigitsEnd, DigitsRead, RunRead;
    HasFirst(s, at, whole);
    RunBack(s, at, whole, Finite(0.0), 0);
  }

  lemma FractionSpelled(s: seq<Byte>, at: nat, fraction: seq<Byte>, n: Number)
    requires AllDigits(fraction) && Has(s, at, FractionText(fraction))
    requires !IsDigit(Ch(s, at + |FractionText(fraction)|)) && (fraction == [] ==> Ch(s, at) != 46)
    ensures at + |FractionText(fraction)| <= |s| && FractionEnd(s, at) == at + |FractionText(fraction)|
    ensures fraction != [] ==> at + 1 <= |s| && DigitsRead(s, at + 1, n) == RunRead(fraction, n)
  {
    hide DigitsEnd, DigitsRead, RunRead;
    if fraction != [] {
      HasFirst(s, at, [0x2e] + fraction);
      assert ([0x2e] + fraction)[1..] == fraction;
      HasFirst(s, at + 1, fraction);
      RunBack(s, at + 1, fraction, n, 0);
    }
  }

  lemma PowerSpelled(s: seq<Byte>, at: nat, p: Power)
    requires GoodPower(p) && Has(s, at, PowerText(p)) && Delimited(s, at + |PowerText(p)|)
    ensures at <= |s| && Exponent(s, at) == (PowerValue(p), at + |PowerText(p)|)
  {
    hide *;
    if p.Power? {
      var q := at + 1 + |p.sign|;
      PowerIs(p);
      NoDigitHere(s, at + |PowerText(p)|);
      SignSpelled(s, at, p);
      RunBack(s, q, p.digits, Finite(0.0), 0);
      ExponentIs(s, at, q, p.sign == [0x2d], RunValue(p.digits, 0));
    } else {
      PowerNone(s, at, p);
    }
  }

  lemma NoDigitHere(s: seq<Byte>, at: nat)
    requires Delimited(s, at)
    ensures !IsDigit(Ch(s, at))
  {}

  lemma PowerNone(s: seq<Byte>, at: nat, p: Power)
    requires p.NoPower? && Has(s, at, PowerText(p)) && Delimited(s, at + |PowerText(p)|)
    ensures at <= |s| && Exponent(s, at) == (PowerValue(p), at + |PowerText(p)|)
  {}

  lemma PowerIs(p: Power)
    requires p.Power?
    ensures |PowerText(p)| == 1 + |p.sign| + |p.digits|
    ensures PowerValue(p) == if p.sign == [0x2d] then 0 - RunValue(p.digits, 0) else RunValue(p.digits, 0)
  {
    hide RunValue;
  }

  /** The letter and the sign of an exponent. */
  lemma SignSpelled(s: seq<Byte>, at: nat, p: Power)
    requires p.Power? && GoodPower(p) && Has(s, at, PowerText(p))
    ensures var q := at + 1 + |p.sign|;
      && at < |s| && HasExponent(s, at) && ExponentStart(s, at) == q && (Ch(s, at + 1) == MINUS <==> p.sign == [0x2d])
      && Has(s, q, p.digits) && AllDigits(p.digits)
  {
    HasSplit(s, at, [p.letter], p.sign + p.digits);
    HasFirst(s, at, [p.letter]);
    HasSplit(s, at + 1, p.sign, p.digits);
    HasFirst(s, at + 1 + |p.sign|, p.digits);
    if p.sign != [] { HasFirst(s, at + 1, p.sign); }
    hide Has;
  }

  lemma ExponentIs(s: seq<Byte>, at: nat, q: nat, minus: bool, v: nat)
    requires at < |s| && HasExponent(s, at) && ExponentStart(s, at) == q && DigitsValue(s, q, 0) == v
    requires Ch(s, at + 1) == MINUS <==> minus
    ensures Exponent(s, at) == (if minus then 0 - v else v, DigitsEnd(s, q))
  {
    hide HasExponent, ExponentStart, DigitsValue, DigitsEnd, Ch;
  }

  /** What follows the digits before and behind the point. */
  lemma NumeralParts(s: seq<Byte>, at: nat, fraction: seq<Byte>, power: Power)
    requires AllDigits(fraction) && GoodPower(power)
    requires Has(s, at, FractionText(fraction) + PowerText(power))
    requires Delimited(s, at + |FractionText(fraction)| + |PowerText(power)|)
    ensures var f := at + |FractionText(fraction)|;
      && Has(s, at, FractionText(fraction)) && Has(s, f, PowerText(power))
      && !IsDigit(Ch(s, at)) && !IsDigit(Ch(s, f)) && (fraction == [] ==> Ch(s, at) != 46)
  {
    HasSplit(s, at, FractionText(fraction), PowerText(power));
    var f := at + |FractionText(fraction)|;
    if power.Power? { HasFirst(s, f, PowerText(power)); }
    if fraction != [] { HasFirst(s, at, FractionText(fraction)); }
    hide Has;
  }

  lemma NumeralHas(s: seq<Byte>, at: nat, minus: bool, whole: seq<Byte>, fraction: seq<Byte>, power: Power)
    requires GoodWhole(whole) && Has(s, at, NumeralText(minus, whole, fraction, power))
    ensures var q := if minus then at + 1 else at;
      && q < |s| && (Ch(s, at) == MINUS <==> minus) && Has(s, q, whole)
      && Has(s, q + |whole|, FractionText(fraction) + PowerText(power))
      && at + |NumeralText(minus, whole, fraction, power)| == q + |whole| + |FractionText(fraction)|
        + |PowerText(power)|
  {
    hide FractionText, PowerText;
    var tail := FractionText(fraction) + PowerText(power);
    if minus {
      HasSplit(s, at, [0x2d], whole + tail);
      HasFirst(s, at, [0x2d]);
      HasSplit(s, at + 1, whole, tail);
      HasFirst(s, at + 1, whole);
    } else {
      assert NumeralText(minus, whole, fraction, power) == whole + tail;
      HasSplit(s, at, whole, tail);
      HasFirst(s, at, whole);
    }
  }

  /** parse_number when its parts are known. */
  lemma NumberIs(pow: PowerOfTen, s: seq<Byte>, at: nat, minus: bool, n0: Number, i: nat, n: Number, f: nat, e: int,
                 end: nat)
    requires at <= |s| && (Ch(s, at) == MINUS <==> minus)
    requires var q := if minus then at + 1 else at; q <= |s| && IntegerPart(s, q) == (n0, i)
    requires i <= |s| && FractionEnd(s, i) == f && f <= |s| && Exponent(s, f) == (e, end)
    requires if f == i then n == n0 else i + 1 <= |s| && DigitsRead(s, i + 1, n0) == n
    ensures ParseNumber(pow, s, at) == Ok(Num(Scaled(pow, minus, n, e - if f == i then 0 else f - (i + 1))), end)
  {
    hide IntegerPart, FractionEnd, Exponent, DigitsRead, Scaled, Ch;
  }

  ghost function WholeRead(whole: seq<Byte>): Number
  {
    if whole == [0x30] then Finite(0.0) else RunRead(whole, Finite(0.0))
  }

  lemma FractionLength(fraction: seq<Byte>, n: Number)
    ensures |FractionText(fraction)| == if fraction == [] then 0 else |fraction| + 1
    ensures fraction == [] ==> RunRead(fraction, n) == n
  {}

  lemma NumeralStands(pow: PowerOfTen, minus: bool, whole: seq<Byte>, fraction: seq<Byte>, power: Power)
    ensures Stands(pow, Numeral(minus, whole, fraction, power)) ==
      Num(Scaled(pow, minus, RunRead(fraction, WholeRead(whole)), PowerValue(power) - |fraction|))
  {
    hide RunRead, PowerValue, Scaled;
  }

  lemma NumeralSpelled(pow: PowerOfTen, s: seq<Byte>, at: nat, minus: bool, whole: seq<Byte>, fraction: seq<Byte>,
                       power: Power)
    requires GoodWhole(whole) && AllDigits(fraction) && GoodPower(power)
    requires Has(s, at, NumeralText(minus, whole, fraction, power))
    requires Delimited(s, at + |NumeralText(minus, whole, fraction, power)|)
    ensures at <= |s|
    ensures ParseNumber(pow, s, at) == Ok(Stands(pow, Numeral(minus, whole, fraction, power)),
                                         at + |NumeralText(minus, whole, fraction, power)|)
  {
    hide *;
    var q := if minus then at + 1 else at;
    var i := q + |whole|;
    var f := i + |FractionText(fraction)|;
    NumeralHas(s, at, minus, whole, fraction, power);
    NumeralParts(s, i, fraction, power);
    IntegerSpelled(s, q, whole);
    WholeReadIs(whole);
    FractionSpelled(s, i, fraction, WholeRead(whole));
    PowerSpelled(s, f, power);
    FractionLength(fraction, WholeRead(whole));
    NumeralStands(pow, minus, whole, fraction, power);
    NumberIs(pow, s, at, minus, WholeRead(whole), i, RunRead(fraction, WholeRead(whole)), f, PowerValue(power),
      f + |PowerText(power)|);
  }

  lemma WholeReadIs(whole: seq<Byte>)
    ensures WholeRead(whole) == if whole == [0x30] then Finite(0.0) else RunRead(whole, Finite(0.0))
  {}

  lemma Shifted(p: seq<Byte>, s: seq<Byte>, at: nat, i: nat)
    requires Has(s, at, p) && i < |p|
    ensures Ch(s, at + i) == Ch(p, i) && at + |p| <= |s|
  {
    assert s[at..at + |p|][i] == s[at + i];
  }

  lemma HexShifted(p: seq<Byte>, s: seq<Byte>, at: nat, i: nat)
    requires Has(s, at, p) && i + 4 <= |p|
    ensures Hex4(s, at + i) == Hex4(p, i)
  {
    Shifted(p, s, at, i);
    Shifted(p, s, at, i + 1);
    Shifted(p, s, at, i + 2);
    Shifted(p, s, at, i + 3);
    hide HexValue, Ch, Has;
  }

  lemma ValidInside(p: seq<Byte>, b: nat)
    requires b <= |p| && ValidBody(p, b)
    ensures b < |p| && (Ch(p, b) == BACKSLASH ==> b + 2 <= |p|)
  {}

  lemma EscapeShifted(p: seq<Byte>, s: seq<Byte>, at: nat, i: nat)
    requires Has(s, at, p) && i <= |p| && ValidBody(p, i)
    ensures EscapeAt(s, at + i) == EscapeAt(p, i)
  {
    ValidInside(p, i);
    Shifted(p, s, at, i);
    if Ch(p, i) == BACKSLASH { Shifted(p, s, at, i + 1); }
    hide Ch, Has, ValidBody;
  }

  lemma UnicodeShifted(p: seq<Byte>, s: seq<Byte>, at: nat, b: nat)
    requires Has(s, at, p) && b <= |p| && ValidBody(p, b) && EscapeAt(p, b)
    ensures var e := Unescape(p, b + 1);
      Unescape(s, at + b + 1) == (e.0, at + e.1) && e.1 < |p| && ValidBody(p, e.1 + 1)
  {
    hide *;
    ValidEscape(p, b);
    EscapeShifted(p, s, at, b);
    EscapeShifted(p, s, at, b + 6);
    HexShifted(p, s, at, b + 2);
    SingleUnescaped(p, b);
    NoneUnescaped(p, b);
    SingleUnescaped(s, at + b);
    NoneUnescaped(s, at + b);
    if EscapeAt(p, b + 6) {
      HexShifted(p, s, at, b + 8);
      TwoUnescaped(p, b);
      TwoUnescaped(s, at + b);
    }
  }

  /** An escape of a valid string is read the same wherever the string stands. */
  lemma UnescapeShifted(p: seq<Byte>, s: seq<Byte>, at: nat, b: nat)
    requires Has(s, at, p) && b < |p| && ValidBody(p, b) && Ch(p, b) == BACKSLASH
    ensures var e := Unescape(p, b + 1);
      Unescape(s, at + b + 1) == (e.0, at + e.1) && e.1 < |p| && ValidBody(p, e.1 + 1)
  {
    if EscapeAt(p, b) {
      UnicodeShifted(p, s, at, b);
    } else {
      ValidInside(p, b);
      Shifted(p, s, at, b + 1);
      ShortMeans(p, b);
      hide Has, Unicode, ValidBody;
    }
  }

  /** The inside of a valid string is read the same wherever it stands. */
  lemma {:induction false} BodyShifted(p: seq<Byte>, s: seq<Byte>, at: nat, b: nat)
    requires Has(s, at, p) && b <= |p| && ValidBody(p, b)
    ensures at + b <= |s| && Body(s, at + b) == (Body(p, b).0, at + Body(p, b).1)
    decreases |p| - b
  {
    hide *;
    HasSlice(s, at, p);
    ValidStep(p, b);
    Shifted(p, s, at, b);
    if Ch(p, b) == QUOTE {
      BodyQuote(p, b);
      BodyQuote(s, at + b);
    } else if Ch(p, b) != BACKSLASH {
      BodyPlain(p, b);
      BodyPlain(s, at + b);
      BodyShifted(p, s, at, b + 1);
    } else {
      UnescapeShifted(p, s, at, b);
      UnescapeOn(p, b + 1);
      BodyEscape(p, b);
      BodyEscape(s, at + b);
      BodyShifted(p, s, at, Unescape(p, b + 1).1 + 1);
    }
  }

  lemma ValidStep(p: seq<Byte>, b: nat)
    requires b <= |p| && ValidBody(p, b)
    ensures b < |p| && Ch(p, b) != 0
    ensures Ch(p, b) != QUOTE && Ch(p, b) != BACKSLASH ==> ValidBody(p, b + 1)
  {}

  lemma UnescapeOn(s: seq<Byte>, e: nat)
    ensures Unescape(s, e).1 >= e
  {}

  lemma BodyQuote(s: seq<Byte>, b: nat)
    requires b <= |s| && Ch(s, b) == QUOTE
    ensures Body(s, b) == ([], b)
  {}

  lemma BodyPlain(s: seq<Byte>, b: nat)
    requires b <= |s| && Ch(s, b) != QUOTE && Ch(s, b) != 0 && Ch(s, b) != BACKSLASH
    ensures b < |s| && Body(s, b) == ([Ch(s, b)] + Body(s, b + 1).0, Body(s, b + 1).1)
  {
    hide Unescape;
  }

  lemma BodyEscape(s: seq<Byte>, b: nat)
    requires b <= |s| && Ch(s, b) == BACKSLASH && Unescape(s, b + 1).1 + 1 <= |s|
    ensures var e := Unescape(s, b + 1); Body(s, b) == (e.0 + Body(s, e.1 + 1).0, Body(s, e.1 + 1).1)
  {
    hide Unescape;
  }

  lemma StringSpelled(s: seq<Byte>, at: nat, body: seq<Byte>)
    requires GoodBody(body) && Has(s, at, StringText(body))
    ensures at <= |s| && ParseString(s, at) == Ok(Inside(body), at + |StringText(body)|)
  {
    var p := body + [0x22];
    HasSplit(s, at, [0x22], p);
    HasFirst(s, at, [0x22]);
    BodyShifted(p, s, at + 1, 0);
    Shifted(p, s, at + 1, |body|);
    hide Body, ValidBody, Has;
  }

  /** Which routine of the parser a value goes to. */
  lemma FlatSpelled(pow: PowerOfTen, s: seq<Byte>, at: nat, t: Spelling)
    requires WellSpelled(t) && (t.Numeral? || t.Chars?) && Has(s, at, Spelled(t)) && Delimited(s, at + |Spelled(t)|)
    ensures at <= |s| && ParseValue(pow, s, at) == Ok(Stands(pow, t), at + |Spelled(t)|)
  {
    hide Starts, ParseString, ParseNumber, ParseArray, ParseObject, NumeralText, StringText, GoodBody, Inside, Scaled,
         RunRead, PowerValue, GoodPower, Delimited, Has;
    SpelledFirst(t);
    HasFirst(s, at, Spelled(t));
    match t
    case Numeral(minus, whole, fraction, power) =>
      NumeralFirst(t);
      NoWord(s, at);
      NumeralSpelled(pow, s, at, minus, whole, fraction, power);
    case Chars(body) =>
      StringFirst(body);
      NoWord(s, at);
      StringSpelled(s, at, body);
  }

  lemma StringFirst(body: seq<Byte>)
    ensures StringText(body) != [] && StringText(body)[0] == QUOTE && QUOTE > 32
  {}

  lemma WordSpelled(pow: PowerOfTen, s: seq<Byte>, at: nat, j: Json)
    requires (j.Null? || j.True? || j.False?) && Has(s, at, WordText(j))
    ensures at <= |s| && ParseValue(pow, s, at) == Ok(j, at + |WordText(j)|)
  {
    HasFirst(s, at, WordText(j));
    WordHere(s, at, j);
    StartsFirst(s, at, NULL_TEXT);
    StartsFirst(s, at, FALSE_TEXT);
    StartsFirst(s, at, TRUE_TEXT);
    hide ParseString, ParseNumber, ParseArray, ParseObject, Starts;
  }

  lemma WordHere(s: seq<Byte>, at: nat, j: Json)
    requires (j.Null? || j.True? || j.False?) && Has(s, at, WordText(j))
    ensures Starts(s, at, if j.Null? then NULL_TEXT else if j.True? then TRUE_TEXT else FALSE_TEXT)
  {}

  /** Every value that is spelled by the grammar is read as what it stands for, up to its end. */
  lemma {:induction false} ValueSpelled(pow: PowerOfTen, s: seq<Byte>, at: nat, t: Spelling)
    requires WellSpelled(t) && Has(s, at, Spelled(t)) && Delimited(s, at + |Spelled(t)|)
    ensures at <= |s| && ParseValue(pow, s, at) == Ok(Stands(pow, t), at + |Spelled(t)|)
    decreases t, 0
  {
    hide ParseValue, Has, Delimited, GoodBody, GoodElements, GoodFields, White;
    match t
    case Word(j) => WordSpelled(pow, s, at, j);
    case Numeral(_, _, _, _) => FlatSpelled(pow, s, at, t);
    case Chars(_) => FlatSpelled(pow, s, at, t);
    case List(inner, es) => ListSpelled(pow, s, at, inner, es);
    case Record(inner, fs) => RecordSpelled(pow, s, at, inner, fs);
  }

  /** The brackets lead to the routines for arrays and objects. */
  lemma Bracketed(pow: PowerOfTen, s: seq<Byte>, at: nat, c: Byte, t: seq<Byte>)
    requires (c == LBRACKET || c == LBRACE) && Has(s, at, [c] + t)
    ensures at < |s| && Has(s, at + 1, t)
    ensures ParseValue(pow, s, at) == if c == LBRACKET then ParseArray(pow, s, at) else ParseObject(pow, s, at)
  {
    HasFirst(s, at, [c] + t);
    assert ([c] + t)[1..] == t;
    NoWord(s, at);
    hide Starts, ParseString, ParseNumber, ParseArray, ParseObject, Has;
  }

  lemma ListIs(inner: seq<Byte>, es: Elements)
    ensures Spelled(List(inner, es)) == [LBRACKET] + if es.Done? then inner + [0x5d] else ElementText(es)
  {}

  lemma RecordIs(inner: seq<Byte>, fs: Fields)
    ensures LBRACE != LBRACKET
    ensures Spelled(Record(inner, fs)) == [LBRACE] + if fs.NoField? then inner + [0x7d] else FieldText(fs)
  {}

  lemma EmptyList(pow: PowerOfTen, s: seq<Byte>, at: nat, inner: seq<Byte>)
    requires White(inner) && at < |s| && Has(s, at + 1, inner + [0x5d])
    ensures ParseArray(pow, s, at) == Ok(Arr(Nil), at + |inner| + 2)
  {
    OverWhite(s, at + 1, inner, [0x5d]);
    hide ParseValue, ParseItems, Skip, Has;
  }

  lemma EmptyRecord(pow: PowerOfTen, s: seq<Byte>, at: nat, inner: seq<Byte>)
    requires White(inner) && at < |s| && Has(s, at + 1, inner + [0x7d])
    ensures ParseObject(pow, s, at) == Ok(Obj(End), at + |inner| + 2)
  {
    OverWhite(s, at + 1, inner, [0x7d]);
    hide ParseMember, ParseMembers, Skip, Has;
  }

  lemma {:induction false} ListSpelled(pow: PowerOfTen, s: seq<Byte>, at: nat, inner: seq<Byte>, es: Elements)
    requires White(inner) && GoodElements(es) && Has(s, at, Spelled(List(inner, es)))
    ensures at <= |s| && ParseValue(pow, s, at) == Ok(Arr(StandsItems(pow, es)), at + |Spelled(List(inner, es))|)
    decreases es, 3
  {
    hide *;
    ListIs(inner, es);
    if es.Done? {
      Bracketed(pow, s, at, LBRACKET, inner + [0x5d]);
      EmptyList(pow, s, at, inner);
      NothingStands(pow, es, NoField);
    } else {
      Bracketed(pow, s, at, LBRACKET, ElementText(es));
      ElementSpelled(pow, s, at + 1, es);
      FirstElement(pow, s, at, es);
    }
  }

  lemma NothingStands(pow: PowerOfTen, es: Elements, fs: Fields)
    ensures es.Done? ==> StandsItems(pow, es) == Nil && RestText(es) == [0x5d]
    ensures fs.NoField? ==> StandsMembers(pow, fs) == End && MoreText(fs) == [0x7d]
  {}

  /** An element from behind its bracket or comma on: the value, what the white space around it leads to, and the rest.
      */
  ghost predicate ElementRead(pow: PowerOfTen, s: seq<Byte>, at: nat, es: Elements)
    requires es.Element?
  {
    var p := at + |es.before|;
    var q := p + |Spelled(es.value)|;
    && q + |es.after| <= |s| && Skip(s, at) == p && Skip(s, p) == p && Ch(s, p) != RBRACKET
    && ParseValue(pow, s, p) == Ok(Stands(pow, es.value), q) && Skip(s, q) == q + |es.after|
    && ParseItems(pow, s, q + |es.after|) == Ok(StandsItems(pow, es.rest), at + |ElementText(es)|)
  }

  lemma FirstElement(pow: PowerOfTen, s: seq<Byte>, at: nat, es: Elements)
    requires at < |s| && es.Element? && ElementRead(pow, s, at + 1, es)
    ensures ParseArray(pow, s, at) == Ok(Arr(StandsItems(pow, es)), at + 1 + |ElementText(es)|)
  {
    hide ParseValue, ParseItems, Skip, Ch, Spelled, ElementText, Stands;
  }

  lemma NextElement(pow: PowerOfTen, s: seq<Byte>, at: nat, es: Elements)
    requires at < |s| && Ch(s, at) == COMMA && es.Element? && ElementRead(pow, s, at + 1, es)
    ensures ParseItems(pow, s, at) == Ok(StandsItems(pow, es), at + 1 + |ElementText(es)|)
  {
    hide ParseValue, Skip, Ch, Spelled, ElementText, Stands;
  }

  /** Where the parts of an element lie. */
  lemma ElementParts(s: seq<Byte>, at: nat, es: Elements)
    requires es.Element? && GoodElements(es) && Has(s, at, ElementText(es))
    ensures WellSpelled(es.value) && GoodElements(es.rest)
    ensures var p := at + |es.before|;
      var q := p + |Spelled(es.value)|;
      && q + |es.after| < |s| && Skip(s, at) == p && Skip(s, p) == p && Ch(s, p) != RBRACKET
      && Has(s, p, Spelled(es.value)) && Delimited(s, q) && Skip(s, q) == q + |es.after|
      && Has(s, q + |es.after|, RestText(es.rest))
      && q + |es.after| + |RestText(es.rest)| == at + |ElementText(es)|
  {
    ElementGood(es);
    SpelledFirst(es.value);
    RestFirst(es.rest);
    ElementIs(es);
    hide *;
    GapThenValue(s, at, es.before, Spelled(es.value), es.after, RestText(es.rest));
  }

  lemma ElementGood(es: Elements)
    requires es.Element? && GoodElements(es)
    ensures White(es.before) && White(es.after) && WellSpelled(es.value) && GoodElements(es.rest)
  {
    hide White, WellSpelled;
  }

  lemma ElementIs(es: Elements)
    requires es.Element?
    ensures ElementText(es) == es.before + (Spelled(es.value) + (es.after + RestText(es.rest)))
  {
    hide Spelled, RestText;
  }

  lemma RestFirst(es: Elements)
    ensures RestText(es) != [] && RestText(es)[0] > 32 && Delimiting(RestText(es)[0])
    ensures RestText(es)[0] == if es.Done? then RBRACKET else COMMA
  {
    hide ElementText;
  }

  /** The place of what follows an element. */
  ghost function AfterPlace(at: nat, es: Elements): nat
    requires es.Element?
  {
    at + |es.before| + |Spelled(es.value)| + |es.after|
  }

  lemma AfterPlaceIs(at: nat, es: Elements)
    requires es.Element?
    ensures AfterPlace(at, es) == at + |es.before| + |Spelled(es.value)| + |es.after|
    ensures AfterPlace(at, es) + |RestText(es.rest)| == at + |ElementText(es)|
  {
    ElementIs(es);
    hide Spelled, RestText, ElementText;
  }

  lemma ElementPlaces(s: seq<Byte>, at: nat, es: Elements)
    requires es.Element? && GoodElements(es) && Has(s, at, ElementText(es))
    ensures WellSpelled(es.value) && GoodElements(es.rest)
    ensures Has(s, at + |es.before|, Spelled(es.value)) && Delimited(s, at + |es.before| + |Spelled(es.value)|)
    ensures Has(s, AfterPlace(at, es), RestText(es.rest))
  {
    hide *;
    AfterPlaceIs(at, es);
    ElementParts(s, at, es);
  }

  lemma ElementJoined(pow: PowerOfTen, s: seq<Byte>, at: nat, es: Elements)
    requires es.Element? && GoodElements(es) && Has(s, at, ElementText(es))
    requires at + |es.before| <= |s| && AfterPlace(at, es) <= |s|
    requires ParseValue(pow, s, at + |es.before|) ==
             Ok(Stands(pow, es.value), at + |es.before| + |Spelled(es.value)|)
    requires ParseItems(pow, s, AfterPlace(at, es)) ==
             Ok(StandsItems(pow, es.rest), AfterPlace(at, es) + |RestText(es.rest)|)
    ensures ElementRead(pow, s, at, es)
  {
    hide *;
    AfterPlaceIs(at, es);
    ElementParts(s, at, es);
    ElementIsRead(pow, s, at, es, at + |es.before|, at + |es.before| + |Spelled(es.value)|);
  }

  lemma {:induction false} ElementSpelled(pow: PowerOfTen, s: seq<Byte>, at: nat, es: Elements)
    requires es.Element? && GoodElements(es) && Has(s, at, ElementText(es))
    ensures ElementRead(pow, s, at, es)
    decreases es, 1
  {
    hide *;
    ElementPlaces(s, at, es);
    ValueSpelled(pow, s, at + |es.before|, es.value);
    RestSpelled(pow, s, AfterPlace(at, es), es.rest);
    ElementJoined(pow, s, at, es);
  }

  lemma ElementIsRead(pow: PowerOfTen, s: seq<Byte>, at: nat, es: Elements, p: nat, q: nat)
    requires es.Element? && p == at + |es.before| && q == p + |Spelled(es.value)| && q + |es.after| <= |s|
    requires Skip(s, at) == p && Skip(s, p) == p && Ch(s, p) != RBRACKET && Skip(s, q) == q + |es.after|
    requires ParseValue(pow, s, p) == Ok(Stands(pow, es.value), q)
    requires ParseItems(pow, s, q + |es.after|) ==
             Ok(StandsItems(pow, es.rest), q + |es.after| + |RestText(es.rest)|)
    requires q + |es.after| + |RestText(es.rest)| == at + |ElementText(es)|
    ensures ElementRead(pow, s, at, es)
  {
    hide ParseValue, ParseItems, Skip, Ch, Spelled, ElementText, RestText, Stands, StandsItems;
  }

  lemma {:induction false} RestSpelled(pow: PowerOfTen, s: seq<Byte>, at: nat, es: Elements)
    requires GoodElements(es) && Has(s, at, RestText(es))
    ensures at <= |s| && ParseItems(pow, s, at) == Ok(StandsItems(pow, es), at + |RestText(es)|)
    decreases es, 2
  {
    RestFirst(es);
    HasFirst(s, at, RestText(es));
    if es.Done? {
      NothingStands(pow, es, NoField);
    } else {
      assert RestText(es)[1..] == ElementText(es);
      hide *;
      ElementSpelled(pow, s, at + 1, es);
      NextElement(pow, s, at, es);
      RestLength(es);
    }
  }

  lemma RestLength(es: Elements)
    requires es.Element?
    ensures |RestText(es)| == 1 + |ElementText(es)|
  {}

  lemma {:induction false} RecordSpelled(pow: PowerOfTen, s: seq<Byte>, at: nat, inner: seq<Byte>, fs: Fields)
    requires White(inner) && GoodFields(fs) && Has(s, at, Spelled(Record(inner, fs)))
    ensures at <= |s|
    ensures ParseValue(pow, s, at) == Ok(Obj(StandsMembers(pow, fs)), at + |Spelled(Record(inner, fs))|)
    decreases fs, 3
  {
    hide *;
    RecordIs(inner, fs);
    if fs.NoField? {
      Bracketed(pow, s, at, LBRACE, inner + [0x7d]);
      EmptyRecord(pow, s, at, inner);
      NothingStands(pow, Done, fs);
    } else {
      Bracketed(pow, s, at, LBRACE, FieldText(fs));
      FieldSpelled(pow, s, at + 1, fs);
      FirstField(pow, s, at, fs);
    }
  }

  /** A member from behind its brace or comma on, with white space before it or past that, and the rest. */
  ghost predicate FieldRead(pow: PowerOfTen, s: seq<Byte>, at: nat, fs: Fields)
    requires fs.Field?
  {
    var p := at + |fs.before|;
    var end := at + |FieldText(fs)| - |MoreText(fs.rest)|;
    && p < |s| && p < end <= |s| && Skip(s, at) == p && Ch(s, p) == QUOTE
    && ParseMember(pow, s, at) == Ok((Inside(fs.name), Stands(pow, fs.value)), end)
    && ParseMember(pow, s, p) == Ok((Inside(fs.name), Stands(pow, fs.value)), end)
    && ParseMembers(pow, s, end) == Ok(StandsMembers(pow, fs.rest), at + |FieldText(fs)|)
  }

  lemma FirstField(pow: PowerOfTen, s: seq<Byte>, at: nat, fs: Fields)
    requires at < |s| && fs.Field? && FieldRead(pow, s, at + 1, fs)
    ensures ParseObject(pow, s, at) == Ok(Obj(StandsMembers(pow, fs)), at + 1 + |FieldText(fs)|)
  {
    hide ParseMember, ParseMembers, Skip, Ch, FieldText, MoreText, Stands, Inside;
  }

  lemma NextField(pow: PowerOfTen, s: seq<Byte>, at: nat, fs: Fields)
    requires at < |s| && Ch(s, at) == COMMA && fs.Field? && FieldRead(pow, s, at + 1, fs)
    ensures ParseMembers(pow, s, at) == Ok(StandsMembers(pow, fs), at + 1 + |FieldText(fs)|)
  {
    hide ParseMember, Skip, Ch, FieldText, MoreText, Stands, Inside;
  }

  /** Where the name of a member and its colon lie. */
  lemma FieldParts(s: seq<Byte>, at: nat, fs: Fields)
    requires fs.Field? && GoodFields(fs) && Has(s, at, FieldText(fs))
    ensures var p := at + |fs.before|;
      var m := p + |StringText(fs.name)|;
      var c := m + |fs.mid|;
      && c < |s| && Skip(s, at) == p && Skip(s, p) == p && Ch(s, p) == QUOTE && Has(s, p, StringText(fs.name))
      && Skip(s, m) == c && Ch(s, c) == COLON
      && Has(s, c + 1, fs.gap + (Spelled(fs.value) + (fs.after + MoreText(fs.rest))))
  {
    FieldGood(fs);
    FieldIs(fs);
    StringFirst(fs.name);
    hide *;
    NameThenColon(s, at, fs.before, StringText(fs.name), fs.mid,
      fs.gap + (Spelled(fs.value) + (fs.after + MoreText(fs.rest))));
  }

  lemma FieldIs(fs: Fields)
    requires fs.Field?
    ensures FieldText(fs) == fs.before + (StringText(fs.name)
      + (fs.mid + ([COLON] + (fs.gap + (Spelled(fs.value) + (fs.after + MoreText(fs.rest)))))))
    ensures COLON > 32
  {
    hide Spelled, MoreText, StringText;
  }

  lemma NameThenColon(s: seq<Byte>, at: nat, before: seq<Byte>, n: seq<Byte>, mid: seq<Byte>, tail: seq<Byte>)
    requires White(before) && n != [] && n[0] > 32 && White(mid) && COLON > 32
    requires Has(s, at, before + (n + (mid + ([COLON] + tail))))
    ensures var p := at + |before|;
      var m := p + |n|;
      var c := m + |mid|;
      && c < |s| && Skip(s, at) == p && Skip(s, p) == p && Ch(s, p) == n[0] && Has(s, p, n)
      && Skip(s, m) == c && Ch(s, c) == COLON && Has(s, c + 1, tail)
  {
    hide *;
    var behind := mid + ([COLON] + tail);
    assert (n + behind)[0] == n[0];
    OverWhite(s, at, before, n + behind);
    HasSplit(s, at + |before|, n, behind);
    OverWhite(s, at + |before| + |n|, mid, [COLON] + tail);
    HasSplit(s, at + |before| + |n| + |mid|, [COLON], tail);
  }

  /** Where its value and the rest lie. */
  lemma ValueParts(s: seq<Byte>, at: nat, fs: Fields)
    requires fs.Field? && GoodFields(fs)
    requires Has(s, at, fs.gap + (Spelled(fs.value) + (fs.after + MoreText(fs.rest))))
    ensures WellSpelled(fs.value) && GoodFields(fs.rest) && GoodBody(fs.name)
    ensures var p := at + |fs.gap|;
      var q := p + |Spelled(fs.value)|;
      && q + |fs.after| < |s| && Skip(s, at) == p && Has(s, p, Spelled(fs.value)) && Delimited(s, q)
      && Skip(s, q) == q + |fs.after| && Has(s, q + |fs.after|, MoreText(fs.rest))
  {
    FieldGood(fs);
    SpelledFirst(fs.value);
    MoreFirst(fs.rest);
    hide *;
    GapThenValue(s, at, fs.gap, Spelled(fs.value), fs.after, MoreText(fs.rest));
  }

  lemma FieldGood(fs: Fields)
    requires fs.Field? && GoodFields(fs)
    ensures White(fs.before) && White(fs.mid) && White(fs.gap) && White(fs.after) && WellSpelled(fs.value)
    ensures GoodFields(fs.rest) && GoodBody(fs.name)
  {
    hide White, WellSpelled, GoodBody;
  }

  /** White space, a value, white space, and what comes behind it. */
  lemma GapThenValue(s: seq<Byte>, at: nat, gap: seq<Byte>, v: seq<Byte>, after: seq<Byte>, rest: seq<Byte>)
    requires White(gap) && v != [] && v[0] > 32 && White(after) && rest != [] && rest[0] > 32 && Delimiting(rest[0])
    requires Has(s, at, gap + (v + (after + rest)))
    ensures var p := at + |gap|;
      var q := p + |v|;
      && q + |after| < |s| && Skip(s, at) == p && Skip(s, p) == p && Ch(s, p) == v[0] && Has(s, p, v) && Delimited(s, q)
      && Skip(s, q) == q + |after| && Has(s, q + |after|, rest)
  {
    hide *;
    assert (v + (after + rest))[0] == v[0];
    OverWhite(s, at, gap, v + (after + rest));
    HasSplit(s, at + |gap|, v, after + rest);
    OverWhite(s, at + |gap| + |v|, after, rest);
  }

  lemma MoreFirst(fs: Fields)
    ensures MoreText(fs) != [] && MoreText(fs)[0] > 32 && Delimiting(MoreText(fs)[0])
    ensures MoreText(fs)[0] == if fs.NoField? then RBRACE else COMMA
  {
    hide FieldText;
  }

  lemma FieldLength(fs: Fields)
    requires fs.Field?
    ensures |FieldText(fs)| == |fs.before| + |StringText(fs.name)| + |fs.mid| + 1 + |fs.gap| + |Spelled(fs.value)|
      + |fs.after| + |MoreText(fs.rest)|
  {
    hide StringText, Spelled, MoreText;
  }

  lemma MemberIs(pow: PowerOfTen, s: seq<Byte>, from: nat, at: nat, name: seq<Byte>, m: nat, c: nat, q: nat,
                 value: Json,
                 v: nat, end: nat)
    requires from <= |s| && Skip(s, from) == at && ParseString(s, at) == Ok(name, m)
    requires m <= |s| && Skip(s, m) == c && c < |s| && Ch(s, c) == COLON
    requires Skip(s, c + 1) == q && ParseValue(pow, s, q) == Ok(value, v) && v <= |s| && Skip(s, v) == end
    ensures ParseMember(pow, s, from) == Ok((name, value), end)
  {
    hide ParseString, ParseValue, Skip, Ch;
  }

  /** The place of the value of a member, and of what follows the member. */
  ghost function ValuePlace(at: nat, fs: Fields): nat
    requires fs.Field?
  {
    at + |fs.before| + |StringText(fs.name)| + |fs.mid| + 1 + |fs.gap|
  }

  ghost function MorePlace(at: nat, fs: Fields): nat
    requires fs.Field?
  {
    ValuePlace(at, fs) + |Spelled(fs.value)| + |fs.after|
  }

  lemma FieldPlaces(s: seq<Byte>, at: nat, fs: Fields)
    requires fs.Field? && GoodFields(fs) && Has(s, at, FieldText(fs))
    ensures WellSpelled(fs.value) && GoodFields(fs.rest)
    ensures var q := ValuePlace(at, fs);
      && Has(s, q, Spelled(fs.value)) && Delimited(s, q + |Spelled(fs.value)|)
      && Has(s, MorePlace(at, fs), MoreText(fs.rest))
  {
    hide *;
    PlaceIs(at, fs);
    FieldParts(s, at, fs);
    ValueParts(s, at + |fs.before| + |StringText(fs.name)| + |fs.mid| + 1, fs);
  }

  lemma PlaceIs(at: nat, fs: Fields)
    requires fs.Field?
    ensures ValuePlace(at, fs) == at + |fs.before| + |StringText(fs.name)| + |fs.mid| + 1 + |fs.gap|
    ensures MorePlace(at, fs) == ValuePlace(at, fs) + |Spelled(fs.value)| + |fs.after|
  {}

  lemma MemberJoined(pow: PowerOfTen, s: seq<Byte>, at: nat, fs: Fields)
    requires fs.Field? && GoodFields(fs) && Has(s, at, FieldText(fs)) && ValuePlace(at, fs) <= |s|
    requires ParseValue(pow, s, ValuePlace(at, fs)) ==
             Ok(Stands(pow, fs.value), ValuePlace(at, fs) + |Spelled(fs.value)|)
    ensures var p := at + |fs.before|;
      && p < |s| && Skip(s, at) == p && Ch(s, p) == QUOTE && p < MorePlace(at, fs) <= |s|
      && ParseMember(pow, s, at) == Ok((Inside(fs.name), Stands(pow, fs.value)), MorePlace(at, fs))
      && ParseMember(pow, s, p) == Ok((Inside(fs.name), Stands(pow, fs.value)), MorePlace(at, fs))
  {
    hide *;
    PlaceIs(at, fs);
    FieldParts(s, at, fs);
    FieldGood(fs);
    var p := at + |fs.before|;
    var m := p + |StringText(fs.name)|;
    var c := m + |fs.mid|;
    var q := c + 1 + |fs.gap|;
    var v := q + |Spelled(fs.value)|;
    ValueParts(s, c + 1, fs);
    StringSpelled(s, p, fs.name);
    MemberIs(pow, s, at, p, Inside(fs.name), m, c, q, Stands(pow, fs.value), v, v + |fs.after|);
    MemberIs(pow, s, p, p, Inside(fs.name), m, c, q, Stands(pow, fs.value), v, v + |fs.after|);
  }

  lemma PlacesAre(at: nat, fs: Fields)
    requires fs.Field?
    ensures MorePlace(at, fs) + |MoreText(fs.rest)| == at + |FieldText(fs)|
  {
    FieldLength(fs);
    hide Spelled, MoreText, StringText, FieldText;
  }

  lemma {:induction false} FieldSpelled(pow: PowerOfTen, s: seq<Byte>, at: nat, fs: Fields)
    requires fs.Field? && GoodFields(fs) && Has(s, at, FieldText(fs))
    ensures FieldRead(pow, s, at, fs)
    decreases fs, 1
  {
    hide *;
    FieldPlaces(s, at, fs);
    PlacesAre(at, fs);
    ValueSpelled(pow, s, ValuePlace(at, fs), fs.value);
    MoreSpelled(pow, s, MorePlace(at, fs), fs.rest);
    MemberJoined(pow, s, at, fs);
    FieldIsRead(pow, s, at, fs, at + |fs.before|, MorePlace(at, fs));
  }

  lemma FieldIsRead(pow: PowerOfTen, s: seq<Byte>, at: nat, fs: Fields, p: nat, end: nat)
    requires fs.Field? && p == at + |fs.before| && end == at + |FieldText(fs)| - |MoreText(fs.rest)|
    requires p < end <= |s| && Skip(s, at) == p && Ch(s, p) == QUOTE
    requires ParseMember(pow, s, at) == Ok((Inside(fs.name), Stands(pow, fs.value)), end)
    requires ParseMember(pow, s, p) == Ok((Inside(fs.name), Stands(pow, fs.value)), end)
    requires ParseMembers(pow, s, end) == Ok(StandsMembers(pow, fs.rest), at + |FieldText(fs)|)
    ensures FieldRead(pow, s, at, fs)
  {
    hide ParseMember, ParseMembers, Skip, Ch, Inside, Stands, StandsMembers, FieldText, MoreText;
  }

  lemma {:induction false} MoreSpelled(pow: PowerOfTen, s: seq<Byte>, at: nat, fs: Fields)
    requires GoodFields(fs) && Has(s, at, MoreText(fs))
    ensures at <= |s| && ParseMembers(pow, s, at) == Ok(StandsMembers(pow, fs), at + |MoreText(fs)|)
    decreases fs, 2
  {
    MoreFirst(fs);
    HasFirst(s, at, MoreText(fs));
    if fs.NoField? {
      NothingStands(pow, Done, fs);
    } else {
      assert MoreText(fs)[1..] == FieldText(fs);
      hide *;
      FieldSpelled(pow, s, at + 1, fs);
      NextField(pow, s, at, fs);
      MoreLength(fs);
    }
  }

  lemma MoreLength(fs: Fields)
    requires fs.Field?
    ensures |MoreText(fs)| == 1 + |FieldText(fs)|
  {}

  /** A whole text: white space, a value, white space, and possibly something behind it. With the option to read the
      whole
      text it is read if and only if there is nothing, or a zero byte, behind it. */
  lemma TextSpelled(pow: PowerOfTen, s: seq<Byte>, before: seq<Byte>, t: Spelling, after: seq<Byte>, behind: seq<Byte>)
    requires s == before + (Spelled(t) + (after + behind)) && White(before) && WellSpelled(t) && White(after)
    requires behind != [] ==> behind[0] == 0 || behind[0] > 32
    requires after == [] && behind != [] ==> Delimiting(behind[0])
    ensures ParseText(pow, s, false) == Ok(Stands(pow, t), |before| + |Spelled(t)|)
    ensures ParseText(pow, s, true) ==
      if behind == [] || behind[0] == 0 then Ok(Stands(pow, t), |before| + |Spelled(t)| + |after|) else Fail
  {
    hide *;
    SpelledFirst(t);
    TextParts(s, before, Spelled(t), after, behind);
    ValueSpelled(pow, s, |before|, t);
    TextIs(pow, s, |before|, Stands(pow, t), |before| + |Spelled(t)|, |before| + |Spelled(t)| + |after|);
  }

  lemma TextIs(pow: PowerOfTen, s: seq<Byte>, p: nat, j: Json, q: nat, end: nat)
    requires Skip(s, 0) == p && ParseValue(pow, s, p) == Ok(j, q) && q <= |s| && Skip(s, q) == end
    ensures ParseText(pow, s, false) == Ok(j, q)
    ensures ParseText(pow, s, true) == if Ch(s, end) == 0 then Ok(j, end) else Fail
  {
    hide ParseValue, Skip, Ch;
  }

  lemma TextParts(s: seq<Byte>, before: seq<Byte>, v: seq<Byte>, after: seq<Byte>, behind: seq<Byte>)
    requires White(before) && v != [] && v[0] > 32 && White(after) && s == before + (v + (after + behind))
    requires behind != [] ==> behind[0] == 0 || behind[0] > 32
    requires after == [] && behind != [] ==> Delimiting(behind[0])
    ensures var q := |before| + |v|;
      && q + |after| <= |s| && Skip(s, 0) == |before| && Has(s, |before|, v) && Delimited(s, q)
      && Skip(s, q) == q + |after| && Ch(s, q + |after|) == if behind == [] then 0 else behind[0]
  {
    WholeHas(s, before + (v + (after + behind)));
    hide *;
    ThreeInRow(s, before, v, after + behind);
    EndParts(s, |before| + |v|, after, behind);
  }

  lemma ThreeInRow(s: seq<Byte>, before: seq<Byte>, v: seq<Byte>, tail: seq<Byte>)
    requires White(before) && v != [] && v[0] > 32 && Has(s, 0, before + (v + tail))
    ensures |before| + |v| <= |s| && Skip(s, 0) == |before| && Has(s, |before|, v) && Has(s, |before| + |v|, tail)
  {
    assert (v + tail)[0] == v[0];
    OverWhite(s, 0, before, v + tail);
    HasSplit(s, |before|, v, tail);
    HasSlice(s, |before|, v);
    hide White, Skip, Has;
  }

  lemma WholeHas(s: seq<Byte>, t: seq<Byte>)
    requires s == t
    ensures Has(s, 0, t)
  {}

  /** The end of a text: white space, and what comes behind it. */
  lemma EndParts(s: seq<Byte>, at: nat, after: seq<Byte>, behind: seq<Byte>)
    requires White(after) && Has(s, at, after + behind) && at + |after| + |behind| == |s|
    requires behind != [] ==> behind[0] == 0 || behind[0] > 32
    requires after == [] && behind != [] ==> Delimiting(behind[0])
    ensures Delimited(s, at) && Skip(s, at) == at + |after|
    ensures Ch(s, at + |after|) == if behind == [] then 0 else behind[0]
  {
    HasSplit(s, at, after, behind);
    WhiteBlank(after);
    SkipOver(s, at, after);
    SkipHere(s, at + |after|);
    if behind != [] { HasFirst(s, at + |after|, behind); }
    if after != [] { HasFirst(s, at, after); WhiteFirst(after); }
    hide White, Skip, Has;
  }

  lemma WhiteFirst(b: seq<Byte>)
    requires White(b) && b != []
    ensures Delimiting(b[0])
  {}

  lemma SkipHere(s: seq<Byte>, at: nat)
    requires at <= |s|
    ensures Ch(s, at) == 0 || Ch(s, at) > 32 ==> Skip(s, at) == at
  {}
}
