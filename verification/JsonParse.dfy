/** The parser of cJSON.c: what each of its routines recognises from a place in a text, and the loops that
    do it. Reading at or past the end of the text gives the terminating zero. */
module JsonParse {
  import opened Words
  import opened Doubles
  import opened JsonNumbers
  import opened JsonText
  import opened JsonEscapes
  import opened JsonStrings

  predicate IsDigit(c: Byte)
  {
    48 <= c <= 57
  }

  /** skip: past blanks and control characters. */
  function Skip(s: seq<Byte>, at: nat): (r: nat)
    requires at <= |s|
    ensures at <= r <= |s|
    decreases |s| - at
  {
    if Ch(s, at) != 0 && Ch(s, at) <= 32 then Skip(s, at + 1) else at
  }

  method SkipBlanks(s: seq<Byte>, at: nat) returns (r: nat)
    requires at <= |s|
    ensures r == Skip(s, at)
  {
    r := at;
    while Ch(s, r) != 0 && Ch(s, r) <= 32
      invariant at <= r <= |s| && Skip(s, r) == Skip(s, at)
      decreases |s| - r
    {
      r := r + 1;
    }
  }

  /** ndstrncmp against a word. */
  predicate Starts(s: seq<Byte>, at: nat, word: seq<Byte>)
  {
    at + |word| <= |s| && s[at..at + |word|] == word
  }

  /** A run of digits from the given place: where it ends, and the value that it gives behind n. */
  function DigitsEnd(s: seq<Byte>, at: nat): (r: nat)
    requires at <= |s|
    ensures at <= r <= |s|
    decreases |s| - at
  {
    if IsDigit(Ch(s, at)) then DigitsEnd(s, at + 1) else at
  }

  function DigitsValue(s: seq<Byte>, at: nat, n: nat): nat
    requires at <= |s|
    decreases |s| - at
  {
    if IsDigit(Ch(s, at)) then DigitsValue(s, at + 1, n * 10 + (Ch(s, at) as int - 48)) else n
  }

  /** What the library's pow gives for the powers of ten; that of 0 is exact. */
  type PowerOfTen = f: int -> Number | f(0) == Finite(1.0) witness (z: int) => Finite(1.0)

  /** n * 10.0 + digit, both operations rounded. */
  function NextDigit(n: Number, c: Byte): Number
    requires IsDigit(c)
  {
    Plus(Times(n, Finite(10.0)), Finite((c as int - 48) as real))
  }

  /** The double that a run of digits gives behind n. */
  function DigitsRead(s: seq<Byte>, at: nat, n: Number): Number
    requires at <= |s|
    decreases |s| - at
  {
    if IsDigit(Ch(s, at)) then DigitsRead(s, at + 1, NextDigit(n, Ch(s, at))) else n
  }

  /** The digits of an exponent, which are counted in an int. */
  method ExponentDigits(s: seq<Byte>, at: nat) returns (end: nat, n: nat)
    requires at <= |s|
    ensures end == DigitsEnd(s, at) && n == DigitsValue(s, at, 0)
  {
    end, n := at, 0;
    while IsDigit(Ch(s, end))
      invariant at <= end <= |s| && DigitsEnd(s, end) == DigitsEnd(s, at)
      invariant DigitsValue(s, end, n) == DigitsValue(s, at, 0)
      decreases |s| - end
    {
      n := n * 10 + (Ch(s, end) as int - 48);
      end := end + 1;
    }
  }

  /** The digits of the number itself, in double arithmetic. */
  method ReadDigits(s: seq<Byte>, at: nat, n0: Number) returns (end: nat, n: Number)
    requires at <= |s|
    ensures end == DigitsEnd(s, at) && n == DigitsRead(s, at, n0)
  {
    end, n := at, n0;
    hide Times, Plus;
    while IsDigit(Ch(s, end))
      invariant at <= end <= |s| && DigitsEnd(s, end) == DigitsEnd(s, at)
      invariant DigitsRead(s, end, n) == DigitsRead(s, at, n0)
      decreases |s| - end
    {
      n := Plus(Times(n, Finite(10.0)), Finite((Ch(s, end) as int - 48) as real));
      end := end + 1;
    }
  }

  /** The integer part of a number, which may be missing. */
  function IntegerPart(s: seq<Byte>, at: nat): (r: (Number, nat))
    requires at <= |s|
    ensures at <= r.1 <= |s| && (IsDigit(Ch(s, at)) ==> at < r.1)
  {
    var q := if Ch(s, at) == 48 then at + 1 else at;
    if 49 <= Ch(s, q) <= 57 then (DigitsRead(s, q, Finite(0.0)), DigitsEnd(s, q)) else (Finite(0.0), q)
  }

  /** Where a fraction behind the integer part ends, or the same place if there is none. */
  function FractionEnd(s: seq<Byte>, at: nat): (r: nat)
    requires at <= |s|
    ensures at <= r <= |s|
  {
    if Ch(s, at) == 46 && IsDigit(Ch(s, at + 1)) then DigitsEnd(s, at + 1) else at
  }

  /** Where the digits of an exponent start, if there is one, and whether it is negative. */
  function ExponentStart(s: seq<Byte>, at: nat): (r: nat)
    requires at < |s|
    ensures at < r <= |s|
  {
    if Ch(s, at + 1) == 43 || Ch(s, at + 1) == MINUS then at + 2 else at + 1
  }

  predicate HasExponent(s: seq<Byte>, at: nat)
  {
    Ch(s, at) == 101 || Ch(s, at) == 69
  }

  /** The value of an exponent, 0 if there is none, and the place behind it. */
  function Exponent(s: seq<Byte>, at: nat): (r: (int, nat))
    requires at <= |s|
    ensures at <= r.1 <= |s|
  {
    if !HasExponent(s, at) then (0, at)
    else
      var p := ExponentStart(s, at);
      var e: int := DigitsValue(s, p, 0);
      (if Ch(s, at + 1) == MINUS then -e else e, DigitsEnd(s, p))
  }

  /** sign*n*pow(10.0, z), rounded. */
  function Scaled(pow: PowerOfTen, minus: bool, n: Number, z: int): Number
  {
    Times(if minus then Negated(n) else n, pow(z))
  }

  /** parse_number: sign, integer part, and then a fraction and an exponent; the digits before and behind the point are
      one number, scaled by the places behind the point and by the exponent. */
  function ParseNumber(pow: PowerOfTen, s: seq<Byte>, at: nat): (r: Parsed<Json>)
    requires at <= |s|
    ensures r.Ok? && at <= r.at <= |s| && (Ch(s, at) == MINUS || IsDigit(Ch(s, at)) ==> at < r.at)
  {
    var minus := Ch(s, at) == MINUS;
    var i := IntegerPart(s, if minus then at + 1 else at);
    var f := FractionEnd(s, i.1);
    var e := Exponent(s, f);
    var n := if f == i.1 then i.0 else DigitsRead(s, i.1 + 1, i.0);
    var places := if f == i.1 then 0 else f - (i.1 + 1);
    Ok(Num(Scaled(pow, minus, n, e.0 - places)), e.1)
  }

  method IntegerAt(s: seq<Byte>, at: nat) returns (n: Number, num: nat)
    requires at <= |s|
    ensures (n, num) == IntegerPart(s, at)
  {
    num, n := at, Finite(0.0);
    hide DigitsEnd, DigitsRead;
    if Ch(s, num) == 48 {
      num := num + 1;
    }
    if 49 <= Ch(s, num) <= 57 {
      num, n := ReadDigits(s, num, n);
    }
  }

  method ExponentAt(s: seq<Byte>, at: nat) returns (scale: int, num: nat)
    requires at <= |s|
    ensures (scale, num) == Exponent(s, at)
  {
    num, scale := at, 0;
    hide DigitsEnd, DigitsValue;
    if Ch(s, num) == 101 || Ch(s, num) == 69 {
      num := num + 1;
      var signsubscale: int := 1;
      if Ch(s, num) == 43 {
        num := num + 1;
      } else if Ch(s, num) == MINUS {
        signsubscale, num := -1, num + 1;
      }
      var end, subscale := ExponentDigits(s, num);
      num, scale := end, signsubscale * subscale;
    }
  }

  method FractionAt(s: seq<Byte>, at: nat, n0: Number) returns (n: Number, scale: int, num: nat)
    requires at <= |s|
    ensures num == FractionEnd(s, at)
    ensures if num == at then n == n0 && scale == 0 else n == DigitsRead(s, at + 1, n0) && scale == at + 1 - num
  {
    n, num, scale := n0, at, 0;
    if Ch(s, num) == 46 && IsDigit(Ch(s, num + 1)) {
      var end, m := ReadDigits(s, num + 1, n);
      n, scale, num := m, num + 1 - end, end;
    }
  }

  method NumberAt(pow: PowerOfTen, s: seq<Byte>, at: nat) returns (r: Parsed<Json>)
    requires at <= |s|
    ensures r == ParseNumber(pow, s, at)
  {
    hide DigitsEnd, DigitsRead, IntegerPart, FractionEnd, Exponent, Times, Negated;
    var num, minus := at, false;
    if Ch(s, num) == MINUS {
      minus := true;
      num := num + 1;
    }
    var n0, whole := IntegerAt(s, num);
    var n, scale, dot := FractionAt(s, whole, n0);
    var subscale, end := ExponentAt(s, dot);
    r := Ok(Num(Times(if minus then Negated(n) else n, pow(scale + subscale))), end);
  }

  /** parse_value */
  function ParseValue(pow: PowerOfTen, s: seq<Byte>, at: nat): (r: Parsed<Json>)
    requires at <= |s|
    ensures r.Ok? ==> at < r.at <= |s|
    decreases |s| - at, 1
  {
    var c := Ch(s, at);
    if Starts(s, at, NULL_TEXT) then Ok(Null, at + 4)
    else if Starts(s, at, FALSE_TEXT) then Ok(False, at + 5)
    else if Starts(s, at, TRUE_TEXT) then Ok(True, at + 4)
    else if c == QUOTE then
      var t := ParseString(s, at);
      if t.Ok? then Ok(Str(t.v), t.at) else Fail
    else if c == MINUS || IsDigit(c) then ParseNumber(pow, s, at)
    else if c == LBRACKET then ParseArray(pow, s, at)
    else if c == LBRACE then ParseObject(pow, s, at)
    else Fail
  }

  /** parse_array, from its opening bracket. */
  function ParseArray(pow: PowerOfTen, s: seq<Byte>, at: nat): (r: Parsed<Json>)
    requires at < |s|
    ensures r.Ok? ==> at < r.at <= |s|
    decreases |s| - at, 0
  {
    var p := Skip(s, at + 1);
    if Ch(s, p) == RBRACKET then Ok(Arr(Nil), p + 1)
    else
      var v := ParseValue(pow, s, Skip(s, p));
      if v.Fail? then Fail
      else
        var t := ParseItems(pow, s, Skip(s, v.at));
        if t.Fail? then Fail else Ok(Arr(Cons(v.v, t.v)), t.at)
  }

  /** The loop of parse_array: further items behind commas, and the closing bracket. */
  function ParseItems(pow: PowerOfTen, s: seq<Byte>, at: nat): (r: Parsed<Items>)
    requires at <= |s|
    ensures r.Ok? ==> at < r.at <= |s|
    decreases |s| - at, 0
  {
    if Ch(s, at) == COMMA then
      var v := ParseValue(pow, s, Skip(s, at + 1));
      if v.Fail? then Fail
      else
        var t := ParseItems(pow, s, Skip(s, v.at));
        if t.Fail? then Fail else Ok(Cons(v.v, t.v), t.at)
    else if Ch(s, at) == RBRACKET then Ok(Nil, at + 1)
    else Fail
  }

  /** A name, a colon and a value, with blanks around them; what follows blanks after the value. */
  function ParseMember(pow: PowerOfTen, s: seq<Byte>, at: nat): (r: Parsed<(seq<Byte>, Json)>)
    requires at <= |s|
    ensures r.Ok? ==> at < r.at <= |s|
    decreases |s| - at, 2
  {
    var n := ParseString(s, Skip(s, at));
    if n.Fail? then Fail
    else
      var p := Skip(s, n.at);
      if Ch(s, p) != COLON then Fail
      else
        var v := ParseValue(pow, s, Skip(s, p + 1));
        if v.Fail? then Fail else Ok((n.v, v.v), Skip(s, v.at))
  }

  /** parse_object, from its opening brace. */
  function ParseObject(pow: PowerOfTen, s: seq<Byte>, at: nat): (r: Parsed<Json>)
    requires at < |s|
    ensures r.Ok? ==> at < r.at <= |s|
    decreases |s| - at, 0
  {
    var p := Skip(s, at + 1);
    if Ch(s, p) == RBRACE then Ok(Obj(End), p + 1)
    else
      var m := ParseMember(pow, s, p);
      if m.Fail? then Fail
      else
        var t := ParseMembers(pow, s, m.at);
        if t.Fail? then Fail else Ok(Obj(Member(m.v.0, m.v.1, t.v)), t.at)
  }

  /** The loop of parse_object. */
  function ParseMembers(pow: PowerOfTen, s: seq<Byte>, at: nat): (r: Parsed<Members>)
    requires at <= |s|
    ensures r.Ok? ==> at < r.at <= |s|
    decreases |s| - at, 0
  {
    if Ch(s, at) == COMMA then
      var m := ParseMember(pow, s, at + 1);
      if m.Fail? then Fail
      else
        var t := ParseMembers(pow, s, m.at);
        if t.Fail? then Fail else Ok(Member(m.v.0, m.v.1, t.v), t.at)
    else if Ch(s, at) == RBRACE then Ok(End, at + 1)
    else Fail
  }

  /** parse_value */
  method ValueAt(pow: PowerOfTen, s: seq<Byte>, at: nat) returns (r: Parsed<Json>)
    requires at <= |s|
    ensures r == ParseValue(pow, s, at)
    decreases |s| - at, 1
  {
    hide Starts, ParseString, ParseNumber, ParseArray, ParseObject;
    if Starts(s, at, NULL_TEXT) {
      return Ok(Null, at + 4);
    }
    if Starts(s, at, FALSE_TEXT) {
      return Ok(False, at + 5);
    }
    if Starts(s, at, TRUE_TEXT) {
      return Ok(True, at + 4);
    }
    var c := Ch(s, at);
    if c == QUOTE {
      var t, room := StringAt(s, at);
      return if t.Ok? then Ok(Str(t.v), t.at) else Fail;
    }
    if c == MINUS || IsDigit(c) {
      r := NumberAt(pow, s, at);
      return;
    }
    if c == LBRACKET {
      r := ArrayAt(pow, s, at);
      return;
    }
    if c == LBRACE {
      r := ObjectAt(pow, s, at);
      return;
    }
    r := Fail;
  }

  /** The list of children behind those already made, newest last. */
  function Append(done: seq<Json>, tail: Items): Items
  {
    if done == [] then tail else Append(done[..|done| - 1], Cons(done[|done| - 1], tail))
  }

  function AppendMembers(done: seq<(seq<Byte>, Json)>, tail: Members): Members
  {
    if done == [] then tail
    else var m := done[|done| - 1]; AppendMembers(done[..|done| - 1], Member(m.0, m.1, tail))
  }

  lemma AppendSnoc(done: seq<Json>, v: Json, tail: Items)
    ensures Append(done + [v], tail) == Append(done, Cons(v, tail))
  {
    assert (done + [v])[..|done|] == done;
  }

  lemma AppendMembersSnoc(done: seq<(seq<Byte>, Json)>, m: (seq<Byte>, Json), tail: Members)
    ensures AppendMembers(done + [m], tail) == AppendMembers(done, Member(m.0, m.1, tail))
  {
    assert (done + [m])[..|done|] == done;
  }

  ghost function Finish(done: seq<Json>, rest: Parsed<Items>): Parsed<Items>
  {
    if rest.Fail? then Fail else Ok(Append(done, rest.v), rest.at)
  }

  ghost function FinishMembers(done: seq<(seq<Byte>, Json)>, rest: Parsed<Members>): Parsed<Members>
  {
    if rest.Fail? then Fail else Ok(AppendMembers(done, rest.v), rest.at)
  }

  lemma FinishNothing(r: Parsed<Items>)
    ensures Finish([], r) == r
  {}

  lemma FinishMembersNothing(r: Parsed<Members>)
    ensures FinishMembers([], r) == r
  {}

  /** The loop of parse_array. */
  method ItemsAt(pow: PowerOfTen, s: seq<Byte>, at: nat) returns (r: Parsed<Items>)
    requires at <= |s|
    ensures r == ParseItems(pow, s, at)
    decreases |s| - at, 0
  {
    var value, done: seq<Json> := at, [];
    hide ParseValue, Skip, Append;
    FinishNothing(ParseItems(pow, s, at));
    while Ch(s, value) == COMMA
      invariant at <= value <= |s| && ParseItems(pow, s, at) == Finish(done, ParseItems(pow, s, value))
      decreases |s| - value
    {
      var p := SkipBlanks(s, value + 1);
      var v := ValueAt(pow, s, p);
      if v.Fail? {
        return Fail;
      }
      var next := SkipBlanks(s, v.at);
      var t := ParseItems(pow, s, next);
      if t.Ok? { AppendSnoc(done, v.v, t.v); }
      value, done := next, done + [v.v];
    }
    if Ch(s, value) == RBRACKET {
      return Ok(Append(done, Nil), value + 1);
    }
    r := Fail;
  }

  /** parse_array */
  method ArrayAt(pow: PowerOfTen, s: seq<Byte>, at: nat) returns (r: Parsed<Json>)
    requires at < |s|
    ensures r == ParseArray(pow, s, at)
    decreases |s| - at, 0
  {
    hide ParseValue, ParseItems, Skip;
    var p := SkipBlanks(s, at + 1);
    if Ch(s, p) == RBRACKET {
      return Ok(Arr(Nil), p + 1);
    }
    p := SkipBlanks(s, p);
    var v := ValueAt(pow, s, p);
    if v.Fail? {
      return Fail;
    }
    p := SkipBlanks(s, v.at);
    var t := ItemsAt(pow, s, p);
    r := if t.Fail? then Fail else Ok(Arr(Cons(v.v, t.v)), t.at);
  }

  method MemberAt(pow: PowerOfTen, s: seq<Byte>, at: nat) returns (r: Parsed<(seq<Byte>, Json)>)
    requires at <= |s|
    ensures r == ParseMember(pow, s, at)
    decreases |s| - at, 2
  {
    hide ParseValue, ParseString, Skip;
    var p := SkipBlanks(s, at);
    var n, room := StringAt(s, p);
    if n.Fail? {
      return Fail;
    }
    p := SkipBlanks(s, n.at);
    if Ch(s, p) != COLON {
      return Fail;
    }
    p := SkipBlanks(s, p + 1);
    var v := ValueAt(pow, s, p);
    if v.Fail? {
      return Fail;
    }
    p := SkipBlanks(s, v.at);
    r := Ok((n.v, v.v), p);
  }

  /** The loop of parse_object. */
  method MembersAt(pow: PowerOfTen, s: seq<Byte>, at: nat) returns (r: Parsed<Members>)
    requires at <= |s|
    ensures r == ParseMembers(pow, s, at)
    decreases |s| - at, 0
  {
    var value, done: seq<(seq<Byte>, Json)> := at, [];
    FinishMembersNothing(ParseMembers(pow, s, at));
    hide ParseMember, AppendMembers;
    while Ch(s, value) == COMMA
      invariant at <= value <= |s| && ParseMembers(pow, s, at) == FinishMembers(done, ParseMembers(pow, s, value))
      decreases |s| - value
    {
      var m := MemberAt(pow, s, value + 1);
      if m.Fail? {
        return Fail;
      }
      var t := ParseMembers(pow, s, m.at);
      if t.Ok? { AppendMembersSnoc(done, m.v, t.v); }
      value, done := m.at, done + [m.v];
    }
    if Ch(s, value) == RBRACE {
      return Ok(AppendMembers(done, End), value + 1);
    }
    r := Fail;
  }

  /** parse_object */
  method ObjectAt(pow: PowerOfTen, s: seq<Byte>, at: nat) returns (r: Parsed<Json>)
    requires at < |s|
    ensures r == ParseObject(pow, s, at)
    decreases |s| - at, 0
  {
    hide ParseMember, ParseMembers, Skip;
    var p := SkipBlanks(s, at + 1);
    if Ch(s, p) == RBRACE {
      return Ok(Obj(End), p + 1);
    }
    var m := MemberAt(pow, s, p);
    if m.Fail? {
      return Fail;
    }
    var t := MembersAt(pow, s, m.at);
    r := if t.Fail? then Fail else Ok(Obj(Member(m.v.0, m.v.1, t.v)), t.at);
  }

  /** cJSON_ParseWithOpts: a value at the start of the text; with the option, nothing but blanks may follow. */
  function ParseText(pow: PowerOfTen, s: seq<Byte>, wholeText: bool): Parsed<Json>
  {
    var v := ParseValue(pow, s, Skip(s, 0));
    if v.Fail? || !wholeText then v
    else
      var end := Skip(s, v.at);
      if Ch(s, end) != 0 then Fail else Ok(v.v, end)
  }

  method ParseWithOpts(pow: PowerOfTen, s: seq<Byte>, wholeText: bool) returns (r: Parsed<Json>)
    ensures r == ParseText(pow, s, wholeText)
  {
    hide ParseValue, Skip;
    var p := SkipBlanks(s, 0);
    r := ValueAt(pow, s, p);
    if r.Fail? || !wholeText {
      return;
    }
    p := SkipBlanks(s, r.at);
    if Ch(s, p) != 0 {
      return Fail;
    }
    r := Ok(r.v, p);
  }
}
