/** Parsing what was printed gives back the value. */
module JsonRoundTrip {
  import opened Words
  import opened Arithmetic
  import opened Slices
  import opened Doubles
  import opened JsonNumbers
  import opened JsonText
  import opened JsonEscapes
  import opened JsonStrings
  import opened JsonParse
  import opened JsonReading
  import opened JsonNumberRoundTrip
  import JsonPrint

  /** One byte of a string comes back from its printed form. */
  lemma EscapeBack(s: seq<Byte>, at: nat, c: Byte)
    requires c != 0 && Has(s, at, Escape(c))
    ensures var rest := Body(s, at + |Escape(c)|); Body(s, at) == ([c] + rest.0, rest.1)
  {
    var e := Escape(c);
    HasFirst(s, at, e);
    if |e| == 1 {
    } else if |e| == 2 {
      HasFirst(s, at + 1, e[1..]);
      ShortBack(s, at, c);
    } else {
      LongBack(s, at, c);
    }
  }

  lemma ShortBack(s: seq<Byte>, at: nat, c: Byte)
    requires c != 0 && ShortEscape(c) != 0 && at + 2 <= |s| && Ch(s, at) == BACKSLASH && Ch(s, at + 1) == ShortEscape(c)
    ensures var rest := Body(s, at + 2); Body(s, at) == ([c] + rest.0, rest.1)
  {
    assert Unescape(s, at + 1) == ([c], at + 1);
  }

  lemma LongBack(s: seq<Byte>, at: nat, c: Byte)
    requires 0 < c <= 31 && Has(s, at, [BACKSLASH, LOWER_U, 48, 48, Hex(c as int / 16), Hex(c as int % 16)])
    ensures var rest := Body(s, at + 6); Body(s, at) == ([c] + rest.0, rest.1)
  {
    var e := [BACKSLASH, LOWER_U, 48, 48, Hex(c as int / 16), Hex(c as int % 16)];
    assert forall k :: 0 <= k < 6 ==> Ch(s, at + k) == e[k] by {
      forall k | 0 <= k < 6 ensures Ch(s, at + k) == e[k] { assert s[at..at + 6][k] == e[k]; }
    }
    assert Ch(s, at) == e[0] && Ch(s, at + 1) == e[1] && Ch(s, at + 2) == e[2] && Ch(s, at + 3) == e[3]
      && Ch(s, at + 4) == e[4] && Ch(s, at + 5) == e[5];
    assert Hex4(s, at + 2) == c as int;
    assert Unicode(s, at + 1) == ([c], at + 5);
  }

  lemma EscapedCons(t: seq<Byte>)
    requires t != []
    ensures Escaped(t) + [QUOTE] == Escape(t[0]) + (Escaped(t[1..]) + [QUOTE])
    ensures |Escaped(t)| == |Escape(t[0])| + |Escaped(t[1..])|
    ensures CString(t) ==> t[0] != 0 && CString(t[1..])
  {
    hide Escape;
  }

  /** A string comes back from its printed form. */
  ghost predicate BodyIs(s: seq<Byte>, at: nat, t: seq<Byte>, end: nat)
  {
    at <= |s| && Body(s, at) == (t, end) && Ch(s, end) == QUOTE
  }

  lemma EmptyBack(s: seq<Byte>, at: nat, t: seq<Byte>)
    requires t == [] && Has(s, at, Escaped(t) + [QUOTE])
    ensures BodyIs(s, at, t, at + |Escaped(t)|)
  {
    assert Escaped(t) == [];
    HasFirst(s, at, [] + [QUOTE]);
  }

  lemma BodyCons(s: seq<Byte>, at: nat, c: Byte, t: seq<Byte>, end: nat)
    requires c != 0 && Has(s, at, Escape(c)) && BodyIs(s, at + |Escape(c)|, t, end)
    ensures BodyIs(s, at, [c] + t, end)
  {
    EscapeBack(s, at, c);
  }

  lemma {:induction false} EscapedBack(s: seq<Byte>, at: nat, t: seq<Byte>)
    requires CString(t) && Has(s, at, Escaped(t) + [QUOTE])
    ensures BodyIs(s, at, t, at + |Escaped(t)|)
    decreases |t|
  {
    hide *;
    if t == [] {
      EmptyBack(s, at, t);
    } else {
      var c, rest := t[0], t[1..];
      assert t == [c] + rest;
      EscapedCons(t);
      HasSplit(s, at, Escape(c), Escaped(rest) + [QUOTE]);
      EscapedBack(s, at + |Escape(c)|, rest);
      BodyCons(s, at, c, rest, at + |Escaped(t)|);
    }
  }

  lemma EscapeValid(s: seq<Byte>, at: nat, c: Byte)
    requires c != 0 && Has(s, at, Escape(c)) && ValidBody(s, at + |Escape(c)|)
    ensures ValidBody(s, at)
  {
    var e := Escape(c);
    assert forall k {:trigger e[k]} :: 0 <= k < |e| ==> Ch(s, at + k) == e[k] by {
      forall k | 0 <= k < |e| ensures Ch(s, at + k) == e[k] { assert s[at..at + |e|][k] == e[k]; }
    }
    assert Ch(s, at) == e[0];
    if |e| >= 2 { assert Ch(s, at + 1) == e[1]; }
    if |e| == 6 {
      assert Ch(s, at + 2) == e[2] && Ch(s, at + 3) == e[3] && Ch(s, at + 4) == e[4] && Ch(s, at + 5) == e[5];
      assert IsHex(s, at + 2);
    }
  }

  /** Every string that the printer can have written is valid by section 7 of RFC 8259. */
  lemma {:induction false} EscapedValid(s: seq<Byte>, at: nat, t: seq<Byte>)
    requires CString(t) && Has(s, at, Escaped(t) + [QUOTE])
    ensures ValidBody(s, at)
    decreases |t|
  {
    if t == [] {
      HasFirst(s, at, Escaped(t) + [QUOTE]);
    } else {
      hide *;
      EscapedCons(t);
      HasSplit(s, at, Escape(t[0]), Escaped(t[1..]) + [QUOTE]);
      EscapedValid(s, at + |Escape(t[0])|, t[1..]);
      EscapeValid(s, at, t[0]);
    }
  }

  lemma QuotedBack(s: seq<Byte>, at: nat, t: seq<Byte>)
    requires CString(t) && Has(s, at, Quoted(t))
    ensures ParseString(s, at) == Ok(t, at + |Quoted(t)|)
    ensures ValidBody(s, at + 1) && |t| <= Room(s, at + 1)
  {
    var rest: seq<Byte> := Escaped(t) + [QUOTE];
    assert Quoted(t) == [QUOTE] + rest;
    hide Escaped, Body, Room, ValidBody, Has;
    HasSplit(s, at, [QUOTE], rest);
    HasFirst(s, at, [QUOTE]);
    EscapedBack(s, at + 1, t);
    EscapedValid(s, at + 1, t);
    ValidFits(s, at + 1);
  }

  ghost predicate Blank(b: seq<Byte>)
  {
    forall i :: 0 <= i < |b| ==> 0 < b[i] <= 32
  }

  lemma {:induction false} SkipOver(s: seq<Byte>, at: nat, b: seq<Byte>)
    requires Has(s, at, b) && Blank(b)
    ensures Skip(s, at) == Skip(s, at + |b|)
    decreases |b|
  {
    if b != [] {
      HasFirst(s, at, b);
      SkipOver(s, at + 1, b[1..]);
    }
  }

  lemma SkipNone(s: seq<Byte>, at: nat)
    requires at <= |s| && Ch(s, at) > 32
    ensures Skip(s, at) == at
  {}

  lemma {:induction false} TabsBlank(n: int)
    ensures Blank(Repeat(TAB, n))
  {
    if n > 0 { TabsBlank(n - 1); }
  }

  /** No printed value starts with a blank, a zero or a closing bracket. */
  lemma TextFirst(j: Json, depth: nat, fmt: bool)
    requires Printable(j)
    ensures Text(j, depth, fmt) != [] && Text(j, depth, fmt)[0] > 32 && Text(j, depth, fmt)[0] != RBRACKET
  {
    if j.Num? { NumberFirst(j.n.v); }
    hide NumberText;
  }

  /** Which of the branches of parse_value a first character selects. */
  lemma NoWord(s: seq<Byte>, at: nat)
    requires at < |s|
    requires Ch(s, at) in [QUOTE, MINUS, LBRACKET, LBRACE] || IsDigit(Ch(s, at))
    ensures !Starts(s, at, NULL_TEXT) && !Starts(s, at, FALSE_TEXT) && !Starts(s, at, TRUE_TEXT)
  {
    StartsFirst(s, at, NULL_TEXT);
    StartsFirst(s, at, FALSE_TEXT);
    StartsFirst(s, at, TRUE_TEXT);
  }

  lemma StartsFirst(s: seq<Byte>, at: nat, word: seq<Byte>)
    requires word != []
    ensures Starts(s, at, word) ==> Ch(s, at) == word[0]
  {
    if Starts(s, at, word) { assert s[at..at + |word|][0] == word[0]; }
  }

  /** The words: each is recognised, and not taken for another one. */
  lemma WordBack(pow: PowerOfTen, s: seq<Byte>, at: nat, j: Json)
    requires j.Null? || j.False? || j.True?
    requires Has(s, at, Text(j, 0, false))
    ensures ParseValue(pow, s, at) == Ok(Reread(pow, j), at + |Text(j, 0, false)|)
  {
    HasFirst(s, at, Text(j, 0, false));
    StartsFirst(s, at, NULL_TEXT);
    StartsFirst(s, at, FALSE_TEXT);
    StartsFirst(s, at, TRUE_TEXT);
    hide ParseString, ParseNumber, ParseArray, ParseObject;
  }

  lemma FlatBack(pow: PowerOfTen, s: seq<Byte>, at: nat, j: Json)
    requires j.Num? || j.Str?
    requires Printable(j) && Has(s, at, Text(j, 0, false)) && Delimited(s, at + |Text(j, 0, false)|)
    ensures ParseValue(pow, s, at) == Ok(Reread(pow, j), at + |Text(j, 0, false)|)
  {
    hide Starts, ParseString, ParseNumber, ParseArray, ParseObject, NumberText, Reading, Double, Escaped;
    TextFirst(j, 0, false);
    HasFirst(s, at, Text(j, 0, false));
    if j.Num? {
      NumberFirst(j.n.v);
      NoWord(s, at);
      NumberBack(pow, s, at, j.n.v);
    } else {
      NoWord(s, at);
      QuotedBack(s, at, j.s);
    }
  }

  /** The tree that printing and reading give: with every number as its text is read. */
  ghost function Reread(pow: PowerOfTen, j: Json): Json
  {
    match j
    case Num(n) => if n.Finite? then Num(Reading(pow, n.v)) else j
    case Arr(items) => Arr(RereadItems(pow, items))
    case Obj(members) => Obj(RereadMembers(pow, members))
    case _ => j
  }

  ghost function RereadItems(pow: PowerOfTen, items: Items): Items
  {
    match items
    case Nil => Nil
    case Cons(head, tail) => Cons(Reread(pow, head), RereadItems(pow, tail))
  }

  ghost function RereadMembers(pow: PowerOfTen, members: Members): Members
  {
    match members
    case End => End
    case Member(name, value, rest) => Member(name, Reread(pow, value), RereadMembers(pow, rest))
  }

  /** A property of all numbers in a tree. */
  ghost predicate AllNumbers(p: Number -> bool, j: Json)
  {
    match j
    case Num(n) => p(n)
    case Arr(items) => AllInItems(p, items)
    case Obj(members) => AllInMembers(p, members)
    case _ => true
  }

  ghost predicate AllInItems(p: Number -> bool, items: Items)
  {
    items.Cons? ==> AllNumbers(p, items.head) && AllInItems(p, items.tail)
  }

  ghost predicate AllInMembers(p: Number -> bool, members: Members)
  {
    members.Member? ==> AllNumbers(p, members.value) && AllInMembers(p, members.rest)
  }

  /** The number comes back. */
  ghost function ReadsBack(pow: PowerOfTen): Number -> bool
  {
    (n: Number) => n.Finite? ==> Reading(pow, n.v) == n
  }

  /** A double that is a whole number of magnitude up to 2^55. */
  predicate ModerateWhole(n: Number)
  {
    n.Finite? && n.v == n.v.Floor as real && -4 * TWO53 <= n.v.Floor <= 4 * TWO53
    && Rounded(Magnitude(n.v)) == Magnitude(n.v)
  }

  predicate NoSlip(n: Number)
  {
    n.Finite? ==> !Slips(if n.v.Floor < 0 then -n.v.Floor else n.v.Floor)
  }

  /** The tree is the same if and only if every number in it comes back. */
  lemma {:induction false} RereadExact(pow: PowerOfTen, j: Json)
    ensures Reread(pow, j) == j <==> AllNumbers(ReadsBack(pow), j)
    decreases j, 0
  {
    hide Reading;
    match j
    case Arr(items) => RereadItemsExact(pow, items);
    case Obj(members) => RereadMembersExact(pow, members);
    case _ =>
  }

  lemma {:induction false} RereadItemsExact(pow: PowerOfTen, items: Items)
    ensures RereadItems(pow, items) == items <==> AllInItems(ReadsBack(pow), items)
    decreases items, 0
  {
    if items.Cons? {
      RereadExact(pow, items.head);
      RereadItemsExact(pow, items.tail);
    }
  }

  lemma {:induction false} RereadMembersExact(pow: PowerOfTen, members: Members)
    ensures RereadMembers(pow, members) == members <==> AllInMembers(ReadsBack(pow), members)
    decreases members, 0
  {
    if members.Member? {
      RereadExact(pow, members.value);
      RereadMembersExact(pow, members.rest);
    }
  }

  /** Whole numbers up to 2^55 come back exactly unless they slip. */
  lemma {:induction false} ModerateBack(pow: PowerOfTen, j: Json)
    requires AllNumbers(ModerateWhole, j)
    ensures AllNumbers(ReadsBack(pow), j) <==> AllNumbers(NoSlip, j)
    decreases j, 0
  {
    hide Reading, Slips, Rounded;
    match j
    case Num(n) => WholeBack(pow, n.v.Floor);
    case Arr(items) => ModerateItemsBack(pow, items);
    case Obj(members) => ModerateMembersBack(pow, members);
    case _ =>
  }

  lemma {:induction false} ModerateItemsBack(pow: PowerOfTen, items: Items)
    requires AllInItems(ModerateWhole, items)
    ensures AllInItems(ReadsBack(pow), items) <==> AllInItems(NoSlip, items)
    decreases items, 0
  {
    if items.Cons? {
      ModerateBack(pow, items.head);
      ModerateItemsBack(pow, items.tail);
    }
  }

  lemma {:induction false} ModerateMembersBack(pow: PowerOfTen, members: Members)
    requires AllInMembers(ModerateWhole, members)
    ensures AllInMembers(ReadsBack(pow), members) <==> AllInMembers(NoSlip, members)
    decreases members, 0
  {
    if members.Member? {
      ModerateBack(pow, members.value);
      ModerateMembersBack(pow, members.rest);
    }
  }

  /** Every printable value comes back from its text, in both formats, wherever the text stands. */
  lemma {:induction false} ValueBack(pow: PowerOfTen, s: seq<Byte>, at: nat, j: Json, depth: nat, fmt: bool)
    requires Printable(j) && Has(s, at, Text(j, depth, fmt)) && Delimited(s, at + |Text(j, depth, fmt)|)
    ensures ParseValue(pow, s, at) == Ok(Reread(pow, j), at + |Text(j, depth, fmt)|)
    decreases j, 0
  {
    match j
    case Arr(items) => ArrayBack(pow, s, at, items, depth, fmt); Dispatch(pow, s, at, j, depth, fmt);
    case Obj(members) => ObjectBack(pow, s, at, members, depth, fmt); Dispatch(pow, s, at, j, depth, fmt);
    case Num(_) => FlatBack(pow, s, at, j);
    case Str(_) => FlatBack(pow, s, at, j);
    case _ => WordBack(pow, s, at, j);
  }

  lemma Dispatch(pow: PowerOfTen, s: seq<Byte>, at: nat, j: Json, depth: nat, fmt: bool)
    requires (j.Arr? || j.Obj?) && Has(s, at, Text(j, depth, fmt))
    ensures at < |s| && ParseValue(pow, s, at) == if j.Arr? then ParseArray(pow, s, at) else ParseObject(pow, s, at)
  {
    assert Text(j, depth, fmt) != [] && Text(j, depth, fmt)[0] == if j.Arr? then LBRACKET else LBRACE;
    HasFirst(s, at, Text(j, depth, fmt));
    NoWord(s, at);
    hide Starts, ParseString, ParseNumber, ParseArray, ParseObject, Text;
  }

  lemma ArrayTextIs(head: Json, tail: Items, depth: nat, fmt: bool)
    ensures Text(Arr(Cons(head, tail)), depth, fmt) == [LBRACKET]
      + (Text(head, depth + 1, fmt) + ItemsText(tail, depth + 1, fmt))
  {}

  lemma ItemsTextIs(head: Json, tail: Items, depth: nat, fmt: bool)
    ensures ItemsText(Cons(head, tail), depth, fmt) == [COMMA]
      + (When(fmt, [SPACE]) + (Text(head, depth, fmt) + ItemsText(tail, depth, fmt)))
  {
    hide Text;
  }

  /** parse_array when its first value and the rest are known. */
  lemma ArrayStep(pow: PowerOfTen, s: seq<Byte>, at: nat, head: Json, mid: nat, tail: Items, end: nat)
    requires at < |s| && Skip(s, at + 1) == at + 1 && Ch(s, at + 1) != RBRACKET
    requires ParseValue(pow, s, at + 1) == Ok(head, mid)
    requires mid <= |s| && Skip(s, mid) == mid && ParseItems(pow, s, mid) == Ok(tail, end)
    ensures ParseArray(pow, s, at) == Ok(Arr(Cons(head, tail)), end)
  {
    hide ParseValue, ParseItems, Skip, Ch;
  }

  /** One round of its loop. */
  lemma ItemsStep(pow: PowerOfTen, s: seq<Byte>, at: nat, p: nat, head: Json, mid: nat, tail: Items, end: nat)
    requires at < |s| && Ch(s, at) == COMMA && Skip(s, at + 1) == p && ParseValue(pow, s, p) == Ok(head, mid)
    requires mid <= |s| && Skip(s, mid) == mid && ParseItems(pow, s, mid) == Ok(tail, end)
    ensures ParseItems(pow, s, at) == Ok(Cons(head, tail), end)
  {
    hide ParseValue, Skip, Ch;
  }

  lemma EmptyArrayBack(pow: PowerOfTen, s: seq<Byte>, at: nat, depth: nat, fmt: bool)
    requires Has(s, at, Text(Arr(Nil), depth, fmt))
    ensures at < |s| && ParseArray(pow, s, at) == Ok(Arr(Nil), at + |Text(Arr(Nil), depth, fmt)|)
  {
    HasFirst(s, at, [LBRACKET, RBRACKET]);
    HasFirst(s, at + 1, [RBRACKET]);
  }

  /** Where the parts of a value and what follows it lie, behind a first character and blanks. */
  lemma Parts(s: seq<Byte>, at: nat, c: Byte, b: seq<Byte>, head: Json, depth: nat, fmt: bool, rest: seq<Byte>)
    requires Printable(head) && Blank(b) && Has(s, at, [c] + (b + (Text(head, depth, fmt) + rest)))
    ensures var p, h := at + 1 + |b|, Text(head, depth, fmt);
      && at < |s| && Ch(s, at) == c && p < |s| && Skip(s, at + 1) == p && Ch(s, p) > 32 && Ch(s, p) != RBRACKET
      && Has(s, p, h) && Has(s, p + |h|, rest)
  {
    hide Text, Printable;
    var h := Text(head, depth, fmt);
    var p := at + 1 + |b|;
    HasSplit(s, at, [c], b + (h + rest));
    HasFirst(s, at, [c]);
    HasSplit(s, at + 1, b, h + rest);
    HasSplit(s, p, h, rest);
    TextFirst(head, depth, fmt);
    HasFirst(s, p, h);
    hide Has;
    SkipOver(s, at + 1, b);
    SkipNone(s, p);
  }

  lemma {:induction false} ArrayBack(pow: PowerOfTen, s: seq<Byte>, at: nat, items: Items, depth: nat, fmt: bool)
    requires PrintableItems(items) && Has(s, at, Text(Arr(items), depth, fmt))
    ensures at < |s| && ParseArray(pow, s, at) == Ok(Reread(pow, Arr(items)), at + |Text(Arr(items), depth, fmt)|)
    decreases items, 0
  {
    hide *;
    match items
    case Nil => EmptyArrayBack(pow, s, at, depth, fmt); RereadNone(pow);
    case Cons(head, tail) =>
      PrintableCons(items);
      var d := depth + 1;
      var h, t := Text(head, d, fmt), ItemsText(tail, d, fmt);
      ArrayTextIs(head, tail, depth, fmt);
      NoBlanks(h + t);
      Parts(s, at, LBRACKET, [], head, d, fmt, t);
      var mid := at + 1 + |h|;
      ItemsFirst(s, mid, tail, d, fmt);
      ValueBack(pow, s, at + 1, head, d, fmt);
      ItemsBack(pow, s, mid, tail, d, fmt);
      SkipNone(s, mid);
      ArrayStep(pow, s, at, Reread(pow, head), mid, RereadItems(pow, tail), mid + |t|);
      RereadCons(pow, head, tail);
  }

  lemma RereadNone(pow: PowerOfTen)
    ensures RereadItems(pow, Nil) == Nil && Reread(pow, Arr(Nil)) == Arr(Nil)
    ensures RereadMembers(pow, End) == End && Reread(pow, Obj(End)) == Obj(End)
  {}

  lemma RereadCons(pow: PowerOfTen, head: Json, tail: Items)
    ensures RereadItems(pow, Cons(head, tail)) == Cons(Reread(pow, head), RereadItems(pow, tail))
    ensures Reread(pow, Arr(Cons(head, tail))) == Arr(Cons(Reread(pow, head), RereadItems(pow, tail)))
  {}

  lemma RereadMember(pow: PowerOfTen, name: seq<Byte>, value: Json, rest: Members)
    ensures RereadMembers(pow, Member(name, value, rest)) == Member(name, Reread(pow, value), RereadMembers(pow, rest))
    ensures Reread(pow, Obj(Member(name, value, rest)))
      == Obj(Member(name, Reread(pow, value), RereadMembers(pow, rest)))
  {}

  lemma PrintableCons(items: Items)
    requires PrintableItems(items) && items.Cons?
    ensures Printable(items.head) && PrintableItems(items.tail)
  {}

  lemma NoBlanks(t: seq<Byte>)
    ensures Blank([]) && [] + t == t
  {}

  lemma SpaceBlank(fmt: bool)
    ensures Blank(When(fmt, [SPACE])) && Blank(When(fmt, [NEWLINE])) && Blank(When(fmt, [TAB]))
  {}

  lemma ItemsFirst(s: seq<Byte>, at: nat, items: Items, depth: nat, fmt: bool)
    requires Has(s, at, ItemsText(items, depth, fmt))
    ensures at < |s| && Ch(s, at) == (if items.Nil? then RBRACKET else COMMA)
    ensures Delimited(s, at) && Ch(s, at) > 32
  {
    HasFirst(s, at, ItemsText(items, depth, fmt));
  }

  lemma EmptyItemsBack(pow: PowerOfTen, s: seq<Byte>, at: nat, depth: nat, fmt: bool)
    requires Has(s, at, ItemsText(Nil, depth, fmt))
    ensures ParseItems(pow, s, at) == Ok(Nil, at + |ItemsText(Nil, depth, fmt)|)
  {
    HasFirst(s, at, [RBRACKET]);
  }

  lemma {:induction false} ItemsBack(pow: PowerOfTen, s: seq<Byte>, at: nat, items: Items, depth: nat, fmt: bool)
    requires PrintableItems(items) && Has(s, at, ItemsText(items, depth, fmt))
    ensures at <= |s| && ParseItems(pow, s, at) == Ok(RereadItems(pow, items), at + |ItemsText(items, depth, fmt)|)
    decreases items, 0
  {
    hide *;
    ItemsFirst(s, at, items, depth, fmt);
    match items
    case Nil => EmptyItemsBack(pow, s, at, depth, fmt); RereadNone(pow);
    case Cons(head, tail) =>
      PrintableCons(items);
      var b, h, t := When(fmt, [SPACE]), Text(head, depth, fmt), ItemsText(tail, depth, fmt);
      ItemsTextIs(head, tail, depth, fmt);
      SpaceBlank(fmt);
      Parts(s, at, COMMA, b, head, depth, fmt, t);
      var p := at + 1 + |b|;
      var mid := p + |h|;
      ItemsFirst(s, mid, tail, depth, fmt);
      ValueBack(pow, s, p, head, depth, fmt);
      ItemsBack(pow, s, mid, tail, depth, fmt);
      SkipNone(s, mid);
      ItemsStep(pow, s, at, p, Reread(pow, head), mid, RereadItems(pow, tail), mid + |t|);
      RereadCons(pow, head, tail);
  }

  /** The text of a member from its opening quote on. */
  function NamedText(name: seq<Byte>, value: seq<Byte>, fmt: bool): seq<Byte>
  {
    Quoted(name) + ([COLON] + (When(fmt, [TAB]) + value))
  }

  lemma MemberTextIs(name: seq<Byte>, value: seq<Byte>, depth: nat, fmt: bool)
    ensures MemberText(name, value, depth, fmt) == When(fmt, Repeat(TAB, depth)) + NamedText(name, value, fmt)
  {
    hide Quoted, Repeat;
  }

  /** A name and a colon, and then a value, are a member. */
  lemma MemberStep(pow: PowerOfTen, s: seq<Byte>, from: nat, at: nat, name: seq<Byte>, p: nat, q: nat, value: Json,
                   end: nat)
    requires from <= |s| && Skip(s, from) == at && ParseString(s, at) == Ok(name, p) && p < |s| && Skip(s, p) == p
    requires Ch(s, p) == COLON
    requires Skip(s, p + 1) == q && ParseValue(pow, s, q) == Ok(value, end) && end <= |s|
    ensures ParseMember(pow, s, from) == Ok((name, value), Skip(s, end))
  {
    hide ParseString, ParseValue, Skip, Ch;
  }

  /** A member comes back, from any place before which only blanks stand. */
  lemma {:induction false} MemberBack(pow: PowerOfTen, s: seq<Byte>, from: nat, at: nat, name: seq<Byte>, value: Json,
                                      depth: nat,
                                      fmt: bool)
    requires CString(name) && Printable(value) && from <= |s| && Skip(s, from) == at
    requires var t := NamedText(name, Text(value, depth, fmt), fmt); Has(s, at, t) && Delimited(s, at + |t|)
    ensures var end := at + |NamedText(name, Text(value, depth, fmt), fmt)|;
      end <= |s| && ParseMember(pow, s, from) == Ok((name, Reread(pow, value)), Skip(s, end))
    decreases value, 1
  {
    hide *;
    var v, b, q := Text(value, depth, fmt), When(fmt, [TAB]), Quoted(name);
    NamedParts(name, v, fmt);
    var p := at + |q|;
    HasSplit(s, at, q, [COLON] + (b + v));
    QuotedBack(s, at, name);
    ColonThen(s, p, b, value, depth, fmt);
    var end := p + 1 + |b| + |v|;
    ValueBack(pow, s, p + 1 + |b|, value, depth, fmt);
    MemberStep(pow, s, from, at, name, p, p + 1 + |b|, Reread(pow, value), end);
  }

  lemma NamedParts(name: seq<Byte>, v: seq<Byte>, fmt: bool)
    ensures var t := NamedText(name, v, fmt);
      t == Quoted(name) + ([COLON] + (When(fmt, [TAB]) + v)) && |t| == |Quoted(name)| + 1 + |When(fmt, [TAB])| + |v|
    ensures Blank(When(fmt, [TAB]))
  {
    hide Quoted;
  }

  lemma ColonThen(s: seq<Byte>, at: nat, b: seq<Byte>, value: Json, depth: nat, fmt: bool)
    requires Printable(value) && Blank(b) && Has(s, at, [COLON] + (b + Text(value, depth, fmt)))
    ensures at < |s| && Ch(s, at) == COLON && Skip(s, at) == at && Skip(s, at + 1) == at + 1 + |b|
    ensures Has(s, at + 1 + |b|, Text(value, depth, fmt)) && at + 1 + |b| + |Text(value, depth, fmt)| <= |s|
  {
    hide Text, Printable;
    var v := Text(value, depth, fmt);
    TextFirst(value, depth, fmt);
    HasSplit(s, at, [COLON], b + v);
    HasFirst(s, at, [COLON]);
    SkipNone(s, at);
    BlanksTo(s, at + 1, b, v);
  }

  lemma MembersFirst(s: seq<Byte>, at: nat, members: Members, depth: nat, fmt: bool)
    requires Has(s, at, MembersText(members, depth, fmt))
    ensures at < |s| && Delimited(s, at)
    ensures members.Member? ==> Ch(s, at) == COMMA && Ch(s, at) > 32
  {
    HasFirst(s, at, MembersText(members, depth, fmt));
  }

  /** The end of an object, after blanks. */
  lemma ClosingBrace(s: seq<Byte>, at: nat, depth: nat, fmt: bool)
    requires Has(s, at, When(fmt, [NEWLINE] + Repeat(TAB, depth - 1)) + [RBRACE])
    ensures var b := When(fmt, [NEWLINE] + Repeat(TAB, depth - 1));
      at + |b| < |s| && Skip(s, at) == at + |b| && Ch(s, at + |b|) == RBRACE
  {
    var b := When(fmt, [NEWLINE] + Repeat(TAB, depth - 1));
    HasSplit(s, at, b, [RBRACE]);
    HasFirst(s, at + |b|, [RBRACE]);
    TabsBlank(depth - 1);
    SkipOver(s, at, b);
    SkipNone(s, at + |b|);
  }

  lemma NamedFirst(name: seq<Byte>, value: seq<Byte>, fmt: bool)
    ensures NamedText(name, value, fmt) != [] && NamedText(name, value, fmt)[0] == QUOTE && QUOTE > 32
  {}

  /** From blanks to what follows them. */
  lemma BlanksTo(s: seq<Byte>, at: nat, b: seq<Byte>, t: seq<Byte>)
    requires Blank(b) && t != [] && t[0] > 32 && Has(s, at, b + t)
    ensures at + |b| < |s| && Skip(s, at) == at + |b| && Ch(s, at + |b|) == t[0] && Has(s, at + |b|, t)
  {
    HasSplit(s, at, b, t);
    HasFirst(s, at + |b|, t);
    hide Has;
    SkipOver(s, at, b);
    SkipNone(s, at + |b|);
  }

  lemma Regroup<T>(b: seq<T>, c: seq<T>, n: seq<T>, r: seq<T>)
    ensures b + ((c + n) + r) == (b + c) + (n + r)
  {}

  lemma BlankBoth(b: seq<Byte>, depth: nat, fmt: bool)
    requires Blank(b)
    ensures Blank(b + When(fmt, Repeat(TAB, depth)))
  {
    TabsBlank(depth);
    hide Repeat;
  }

  /** From blanks to the quote that opens a member. */
  lemma MemberStart(s: seq<Byte>, at: nat, b: seq<Byte>, name: seq<Byte>, value: seq<Byte>, depth: nat, fmt: bool,
                    rest: seq<Byte>)
    requires Blank(b) && Has(s, at, b + (MemberText(name, value, depth, fmt) + rest))
    ensures var q, m, n := at + |b| + |When(fmt, Repeat(TAB, depth))|, MemberText(name, value, depth, fmt),
      NamedText(name, value, fmt);
      && Skip(s, at) == q && q < |s| && Ch(s, q) == QUOTE && Has(s, q, n)
      && q + |n| == at + |b| + |m| && Has(s, at + |b| + |m|, rest)
  {
    hide *;
    var tabs, n := When(fmt, Repeat(TAB, depth)), NamedText(name, value, fmt);
    MemberTextIs(name, value, depth, fmt);
    NamedFirst(name, value, fmt);
    BlankBoth(b, depth, fmt);
    Regroup(b, tabs, n, rest);
    assert (n + rest)[0] == n[0];
    BlanksTo(s, at, b + tabs, n + rest);
    HasSplit(s, at + |b + tabs|, n, rest);
  }

  lemma MembersTextIs(name: seq<Byte>, value: Json, rest: Members, depth: nat, fmt: bool)
    ensures MembersText(Member(name, value, rest), depth, fmt) ==
      [COMMA] + (When(fmt, [NEWLINE])
        + (MemberText(name, Text(value, depth, fmt), depth, fmt) + MembersText(rest, depth, fmt)))
  {
    hide MemberText, Text;
  }

  lemma ObjectTextIs(name: seq<Byte>, value: Json, rest: Members, depth: nat, fmt: bool)
    ensures Text(Obj(Member(name, value, rest)), depth, fmt) ==
      [LBRACE] + (When(fmt, [NEWLINE])
        + (MemberText(name, Text(value, depth + 1, fmt), depth + 1, fmt) + MembersText(rest, depth + 1, fmt)))
  {
    hide MemberText;
  }

  lemma PrintableMember(members: Members)
    requires PrintableMembers(members) && members.Member?
    ensures CString(members.name) && Printable(members.value) && PrintableMembers(members.rest)
  {}

  lemma MembersStep(pow: PowerOfTen, s: seq<Byte>, at: nat, name: seq<Byte>, value: Json, mid: nat, rest: Members,
                    end: nat)
    requires at < |s| && Ch(s, at) == COMMA && ParseMember(pow, s, at + 1) == Ok((name, value), mid) && mid <= |s|
    requires ParseMembers(pow, s, mid) == Ok(rest, end)
    ensures ParseMembers(pow, s, at) == Ok(Member(name, value, rest), end)
  {
    hide ParseMember, Ch;
  }

  lemma ObjectStep(pow: PowerOfTen, s: seq<Byte>, at: nat, p: nat, name: seq<Byte>, value: Json, mid: nat,
                   rest: Members, end: nat)
    requires at < |s| && Skip(s, at + 1) == p && Ch(s, p) != RBRACE
    requires ParseMember(pow, s, p) == Ok((name, value), mid) && mid <= |s|
    requires ParseMembers(pow, s, mid) == Ok(rest, end)
    ensures ParseObject(pow, s, at) == Ok(Obj(Member(name, value, rest)), end)
  {
    hide ParseMember, ParseMembers, Skip, Ch;
  }

  lemma NoMembersBack(pow: PowerOfTen, s: seq<Byte>, at: nat, depth: nat, fmt: bool)
    requires Has(s, at, MembersText(End, depth, fmt))
    ensures at <= |s| && ParseMembers(pow, s, Skip(s, at)) == Ok(End, at + |MembersText(End, depth, fmt)|)
  {
    ClosingBrace(s, at, depth, fmt);
    hide Skip, Repeat, Has;
  }

  lemma EmptyObjectBack(pow: PowerOfTen, s: seq<Byte>, at: nat, depth: nat, fmt: bool)
    requires Has(s, at, Text(Obj(End), depth, fmt))
    ensures at < |s| && ParseObject(pow, s, at) == Ok(Obj(End), at + |Text(Obj(End), depth, fmt)|)
  {
    var e := When(fmt, [NEWLINE] + Repeat(TAB, depth - 1)) + [RBRACE];
    assert Text(Obj(End), depth, fmt) == [LBRACE] + e;
    HasSplit(s, at, [LBRACE], e);
    ClosingBrace(s, at + 1, depth, fmt);
    hide Skip, Repeat, Has, ParseMember, ParseMembers;
  }

  lemma MemberFrom(pow: PowerOfTen, s: seq<Byte>, at: nat, q: nat)
    requires at <= |s| && Skip(s, at) == q && q < |s| && Ch(s, q) == QUOTE
    ensures ParseMember(pow, s, q) == ParseMember(pow, s, at) && Ch(s, q) != RBRACE
  {
    hide Skip, ParseString, ParseValue, Ch;
    SkipNone(s, q);
  }

  /** The text of a member and of those that follow it. */
  function FollowedText(members: Members, depth: nat, fmt: bool): seq<Byte>
    requires members.Member?
  {
    MemberText(members.name, Text(members.value, depth, fmt), depth, fmt) + MembersText(members.rest, depth, fmt)
  }

  /** A member and those that follow it come back, from blanks on. */
  lemma {:induction false} MemberThen(pow: PowerOfTen, s: seq<Byte>, at: nat, b: seq<Byte>, members: Members,
                                      depth: nat, fmt: bool)
    returns (q: nat, mid: nat)
    requires members.Member? && PrintableMembers(members) && Blank(b)
    requires Has(s, at, b + FollowedText(members, depth, fmt))
    ensures at <= |s| && Skip(s, at) == q && q < |s| && Ch(s, q) != RBRACE && mid <= |s|
    ensures ParseMember(pow, s, at) == Ok((members.name, Reread(pow, members.value)), mid)
    ensures ParseMember(pow, s, q) == ParseMember(pow, s, at)
    ensures ParseMembers(pow, s, mid)
      == Ok(RereadMembers(pow, members.rest), at + |b| + |FollowedText(members, depth, fmt)|)
    decreases members, 0
  {
    hide *;
    PrintableMember(members);
    FollowedIs(members, depth, fmt);
    var name, value, rest := members.name, members.value, members.rest;
    var v, r := Text(value, depth, fmt), MembersText(rest, depth, fmt);
    MemberStart(s, at, b, name, v, depth, fmt, r);
    q := at + |b| + |When(fmt, Repeat(TAB, depth))|;
    var end := at + |b| + |MemberText(name, v, depth, fmt)|;
    MembersFirst(s, end, rest, depth, fmt);
    MemberBack(pow, s, at, q, name, value, depth, fmt);
    MemberFrom(pow, s, at, q);
    MembersBack(pow, s, end, rest, depth, fmt);
    mid := Skip(s, end);
  }

  lemma FollowedIs(members: Members, depth: nat, fmt: bool)
    requires members.Member?
    ensures FollowedText(members, depth, fmt)
      == MemberText(members.name, Text(members.value, depth, fmt), depth, fmt) + MembersText(members.rest, depth, fmt)
  {}

  lemma {:induction false} MembersBack(pow: PowerOfTen, s: seq<Byte>, at: nat, members: Members, depth: nat, fmt: bool)
    requires PrintableMembers(members) && Has(s, at, MembersText(members, depth, fmt))
    ensures at <= |s|
    ensures ParseMembers(pow, s, Skip(s, at))
      == Ok(RereadMembers(pow, members), at + |MembersText(members, depth, fmt)|)
    decreases members, 1
  {
    hide *;
    MembersFirst(s, at, members, depth, fmt);
    match members
    case End => NoMembersBack(pow, s, at, depth, fmt); RereadNone(pow);
    case Member(name, value, rest) =>
      var b, t := When(fmt, [NEWLINE]), FollowedText(members, depth, fmt);
      MembersTextIs(name, value, rest, depth, fmt);
      FollowedIs(members, depth, fmt);
      SpaceBlank(fmt);
      HasSplit(s, at, [COMMA], b + t);
      var q, mid := MemberThen(pow, s, at + 1, b, members, depth, fmt);
      SkipNone(s, at);
      MembersStep(pow, s, at, name, Reread(pow, value), mid, RereadMembers(pow, rest), at + 1 + |b| + |t|);
      RereadMember(pow, name, value, rest);
  }

  lemma {:induction false} ObjectBack(pow: PowerOfTen, s: seq<Byte>, at: nat, members: Members, depth: nat, fmt: bool)
    requires PrintableMembers(members) && Has(s, at, Text(Obj(members), depth, fmt))
    ensures at < |s| && ParseObject(pow, s, at) == Ok(Reread(pow, Obj(members)), at + |Text(Obj(members), depth, fmt)|)
    decreases members, 1
  {
    hide *;
    match members
    case End => EmptyObjectBack(pow, s, at, depth, fmt); RereadNone(pow);
    case Member(name, value, rest) =>
      var d := depth + 1;
      var b, t := When(fmt, [NEWLINE]), FollowedText(members, d, fmt);
      ObjectTextIs(name, value, rest, depth, fmt);
      FollowedIs(members, d, fmt);
      SpaceBlank(fmt);
      HasSplit(s, at, [LBRACE], b + t);
      var q, mid := MemberThen(pow, s, at + 1, b, members, d, fmt);
      ObjectStep(pow, s, at, q, name, Reread(pow, value), mid, RereadMembers(pow, rest), at + 1 + |b| + |t|);
      RereadMember(pow, name, value, rest);
  }

  /** The law of the codec: the text of any printable value, formatted or not, is parsed to the value with its numbers
      as they are read, with nothing left over. It is the same value if and only if every number comes back; and a
      tree whose numbers are whole and up to 2^55 is the same if and only if none of them slips, which needs one above
      2^54. */
  lemma PrintedIsParsed(pow: PowerOfTen, j: Json, fmt: bool, wholeText: bool)
    requires Printable(j)
    ensures ParseText(pow, Text(j, 0, fmt), wholeText) == Ok(Reread(pow, j), |Text(j, 0, fmt)|)
    ensures Reread(pow, j) == j <==> AllNumbers(ReadsBack(pow), j)
    ensures AllNumbers(ModerateWhole, j) ==> (Reread(pow, j) == j <==> AllNumbers(NoSlip, j))
  {
    hide *;
    RereadExact(pow, j);
    if AllNumbers(ModerateWhole, j) { ModerateBack(pow, j); }
    WholeTextBack(pow, j, fmt, wholeText);
  }

  lemma WholeTextBack(pow: PowerOfTen, j: Json, fmt: bool, wholeText: bool)
    requires Printable(j)
    ensures ParseText(pow, Text(j, 0, fmt), wholeText) == Ok(Reread(pow, j), |Text(j, 0, fmt)|)
  {
    hide ParseValue, Text, Reread;
    var s := Text(j, 0, fmt);
    assert Has(s, 0, s);
    TextFirst(j, 0, fmt);
    SkipNone(s, 0);
    ValueBack(pow, s, 0, j, 0, fmt);
  }

  /** A larger one that does not come back: 2^63, which is a double and is printed exactly, is read as 2^63 + 2048. */
  lemma Two63Changes(pow: PowerOfTen, fmt: bool, wholeText: bool)
    ensures var j := Num(Finite(9223372036854775808.0));
      && Printable(j) && Rounded(9223372036854775808.0) == 9223372036854775808.0
      && Text(j, 0, fmt) == Digits(9223372036854775808)
      && ParseText(pow, Text(j, 0, fmt), wholeText) == Ok(Num(Finite(9223372036854777856.0)), |Text(j, 0, fmt)|)
  {
    var j := Num(Finite(9223372036854775808.0));
    Two63Printed();
    Two63Read(pow);
    hide Digits, NumberText, Reading, Rounded, Double, ParseText;
    PrintedIsParsed(pow, j, fmt, wholeText);
  }

  lemma Two63Printed()
    ensures Double(9223372036854775808.0) && NumberText(9223372036854775808.0) == Digits(9223372036854775808)
  {
    WholeParts(9223372036854775808);
    Two63Format();
    assert TenTo(4) == 10000.0 && TenTo(8) == 100000000.0 && TenTo(12) == 1000000000000.0;
    assert TenTo(16) == 10000000000000000.0 && TenTo(20) == 100000000000000000000.0 && TenTo(0) == 1.0;
    hide TenTo, Truncated, Nearest, Digits, FormatOf;
    TenToGrows(20, 309);
    TenToGrows(-324, 0);
  }

  lemma Two63Double()
    ensures Rounded(9223372036854775808.0) == 9223372036854775808.0
  {
    BinadeLimits();
    NearestMultipleIs(9223372036854775808, 2048, 4503599627370496, 0);
    assert 9223372036854775808 as real == 9223372036854775808.0;
    hide Pow2, NearestMultiple, Rounded;
    LargeRounded(9223372036854775808, 11);
  }

  lemma Two63Format()
    ensures FormatOf(9223372036854775808.0).Whole?
  {
    WholeParts(9223372036854775808);
    assert TenTo(4) == 10000.0 && TenTo(8) == 100000000.0 && TenTo(12) == 1000000000000.0;
    assert TenTo(16) == 10000000000000000.0 && TenTo(20) == 100000000000000000000.0;
    hide TenTo, Truncated;
    TenToGrows(20, 60);
  }

  lemma Two63Read(pow: PowerOfTen)
    ensures Rounded(9223372036854775808.0) == 9223372036854775808.0
    ensures Reading(pow, 9223372036854775808.0) == Finite(9223372036854777856.0)
  {
    assert 9223372036854775808.0 == 9223372036854775808 as real;
    WholeParts(9223372036854775808);
    Two63Double();
    GatheredTwo63();
    ScaledByOne(pow, false, 9223372036854775808);
    Two63Format();
    hide Gathered, Rounded, FormatOf, Scaled, Truncated, Nearest;
  }

  /** The same for the routines themselves: what cJSON_Print or cJSON_PrintUnformatted gives, cJSON_ParseWithOpts
      takes back. */
  method PrintAndParse(pow: PowerOfTen, j: Json, fmt: bool, wholeText: bool) returns (r: Parsed<Json>)
    requires Printable(j)
    ensures r.Ok? && r.v == Reread(pow, j)
    ensures r.v == j <==> AllNumbers(ReadsBack(pow), j)
    ensures AllNumbers(ModerateWhole, j) ==> (r.v == j <==> AllNumbers(NoSlip, j))
  {
    hide *;
    var text := JsonPrint.PrintValue(j, 0, fmt);
    PrintedIsParsed(pow, j, fmt, wholeText);
    r := ParseWithOpts(pow, text, wholeText);
  }
}
