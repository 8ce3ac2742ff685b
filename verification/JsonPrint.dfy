/** The printer of cJSON.c: every routine computes a length first, allocates a buffer of it and then writes;
    the buffers are arrays of exactly that length. */
module JsonPrint {
  import opened Words
  import opened Buffers
  import opened Doubles
  import opened JsonNumbers
  import opened JsonText

  /** Writes bytes at a place in a buffer. */
  method Put(out: array<Byte>, at: nat, bytes: seq<Byte>) returns (next: nat)
    requires at + |bytes| <= out.Length
    modifies out
    ensures next == at + |bytes| && out[..next] == old(out[..at]) + bytes
  {
    ghost var was: seq<Byte> := out[..];
    CopyInto(out, at, bytes);
    FrontCopied(was, at, bytes, out[..]);
    next := at + |bytes|;
  }

  /** ndstrcpy: the terminating zero is written too. */
  method PutString(out: array<Byte>, at: nat, bytes: seq<Byte>) returns (next: nat)
    requires at + |bytes| < out.Length
    modifies out
    ensures next == at + |bytes| && out[..next] == old(out[..at]) + bytes
  {
    next := Put(out, at, bytes);
    out[next] := 0;
  }

  /** ndsnprintf with the given size: the text, cut to leave room for the terminating zero. */
  method PutFormatted(out: array<Byte>, at: nat, size: nat, bytes: seq<Byte>)
    requires 0 < size && at + |Cut(bytes, size)| < out.Length
    modifies out
    ensures out[..at + |Cut(bytes, size)|] == old(out[..at]) + Cut(bytes, size)
  {
    var next := PutString(out, at, Cut(bytes, size));
  }

  function Cut(bytes: seq<Byte>, size: nat): seq<Byte>
    requires 0 < size
  {
    if |bytes| < size then bytes else bytes[..size - 1]
  }

  method PutTabs(out: array<Byte>, at: nat, n: int) returns (next: nat)
    requires at + (if n < 0 then 0 else n) <= out.Length
    modifies out
    ensures next == at + |Repeat(TAB, n)| && out[..next] == old(out[..at]) + Repeat(TAB, n)
  {
    next := at;
    var j := 0;
    ghost var was: seq<Byte> := out[..at];
    assert was + Repeat(TAB, 0) == was;
    while j < n
      invariant 0 <= j && (n >= 0 ==> j <= n) && (n < 0 ==> j == 0) && next == at + j
      invariant out[..next] == was + Repeat(TAB, j)
    {
      out[next] := TAB;
      RepeatSnoc(TAB, j);
      assert out[..next + 1] == out[..next] + [TAB];
      next, j := next + 1, j + 1;
    }
  }

  lemma {:induction false} RepeatSnoc(c: Byte, n: nat)
    ensures Repeat(c, n + 1) == Repeat(c, n) + [c]
  {
    if n > 0 {
      RepeatSnoc(c, n - 1);
      assert [c] + (Repeat(c, n - 1) + [c]) == ([c] + Repeat(c, n - 1)) + [c];
    }
  }

  lemma {:induction false} EscapedSnoc(s: seq<Byte>, c: Byte)
    ensures Escaped(s + [c]) == Escaped(s) + Escape(c)
    decreases |s|
  {
    hide Escape;
    var all := s + [c];
    if s == [] {
      assert all[1..] == [];
    } else {
      assert all[1..] == s[1..] + [c];
      EscapedSnoc(s[1..], c);
    }
  }

  lemma EscapedNext(s: seq<Byte>, i: nat)
    requires i < |s|
    ensures Escaped(s[..i + 1]) == Escaped(s[..i]) + Escape(s[i])
  {
    hide Escaped;
    assert s[..i + 1] == s[..i] + [s[i]];
    EscapedSnoc(s[..i], s[i]);
  }

  lemma {:induction false} EscapedGrows(s: seq<Byte>, i: nat)
    requires i <= |s|
    ensures |Escaped(s[..i])| <= |Escaped(s)|
    decreases |s| - i
  {
    if i < |s| {
      EscapedNext(s, i);
      EscapedGrows(s, i + 1);
    } else {
      assert s[..i] == s;
    }
  }

  /** The first pass of print_string_ptr: exactly the length of the escaped text. */
  method EscapedLength(str: seq<Byte>) returns (len: nat)
    requires CString(str)
    ensures len == |Escaped(str)|
  {
    len := 0;
    for i := 0 to |str|
      invariant len == |Escaped(str[..i])|
    {
      EscapedNext(str, i);
      len := len + 1;
      if ShortEscape(str[i]) != 0 {
        len := len + 1;
      } else if str[i] < 32 {
        len := len + 5;
      }
    }
    assert str[..|str|] == str;
  }

  /** print_string_ptr */
  method PrintString(str: seq<Byte>) returns (text: seq<Byte>)
    requires CString(str)
    ensures text == Quoted(str)
  {
    var len := EscapedLength(str);
    var out := new Byte[len + 3];
    hide Escaped;
    var ptr := Put(out, 0, [QUOTE]);
    ptr := PutEscaped(out, ptr, str, len);
    ptr := Put(out, ptr, [QUOTE]);
    text := out[..ptr];
    ptr := Put(out, ptr, [0]);
  }

  /** The second pass. */
  method PutEscaped(out: array<Byte>, at: nat, str: seq<Byte>, len: nat) returns (ptr: nat)
    requires CString(str) && at + |Escaped(str)| < out.Length && len == |Escaped(str)|
    modifies out
    ensures ptr == at + |Escaped(str)| && out[..ptr] == old(out[..at]) + Escaped(str)
  {
    ptr := at;
    ghost var was: seq<Byte> := out[..at];
    assert was + Escaped(str[..0]) == was;
    hide Escaped, Escape;
    for i := 0 to |str|
      invariant at <= ptr <= out.Length && ptr == at + |Escaped(str[..i])| && out[..ptr] == was + Escaped(str[..i])
    {
      EscapedNext(str, i);
      EscapedGrows(str, i + 1);
      EscapeWithin(str, i);
      ptr := PutEscape(out, ptr, str[i], len);
      Append(was, Escaped(str[..i]), Escape(str[i]));
    }
    assert str[..|str|] == str;
  }

  lemma Append(a: seq<Byte>, b: seq<Byte>, c: seq<Byte>)
    ensures (a + b) + c == a + (b + c)
  {}

  /** The whole length is at least that of any one escape; so the size that print_string_ptr gives to ndsnprintf
      never cuts a control character's six bytes. */
  lemma EscapeWithin(s: seq<Byte>, i: nat)
    requires i < |s|
    ensures |Escape(s[i])| <= |Escaped(s)|
  {
    EscapedNext(s, i);
    EscapedGrows(s, i + 1);
  }

  /** One byte of a string, in the second pass; len is the length of the whole escaped string. */
  method PutEscape(out: array<Byte>, at: nat, c: Byte, len: nat) returns (next: nat)
    requires c != 0 && at + |Escape(c)| < out.Length && |Escape(c)| <= len
    modifies out
    ensures next == at + |Escape(c)| && out[..next] == old(out[..at]) + Escape(c)
  {
    if c > 31 && c != QUOTE && c != BACKSLASH {
      next := Put(out, at, [c]);
    } else {
      next := Put(out, at, [BACKSLASH]);
      if ShortEscape(c) != 0 {
        next := Put(out, next, [ShortEscape(c)]);
      } else {
        assert len >= 6;
        PutFormatted(out, next, len, [LOWER_U, 48, 48, Hex(c as int / 16), Hex(c as int % 16)]);
        next := next + 5;
      }
    }
  }

  /** What print_number formats, and the size it allocates: the text of any double is shorter. */
  method FormatNumber(d: real) returns (formatted: seq<Byte>, size: nat)
    requires Double(d)
    ensures formatted == NumberText(d) && |formatted| < size
  {
    NumberTextFits(d);
    hide Double, TenTo, Decimal, Nearest, Scientific, Fixed, Close, Truncated, Magnitude;
    if Close(Truncated(d), d) && -2147483648.0 <= d <= 2147483647.0 {
      return Decimal(Truncated(d)), 21;
    }
    size := 64;
    if Close(d.Floor, d) && Magnitude(d) < TenTo(60) {
      formatted := Decimal(Nearest(d));
    } else if Magnitude(d) < TenTo(-6) || Magnitude(d) > TenTo(9) {
      formatted := Scientific(d);
    } else {
      formatted := Fixed(d);
    }
  }

  /** print_number: ndsnprintf does not cut the text of any double. */
  method PrintNumber(d: real) returns (text: seq<Byte>)
    requires Double(d)
    ensures text == NumberText(d)
  {
    hide Double, NumberText;
    var formatted, size := FormatNumber(d);
    var str := new Byte[size];
    PutFormatted(str, 0, size, formatted);
    text := str[..|formatted|];
  }

  /** What print_array still has to write when i entries are done. */
  ghost function ItemsLeft(entries: seq<seq<Byte>>, i: nat, fmt: bool): (r: seq<Byte>)
    requires i <= |entries|
    ensures |r| > 0
    decreases |entries| - i
  {
    if i == |entries| then [RBRACKET]
    else entries[i] + Separator(entries, i, fmt) + ItemsLeft(entries, i + 1, fmt)
  }

  function Separator(entries: seq<seq<Byte>>, i: nat, fmt: bool): seq<Byte>
  {
    if i + 1 < |entries| then [COMMA] + When(fmt, [SPACE]) else []
  }

  /** The length that print_array allocates. */
  ghost function ItemsRoom(entries: seq<seq<Byte>>, i: nat, fmt: bool): nat
    requires i <= |entries|
    decreases |entries| - i
  {
    if i == |entries| then 5 else |entries[i]| + 2 + (if fmt then 1 else 0) + ItemsRoom(entries, i + 1, fmt)
  }

  lemma {:induction false} ItemsRoomEnough(entries: seq<seq<Byte>>, i: nat, fmt: bool)
    requires i <= |entries|
    ensures |ItemsLeft(entries, i, fmt)| + 4 <= ItemsRoom(entries, i, fmt)
    decreases |entries| - i
  {
    if i < |entries| { ItemsRoomEnough(entries, i + 1, fmt); }
  }

  function Texts(items: Items, depth: nat, fmt: bool): seq<seq<Byte>>
  {
    if items.Nil? then [] else [Text(items.head, depth, fmt)] + Texts(items.tail, depth, fmt)
  }

  lemma {:induction false} ItemsLeftShift(first: seq<Byte>, entries: seq<seq<Byte>>, i: nat, fmt: bool)
    requires i <= |entries|
    ensures ItemsLeft([first] + entries, i + 1, fmt) == ItemsLeft(entries, i, fmt)
    decreases |entries| - i
  {
    var all := [first] + entries;
    if i < |entries| {
      assert all[i + 1] == entries[i];
      ItemsLeftShift(first, entries, i + 1, fmt);
    }
  }

  /** Writing the entries one after the other gives the text of the items. */
  lemma {:induction false} ItemsLeftText(head: Json, tail: Items, depth: nat, fmt: bool)
    ensures ItemsLeft(Texts(Cons(head, tail), depth, fmt), 0, fmt)
      == Text(head, depth, fmt) + ItemsText(tail, depth, fmt)
    decreases tail
  {
    hide Text;
    var h, t := Text(head, depth, fmt), Texts(tail, depth, fmt);
    var all := [h] + t;
    assert Texts(Cons(head, tail), depth, fmt) == all;
    ItemsLeftShift(h, t, 0, fmt);
    if tail.Cons? {
      ItemsLeftText(tail.head, tail.tail, depth, fmt);
      TailText(h, tail, depth, fmt);
    }
  }

  lemma TailText(h: seq<Byte>, tail: Items, depth: nat, fmt: bool)
    requires tail.Cons?
    ensures h + ([COMMA] + When(fmt, [SPACE])) + (Text(tail.head, depth, fmt) + ItemsText(tail.tail, depth, fmt))
      == h + ItemsText(tail, depth, fmt)
  {
    hide Text;
  }

  /** The writing loop of print_array. */
  method ComposeItems(entries: seq<seq<Byte>>, len: nat, fmt: bool) returns (text: seq<Byte>)
    requires len == ItemsRoom(entries, 0, fmt)
    ensures text == [LBRACKET] + ItemsLeft(entries, 0, fmt)
  {
    ItemsRoomEnough(entries, 0, fmt);
    var out := new Byte[len];
    ghost var all := [LBRACKET] + ItemsLeft(entries, 0, fmt);
    var ptr: nat := PutString(out, 0, [LBRACKET]);
    for i := 0 to |entries|
      invariant ptr <= out.Length && all == out[..ptr] + ItemsLeft(entries, i, fmt)
      invariant |all| < out.Length
    {
      ghost var before: seq<Byte> := out[..ptr];
      ghost var e, sep, left := entries[i], Separator(entries, i, fmt), ItemsLeft(entries, i + 1, fmt);
      assert all == before + (e + sep + left);
      hide ItemsLeft;
      ptr := PutString(out, ptr, entries[i]);
      ptr := PutSeparator(out, ptr, entries, i, fmt);
      Associate(before, e, sep, left);
    }
    ptr := Put(out, ptr, [RBRACKET]);
    text := out[..ptr];
    ptr := Put(out, ptr, [0]);
  }

  method PutSeparator(out: array<Byte>, at: nat, entries: seq<seq<Byte>>, i: nat, fmt: bool) returns (ptr: nat)
    requires at + |Separator(entries, i, fmt)| < out.Length
    modifies out
    ensures ptr == at + |Separator(entries, i, fmt)| && out[..ptr] == old(out[..at]) + Separator(entries, i, fmt)
  {
    ptr := at;
    if i != |entries| - 1 && i < |entries| {
      ptr := Put(out, ptr, [COMMA]);
      if fmt {
        ptr := Put(out, ptr, [SPACE]);
      }
      out[ptr] := 0;
    }
  }

  lemma Associate(a: seq<Byte>, b: seq<Byte>, c: seq<Byte>, d: seq<Byte>)
    ensures a + (b + c + d) == a + b + c + d
  {}

  /** Nodes below a value; what the recursion of the printer goes down by. */
  ghost function Size(j: Json): nat
  {
    match j
    case Arr(items) => 1 + ItemsSize(items)
    case Obj(members) => 1 + MembersSize(members)
    case _ => 1
  }

  ghost function ItemsSize(items: Items): nat
  {
    if items.Nil? then 0 else 1 + Size(items.head) + ItemsSize(items.tail)
  }

  ghost function MembersSize(members: Members): nat
  {
    if members.End? then 0 else 1 + Size(members.value) + MembersSize(members.rest)
  }

  /** The first loops of print_array: the texts of the items, and the length to allocate. */
  method CollectItems(items: Items, depth: nat, fmt: bool) returns (entries: seq<seq<Byte>>, len: nat)
    requires PrintableItems(items)
    ensures entries == Texts(items, depth, fmt) && len == ItemsRoom(entries, 0, fmt)
    decreases ItemsSize(items), 0
  {
    var child := items;
    entries, len := [], 5;
    hide Text;
    while child.Cons?
      invariant PrintableItems(child) && ItemsSize(child) <= ItemsSize(items)
      invariant Texts(items, depth, fmt) == entries + Texts(child, depth, fmt)
      invariant len == ItemsRoom(entries, 0, fmt)
      decreases ItemsSize(child)
    {
      var ret := PrintValue(child.head, depth, fmt);
      RoomSnoc(entries, ret, 0, fmt);
      Append2(entries, ret, Texts(child.tail, depth, fmt));
      entries := entries + [ret];
      len := len + |ret| + 2 + if fmt then 1 else 0;
      child := child.tail;
    }
  }

  lemma Append2(a: seq<seq<Byte>>, b: seq<Byte>, c: seq<seq<Byte>>)
    ensures a + ([b] + c) == (a + [b]) + c
  {}

  lemma {:induction false} RoomSnoc(entries: seq<seq<Byte>>, e: seq<Byte>, i: nat, fmt: bool)
    requires i <= |entries|
    ensures ItemsRoom(entries + [e], i, fmt) == ItemsRoom(entries, i, fmt) + |e| + 2 + if fmt then 1 else 0
    decreases |entries| - i
  {
    if i < |entries| { RoomSnoc(entries, e, i + 1, fmt); }
  }

  /** print_array */
  method PrintArray(items: Items, depth: nat, fmt: bool) returns (text: seq<Byte>)
    requires PrintableItems(items)
    ensures text == Text(Arr(items), depth, fmt)
    decreases ItemsSize(items), 1
  {
    if items.Nil? {
      var out := new Byte[3];
      var end := PutString(out, 0, [LBRACKET, RBRACKET]);
      return out[..end];
    }
    hide Texts, ItemsLeft, ItemsRoom, Text, ItemsText;
    var entries, len := CollectItems(items, depth + 1, fmt);
    text := ComposeItems(entries, len, fmt);
    ItemsLeftText(items.head, items.tail, depth + 1, fmt);
    ArrayText(items, depth, fmt);
  }

  lemma ArrayText(items: Items, depth: nat, fmt: bool)
    requires items.Cons?
    ensures Text(Arr(items), depth, fmt)
      == [LBRACKET] + (Text(items.head, depth + 1, fmt) + ItemsText(items.tail, depth + 1, fmt))
  {}

  /** print_value */
  method PrintValue(j: Json, depth: nat, fmt: bool) returns (text: seq<Byte>)
    requires Printable(j)
    ensures text == Text(j, depth, fmt)
    decreases Size(j), 0
  {
    match j
    case Null => text := NULL_TEXT;
    case False => text := FALSE_TEXT;
    case True => text := TRUE_TEXT;
    case Num(n) => text := PrintNumber(n.v);
    case Str(str) => text := PrintString(str);
    case Arr(items) => text := PrintArray(items, depth, fmt);
    case Obj(members) => text := PrintObject(members, depth, fmt);
  }

  /** What print_object still has to write when i members are done; the depth is that of the members. */
  ghost function MembersLeft(names: seq<seq<Byte>>, entries: seq<seq<Byte>>, i: nat, depth: nat,
                             fmt: bool): (r: seq<Byte>)
    requires i <= |entries| == |names|
    ensures |r| > 0
    decreases |entries| - i
  {
    if i == |entries| then When(fmt, Repeat(TAB, depth - 1)) + [RBRACE]
    else Entry(names[i], entries[i], i + 1 < |entries|, depth, fmt) + MembersLeft(names, entries, i + 1, depth, fmt)
  }

  /** One member as print_object writes it. */
  function Entry(name: seq<Byte>, value: seq<Byte>, more: bool, depth: nat, fmt: bool): seq<Byte>
  {
    When(fmt, Repeat(TAB, depth)) + name + [COLON] + When(fmt, [TAB]) + value + When(more, [COMMA])
      + When(fmt, [NEWLINE])
  }

  /** The length that print_object allocates, without its fixed part. */
  ghost function MembersRoom(names: seq<seq<Byte>>, entries: seq<seq<Byte>>, i: nat, depth: nat, fmt: bool): nat
    requires i <= |entries| == |names|
    decreases |entries| - i
  {
    if i == |entries| then 0
    else |entries[i]| + |names[i]| + 2 + (if fmt then 2 + depth else 0) + MembersRoom(names, entries, i + 1, depth, fmt)
  }

  lemma {:induction false} MembersRoomEnough(names: seq<seq<Byte>>, entries: seq<seq<Byte>>, i: nat, depth: nat,
                                             fmt: bool)
    requires i <= |entries| == |names|
    ensures |MembersLeft(names, entries, i, depth, fmt)|
      <= MembersRoom(names, entries, i, depth, fmt) + 1 + if fmt then depth else 0
    decreases |entries| - i
  {
    hide Repeat;
    if i < |entries| { MembersRoomEnough(names, entries, i + 1, depth, fmt); }
  }

  lemma {:induction false} MembersRoomSnoc(names: seq<seq<Byte>>, entries: seq<seq<Byte>>, n: seq<Byte>, e: seq<Byte>,
                                           i: nat, depth: nat, fmt: bool)
    requires i <= |entries| == |names|
    ensures MembersRoom(names + [n], entries + [e], i, depth, fmt) ==
            MembersRoom(names, entries, i, depth, fmt) + |e| + |n| + 2 + if fmt then 2 + depth else 0
    decreases |entries| - i
  {
    if i < |entries| { MembersRoomSnoc(names, entries, n, e, i + 1, depth, fmt); }
  }

  function Names(members: Members): seq<seq<Byte>>
  {
    if members.End? then [] else [Quoted(members.name)] + Names(members.rest)
  }

  function ValueTexts(members: Members, depth: nat, fmt: bool): (r: seq<seq<Byte>>)
    ensures |r| == |Names(members)|
  {
    if members.End? then [] else [Text(members.value, depth, fmt)] + ValueTexts(members.rest, depth, fmt)
  }

  lemma {:induction false} MembersLeftShift(n: seq<Byte>, names: seq<seq<Byte>>, e: seq<Byte>, entries: seq<seq<Byte>>,
                                            i: nat, depth: nat, fmt: bool)
    requires i <= |entries| == |names|
    ensures MembersLeft([n] + names, [e] + entries, i + 1, depth, fmt) == MembersLeft(names, entries, i, depth, fmt)
    decreases |entries| - i
  {
    hide Entry, Repeat;
    var all, values := [n] + names, [e] + entries;
    if i < |entries| {
      assert all[i + 1] == names[i] && values[i + 1] == entries[i];
      MembersLeftShift(n, names, e, entries, i + 1, depth, fmt);
    }
  }

  /** Writing the members one after the other gives the text of the object. */
  lemma {:induction false} MembersLeftText(members: Members, depth: nat, fmt: bool)
    requires members.Member?
    ensures MembersLeft(Names(members), ValueTexts(members, depth, fmt), 0, depth, fmt) ==
            MemberText(members.name, Text(members.value, depth, fmt), depth, fmt)
              + MembersText(members.rest, depth, fmt)
    decreases members
  {
    hide Text, Quoted, Repeat;
    var n, names := Quoted(members.name), Names(members.rest);
    var v, values := Text(members.value, depth, fmt), ValueTexts(members.rest, depth, fmt);
    assert Names(members) == [n] + names && ValueTexts(members, depth, fmt) == [v] + values;
    MembersLeftShift(n, names, v, values, 0, depth, fmt);
    var left := MembersLeft(names, values, 0, depth, fmt);
    var rest := members.rest;
    assert MembersLeft([n] + names, [v] + values, 0, depth, fmt) == Entry(n, v, rest.Member?, depth, fmt) + left by {
      hide Entry;
      FirstLeft(n, names, v, values, depth, fmt);
    }
    if rest.Member? {
      MembersLeftText(rest, depth, fmt);
    }
    EntryThen(members.name, v, rest, depth, fmt, left);
  }

  lemma FirstLeft(n: seq<Byte>, names: seq<seq<Byte>>, v: seq<Byte>, values: seq<seq<Byte>>, depth: nat, fmt: bool)
    requires |names| == |values|
    ensures MembersLeft([n] + names, [v] + values, 0, depth, fmt) ==
            Entry(n, v, values != [], depth, fmt) + MembersLeft([n] + names, [v] + values, 1, depth, fmt)
  {
    hide Entry;
  }

  lemma EntryThen(name: seq<Byte>, v: seq<Byte>, rest: Members, depth: nat, fmt: bool, left: seq<Byte>)
    requires left == if rest.End? then When(fmt, Repeat(TAB, depth - 1)) + [RBRACE]
                     else
                       MemberText(rest.name, Text(rest.value, depth, fmt), depth, fmt)
                       + MembersText(rest.rest, depth, fmt)
    ensures Entry(Quoted(name), v, rest.Member?, depth, fmt) + left
      == MemberText(name, v, depth, fmt) + MembersText(rest, depth, fmt)
  {
    hide Text, Quoted, Repeat;
    var m := MemberText(name, v, depth, fmt);
    var c, nl := When(rest.Member?, [COMMA]), When(fmt, [NEWLINE]);
    assert Entry(Quoted(name), v, rest.Member?, depth, fmt) == m + c + nl;
    if rest.End? {
      assert c == [];
      assert MembersText(rest, depth, fmt) == nl + left;
      Regroup(m, c, nl, left);
    } else {
      assert MembersText(rest, depth, fmt)
        == [COMMA] + nl + MemberText(rest.name, Text(rest.value, depth, fmt), depth, fmt)
          + MembersText(rest.rest, depth, fmt);
      Regroup(m, c, nl, left);
      Append([COMMA] + nl, MemberText(rest.name, Text(rest.value, depth, fmt), depth, fmt),
        MembersText(rest.rest, depth, fmt));
    }
  }

  lemma Regroup(m: seq<Byte>, c: seq<Byte>, nl: seq<Byte>, left: seq<Byte>)
    ensures (m + c + nl) + left == m + ((c + nl) + left)
    ensures c == [] ==> c + nl == nl
  {}

  /** One pass of the writing loop of print_object. */
  method PutEntry(out: array<Byte>, at: nat, name: seq<Byte>, value: seq<Byte>, more: bool, depth: nat, fmt: bool)
    returns (ptr: nat)
    requires at + |Entry(name, value, more, depth, fmt)| < out.Length
    modifies out
    ensures ptr == at + |Entry(name, value, more, depth, fmt)|
    ensures out[..ptr] == old(out[..at]) + Entry(name, value, more, depth, fmt)
  {
    ghost var was: seq<Byte> := out[..at];
    ghost var tabs, tab, comma, nl := When(fmt, Repeat(TAB, depth)), When(fmt, [TAB]), When(more, [COMMA]),
      When(fmt, [NEWLINE]);
    hide Repeat;
    ptr := at;
    if fmt {
      ptr := PutTabs(out, ptr, depth);
    }
    ptr := PutString(out, ptr, name);
    ptr := Put(out, ptr, [COLON]);
    if fmt {
      ptr := Put(out, ptr, [TAB]);
    }
    assert out[..ptr] == was + tabs + name + [COLON] + tab;
    ptr := PutString(out, ptr, value);
    if more {
      ptr := Put(out, ptr, [COMMA]);
    }
    if fmt {
      ptr := Put(out, ptr, [NEWLINE]);
    }
    out[ptr] := 0;
    assert out[..ptr] == was + tabs + name + [COLON] + tab + value + comma + nl;
    AllTogether(was, tabs, name, [COLON], tab, value, comma, nl);
  }

  lemma AllTogether(w: seq<Byte>, a: seq<Byte>, b: seq<Byte>, c: seq<Byte>, d: seq<Byte>, e: seq<Byte>, f: seq<Byte>,
                    g: seq<Byte>)
    ensures w + a + b + c + d + e + f + g == w + (a + b + c + d + e + f + g)
  {}

  /** The writing loop of print_object. */
  method ComposeMembers(names: seq<seq<Byte>>, entries: seq<seq<Byte>>, len: nat, depth: nat, fmt: bool)
    returns (text: seq<Byte>)
    requires |names| == |entries| && depth > 0
    requires len == 7 + (if fmt then depth else 0) + MembersRoom(names, entries, 0, depth, fmt)
    ensures text == [LBRACE] + When(fmt, [NEWLINE]) + MembersLeft(names, entries, 0, depth, fmt)
  {
    MembersRoomEnough(names, entries, 0, depth, fmt);
    hide MembersLeft, MembersRoom, Repeat;
    var out := new Byte[len];
    var ptr: nat := Put(out, 0, [LBRACE]);
    if fmt {
      ptr := Put(out, ptr, [NEWLINE]);
    }
    out[ptr] := 0;
    ptr := PutMembers(out, ptr, names, entries, depth, fmt);
    text := out[..ptr];
    ptr := Put(out, ptr, [0]);
  }

  /** Its loop, and the end of the object. */
  method PutMembers(out: array<Byte>, at: nat, names: seq<seq<Byte>>, entries: seq<seq<Byte>>, depth: nat, fmt: bool)
    returns (ptr: nat)
    requires |names| == |entries| && depth > 0 && at + |MembersLeft(names, entries, 0, depth, fmt)| < out.Length
    modifies out
    ensures ptr == at + |MembersLeft(names, entries, 0, depth, fmt)|
    ensures out[..ptr] == old(out[..at]) + MembersLeft(names, entries, 0, depth, fmt)
  {
    ptr := at;
    ghost var all := out[..at] + MembersLeft(names, entries, 0, depth, fmt);
    hide Entry, Repeat, MembersLeft;
    for i := 0 to |entries|
      invariant ptr <= out.Length && all == out[..ptr] + MembersLeft(names, entries, i, depth, fmt)
    {
      ghost var before: seq<Byte> := out[..ptr];
      ghost var e, left := Entry(names[i], entries[i], i + 1 < |entries|, depth, fmt),
        MembersLeft(names, entries, i + 1, depth, fmt);
      LeftNow(names, entries, i, depth, fmt);
      ptr := PutEntry(out, ptr, names[i], entries[i], i != |entries| - 1, depth, fmt);
      Append(before, e, left);
    }
    LeftNow(names, entries, |entries|, depth, fmt);
    ghost var before: seq<Byte> := out[..ptr];
    if fmt {
      ptr := PutTabs(out, ptr, depth - 1);
    }
    ptr := Put(out, ptr, [RBRACE]);
    Append(before, When(fmt, Repeat(TAB, depth - 1)), [RBRACE]);
  }

  lemma LeftNow(names: seq<seq<Byte>>, entries: seq<seq<Byte>>, i: nat, depth: nat, fmt: bool)
    requires i <= |entries| == |names|
    ensures MembersLeft(names, entries, i, depth, fmt) ==
      if i == |entries| then When(fmt, Repeat(TAB, depth - 1)) + [RBRACE]
      else Entry(names[i], entries[i], i + 1 < |entries|, depth, fmt) + MembersLeft(names, entries, i + 1, depth, fmt)
  {}

  /** The first loops of print_object: names, values and the length to allocate. */
  method CollectMembers(members: Members, depth: nat, fmt: bool)
    returns (names: seq<seq<Byte>>, entries: seq<seq<Byte>>, len: nat)
    requires PrintableMembers(members)
    ensures names == Names(members) && entries == ValueTexts(members, depth, fmt)
    ensures len == 7 + (if fmt then depth else 0) + MembersRoom(names, entries, 0, depth, fmt)
    decreases MembersSize(members), 0
  {
    var child := members;
    names, entries, len := [], [], 7;
    if fmt {
      len := len + depth;
    }
    hide Text, Quoted;
    while child.Member?
      invariant PrintableMembers(child) && MembersSize(child) <= MembersSize(members) && |names| == |entries|
      invariant Names(members) == names + Names(child)
      invariant ValueTexts(members, depth, fmt) == entries + ValueTexts(child, depth, fmt)
      invariant len == 7 + (if fmt then depth else 0) + MembersRoom(names, entries, 0, depth, fmt)
      decreases MembersSize(child)
    {
      var str := PrintString(child.name);
      var ret := PrintValue(child.value, depth, fmt);
      MembersRoomSnoc(names, entries, str, ret, 0, depth, fmt);
      Append2(names, str, Names(child.rest));
      Append2(entries, ret, ValueTexts(child.rest, depth, fmt));
      names, entries := names + [str], entries + [ret];
      len := len + |ret| + |str| + 2 + if fmt then 2 + depth else 0;
      child := child.rest;
    }
  }

  method PrintEmptyObject(depth: nat, fmt: bool) returns (text: seq<Byte>)
    ensures text == Text(Obj(End), depth, fmt)
  {
    var out := new Byte[if fmt then depth + 4 else 3];
    var ptr: nat := Put(out, 0, [LBRACE]);
    if fmt {
      ptr := Put(out, ptr, [NEWLINE]);
      ptr := PutTabs(out, ptr, depth - 1);
    }
    ptr := Put(out, ptr, [RBRACE]);
    text := out[..ptr];
    ptr := Put(out, ptr, [0]);
  }

  /** print_object */
  method PrintObject(members: Members, depth: nat, fmt: bool) returns (text: seq<Byte>)
    requires PrintableMembers(members)
    ensures text == Text(Obj(members), depth, fmt)
    decreases MembersSize(members), 1
  {
    if members.End? {
      text := PrintEmptyObject(depth, fmt);
      return;
    }
    var names, entries, len := CollectMembers(members, depth + 1, fmt);
    text := ComposeMembers(names, entries, len, depth + 1, fmt);
    MembersLeftText(members, depth + 1, fmt);
    hide MembersLeft, MembersRoom, MemberText;
    ObjectText(members, depth, fmt);
  }

  lemma ObjectText(members: Members, depth: nat, fmt: bool)
    requires members.Member?
    ensures Text(Obj(members), depth, fmt) == [LBRACE] + When(fmt, [NEWLINE]) +
      (MemberText(members.name, Text(members.value, depth + 1, fmt), depth + 1, fmt)
        + MembersText(members.rest, depth + 1, fmt))
  {
    hide MemberText;
    Append([LBRACE] + When(fmt, [NEWLINE]),
      MemberText(members.name, Text(members.value, depth + 1, fmt), depth + 1, fmt),
        MembersText(members.rest, depth + 1, fmt));
  }
}
