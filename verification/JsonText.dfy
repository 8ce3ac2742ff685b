/** JSON values of cJSON.c and the text that prints them. */
module JsonText {
  import opened Words
  import opened Doubles
  import opened JsonNumbers

  datatype Json = Null | False | True | Num(n: Number) | Str(s: seq<Byte>) | Arr(items: Items) | Obj(members: Members)
  datatype Items = Nil | Cons(head: Json, tail: Items)
  datatype Members = End | Member(name: seq<Byte>, value: Json, rest: Members)

  const QUOTE: Byte := 34
  const COMMA: Byte := 44
  const COLON: Byte := 58
  const LBRACKET: Byte := 91
  const BACKSLASH: Byte := 92
  const RBRACKET: Byte := 93
  const LOWER_U: Byte := 117
  const LBRACE: Byte := 123
  const RBRACE: Byte := 125
  const TAB: Byte := 9
  const NEWLINE: Byte := 10
  const SPACE: Byte := 32

  const NULL_TEXT: seq<Byte> := [110, 117, 108, 108]
  const TRUE_TEXT: seq<Byte> := [116, 114, 117, 101]
  const FALSE_TEXT: seq<Byte> := [102, 97, 108, 115, 101]

  /** A C string has no zero byte inside. */
  ghost predicate CString(s: seq<Byte>)
  {
    forall i :: 0 <= i < |s| ==> s[i] != 0
  }

  /** What print_value takes: finite doubles, and strings and names without zero bytes. */
  ghost predicate Printable(j: Json)
  {
    match j
    case Num(n) => n.Finite? && Double(n.v)
    case Str(s) => CString(s)
    case Arr(items) => PrintableItems(items)
    case Obj(members) => PrintableMembers(members)
    case _ => true
  }

  ghost predicate PrintableItems(items: Items)
  {
    items.Cons? ==> Printable(items.head) && PrintableItems(items.tail)
  }

  ghost predicate PrintableMembers(members: Members)
  {
    members.Member? ==> CString(members.name) && Printable(members.value) && PrintableMembers(members.rest)
  }

  function Hex(d: nat): Byte
    requires d < 16
  {
    if d < 10 then 48 + d else 87 + d
  }

  /** The letter after the backslash for a byte with a short escape, or 0. */
  function ShortEscape(c: Byte): Byte
  {
    if c == BACKSLASH then BACKSLASH else if c == QUOTE then QUOTE else if c == 8 then 98 else if c == 12 then 102
    else if c == 10 then 110 else if c == 13 then 114 else if c == 9 then 116 else 0
  }

  /** A byte of a string as it is printed. */
  function Escape(c: Byte): (r: seq<Byte>)
    ensures 1 <= |r| <= 6
  {
    if c > 31 && c != QUOTE && c != BACKSLASH then [c]
    else if ShortEscape(c) != 0 then [BACKSLASH, ShortEscape(c)]
    else [BACKSLASH, LOWER_U, 48, 48, Hex(c as int / 16), Hex(c as int % 16)]
  }

  function Escaped(s: seq<Byte>): seq<Byte>
  {
    if s == [] then [] else Escape(s[0]) + Escaped(s[1..])
  }

  function Quoted(s: seq<Byte>): seq<Byte>
  {
    [QUOTE] + Escaped(s) + [QUOTE]
  }

  function Repeat(c: Byte, n: int): (r: seq<Byte>)
    ensures |r| == if n < 0 then 0 else n
  {
    if n <= 0 then [] else [c] + Repeat(c, n - 1)
  }

  function When(fmt: bool, s: seq<Byte>): seq<Byte>
  {
    if fmt then s else []
  }

  /** The printed text of a value at a nesting depth, formatted or not. */
  function Text(j: Json, depth: nat, fmt: bool): seq<Byte>
  {
    match j
    case Null => NULL_TEXT
    case False => FALSE_TEXT
    case True => TRUE_TEXT
    case Num(n) => if n.Finite? then NumberText(n.v) else []
    case Str(s) => Quoted(s)
    case Arr(Nil) => [LBRACKET, RBRACKET]
    case Arr(Cons(head, tail)) => [LBRACKET] + Text(head, depth + 1, fmt) + ItemsText(tail, depth + 1, fmt)
    case Obj(End) => [LBRACE] + When(fmt, [NEWLINE] + Repeat(TAB, depth - 1)) + [RBRACE]
    case Obj(Member(name, value, rest)) =>
      [LBRACE] + When(fmt, [NEWLINE]) + MemberText(name, Text(value, depth + 1, fmt), depth + 1, fmt)
        + MembersText(rest, depth + 1, fmt)
  }

  /** What follows the first item of an array. */
  function ItemsText(items: Items, depth: nat, fmt: bool): seq<Byte>
  {
    match items
    case Nil => [RBRACKET]
    case Cons(head, tail) => [COMMA] + When(fmt, [SPACE]) + Text(head, depth, fmt) + ItemsText(tail, depth, fmt)
  }

  /** A name, and a value that has been printed. */
  function MemberText(name: seq<Byte>, value: seq<Byte>, depth: nat, fmt: bool): seq<Byte>
  {
    When(fmt, Repeat(TAB, depth)) + Quoted(name) + [COLON] + When(fmt, [TAB]) + value
  }

  /** What follows the first member of an object. */
  function MembersText(members: Members, depth: nat, fmt: bool): seq<Byte>
  {
    match members
    case End => When(fmt, [NEWLINE] + Repeat(TAB, depth - 1)) + [RBRACE]
    case Member(name, value, rest) =>
      [COMMA] + When(fmt, [NEWLINE]) + MemberText(name, Text(value, depth, fmt), depth, fmt)
        + MembersText(rest, depth, fmt)
  }

  function Tabs(n: nat): (r: seq<Byte>)
    ensures |r| == n && forall i :: 0 <= i < n ==> r[i] == 0x09
  {
    seq(n, _ => 0x09)
  }

  lemma {:induction false} RepeatTabs(n: nat)
    ensures Repeat(TAB, n) == Tabs(n)
  {
    if n > 0 { RepeatTabs(n - 1); }
  }

  /** The literals, and the empty array, byte by byte. */
  lemma LiteralsShown(depth: nat, fmt: bool)
    ensures Text(Null, depth, fmt) == [0x6e, 0x75, 0x6c, 0x6c]
    ensures Text(True, depth, fmt) == [0x74, 0x72, 0x75, 0x65]
    ensures Text(False, depth, fmt) == [0x66, 0x61, 0x6c, 0x73, 0x65]
    ensures Text(Arr(Nil), depth, fmt) == [0x5b, 0x5d]
  {}

  /** Arrays, item by item: a comma between them, and a space behind it when the text is formatted. */
  lemma ArraysShown(head: Json, tail: Items, depth: nat)
    ensures Text(Arr(Cons(head, tail)), depth, false) ==
      [0x5b] + Text(head, depth + 1, false) + ItemsText(tail, depth + 1, false)
    ensures Text(Arr(Cons(head, tail)), depth, true) ==
      [0x5b] + Text(head, depth + 1, true) + ItemsText(tail, depth + 1, true)
    ensures ItemsText(Nil, depth, false) == [0x5d] && ItemsText(Nil, depth, true) == [0x5d]
    ensures ItemsText(Cons(head, tail), depth, false) == [0x2c] + Text(head, depth, false)
      + ItemsText(tail, depth, false)
    ensures ItemsText(Cons(head, tail), depth, true) == [0x2c, 0x20] + Text(head, depth, true)
      + ItemsText(tail, depth, true)
  {
    assert [COMMA] + When(true, [SPACE]) == [0x2c, 0x20] && [COMMA] + When(false, [SPACE]) == [0x2c];
  }

  /** Objects, member by member: when the text is formatted each stands on a line of its own, behind as many tabs as it
      is
      deep, with a tab in front of its value. */
  lemma ObjectsShown(name: seq<Byte>, value: Json, rest: Members, depth: nat)
    ensures Text(Obj(End), depth, false) == [0x7b, 0x7d]
    ensures Text(Obj(End), depth, true) == [0x7b, 0x0a] + Tabs(if depth == 0 then 0 else depth - 1) + [0x7d]
    ensures Text(Obj(Member(name, value, rest)), depth, false) ==
      [0x7b] + MemberText(name, Text(value, depth + 1, false), depth + 1, false) + MembersText(rest, depth + 1, false)
    ensures Text(Obj(Member(name, value, rest)), depth, true) ==
      [0x7b, 0x0a] + MemberText(name, Text(value, depth + 1, true), depth + 1, true)
        + MembersText(rest, depth + 1, true)
    ensures MembersText(End, depth + 1, false) == [0x7d]
    ensures MembersText(End, depth + 1, true) == [0x0a] + Tabs(depth) + [0x7d]
    ensures MembersText(Member(name, value, rest), depth, false) ==
      [0x2c] + MemberText(name, Text(value, depth, false), depth, false) + MembersText(rest, depth, false)
    ensures MembersText(Member(name, value, rest), depth, true) ==
      [0x2c, 0x0a] + MemberText(name, Text(value, depth, true), depth, true) + MembersText(rest, depth, true)
  {
    RepeatTabs(depth);
    if depth > 0 { RepeatTabs(depth - 1); }
    hide MemberText;
    assert [LBRACE] + When(true, [NEWLINE]) == [0x7b, 0x0a] && [LBRACE] + When(false, [NEWLINE]) == [0x7b];
    assert [COMMA] + When(true, [NEWLINE]) == [0x2c, 0x0a] && [COMMA] + When(false, [NEWLINE]) == [0x2c];
  }

  lemma MembersShown(name: seq<Byte>, value: seq<Byte>, depth: nat)
    ensures MemberText(name, value, depth, false) == [0x22] + Escaped(name) + [0x22, 0x3a] + value
    ensures MemberText(name, value, depth, true) == Tabs(depth) + [0x22] + Escaped(name) + [0x22, 0x3a, 0x09] + value
  {
    RepeatTabs(depth);
  }
}
