/** Reading back what was written, and finding the end of a structure, on streams of whole items. */
module ProtoRoundTrip {
  import opened Words
  import opened Slices
  import opened ByteStrings
  import opened NetBytes
  import opened ProtoWrite
  import opened ProtoRead

  predicate IsValue(i: Item)
  {
    i.Val? || i.Forced16? || i.Forced32?
  }

  /** What an item is read back as. */
  function ValueOf(i: Item): Value
    requires IsValue(i)
  {
    match i
    case Val(v) => v
    case Forced16(n) => U16(n)
    case Forced32(n) => U32(n)
  }

  /** The typed read that fits an item, with room enough for a string. */
  predicate Fits(k: Kind, i: Item)
  {
    match i
    case Val(U8(_)) => k == Want8
    case Val(U16(_)) => k == Want16
    case Val(U32(_)) => k == Want32
    case Val(U64(_)) => k == Want64
    case Val(Text(s)) => k.WantText? && k.room > |s|
    case Val(Bin(s)) => k.WantBin? && k.room >= |s|
    case Forced16(_) => k == Want16
    case Forced32(_) => k == Want32
    case _ => false
  }

  lemma ScanMarker(data: seq<Byte>, at: nat, skip: bool, skipAll: bool, kind: nat, size: nat)
    requires kind <= 10 && size < 16 && at < |data| && data[at] == MarkerByte(kind, size)
    ensures Scan(data, at, skip, skipAll) == Marker(kind, size, at + 1, skip)
  {}

  /** A read whose marker is at hand. */
  lemma ReadAtMarker(data: seq<Byte>, r: Reader, skipAll: bool, k: Kind, size: nat, s: seq<Byte>)
    requires size < 16 && s != [] && s[0] == MarkerByte(MarkerOf(k), size) && Has(data, r.at, s)
    ensures r.at + 1 <= |data| && Has(data, r.at + 1, s[1..])
    ensures var p := Payload(data, r.at + 1, k, size); ReadOne(data, r, skipAll, k) == (p.0, Reader(p.1, false, r.skip))
  {
    HasFirst(data, r.at, s);
    ScanMarker(data, r.at, r.skip, skipAll, MarkerOf(k), size);
    hide Scan, Payload, MarkerByte, Has;
  }

  lemma IntPayloadBack(data: seq<Byte>, at: nat, k: Kind, n: nat, w: nat)
    requires !k.WantText? && !k.WantBin? && w in {0, 1, 2, 4, 8} && w <= Sizes(k) && n < ByteWeight(w)
    requires Has(data, at, BigBytes(n, w))
    ensures Payload(data, at, k, w) == (Got(IntValue(k, n)), at + w)
  {
    ByteWeights();
    BigRoundTrip(n, w);
    hide BigBytes, BigEndian, ByteWeight;
  }

  /** An integer is read back from its bytes. */
  lemma IntReadsBack(data: seq<Byte>, at: nat, k: Kind, n: nat, w: nat, r: Reader, skipAll: bool)
    requires !k.WantText? && !k.WantBin? && w in {0, 1, 2, 4, 8} && w <= Sizes(k) && n < ByteWeight(w) && r.at == at
    requires Has(data, at, IntBytes(MarkerOf(k), n, w))
    ensures ReadOne(data, r, skipAll, k) == (Got(IntValue(k, n)), Reader(at + 1 + w, false, r.skip))
  {
    var s := IntBytes(MarkerOf(k), n, w);
    assert s[0] == MarkerByte(MarkerOf(k), w) && s[1..] == BigBytes(n, w);
    ReadAtMarker(data, r, skipAll, k, w, s);
    hide ReadOne, Payload, BigBytes, MarkerByte, ByteWeight, Has;
    IntPayloadBack(data, at + 1, k, n, w);
  }

  /** Where the parts of a string lie. */
  lemma StringParts(data: seq<Byte>, at: nat, s: seq<Byte>, tail: seq<Byte>)
    requires |s| < 0x1_0000 && Has(data, at, BigBytes(|s|, 2) + (s + tail))
    ensures at + 2 + |s| + |tail| <= |data| && BigEndian(data[at..at + 2]) == |s| && data[at + 2..at + 2 + |s|] == s
    ensures tail != [] ==> data[at + 2 + |s|] == tail[0]
  {
    hide BigBytes, BigEndian, ByteWeight, Has;
    HasSplit(data, at, BigBytes(|s|, 2), s + tail);
    HasSplit(data, at + 2, s, tail);
    HasSlice(data, at, BigBytes(|s|, 2));
    HasSlice(data, at + 2, s);
    HasSlice(data, at + 2 + |s|, tail);
    if tail != [] { HasFirst(data, at + 2 + |s|, tail); }
    ByteWeights();
    BigRoundTrip(|s|, 2);
  }

  lemma TextPayloadIs(data: seq<Byte>, at: nat, room: nat, n: nat)
    requires at + 2 <= |data| && BigEndian(data[at..at + 2]) == n && 0 < n < room && at + 2 + n < |data|
    requires data[at + 2 + n] == 0x7f
    ensures Payload(data, at, WantText(room), 1) == (Got(Text(data[at + 2..at + 2 + n])), at + 3 + n)
  {
    hide BigEndian;
  }

  lemma BinPayloadIs(data: seq<Byte>, at: nat, room: nat, n: nat)
    requires at + 2 <= |data| && BigEndian(data[at..at + 2]) == n && 0 < n <= room && at + 2 + n <= |data|
    ensures Payload(data, at, WantBin(room), 1) == (Got(Bin(data[at + 2..at + 2 + n])), at + 2 + n)
  {
    hide BigEndian;
  }

  lemma TextPayloadBack(data: seq<Byte>, at: nat, room: nat, s: seq<Byte>, tail: seq<Byte>)
    requires room > |s| && tail == [0x7f] && 0 < |s| < 0x1_0000 && Has(data, at, BigBytes(|s|, 2) + (s + tail))
    ensures Payload(data, at, WantText(room), 1) == (Got(Text(s)), at + 3 + |s|)
  {
    hide *;
    StringParts(data, at, s, tail);
    TextPayloadIs(data, at, room, |s|);
  }

  lemma BinPayloadBack(data: seq<Byte>, at: nat, room: nat, s: seq<Byte>, tail: seq<Byte>)
    requires room >= |s| && tail == [] && 0 < |s| < 0x1_0000 && Has(data, at, BigBytes(|s|, 2) + (s + tail))
    ensures Payload(data, at, WantBin(room), 1) == (Got(Bin(s)), at + 2 + |s|)
  {
    hide *;
    StringParts(data, at, s, tail);
    BinPayloadIs(data, at, room, |s|);
  }

  /** A string is read back from its bytes. */
  lemma StringReadsBack(data: seq<Byte>, at: nat, k: Kind, s: seq<Byte>, r: Reader, skipAll: bool)
    requires (k.WantText? && k.room > |s|) || (k.WantBin? && k.room >= |s|)
    requires 0 < |s| < 0x1_0000 && r.at == at
    requires Has(data, at, ValueBytes(if k.WantText? then Text(s) else Bin(s)))
    ensures var v := if k.WantText? then Text(s) else Bin(s);
      ReadOne(data, r, skipAll, k) == (Got(v), Reader(at + |ValueBytes(v)|, false, r.skip))
  {
    var v := if k.WantText? then Text(s) else Bin(s);
    var tail: seq<Byte> := if k.WantText? then [0x7f] else [];
    StringBytes(k, s, tail);
    var all := ValueBytes(v);
    ReadAtMarker(data, r, skipAll, k, 1, all);
    hide ReadOne, Payload, BigBytes, MarkerByte, Has, ValueBytes;
    if k.WantText? {
      TextPayloadBack(data, at + 1, k.room, s, tail);
    } else {
      BinPayloadBack(data, at + 1, k.room, s, tail);
    }
  }

  lemma StringBytes(k: Kind, s: seq<Byte>, tail: seq<Byte>)
    requires (k.WantText? && tail == [0x7f]) || (k.WantBin? && tail == [])
    requires s != []
    ensures var all := ValueBytes(if k.WantText? then Text(s) else Bin(s));
      all[0] == MarkerByte(MarkerOf(k), 1) && all[1..] == BigBytes(|s|, 2) + (s + tail) && |all| == 3 + |s| + |tail|
  {
    hide BigBytes, MarkerByte;
    var all := ValueBytes(if k.WantText? then Text(s) else Bin(s));
    assert all == [MarkerByte(MarkerOf(k), 1)] + (BigBytes(|s|, 2) + (s + tail));
  }

  lemma WidthFits(n: nat)
    ensures Width(n) in {0, 1, 2, 4, 8} && (n < 0x1_0000_0000_0000_0000 ==> n < ByteWeight(Width(n)))
    ensures (n < 0x100 ==> Width(n) <= 1) && (n < 0x1_0000 ==> Width(n) <= 2) && (n < 0x1_0000_0000 ==> Width(n) <= 4)
  {
    ByteWeights();
  }

  /** Every good item that is a value is read back by the read that fits it, in any skip mode. */
  lemma ItemReadsBack(data: seq<Byte>, r: Reader, skipAll: bool, i: Item, k: Kind)
    requires Has(data, r.at, ItemBytes(i)) && GoodItem(i) && Fits(k, i)
    ensures ReadOne(data, r, skipAll, k) == (Got(ValueOf(i)), Reader(r.at + |ItemBytes(i)|, false, r.skip))
  {
    hide ReadOne, BigBytes;
    match i
    case Val(Text(s)) => StringReadsBack(data, r.at, k, s, r, skipAll);
    case Val(Bin(s)) => StringReadsBack(data, r.at, k, s, r, skipAll);
    case _ => NumberReadsBack(data, r, skipAll, i, k);
  }

  lemma NumberReadsBack(data: seq<Byte>, r: Reader, skipAll: bool, i: Item, k: Kind)
    requires Has(data, r.at, ItemBytes(i)) && GoodItem(i) && Fits(k, i) && !k.WantText? && !k.WantBin?
    ensures ReadOne(data, r, skipAll, k) == (Got(ValueOf(i)), Reader(r.at + |ItemBytes(i)|, false, r.skip))
  {
    hide ReadOne, BigBytes;
    match i
    case Val(v) => WidthFits(v.n); IntReadsBack(data, r.at, k, v.n, Width(v.n), r, skipAll);
    case Forced16(n) => ByteWeights(); IntReadsBack(data, r.at, k, n, 2, r, skipAll);
    case Forced32(n) => ByteWeights(); IntReadsBack(data, r.at, k, n, 4, r, skipAll);
  }

  /** A struct-end mark makes no difference to a read that skips marks. */
  lemma MarkSkipped(data: seq<Byte>, r: Reader, k: Kind)
    requires r.at < |data| && data[r.at] == STRUCT_END_MARK
    ensures ReadOne(data, r, true, k) == ReadOne(data, r.(at := r.at + 1), true, k)
  {}

  /** Reads that fit, one for every value among the items. */
  predicate FitAll(kinds: seq<Kind>, items: seq<Item>)
    decreases |items|
  {
    if items == [] then kinds == []
    else if items[0].StructEnd? then FitAll(kinds, items[1..])
    else kinds != [] && Fits(kinds[0], items[0]) && FitAll(kinds[1..], items[1..])
  }

  ghost function ValuesOf(items: seq<Item>): seq<Got>
  {
    if items == [] then []
    else if !IsValue(items[0]) then ValuesOf(items[1..])
    else [Got(ValueOf(items[0]))] + ValuesOf(items[1..])
  }

  /** The bytes up to the last value; what comes after is struct-end marks. */
  ghost function UpToLastValue(items: seq<Item>): nat
  {
    if items == [] then 0
    else if ValuesOf(items) == [] then 0
    else |ItemBytes(items[0])| + UpToLastValue(items[1..])
  }

  ghost predicate GoodItems(items: seq<Item>)
  {
    forall i :: 0 <= i < |items| ==> GoodItem(items[i])
  }

  /** A run of reads. */
  ghost function ReadRun(data: seq<Byte>, r: Reader, skipAll: bool, kinds: seq<Kind>): (res: (seq<Got>, Reader))
    requires r.at <= |data|
    ensures res.1.at <= |data|
    decreases |kinds|
  {
    if kinds == [] then ([], r)
    else
      var one := ReadOne(data, r, skipAll, kinds[0]);
      var rest := ReadRun(data, one.1, skipAll, kinds[1..]);
      ([one.0] + rest.0, rest.1)
  }

  /** The round trip: in skip-marker mode the fitting reads give back exactly the values that were written,
      wherever struct-end marks stand between them, and leave nothing unread but marks after the last one. */
  lemma {:induction false} StreamReadsBack(data: seq<Byte>, r: Reader, items: seq<Item>, kinds: seq<Kind>)
    requires Has(data, r.at, StreamBytes(items)) && GoodItems(items) && FitAll(kinds, items)
    ensures var res := ReadRun(data, r, true, kinds);
      res.0 == ValuesOf(items) && res.1.at == r.at + UpToLastValue(items) && res.1.skip == r.skip
    decreases |items|
  {
    hide ReadOne, ItemBytes;
    if items == [] {
      return;
    }
    var i, rest, n := items[0], items[1..], |ItemBytes(items[0])|;
    HasSplit(data, r.at, ItemBytes(i), StreamBytes(rest));
    if i.StructEnd? {
      MarkBytes(i);
      assert data[r.at] == STRUCT_END_MARK by { HasFirst(data, r.at, ItemBytes(i)); }
      StreamReadsBack(data, r.(at := r.at + 1), rest, kinds);
      if kinds == [] {
        NoValues(kinds, rest);
      } else {
        MarkSkipped(data, r, kinds[0]);
        SomeValues(kinds, rest);
      }
    } else {
      ItemReadsBack(data, r, true, i, kinds[0]);
      StreamReadsBack(data, Reader(r.at + n, false, r.skip), rest, kinds[1..]);
    }
  }

  lemma MarkBytes(i: Item)
    requires i.StructEnd?
    ensures ItemBytes(i) == [STRUCT_END_MARK]
  {}

  lemma {:induction false} NoValues(kinds: seq<Kind>, items: seq<Item>)
    requires FitAll(kinds, items) && kinds == []
    ensures ValuesOf(items) == []
    decreases |items|
  {
    if items != [] { NoValues(kinds, items[1..]); }
  }

  lemma {:induction false} SomeValues(kinds: seq<Kind>, items: seq<Item>)
    requires FitAll(kinds, items) && kinds != []
    ensures ValuesOf(items) != []
    decreases |items|
  {
    if items != [] && items[0].StructEnd? { SomeValues(kinds, items[1..]); }
  }

  /** When the last item is a value, every byte is read. */
  lemma {:induction false} AllRead(items: seq<Item>)
    requires items == [] || IsValue(items[|items| - 1])
    ensures UpToLastValue(items) == |StreamBytes(items)| && (items != [] ==> ValuesOf(items) != [])
    decreases |items|
  {
    if items != [] { AllRead(items[1..]); }
  }

  /** An item whose marker and length field tell the truth. */
  predicate Plain(i: Item)
  {
    match i
    case Val(Text(s)) => |s| < 0x1_0000
    case Val(Bin(s)) => |s| < 0x1_0000
    case Foreign(t, payload) => if t.Ip6? then |payload| == 16 else |payload| < 16
    case _ => true
  }

  /** The rest of the data is the bytes of these items. */
  ghost predicate Rest(data: seq<Byte>, at: nat, items: seq<Item>)
  {
    Has(data, at, StreamBytes(items)) && at + |StreamBytes(items)| == |data| && AllPlain(items)
  }

  ghost predicate AllPlain(items: seq<Item>)
  {
    items != [] ==> Plain(items[0]) && AllPlain(items[1..])
  }

  ghost predicate HasMark(items: seq<Item>)
  {
    items != [] && (items[0].StructEnd? || HasMark(items[1..]))
  }

  /** The bytes up to and including the first struct-end mark. */
  ghost function UpToMark(items: seq<Item>): nat
    requires HasMark(items)
  {
    |ItemBytes(items[0])| + if items[0].StructEnd? then 0 else UpToMark(items[1..])
  }

  lemma RestCons(data: seq<Byte>, at: nat, items: seq<Item>)
    requires Rest(data, at, items) && items != []
    ensures Has(data, at, ItemBytes(items[0])) && Rest(data, at + |ItemBytes(items[0])|, items[1..]) && Plain(items[0])
  {
    hide AllPlain, ItemBytes, Plain, StreamBytes, Has;
    StreamCons(items);
    HasSplit(data, at, ItemBytes(items[0]), StreamBytes(items[1..]));
  }

  lemma StreamCons(items: seq<Item>)
    requires items != []
    ensures StreamBytes(items) == ItemBytes(items[0]) + StreamBytes(items[1..])
    ensures AllPlain(items) ==> AllPlain(items[1..]) && Plain(items[0])
  {
    hide ItemBytes, Plain;
  }

  /** The place after the payload that a marker announces; None where the code gives up. */
  datatype Place = Unknown | After(at: int)

  ghost function PayloadEnd(data: seq<Byte>, at: nat, kind: nat, size: nat): Place
    requires at <= |data|
  {
    if 1 <= kind <= 6 || kind == IP then After(at + size)
    else if kind == IP6 then After(at + 16)
    else if kind == TEXT || kind == BIN then
      if size == 0 then After(at)
      else if at + 2 > |data| then Unknown
      else After(at + 2 + BigEndian(data[at..at + 2]) + if kind == TEXT then 1 else 0)
    else Unknown
  }

  ghost function MarkerKind(i: Item): nat
  {
    match i
    case Val(U8(_)) => INT8
    case Val(U16(_)) => INT16
    case Forced16(_) => INT16
    case Val(U32(_)) => INT32
    case Forced32(_) => INT32
    case Val(U64(_)) => INT64
    case Val(Text(_)) => TEXT
    case Val(Bin(_)) => BIN
    case Foreign(t, _) => OtherKind(t)
    case StructEnd => 15
  }

  /** The marker of an item leads exactly past the item, whatever its payload bytes are. */
  lemma ItemSkipped(data: seq<Byte>, at: nat, i: Item, skip: bool)
    requires Has(data, at, ItemBytes(i)) && Plain(i) && !i.StructEnd?
    ensures var s := Scan(data, at, skip, false);
      s.Marker? && s.skip == skip && PayloadEnd(data, s.at, s.kind, s.size) == After(at + |ItemBytes(i)|)
  {
    hide Scan, BigBytes, BigEndian, PayloadEnd, ItemBytes;
    var size := ItemBytes(i)[0] as int % 16;
    MarkerFirst(i);
    HasFirst(data, at, ItemBytes(i));
    ScanMarker(data, at, skip, false, MarkerKind(i), size);
    if i.Val? && (i.v.Text? || i.v.Bin?) { StringSkipped(data, at, i.v); } else { NumberSkipped(data, at, i); }
  }

  /** A number has as many bytes as its marker says. */
  lemma NumberSkipped(data: seq<Byte>, at: nat, i: Item)
    requires Has(data, at, ItemBytes(i)) && Plain(i) && !i.StructEnd? && !(i.Val? && (i.v.Text? || i.v.Bin?))
    ensures PayloadEnd(data, at + 1, MarkerKind(i), ItemBytes(i)[0] as int % 16) == After(at + |ItemBytes(i)|)
  {
    MarkerFirst(i);
    hide ItemBytes;
  }

  /** A string has as many bytes as its length field says, and a text one more. */
  lemma StringSkipped(data: seq<Byte>, at: nat, v: Value)
    requires Has(data, at, ItemBytes(Val(v))) && Plain(Val(v)) && (v.Text? || v.Bin?)
    ensures PayloadEnd(data, at + 1, MarkerKind(Val(v)), ItemBytes(Val(v))[0] as int % 16)
      == After(at + |ItemBytes(Val(v))|)
  {
    MarkerFirst(Val(v));
    if v.s == [] {
      hide BigBytes, BigEndian;
    } else {
      var tail := if v.Text? then [0x7f] else [];
      StringBytes(if v.Text? then WantText(0) else WantBin(0), v.s, tail);
      hide ItemBytes, Has, BigBytes, BigEndian, Scan;
      StringParts(data, at + 1, v.s, tail);
    }
  }

  lemma MarkerFirst(i: Item)
    requires !i.StructEnd? && Plain(i)
    ensures MarkerKind(i) <= 10 && ItemBytes(i)[0] == MarkerByte(MarkerKind(i), ItemBytes(i)[0] as int % 16)
    ensures !(i.Val? && (i.v.Text? || i.v.Bin?)) ==>
      if MarkerKind(i) == IP6 then |ItemBytes(i)| == 17
      else |ItemBytes(i)| == 1 + ItemBytes(i)[0] as int % 16 && (1 <= MarkerKind(i) <= 6 || MarkerKind(i) == IP)
    ensures i.Val? && (i.v.Text? || i.v.Bin?) ==> ItemBytes(i)[0] as int % 16 == (if i.v.s == [] then 0 else 1)
  {
    hide BigBytes;
    match i
    case Val(Text(s)) => MarkerSize(TEXT, if s == [] then 0 else 1);
    case Val(Bin(s)) => MarkerSize(BIN, if s == [] then 0 else 1);
    case Val(v) => MarkerSize(MarkerKind(i), Width(v.n)); hide MarkerByte;
    case Forced16(_) => MarkerSize(INT16, 2);
    case Forced32(_) => MarkerSize(INT32, 4);
    case Foreign(t, payload) => MarkerSize(OtherKind(t), if t.Ip6? then 15 else |payload|); hide MarkerByte;
  }

  lemma MarkerSize(kind: nat, size: nat)
    requires kind <= 10 && size < 16
    ensures MarkerByte(kind, size) as int % 16 == size
  {}

  lemma MarkFound(data: seq<Byte>, at: nat, i: Item, skip: bool)
    requires Has(data, at, ItemBytes(i)) && i.StructEnd? && !skip
    ensures Scan(data, at, skip, false) == EndMark(at + 1, false)
  {
    HasFirst(data, at, ItemBytes(i));
  }

  /** Passes over the payload of a marker, as far as its size can be told. */
  method PassPayload(r: ReadStream, kind: nat, size: nat) returns (ok: bool, at: nat)
    requires r.Valid()
    modifies r`op
    ensures r.Valid() && r.op >= old(r.op) && (ok ==> at >= old(r.op))
    ensures match PayloadEnd(r.data, old(r.op), kind, size)
      case Unknown => !ok
      case After(p) => ok && at == p
  {
    ok, at := true, r.op;
    if 1 <= kind <= 6 || kind == IP {
      at := at + size;
    } else if kind == IP6 {
      at := at + 16;
    } else if kind == TEXT || kind == BIN {
      if size != 0 {
        var ret, n := r.ReadOrg(2);
        if ret == -1 {
          ok := false;
        } else {
          at := r.op + n + if kind == TEXT then 1 else 0;
        }
      }
    } else {
      ok := false;
    }
  }

  /** What the search keeps on a stream of items: it stands before the items left, and the first mark of those
      is the first mark of all. */
  ghost predicate Searching(data: seq<Byte>, start: nat, items: seq<Item>, at: nat, left: seq<Item>)
  {
    && Rest(data, at, left) && HasMark(left) == HasMark(items)
    && (HasMark(left) ==> at + UpToMark(left) == start + UpToMark(items))
  }

  /** What a scan finds in the midst of the search: the end only if there is no mark, a mark only if it is
      the first, and otherwise a marker that leads to the next item. */
  ghost predicate Expected(data: seq<Byte>, start: nat, items: seq<Item>, left: seq<Item>, s: Scanned)
    requires s.at <= |data|
  {
    match s
    case NoMore(_, _) => !HasMark(items)
    case EndMark(at, skip) => !skip && HasMark(items) && at == start + UpToMark(items)
    case Marker(kind, size, at, skip) =>
      var p := PayloadEnd(data, at, kind, size);
      !skip && p.After? && left != [] && 0 <= p.at <= |data| && Searching(data, start, items, p.at, left[1..])
  }

  /** Past an item that is no mark, the search stands before the others. */
  lemma SearchPast(data: seq<Byte>, start: nat, items: seq<Item>, at: nat, left: seq<Item>)
    requires Searching(data, start, items, at, left) && left != [] && !left[0].StructEnd?
    ensures Has(data, at, ItemBytes(left[0])) && Plain(left[0])
    ensures Searching(data, start, items, at + |ItemBytes(left[0])|, left[1..])
  {
    RestCons(data, at, left);
    hide Rest, Plain, ItemBytes, Has;
  }

  lemma SearchNext(data: seq<Byte>, start: nat, items: seq<Item>, at: nat, left: seq<Item>, skip: bool)
    requires Searching(data, start, items, at, left) && !skip && at <= |data|
    ensures Expected(data, start, items, left, Scan(data, at, skip, false))
  {
    hide *;
    if left == [] {
      SearchEnd(data, start, items, at, skip);
    } else if left[0].StructEnd? {
      SearchMark(data, start, items, at, left, skip);
    } else {
      SearchItem(data, start, items, at, left, skip);
    }
  }

  lemma SearchEnd(data: seq<Byte>, start: nat, items: seq<Item>, at: nat, skip: bool)
    requires Searching(data, start, items, at, []) && at <= |data|
    ensures Expected(data, start, items, [], Scan(data, at, skip, false))
  {
    assert at == |data|;
  }

  lemma SearchMark(data: seq<Byte>, start: nat, items: seq<Item>, at: nat, left: seq<Item>, skip: bool)
    requires Searching(data, start, items, at, left) && !skip && at <= |data| && left != [] && left[0].StructEnd?
    ensures Expected(data, start, items, left, Scan(data, at, skip, false))
  {
    RestCons(data, at, left);
    hide Scan, PayloadEnd, Plain, ItemBytes, Rest, Has;
    MarkBytes(left[0]);
    MarkFound(data, at, left[0], skip);
  }

  lemma SearchItem(data: seq<Byte>, start: nat, items: seq<Item>, at: nat, left: seq<Item>, skip: bool)
    requires Searching(data, start, items, at, left) && !skip && at <= |data| && left != [] && !left[0].StructEnd?
    ensures Expected(data, start, items, left, Scan(data, at, skip, false))
  {
    hide Scan, PayloadEnd, Searching, ItemBytes, Plain, Has;
    SearchPast(data, start, items, at, left);
    ItemSkipped(data, at, left[0], skip);
    PastWithin(data, start, items, at + |ItemBytes(left[0])|, left[1..]);
  }

  lemma PastWithin(data: seq<Byte>, start: nat, items: seq<Item>, at: nat, left: seq<Item>)
    requires Searching(data, start, items, at, left)
    ensures at <= |data|
  {
    hide ItemBytes;
  }

  lemma ExpectedParts(data: seq<Byte>, start: nat, items: seq<Item>, left: seq<Item>, s: Scanned)
    requires s.at <= |data| && Expected(data, start, items, left, s)
    ensures s.NoMore? ==> !HasMark(items)
    ensures s.EndMark? ==> !s.skip && HasMark(items) && s.at == start + UpToMark(items)
    ensures s.Marker? ==>
      var p := PayloadEnd(data, s.at, s.kind, s.size);
      !s.skip && p.After? && left != [] && 0 <= p.at && Searching(data, start, items, p.at, left[1..])
  {}

  /** When nothing is left of the data, nothing is left of the items. */
  lemma NothingLeft(data: seq<Byte>, start: nat, items: seq<Item>, at: nat, left: seq<Item>)
    requires Searching(data, start, items, at, left) && at >= |data|
    ensures !HasMark(items)
  {
    if left != [] { RestCons(data, at, left); }
  }

  datatype Turn = Found | Over | On

  /** One round of the search: a mark is found, the search is over, or it goes on further right. */
  method SearchStep(r: ReadStream, ghost start: nat, ghost items: seq<Item>, ghost left: seq<Item>, ghost plain: bool)
    returns (turn: Turn, ghost left': seq<Item>)
    requires r.Valid() && !r.struckEnd && !r.skipEndAll
    requires plain ==> !r.skipEndMarker && Searching(r.data, start, items, r.op, left)
    modifies r`op, r`struckEnd, r`skipEndMarker
    ensures r.Valid() && r.struckEnd == (turn == Found)
    ensures turn == Found && plain ==> !r.skipEndMarker && HasMark(items) && r.op == start + UpToMark(items)
    ensures turn == Over && plain ==> !HasMark(items)
    ensures turn == On ==> old(r.op) < r.op
    ensures turn == On && plain ==> !r.skipEndMarker && Searching(r.data, start, items, r.op, left')
  {
    if plain { SearchNext(r.data, start, items, r.op, left, r.skipEndMarker); }
    hide Scan, Rest, HasMark, UpToMark, PayloadEnd, Searching, ItemBytes, Expected;
    left' := [];
    ghost var s := Scan(r.data, r.op, r.skipEndMarker, false);
    var ret, kind, size := r.ReadTypeSize();
    if plain { ExpectedParts(r.data, start, items, left, s); }
    if ret == -1 {
      return Over, left';
    }
    if r.struckEnd {
      return Found, left';
    }
    var ok, at := PassPayload(r, kind, size);
    if !ok {
      return Over, left';
    }
    left' := if plain then left[1..] else [];
    if at >= |r.data| {
      if plain { NothingLeft(r.data, start, items, at, left'); }
      return Over, left';
    }
    r.op := at;
    turn := On;
  }

  /** TrytoMoveStructEnd: on a stream of items, with no skipping in force, it stops right after the first
      struct-end mark, whatever the payloads before it contain, and says so; without a mark, as on any data
      where it fails, it stays where it was. */
  method TrytoMoveStructEnd(r: ReadStream, ghost items: seq<Item>) returns (moved: bool)
    requires r.Valid()
    modifies r`op, r`struckEnd, r`skipEndMarker
    ensures r.Valid() && (!moved ==> r.op == old(r.op))
    ensures old(r.struckEnd || r.skipEndMarker || r.skipEndAll) ==> moved && r.State() == old(r.State())
    ensures moved && !old(r.struckEnd || r.skipEndMarker || r.skipEndAll) ==> r.struckEnd
    ensures !old(r.struckEnd || r.skipEndMarker || r.skipEndAll) && Rest(r.data, old(r.op), items) ==>
      moved == HasMark(items) && (moved ==> r.op == old(r.op) + UpToMark(items) && !r.skipEndMarker)
  {
    if r.struckEnd || r.skipEndMarker || r.skipEndAll {
      return true;
    }
    var start := r.op;
    ghost var left, plain := items, Rest(r.data, start, items);
    assert plain ==> Searching(r.data, start, items, start, left);
    hide Scan, Rest, HasMark, UpToMark, PayloadEnd, Searching;
    while true
      invariant r.Valid() && !r.struckEnd && !r.skipEndAll
      invariant plain ==> !r.skipEndMarker && Searching(r.data, start, items, r.op, left)
      decreases |r.data| - r.op
    {
      var turn;
      turn, left := SearchStep(r, start, items, left, plain);
      if turn == Found {
        return true;
      }
      if turn == Over {
        break;
      }
    }
    r.op := start;
    moved := false;
  }

  /** A typed read, by the method for its type; a text needs room for its closing zero. */
  method ReadAny(r: ReadStream, k: Kind) returns (got: Got)
    requires r.Valid() && (k.WantText? ==> k.room > 0)
    modifies r`op, r`struckEnd, r`skipEndMarker
    ensures r.Valid() && (got, r.State()) == ReadOne(r.data, old(r.State()), r.skipEndAll, k)
  {
    hide ReadOne;
    if k.WantText? || k.WantBin? {
      var a := new Byte[k.room];
      var n := r.ReadString(k, a);
      got := if n == 0 then Failed else if k.WantText? then Got(Text(a[..n])) else Got(Bin(a[..n]));
    } else {
      var ret, v := r.ReadInt(k);
      got := if ret == 0 then Got(IntValue(k, v)) else Failed;
    }
  }

  lemma {:induction false} RunSnoc(data: seq<Byte>, r: Reader, skipAll: bool, kinds: seq<Kind>, k: Kind)
    requires r.at <= |data|
    ensures var a, b := ReadRun(data, r, skipAll, kinds), ReadRun(data, r, skipAll, kinds + [k]);
      var one := ReadOne(data, a.1, skipAll, k);
      b == (a.0 + [one.0], one.1)
    decreases |kinds|
  {
    hide ReadOne;
    var all := kinds + [k];
    var one := ReadOne(data, r, skipAll, all[0]);
    if kinds == [] {
      assert all[1..] == [];
      assert [one.0] + [] == [] + [one.0];
    } else {
      assert all[1..] == kinds[1..] + [k];
      RunSnoc(data, one.1, skipAll, kinds[1..], k);
      var a := ReadRun(data, one.1, skipAll, kinds[1..]);
      var last := ReadOne(data, a.1, skipAll, k).0;
      assert [one.0] + (a.0 + [last]) == ([one.0] + a.0) + [last];
    }
  }

  lemma RunNext(data: seq<Byte>, r: Reader, skipAll: bool, kinds: seq<Kind>, i: nat)
    requires r.at <= |data| && i < |kinds|
    ensures var a, b := ReadRun(data, r, skipAll, kinds[..i]), ReadRun(data, r, skipAll, kinds[..i + 1]);
      var one := ReadOne(data, a.1, skipAll, kinds[i]);
      b == (a.0 + [one.0], one.1)
  {
    hide ReadOne, ReadRun;
    assert kinds[..i + 1] == kinds[..i] + [kinds[i]];
    RunSnoc(data, r, skipAll, kinds[..i], kinds[i]);
  }

  lemma RunNone(data: seq<Byte>, r: Reader, skipAll: bool, kinds: seq<Kind>)
    requires r.at <= |data|
    ensures var none := ReadRun(data, r, skipAll, kinds[..0]); none.0 == [] && none.1 == r
  {}

  method ReadAll(r: ReadStream, kinds: seq<Kind>) returns (got: seq<Got>)
    requires r.Valid() && forall i :: 0 <= i < |kinds| && kinds[i].WantText? ==> kinds[i].room > 0
    modifies r`op, r`struckEnd, r`skipEndMarker
    ensures r.Valid() && (got, r.State()) == ReadRun(r.data, old(r.State()), r.skipEndAll, kinds)
  {
    ghost var start, skipAll := r.State(), r.skipEndAll;
    got := [];
    RunNone(r.data, start, skipAll, kinds);
    hide ReadOne, ReadRun;
    for i := 0 to |kinds|
      invariant r.Valid() && (got, r.State()) == ReadRun(r.data, start, skipAll, kinds[..i])
    {
      var one := ReadAny(r, kinds[i]);
      RunNext(r.data, start, skipAll, kinds, i);
      got := got + [one];
    }
    assert kinds[..|kinds|] == kinds;
  }

  lemma {:induction false} FittingRoom(kinds: seq<Kind>, items: seq<Item>)
    requires FitAll(kinds, items)
    ensures forall i :: 0 <= i < |kinds| && kinds[i].WantText? ==> kinds[i].room > 0
    decreases |items|
  {
    if items != [] {
      FittingRoom(if items[0].StructEnd? then kinds else kinds[1..], items[1..]);
    }
  }

  /** From one end to the other: if there is room for the items, they are written, and a reader of the written
      bytes in skip-marker mode gets their values; only struct-end marks after the last value stay unread. */
  method Transmit(items: seq<Item>, kinds: seq<Kind>, capacity: nat) returns (ok: bool, got: seq<Got>, left: nat)
    requires GoodItems(items) && FitAll(kinds, items)
    ensures ok <==> |StreamBytes(items)| <= capacity
    ensures ok ==> got == ValuesOf(items) && left == |StreamBytes(items)| - UpToLastValue(items)
    ensures ok && (items == [] || !items[|items| - 1].StructEnd?) ==> left == 0
  {
    if items == [] || !items[|items| - 1].StructEnd? { AllRead(items); }
    hide StreamBytes, ReadRun, ValuesOf, UpToLastValue, FitAll;
    FittingRoom(kinds, items);
    var buf := new Byte[capacity];
    var w := new WriteStream(buf);
    got, left := [], 0;
    ok := WriteItems(w, items);
    if ok {
      var data := buf[..w.op];
      var r := new ReadStream(data);
      var _ := r.SetSkipMarker(true);
      assert data == StreamBytes(items);
      StreamReadsBack(data, r.State(), items, kinds);
      got := ReadAll(r, kinds);
      left := |data| - r.op;
    }
  }
}
