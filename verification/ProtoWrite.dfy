/** The tagged value format of nd_protoStream.cpp and its writer. */
module ProtoWrite {
  import opened Words
  import opened Buffers
  import opened NetBytes

  const INT8: nat := 1
  const INT16: nat := 2
  const INT32: nat := 3
  const INT64: nat := 4
  const FLOAT: nat := 5
  const DOUBLE: nat := 6
  const TEXT: nat := 7
  const BIN: nat := 8
  const IP: nat := 9
  const IP6: nat := 10
  const STRUCT_END_MARK: Byte := 0xff

  datatype Value = U8(n: nat) | U16(n: nat) | U32(n: nat) | U64(n: nat) | Text(s: seq<Byte>) | Bin(s: seq<Byte>)

  /** A value as its integer type can hold it; strings are nonempty and their length fits its 16-bit field. */
  predicate GoodValue(v: Value)
  {
    match v
    case U8(n) => n < 0x100
    case U16(n) => n < 0x1_0000
    case U32(n) => n < 0x1_0000_0000
    case U64(n) => n < 0x1_0000_0000_0000_0000
    case Text(s) => 0 < |s| < 0x1_0000
    case Bin(s) => 0 < |s| < 0x1_0000
  }

  /** How many bytes an integer is written in: none for 0, else the least of 1, 2, 4 and 8 that will do. */
  function Width(n: nat): (w: nat)
    ensures w <= 8
  {
    if n == 0 then 0 else if n <= 0xff then 1 else if n <= 0xffff then 2 else if n <= 0xffffffff then 4 else 8
  }

  function MarkerByte(kind: nat, size: nat): Byte
    requires kind < 16
  {
    16 * kind + size % 16
  }

  function IntBytes(kind: nat, n: nat, w: nat): (r: seq<Byte>)
    requires kind < 16
    ensures |r| == 1 + w
  {
    [MarkerByte(kind, w)] + BigBytes(n, w)
  }

  /** The bytes of a value: a marker byte with type and size, then the payload; the length of a string is
      kept in 16 bits, and a text ends in 0x7f. */
  function ValueBytes(v: Value): (r: seq<Byte>)
    ensures |r| > 0
  {
    match v
    case U8(n) => IntBytes(INT8, n, Width(n))
    case U16(n) => IntBytes(INT16, n, Width(n))
    case U32(n) => IntBytes(INT32, n, Width(n))
    case U64(n) => IntBytes(INT64, n, Width(n))
    case Text(s) => if s == [] then [MarkerByte(TEXT, 0)] else [MarkerByte(TEXT, 1)] + BigBytes(|s|, 2) + s + [0x7f]
    case Bin(s) => if s == [] then [MarkerByte(BIN, 0)] else [MarkerByte(BIN, 1)] + BigBytes(|s|, 2) + s
  }

  /** The types whose values are only bytes here: they are passed over, but not written or read. */
  datatype Other = Float | Double | Ip | Ip6

  function OtherKind(t: Other): (kind: nat)
    ensures kind <= 10
  {
    match t
    case Float => FLOAT
    case Double => DOUBLE
    case Ip => IP
    case Ip6 => IP6
  }

  /** What a stream holds: values, integers at their full width, struct-end marks, and values of the other types. */
  datatype Item = Val(v: Value) | Forced16(n: nat) | Forced32(n: nat) | StructEnd
    | Foreign(t: Other, payload: seq<Byte>)

  function ItemBytes(i: Item): (r: seq<Byte>)
    ensures |r| > 0
  {
    match i
    case Val(v) => ValueBytes(v)
    case Forced16(n) => IntBytes(INT16, n, 2)
    case Forced32(n) => IntBytes(INT32, n, 4)
    case StructEnd => [STRUCT_END_MARK]
    case Foreign(t, payload) => [MarkerByte(OtherKind(t), if t.Ip6? then 15 else |payload|)] + payload
  }

  predicate GoodItem(i: Item)
  {
    match i
    case Val(v) => GoodValue(v)
    case Forced16(n) => n < 0x1_0000
    case Forced32(n) => n < 0x1_0000_0000
    case StructEnd => true
    case Foreign(_, _) => false
  }

  function StreamBytes(items: seq<Item>): seq<Byte>
  {
    if items == [] then [] else ItemBytes(items[0]) + StreamBytes(items[1..])
  }

  lemma {:induction false} StreamSnoc(items: seq<Item>, i: Item)
    ensures StreamBytes(items + [i]) == StreamBytes(items) + ItemBytes(i)
    decreases |items|
  {
    hide ItemBytes;
    var all := items + [i];
    if items == [] {
      assert all[1..] == [];
    } else {
      assert all[1..] == items[1..] + [i];
      StreamSnoc(items[1..], i);
    }
  }

  /** What a write does to what has been written: everything when there is room for all of it, and otherwise
      it fails, with at most the marker byte written. */
  ghost predicate Outcome(before: seq<Byte>, after: seq<Byte>, capacity: nat, bytes: seq<Byte>, ret: int)
  {
    && ret == (if |before| + |bytes| <= capacity then 0 else -1)
    && (ret == 0 ==> after == before + bytes)
    && (ret == -1 ==> after == before || (|bytes| > 0 && after == before + [bytes[0]]))
  }

  class WriteStream {
    const buf: array<Byte>
    var op: nat

    ghost predicate Valid()
      reads this
    {
      op <= buf.Length
    }

    ghost function Written(): seq<Byte>
      requires Valid()
      reads this, buf
    {
      buf[..op]
    }

    /** Init */
    constructor (buf: array<Byte>)
      ensures Valid() && this.buf == buf && Written() == []
    {
      this.buf := buf;
      op := 0;
    }

    /** _WriteOrg, over the bytes that nd_netbyte.h gives for the value. */
    method WriteOrg(bytes: seq<Byte>) returns (ret: int)
      requires Valid()
      modifies this, buf
      ensures Valid() && ret == (if |old(Written())| + |bytes| <= buf.Length then 0 else -1)
      ensures Written() == if ret == 0 then old(Written()) + bytes else old(Written())
    {
      if op + |bytes| > buf.Length {
        return -1;
      }
      ghost var was: seq<Byte> := buf[..];
      CopyInto(buf, op, bytes);
      FrontCopied(was, op, bytes, buf[..]);
      op := op + |bytes|;
      ret := 0;
    }

    /** _writeMarker */
    method WriteMarker(kind: nat, size: nat) returns (ret: int)
      requires Valid() && kind < 16
      modifies this, buf
      ensures Valid() && ret == (if |old(Written())| + 1 <= buf.Length then 0 else -1)
      ensures Written() == if ret == 0 then old(Written()) + [MarkerByte(kind, size)] else old(Written())
    {
      ret := WriteOrg([MarkerByte(kind, size)]);
    }

    /** A marker followed by its payload. */
    method WriteMarked(kind: nat, w: nat, payload: seq<Byte>) returns (ret: int)
      requires Valid() && kind < 16 && |payload| == w
      modifies this, buf
      ensures Valid() && Outcome(old(Written()), Written(), buf.Length, [MarkerByte(kind, w)] + payload, ret)
    {
      hide MarkerByte;
      ret := WriteMarker(kind, w);
      if ret == -1 {
        return;
      }
      ghost var before: seq<Byte> := old(Written());
      ret := WriteOrg(payload);
      assert before + [MarkerByte(kind, w)] + payload == before + ([MarkerByte(kind, w)] + payload);
    }

    /** Write(NDUINT8) */
    method Write8(a: Byte) returns (ret: int)
      requires Valid()
      modifies this, buf
      ensures Valid() && Outcome(old(Written()), Written(), buf.Length, ValueBytes(U8(a)), ret)
    {
      PutsAreBig(a);
      hide Outcome, BigBytes, MarkerByte;
      if a == 0 {
        ret := WriteMarked(INT8, 0, []);
        assert BigBytes(a, 0) == [];
      } else {
        ret := WriteMarked(INT8, 1, Put8(a));
      }
    }

    /** Write(NDUINT16) */
    method Write16(a: nat) returns (ret: int)
      requires Valid() && a < 0x1_0000
      modifies this, buf
      ensures Valid() && Outcome(old(Written()), Written(), buf.Length, ValueBytes(U16(a)), ret)
    {
      PutsAreBig(a);
      hide Outcome, BigBytes, MarkerByte;
      if a == 0 {
        ret := WriteMarked(INT16, 0, []);
        assert BigBytes(a, 0) == [];
      } else if a <= 0xff {
        ret := WriteMarked(INT16, 1, Put8(a));
      } else {
        ret := WriteMarked(INT16, 2, Put16(a));
      }
    }

    /** Write(NDUINT32) */
    method Write32(a: nat) returns (ret: int)
      requires Valid() && a < 0x1_0000_0000
      modifies this, buf
      ensures Valid() && Outcome(old(Written()), Written(), buf.Length, ValueBytes(U32(a)), ret)
    {
      PutsAreBig(a);
      hide Outcome, BigBytes, MarkerByte;
      if a == 0 {
        ret := WriteMarked(INT32, 0, []);
        assert BigBytes(a, 0) == [];
      } else if a <= 0xff {
        ret := WriteMarked(INT32, 1, Put8(a));
      } else if a <= 0xffff {
        ret := WriteMarked(INT32, 2, Put16(a));
      } else {
        ret := WriteMarked(INT32, 4, Put32(a));
      }
    }

    /** Write(NDUINT64) */
    method Write64(a: nat) returns (ret: int)
      requires Valid() && a < 0x1_0000_0000_0000_0000
      modifies this, buf
      ensures Valid() && Outcome(old(Written()), Written(), buf.Length, ValueBytes(U64(a)), ret)
    {
      PutsAreBig(a);
      hide Outcome, BigBytes, MarkerByte;
      if a == 0 {
        ret := WriteMarked(INT64, 0, []);
        assert BigBytes(a, 0) == [];
      } else if a <= 0xff {
        ret := WriteMarked(INT64, 1, Put8(a));
      } else if a <= 0xffff {
        ret := WriteMarked(INT64, 2, Put16(a));
      } else if a <= 0xffffffff {
        ret := WriteMarked(INT64, 4, Put32(a));
      } else {
        ret := WriteMarked(INT64, 8, Put64(a));
      }
    }

    /** WriteForce(NDUINT16) */
    method WriteForce16(a: nat) returns (ret: int)
      requires Valid() && a < 0x1_0000
      modifies this, buf
      ensures Valid() && Outcome(old(Written()), Written(), buf.Length, ItemBytes(Forced16(a)), ret)
    {
      PutsAreBig(a);
      hide Outcome, BigBytes, MarkerByte;
      ret := WriteMarked(INT16, 2, Put16(a));
    }

    /** WriteForce(NDUINT32) */
    method WriteForce32(a: nat) returns (ret: int)
      requires Valid() && a < 0x1_0000_0000
      modifies this, buf
      ensures Valid() && Outcome(old(Written()), Written(), buf.Length, ItemBytes(Forced32(a)), ret)
    {
      PutsAreBig(a);
      hide Outcome, BigBytes, MarkerByte;
      ret := WriteMarked(INT32, 4, Put32(a));
    }

    /** SetStructEnd */
    method SetStructEnd() returns (ret: int)
      requires Valid()
      modifies this, buf
      ensures Valid() && Outcome(old(Written()), Written(), buf.Length, ItemBytes(StructEnd), ret)
    {
      ret := WriteOrg([STRUCT_END_MARK]);
    }

    /** Write(const NDUINT8 *), for the bytes of the text up to its terminating zero. */
    method WriteText(text: seq<Byte>) returns (ret: int)
      requires Valid()
      modifies this, buf
      ensures Valid() && Outcome(old(Written()), Written(), buf.Length, ValueBytes(Text(text)), ret)
    {
      PutsAreBig(|text|);
      hide BigBytes, MarkerByte;
      if buf.Length <= op {
        return -1;
      }
      if text == [] {
        ret := WriteMarker(TEXT, 0);
        return;
      }
      ret := WriteMarker(TEXT, 1);
      var n := |text|;
      if n + 3 <= buf.Length - op {
        var _ := WriteOrg(Put16(n));
        var _ := WriteOrg(text + [0x7f]);
        Joined(old(Written()), MarkerByte(TEXT, 1), Put16(n), text, [0x7f]);
        ret := 0;
      } else {
        ret := -1;
      }
    }

    /** WriteBin */
    method WriteBin(data: seq<Byte>) returns (ret: int)
      requires Valid()
      modifies this, buf
      ensures Valid() && Outcome(old(Written()), Written(), buf.Length, ValueBytes(Bin(data)), ret)
    {
      PutsAreBig(|data|);
      hide BigBytes, MarkerByte;
      var size := |data|;
      if buf.Length <= op || size >= buf.Length - op {
        return -1;
      }
      if size == 0 {
        ret := WriteMarker(BIN, 0);
        return;
      }
      ret := WriteMarker(BIN, 1);
      if size + 2 <= buf.Length - op {
        var _ := WriteOrg(Put16(size));
        var _ := WriteOrg(data);
        Joined(old(Written()), MarkerByte(BIN, 1), Put16(size), data, []);
        ret := 0;
      } else {
        ret := -1;
      }
    }
  }

  /** Integers that fit their type; the writer takes strings of any length. */
  predicate Writable(i: Item)
  {
    (i.Val? && (i.v.Text? || i.v.Bin?)) || GoodItem(i)
  }

  method WriteItem(w: WriteStream, i: Item) returns (ret: int)
    requires w.Valid() && Writable(i)
    modifies w, w.buf
    ensures w.Valid() && Outcome(old(w.Written()), w.Written(), w.buf.Length, ItemBytes(i), ret)
  {
    hide Outcome, ValueBytes;
    match i
    case Val(U8(n)) => ret := w.Write8(n);
    case Val(U16(n)) => ret := w.Write16(n);
    case Val(U32(n)) => ret := w.Write32(n);
    case Val(U64(n)) => ret := w.Write64(n);
    case Val(Text(s)) => ret := w.WriteText(s);
    case Val(Bin(s)) => ret := w.WriteBin(s);
    case Forced16(n) => ret := w.WriteForce16(n);
    case Forced32(n) => ret := w.WriteForce32(n);
    case StructEnd => ret := w.SetStructEnd();
  }

  /** A run of writes; if all succeed, the stream has grown by their bytes in order. */
  method WriteItems(w: WriteStream, items: seq<Item>) returns (ok: bool)
    requires w.Valid() && forall i :: 0 <= i < |items| ==> Writable(items[i])
    modifies w, w.buf
    ensures w.Valid() && (ok ==> w.Written() == old(w.Written()) + StreamBytes(items))
    ensures ok <==> |old(w.Written())| + |StreamBytes(items)| <= w.buf.Length
  {
    ghost var before: seq<Byte> := w.Written();
    hide ItemBytes, StreamBytes, Outcome, Writable;
    StreamStart(items);
    for i := 0 to |items|
      invariant w.Valid() && w.Written() == before + StreamBytes(items[..i])
    {
      StreamNext(items, i);
      var ret := WriteItem(w, items[i]);
      OutcomeNext(before, StreamBytes(items[..i]), w.Written(), w.buf.Length, ItemBytes(items[i]), ret);
      if ret != 0 {
        StreamGrows(items, i + 1);
        return false;
      }
    }
    assert items[..|items|] == items;
    ok := true;
  }

  lemma OutcomeNext(before: seq<Byte>, done: seq<Byte>, after: seq<Byte>, capacity: nat, bytes: seq<Byte>, ret: int)
    requires Outcome(before + done, after, capacity, bytes, ret)
    ensures if |before| + |done + bytes| <= capacity then ret == 0 && after == before + (done + bytes) else ret != 0
  {
    assert before + done + bytes == before + (done + bytes);
  }

  lemma StreamStart(items: seq<Item>)
    ensures StreamBytes(items[..0]) == []
  {}

  lemma StreamNext(items: seq<Item>, i: nat)
    requires i < |items|
    ensures StreamBytes(items[..i + 1]) == StreamBytes(items[..i]) + ItemBytes(items[i])
  {
    hide ItemBytes, StreamBytes;
    assert items[..i + 1] == items[..i] + [items[i]];
    StreamSnoc(items[..i], items[i]);
  }

  lemma {:induction false} StreamGrows(items: seq<Item>, i: nat)
    requires i <= |items|
    ensures |StreamBytes(items[..i])| <= |StreamBytes(items)|
    decreases |items| - i
  {
    if i < |items| {
      StreamNext(items, i);
      StreamGrows(items, i + 1);
    } else {
      assert items[..i] == items;
    }
  }

  lemma Joined(before: seq<Byte>, m: Byte, len: seq<Byte>, s: seq<Byte>, tail: seq<Byte>)
    ensures before + [m] + len + (s + tail) == before + ([m] + len + s + tail)
    ensures tail == [] ==> before + [m] + len + s == before + ([m] + len + s)
  {}

  /** The format of integers on the wire: the marker byte, and how many bytes follow, most significant first. */
  lemma NumbersOnWire(n: nat)
    ensures n == 0 ==>
      ValueBytes(U8(n)) == [0x10] && ValueBytes(U16(n)) == [0x20] && ValueBytes(U32(n)) == [0x30]
        && ValueBytes(U64(n)) == [0x40]
    ensures 0 < n < 0x100 ==>
      && ValueBytes(U8(n)) == [0x11] + BigBytes(n, 1) && ValueBytes(U16(n)) == [0x21] + BigBytes(n, 1)
      && ValueBytes(U32(n)) == [0x31] + BigBytes(n, 1) && ValueBytes(U64(n)) == [0x41] + BigBytes(n, 1)
    ensures 0x100 <= n < 0x1_0000 ==>
      && ValueBytes(U16(n)) == [0x22] + BigBytes(n, 2) && ValueBytes(U32(n)) == [0x32] + BigBytes(n, 2)
      && ValueBytes(U64(n)) == [0x42] + BigBytes(n, 2)
    ensures 0x1_0000 <= n < 0x1_0000_0000 ==>
      ValueBytes(U32(n)) == [0x34] + BigBytes(n, 4) && ValueBytes(U64(n)) == [0x44] + BigBytes(n, 4)
    ensures 0x1_0000_0000 <= n ==> ValueBytes(U64(n)) == [0x48] + BigBytes(n, 8)
    ensures ItemBytes(Forced16(n)) == [0x22] + BigBytes(n, 2) && ItemBytes(Forced32(n)) == [0x34] + BigBytes(n, 4)
  {
    assert n == 0 ==> BigBytes(n, 0) == [];
    hide BigBytes;
  }

  /** The format of strings and of the struct-end mark. */
  lemma StringsOnWire(s: seq<Byte>)
    ensures s != [] ==>
      && ValueBytes(Text(s)) == [0x71] + BigBytes(|s|, 2) + s + [0x7f]
      && ValueBytes(Bin(s)) == [0x81] + BigBytes(|s|, 2) + s
    ensures s == [] ==> ValueBytes(Text(s)) == [0x70] && ValueBytes(Bin(s)) == [0x80]
    ensures ItemBytes(StructEnd) == [0xff]
  {
    hide BigBytes;
  }
}
