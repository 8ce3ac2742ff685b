/** The reader of the tagged stream (nd_protoStream.cpp): markers, typed reads and the search for the end of
    a structure. */
module ProtoRead {
  import opened Words
  import opened Buffers
  import opened ByteStrings
  import opened NetBytes
  import opened ProtoWrite

  const CMD_SKIP: nat := 11
  const CMD_ENABLE: nat := 12

  /** What the search for a marker finds: the end of the data, a struct-end mark, or a marker. */
  datatype Scanned = NoMore(at: nat, skip: bool) | EndMark(at: nat, skip: bool)
    | Marker(kind: nat, size: nat, at: nat, skip: bool)

  /** The search from a position: commands switch the skipping of struct-end marks on and off. */
  ghost function Scan(data: seq<Byte>, at: nat, skip: bool, skipAll: bool): (r: Scanned)
    requires at <= |data|
    ensures at <= r.at <= |data| && (!r.NoMore? ==> at < r.at)
    decreases |data| - at
  {
    if at == |data| then NoMore(at, skip)
    else
      var kind, size := data[at] as int / 16, data[at] as int % 16;
      if data[at] == STRUCT_END_MARK then
        if skip || skipAll then Scan(data, at + 1, skip, skipAll) else EndMark(at + 1, skip)
      else if kind == CMD_SKIP then Scan(data, at + 1, true, skipAll)
      else if kind == CMD_ENABLE then Scan(data, at + 1, false, skipAll)
      else Marker(kind, size, at + 1, skip)
  }

  /** What a typed read asks for; strings come with the size of the buffer for them. */
  datatype Kind = Want8 | Want16 | Want32 | Want64 | WantText(room: nat) | WantBin(room: nat)

  /** A reader between two calls. */
  datatype Reader = Reader(at: nat, struck: bool, skip: bool)

  datatype Got = Failed | Got(v: Value)

  function Sizes(k: Kind): nat
  {
    match k
    case Want8 => 1
    case Want16 => 2
    case Want32 => 4
    case Want64 => 8
    case _ => 0
  }

  function MarkerOf(k: Kind): nat
  {
    match k
    case Want8 => INT8
    case Want16 => INT16
    case Want32 => INT32
    case Want64 => INT64
    case WantText(_) => TEXT
    case WantBin(_) => BIN
  }

  function IntValue(k: Kind, n: nat): Value
  {
    match k
    case Want8 => U8(n)
    case Want16 => U16(n)
    case Want32 => U32(n)
    case _ => U64(n)
  }

  /** An integer of the given size from its payload. */
  ghost function IntPayload(data: seq<Byte>, at: nat, k: Kind, size: nat): (Got, nat)
    requires at <= |data|
  {
    if size == 0 then (Got(IntValue(k, 0)), at)
    else if size <= Sizes(k) && size in {1, 2, 4, 8} && at + size <= |data| then
      (Got(IntValue(k, BigEndian(data[at..at + size]))), at + size)
    else (Failed, at)
  }

  /** A string from its length field, its bytes and, for a text, the closing 0x7f. */
  ghost function StringPayload(data: seq<Byte>, at: nat, k: Kind, size: nat): (Got, nat)
    requires at <= |data| && (k.WantText? || k.WantBin?)
  {
    if size == 0 || at + 2 > |data| then (Failed, at)
    else
      var n, p := BigEndian(data[at..at + 2]), at + 2;
      if n == 0 then (Failed, p)
      else if k.WantText? then
        if p + n < |data| && data[p + n] == 0x7f && k.room > n then (Got(Text(data[p..p + n])), p + n + 1)
          else (Failed, p)
      else if p + n <= |data| && k.room >= n then (Got(Bin(data[p..p + n])), p + n)
      else (Failed, p)
  }

  ghost function Payload(data: seq<Byte>, at: nat, k: Kind, size: nat): (r: (Got, nat))
    requires at <= |data|
    ensures at <= r.1 <= |data|
  {
    if k.WantText? || k.WantBin? then StringPayload(data, at, k, size) else IntPayload(data, at, k, size)
  }

  /** A typed read: the marker is searched, and read past even when it is of another type. */
  ghost function ReadOne(data: seq<Byte>, r: Reader, skipAll: bool, k: Kind): (res: (Got, Reader))
    requires r.at <= |data|
    ensures res.1.at <= |data|
  {
    match Scan(data, r.at, r.skip, skipAll)
    case NoMore(at, skip) => (Failed, Reader(at, false, skip))
    case EndMark(at, skip) => (Failed, Reader(at, true, skip))
    case Marker(kind, size, at, skip) =>
      if kind != MarkerOf(k) then (Failed, Reader(at, false, skip))
      else var p := Payload(data, at, k, size); (p.0, Reader(p.1, false, skip))
  }

  method CopyFront(a: array<Byte>, bytes: seq<Byte>)
    requires |bytes| <= a.Length
    modifies a
    ensures a[..|bytes|] == bytes
  {
    ghost var was: seq<Byte> := a[..];
    CopyInto(a, 0, bytes);
    FrontCopied(was, 0, bytes, a[..]);
  }

  class ReadStream {
    const data: seq<Byte>
    var op: nat
    var struckEnd: bool
    var skipEndMarker: bool
    var skipEndAll: bool

    ghost predicate Valid()
      reads this
    {
      op <= |data|
    }

    ghost function State(): Reader
      reads this
    {
      Reader(op, struckEnd, skipEndMarker)
    }

    /** Init */
    constructor (data: seq<Byte>)
      ensures Valid() && this.data == data && State() == Reader(0, false, false) && !skipEndAll
    {
      this.data := data;
      op, struckEnd, skipEndMarker, skipEndAll := 0, false, false, false;
    }

    /** SetSkipMarker */
    method SetSkipMarker(skip: bool) returns (was: bool)
      modifies this
      ensures was == old(skipEndAll) && skipEndAll == skip && State() == old(State())
    {
      was := skipEndAll;
      skipEndAll := skip;
    }

    /** _ReadTypeSize */
    method ReadTypeSize() returns (ret: int, kind: nat, size: nat)
      requires Valid()
      modifies this`op, this`struckEnd, this`skipEndMarker
      ensures Valid()
      ensures var s := Scan(data, old(op), old(skipEndMarker), skipEndAll);
        && op == s.at && skipEndMarker == s.skip && ret == (if s.NoMore? then -1 else 0)
        && struckEnd == (old(struckEnd) || s.EndMark?)
        && (s.Marker? ==> kind == s.kind && size == s.size)
    {
      kind, size := 0, 0;
      while true
        invariant Valid() && struckEnd == old(struckEnd)
        invariant Scan(data, op, skipEndMarker, skipEndAll) == Scan(data, old(op), old(skipEndMarker), skipEndAll)
        decreases |data| - op
      {
        if op + 1 > |data| {
          return -1, kind, size;
        }
        var marker := data[op];
        op := op + 1;
        if marker == STRUCT_END_MARK {
          if skipEndMarker || skipEndAll {
            continue;
          }
          struckEnd := true;
          return 0, kind, size;
        }
        kind, size := marker as int / 16, marker as int % 16;
        if kind == CMD_SKIP {
          skipEndMarker := true;
        } else if kind == CMD_ENABLE {
          skipEndMarker := false;
        } else {
          return 0, kind, size;
        }
      }
    }

    /** Directly before a struct-end mark in force, a marker of another type, or the end of the data. */
    ghost predicate AtMark()
      reads this
    {
      op < |data| && data[op] == 0xff && !skipEndMarker && !skipEndAll
    }

    ghost predicate AtOther(kind: nat)
      reads this
    {
      op < |data| && data[op] / 0x10 < 11 && data[op] / 0x10 != kind
    }

    lemma ScanHere()
      requires Valid()
      ensures var s := Scan(data, op, skipEndMarker, skipEndAll);
        && (AtMark() ==> s == EndMark(op + 1, false)) && (op == |data| ==> s == NoMore(op, skipEndMarker))
        && forall kind: nat :: AtOther(kind) ==>
             s.Marker? && s.kind != kind && s.at == op + 1 && s.skip == skipEndMarker
    {}

    /** _ReadOrg for the four widths. */
    method ReadOrg(w: nat) returns (ret: int, a: nat)
      requires Valid() && w in {1, 2, 4, 8}
      modifies this`op
      ensures Valid() && ret == (if old(op) + w <= |data| then 0 else -1)
      ensures ret == 0 ==> op == old(op) + w && a == BigEndian(data[old(op)..old(op) + w])
      ensures ret == -1 ==> op == old(op) && a == 0
    {
      GetsAreBig(data, op);
      a := 0;
      if op + w > |data| {
        return -1, 0;
      }
      a := if w == 1 then data[op] else if w == 2 then Get16(data, op) else if w == 4 then Get32(data, op)
        else Get64(data, op);
      op := op + w;
      ret := 0;
    }

    /** The bytes of an integer of the given size. */
    method ReadIntPayload(k: Kind, size: nat) returns (ret: int, a: nat)
      requires Valid() && !k.WantText? && !k.WantBin?
      modifies this`op
      ensures Valid() && (ret == 0 || ret == -1)
      ensures (if ret == 0 then Got(IntValue(k, a)) else Failed, op) == IntPayload(data, old(op), k, size)
    {
      hide BigEndian;
      if size == 0 {
        return 0, 0;
      } else if size <= Sizes(k) && (size == 1 || size == 2 || size == 4 || size == 8) {
        ret, a := ReadOrg(size);
      } else {
        return -1, 0;
      }
    }

    /** Read for the integer types. A mark in force and a marker of another type are read past, and the mark is
        reported. */
    method ReadInt(k: Kind) returns (ret: int, a: nat)
      requires Valid() && !k.WantText? && !k.WantBin?
      modifies this`op, this`struckEnd, this`skipEndMarker
      ensures Valid() && (ret == 0 || ret == -1)
      ensures (if ret == 0 then Got(IntValue(k, a)) else Failed, State())
        == ReadOne(data, old(State()), skipEndAll, k)
      ensures old(AtMark()) ==> ret == -1 && State() == Reader(old(op) + 1, true, false)
      ensures old(AtOther(MarkerOf(k))) ==> ret == -1 && State() == Reader(old(op) + 1, false, old(skipEndMarker))
      ensures old(op) == |data| ==> ret == -1 && State() == Reader(old(op), false, old(skipEndMarker))
    {
      ScanHere();
      hide Scan, IntPayload;
      a := 0;
      struckEnd := false;
      var kind, size;
      ret, kind, size := ReadTypeSize();
      if ret == -1 || struckEnd {
        return -1, 0;
      }
      if kind != MarkerOf(k) {
        return -1, 0;
      }
      ret, a := ReadIntPayload(k, size);
    }

    /** The next marker is that of an empty text, whose read only writes the closing zero. */
    ghost predicate EmptyTextNext()
      requires Valid()
      reads this
    {
      var s := Scan(data, op, skipEndMarker, skipEndAll);
      s.Marker? && s.kind == TEXT && s.size == 0
    }

    /** Read(NDUINT8 *, size_t) and ReadBin, into a buffer; a text is closed with a zero byte there. */
    method ReadString(k: Kind, a: array<Byte>) returns (n: nat)
      requires Valid() && (k.WantText? || k.WantBin?) && k.room == a.Length
      requires k.WantText? && EmptyTextNext() ==> a.Length > 0
      modifies this`op, this`struckEnd, this`skipEndMarker, a
      ensures Valid() && n <= a.Length
      ensures (if n == 0 then Failed else Got(if k.WantText? then Text(a[..n]) else Bin(a[..n])), State())
        == ReadOne(data, old(State()), skipEndAll, k)
      ensures old(AtMark()) ==> n == 0 && State() == Reader(old(op) + 1, true, false)
      ensures old(AtOther(MarkerOf(k))) ==> n == 0 && State() == Reader(old(op) + 1, false, old(skipEndMarker))
      ensures old(op) == |data| ==> n == 0 && State() == Reader(old(op), false, old(skipEndMarker))
      ensures k.WantText? && (n > 0 || old(EmptyTextNext())) ==> n < a.Length && a[n] == 0
    {
      ScanHere();
      hide Scan;
      struckEnd := false;
      var ret, kind, size := ReadTypeSize();
      if ret == -1 || struckEnd {
        return 0;
      }
      if kind != MarkerOf(k) {
        return 0;
      }
      if size == 0 {
        if k.WantText? {
          a[0] := 0;
        }
        return 0;
      }
      hide ReadOne, MarkerOf;
      n := ReadStringPayload(k, a);
    }

    /** The length field and the bytes of a string. */
    method ReadStringPayload(k: Kind, a: array<Byte>) returns (n: nat)
      requires Valid() && (k.WantText? || k.WantBin?) && k.room == a.Length
      modifies this`op, a
      ensures Valid() && n <= a.Length && (n > 0 && k.WantText? ==> n < a.Length && a[n] == 0)
      ensures (if n == 0 then Failed else Got(if k.WantText? then Text(a[..n]) else Bin(a[..n])), op)
        == StringPayload(data, old(op), k, 1)
    {
      hide BigEndian;
      var ret, len := ReadOrg(2);
      if ret == -1 || len == 0 {
        return 0;
      }
      if k.WantText? {
        if op + len < |data| && data[op + len] == 0x7f && a.Length > len {
          CopyFront(a, data[op..op + len]);
          a[len] := 0;
          op := op + len + 1;
          return len;
        }
      } else if op + len <= |data| && a.Length >= len {
        CopyFront(a, data[op..op + len]);
        op := op + len;
        return len;
      }
      n := 0;
    }
  }
}
