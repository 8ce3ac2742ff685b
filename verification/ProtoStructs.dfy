/** Reading a stream structure by structure, with struct-end marks in force: a reader may want fewer fields than a
    structure has, or one more, and always gets to the next structure. Commands in the stream switch the marks off and
    on. */
module ProtoStructs {
  import opened Words
  import opened Slices
  import opened NetBytes
  import opened ProtoWrite
  import opened ProtoRead
  import opened ProtoRoundTrip

  /** The fields of a structure: values that can be read back. */
  ghost predicate Fields(fields: seq<Item>)
  {
    forall i :: 0 <= i < |fields| ==> IsValue(fields[i]) && GoodItem(fields[i])
  }

  /** Reads that fit the fields one by one; there may be fewer, or one too many. */
  predicate FitFields(kinds: seq<Kind>, fields: seq<Item>)
  {
    |kinds| <= |fields| + 1 && forall i :: 0 <= i < |kinds| && i < |fields| ==> Fits(kinds[i], fields[i])
  }

  /** What n such reads give: the values of the fields, and a failure for the one too many. */
  ghost predicate FieldsGot(got: seq<Got>, fields: seq<Item>, n: nat)
    requires Fields(fields)
  {
    |got| == n && forall i :: 0 <= i < n ==> got[i] == if i < |fields| then Got(ValueOf(fields[i])) else Failed
  }

  /** The bytes of the fields that n reads take. */
  ghost function FieldBytes(fields: seq<Item>, n: nat): nat
  {
    |StreamBytes(if n < |fields| then fields[..n] else fields)|
  }

  /** A reader behind those reads: one too many leaves it right behind the mark, with the mark reported. */
  ghost predicate Behind(r: Reader, r': Reader, fields: seq<Item>, n: nat)
  {
    if n == 0 then r' == r
    else if n <= |fields| then r' == Reader(r.at + FieldBytes(fields, n), false, false)
    else r' == Reader(r.at + FieldBytes(fields, n) + 1, true, false)
  }

  /** A read at a struct-end mark in force. */
  lemma ReadAtMark(data: seq<Byte>, r: Reader, k: Kind)
    requires r.at < |data| && data[r.at] == STRUCT_END_MARK && !r.skip
    ensures ReadOne(data, r, false, k) == (Failed, Reader(r.at + 1, true, false))
  {}

  lemma FieldsCons(fields: seq<Item>, n: nat)
    requires 0 < n && fields != []
    ensures FieldBytes(fields, n) == |ItemBytes(fields[0])| + FieldBytes(fields[1..], n - 1)
  {
    hide ItemBytes;
    if n < |fields| {
      assert fields[..n][1..] == fields[1..][..n - 1] && fields[..n][0] == fields[0];
    }
  }

  lemma RunCons(data: seq<Byte>, r: Reader, skipAll: bool, kinds: seq<Kind>)
    requires r.at <= |data| && kinds != []
    ensures var one := ReadOne(data, r, skipAll, kinds[0]);
      var rest := ReadRun(data, one.1, skipAll, kinds[1..]);
      ReadRun(data, r, skipAll, kinds) == ([one.0] + rest.0, rest.1)
  {
    hide ReadOne;
  }

  lemma RunEmpty(data: seq<Byte>, r: Reader, skipAll: bool)
    requires r.at <= |data|
    ensures ReadRun(data, r, skipAll, []) == ([], r)
  {}

  /** The reads of one structure, its marks in force: fitting reads give the values of the fields, and one too many
      fails
      right behind the struct-end mark, which is then reported. */
  lemma {:induction false} FieldsReadBack(data: seq<Byte>, r: Reader, fields: seq<Item>, kinds: seq<Kind>)
    requires Fields(fields) && FitFields(kinds, fields) && !r.skip
    requires Has(data, r.at, StreamBytes(fields) + [STRUCT_END_MARK])
    ensures var res := ReadRun(data, r, false, kinds);
      FieldsGot(res.0, fields, |kinds|) && Behind(r, res.1, fields, |kinds|)
    decreases |fields|
  {
    HasSlice(data, r.at, StreamBytes(fields) + [STRUCT_END_MARK]);
    hide ReadOne, ReadRun, ItemBytes, Fits, GoodItem, IsValue, ValueOf, StreamBytes, Has;
    if kinds == [] {
      RunEmpty(data, r, false);
    } else if fields == [] {
      StreamNone();
      assert kinds == [kinds[0]];
      OneTooMany(data, r, kinds[0]);
    } else {
      FieldsReadNext(data, r, fields, kinds);
      hide *;
      var one := Reader(r.at + |ItemBytes(fields[0])|, false, false);
      var rest := ReadRun(data, one, false, kinds[1..]);
      FieldsReadBack(data, one, fields[1..], kinds[1..]);
      GotCons(rest.0, fields, |kinds|);
      BehindCons(r, one, rest.1, fields, |kinds|);
    }
  }

  lemma BehindCons(r: Reader, one: Reader, r': Reader, fields: seq<Item>, n: nat)
    requires n > 0 && fields != [] && one == Reader(r.at + |ItemBytes(fields[0])|, false, false)
    requires Behind(one, r', fields[1..], n - 1)
    ensures Behind(r, r', fields, n)
  {
    hide FieldBytes, ItemBytes;
    FieldsCons(fields, n);
    if n == 1 { FieldsZero(fields[1..]); }
  }

  lemma MarkAt(data: seq<Byte>, at: nat)
    requires Has(data, at, [STRUCT_END_MARK])
    ensures at < |data| && data[at] == STRUCT_END_MARK
  {
    HasFirst(data, at, [STRUCT_END_MARK]);
  }

  lemma OneTooMany(data: seq<Byte>, r: Reader, k: Kind)
    requires !r.skip && Has(data, r.at, [] + [STRUCT_END_MARK])
    ensures r.at <= |data| && ReadRun(data, r, false, [k]) == ([Failed], Reader(r.at + 1, true, false))
  {
    hide ReadOne, ReadRun, Has;
    var mark: seq<Byte>, none: seq<Byte> := [STRUCT_END_MARK], [];
    assert none + mark == mark;
    MarkAt(data, r.at);
    ReadAtMark(data, r, k);
    RunCons(data, r, false, [k]);
    RunEmpty(data, Reader(r.at + 1, true, false), false);
    assert [k][1..] == [];
    assert [Failed] + [] == [Failed];
  }

  lemma FieldsZero(fields: seq<Item>)
    ensures FieldBytes(fields, 0) == 0
  {
    assert fields != [] ==> fields[..0] == [];
  }

  lemma GotCons(got: seq<Got>, fields: seq<Item>, n: nat)
    requires n > 0 && Fields(fields) && fields != [] && Fields(fields[1..]) && FieldsGot(got, fields[1..], n - 1)
    ensures FieldsGot([Got(ValueOf(fields[0]))] + got, fields, n)
  {
    hide GoodItem, IsValue, ValueOf;
  }

  lemma StreamNone()
    ensures StreamBytes([]) == []
  {}

  /** The first of the reads, and what is left for the others. */
  lemma FieldsReadNext(data: seq<Byte>, r: Reader, fields: seq<Item>, kinds: seq<Kind>)
    requires Fields(fields) && FitFields(kinds, fields) && !r.skip && fields != [] && kinds != []
    requires Has(data, r.at, StreamBytes(fields) + [STRUCT_END_MARK])
    ensures Fields(fields[1..]) && FitFields(kinds[1..], fields[1..])
    ensures var next := Reader(r.at + |ItemBytes(fields[0])|, false, false);
      var rest := ReadRun(data, next, false, kinds[1..]);
      && Has(data, next.at, StreamBytes(fields[1..]) + [STRUCT_END_MARK])
      && ReadRun(data, r, false, kinds) == ([Got(ValueOf(fields[0]))] + rest.0, rest.1)
  {
    hide ReadOne, ReadRun, ItemBytes, Fits, GoodItem, IsValue, ValueOf, StreamBytes, Has;
    var first, rest, mark: seq<Byte> := ItemBytes(fields[0]), StreamBytes(fields[1..]), [STRUCT_END_MARK];
    StreamCons(fields);
    assert first + rest + mark == first + (rest + mark);
    HasSplit(data, r.at, first, rest + mark);
    HasSlice(data, r.at, first);
    ItemReadsBack(data, r, false, fields[0], kinds[0]);
    RunCons(data, r, false, kinds);
  }

  /** What is left of the items behind the first n. */
  lemma {:induction false} RestDrop(data: seq<Byte>, at: nat, items: seq<Item>, n: nat)
    requires Rest(data, at, items) && n <= |items|
    ensures Rest(data, at + |StreamBytes(items[..n])|, items[n..])
    decreases n
  {
    hide Rest, ItemBytes;
    if n == 0 {
      assert items[0..] == items && items[..0] == [];
    } else {
      RestCons(data, at, items);
      RestDrop(data, at + |ItemBytes(items[0])|, items[1..], n - 1);
      assert items[..n][1..] == items[1..][..n - 1] && items[n..] == items[1..][n - 1..];
    }
  }

  /** The first mark behind some fields is the one that ends them. */
  lemma {:induction false} MarkBehind(fields: seq<Item>, rest: seq<Item>)
    requires Fields(fields)
    ensures var items := fields + [StructEnd] + rest; HasMark(items) && UpToMark(items) == |StreamBytes(fields)| + 1
    decreases |fields|
  {
    hide GoodItem, ItemBytes;
    var items := fields + [StructEnd] + rest;
    if fields == [] {
      MarkBytes(StructEnd);
      assert items[0] == StructEnd;
    } else {
      MarkBehind(fields[1..], rest);
      assert items[0] == fields[0] && items[1..] == fields[1..] + [StructEnd] + rest;
    }
  }

  /** These items are left, and the first mark among them ends at the given place. */
  ghost predicate Left(data: seq<Byte>, at: nat, left: seq<Item>, end: nat)
  {
    Rest(data, at, left) && HasMark(left) && at + UpToMark(left) == end
  }

  /** The reader is in a structure that ends at the given place, with these items left, or just behind it. */
  ghost predicate Inside(data: seq<Byte>, r: Reader, left: seq<Item>, end: nat)
  {
    !r.skip && if r.struck then r.at == end else Left(data, r.at, left, end)
  }

  /** One structure at the front of what is left. */
  lemma StructParts(data: seq<Byte>, at: nat, fields: seq<Item>, rest: seq<Item>, n: nat)
    requires Fields(fields) && n <= |fields| && Rest(data, at, fields + [StructEnd] + rest)
    ensures Has(data, at, StreamBytes(fields) + [STRUCT_END_MARK])
    ensures Rest(data, at + |StreamBytes(fields)| + 1, rest)
    ensures Left(data, at + |StreamBytes(fields[..n])|, fields[n..] + [StructEnd] + rest, at + |StreamBytes(fields)|
      + 1)
  {
    hide ItemBytes, GoodItem, Rest, StreamBytes, Has, HasMark, UpToMark;
    FieldsDrop(fields, n);
    MarkBehind(fields[n..], rest);
    var items := fields + [StructEnd] + rest;
    var ended := fields + [StructEnd];
    RestDrop(data, at, items, n);
    assert items[..n] == fields[..n] && items[n..] == fields[n..] + [StructEnd] + rest;
    RestDrop(data, at, items, |ended|);
    assert items[..|ended|] == ended && items[|ended|..] == rest;
    StreamSnoc(fields, StructEnd);
    MarkBytes(StructEnd);
    RestHas(data, at, items);
    StreamJoin(ended, rest);
    HasSplit(data, at, StreamBytes(ended), StreamBytes(rest));
    assert fields == fields[..n] + fields[n..];
    StreamJoin(fields[..n], fields[n..]);
  }

  lemma RestHas(data: seq<Byte>, at: nat, items: seq<Item>)
    requires Rest(data, at, items)
    ensures Has(data, at, StreamBytes(items))
  {}

  lemma {:induction false} StreamJoin(a: seq<Item>, b: seq<Item>)
    ensures StreamBytes(a + b) == StreamBytes(a) + StreamBytes(b)
    decreases |a|
  {
    hide ItemBytes;
    if a == [] {
      assert a + b == b;
    } else {
      StreamJoin(a[1..], b);
      assert (a + b)[1..] == a[1..] + b;
      assert ItemBytes(a[0]) + (StreamBytes(a[1..]) + StreamBytes(b))
        == ItemBytes(a[0]) + StreamBytes(a[1..]) + StreamBytes(b);
    }
  }

  predicate RoomForTexts(kinds: seq<Kind>)
  {
    forall i :: 0 <= i < |kinds| && kinds[i].WantText? ==> kinds[i].room > 0
  }

  /** One structure, its marks in force: the reads give its fields, and TrytoMoveStructEnd then leaves the reader at the
      first item of the next structure, whether fields are left or one read was too many. Without any read it would
      not move a reader that still reports the mark before. */
  method ReadStruct(r: ReadStream, kinds: seq<Kind>, ghost fields: seq<Item>, ghost rest: seq<Item>)
    returns (got: seq<Got>, moved: bool)
    requires r.Valid() && !r.skipEndMarker && !r.skipEndAll && (kinds == [] ==> !r.struckEnd)
    requires Fields(fields) && FitFields(kinds, fields) && RoomForTexts(kinds)
    requires Rest(r.data, r.op, fields + [StructEnd] + rest)
    modifies r`op, r`struckEnd, r`skipEndMarker
    ensures r.Valid() && moved && FieldsGot(got, fields, |kinds|)
    ensures r.op == old(r.op) + |StreamBytes(fields)| + 1 && r.struckEnd && !r.skipEndMarker
    ensures Rest(r.data, r.op, rest)
  {
    ghost var left;
    got, left := ReadFields(r, kinds, fields, rest, if |kinds| < |fields| then |kinds| else |fields|);
    hide Rest, Inside, Left, Fields, FieldsGot, StreamBytes, FitFields, RoomForTexts, Has, AllPlain, HasMark, UpToMark,
         ItemBytes, IsValue, ValueOf;
    moved := MoveOut(r, left, old(r.op) + |StreamBytes(fields)| + 1);
  }

  /** To the end of the structure that the reader is in. */
  method MoveOut(r: ReadStream, ghost left: seq<Item>, ghost end: nat) returns (moved: bool)
    requires r.Valid() && !r.skipEndAll && Inside(r.data, r.State(), left, end)
    modifies r`op, r`struckEnd, r`skipEndMarker
    ensures r.Valid() && moved && r.State() == Reader(end, true, false)
  {
    hide Rest, HasMark, UpToMark;
    moved := TrytoMoveStructEnd(r, left);
  }

  method ReadFields(r: ReadStream, kinds: seq<Kind>, ghost fields: seq<Item>, ghost rest: seq<Item>, ghost n: nat)
    returns (got: seq<Got>, ghost left: seq<Item>)
    requires r.Valid() && !r.skipEndMarker && !r.skipEndAll && (kinds == [] ==> !r.struckEnd)
    requires Fields(fields) && FitFields(kinds, fields) && RoomForTexts(kinds)
    requires Rest(r.data, r.op, fields + [StructEnd] + rest) && n == if |kinds| < |fields| then |kinds| else |fields|
    modifies r`op, r`struckEnd, r`skipEndMarker
    ensures r.Valid() && FieldsGot(got, fields, |kinds|)
    ensures Inside(r.data, r.State(), left, old(r.op) + |StreamBytes(fields)| + 1)
    ensures Rest(r.data, old(r.op) + |StreamBytes(fields)| + 1, rest)
  {
    hide Rest, Fields, FieldsGot, ReadRun, ReadOne, StreamBytes, FitFields, Inside, Behind, Has;
    ghost var start := r.State();
    FieldsHere(r.data, r.op, fields, rest);
    FieldsReadBack(r.data, start, fields, kinds);
    got := ReadAll(r, kinds);
    left := fields[n..] + [StructEnd] + rest;
    StructInside(r.data, start, r.State(), fields, rest, kinds, n, left, start.at + |StreamBytes(fields)| + 1);
  }

  lemma FieldsHere(data: seq<Byte>, at: nat, fields: seq<Item>, rest: seq<Item>)
    requires Fields(fields) && Rest(data, at, fields + [StructEnd] + rest)
    ensures Has(data, at, StreamBytes(fields) + [STRUCT_END_MARK])
  {
    hide *;
    StructParts(data, at, fields, rest, |fields|);
  }

  /** What is left of a structure behind the reads. */
  lemma StructInside(data: seq<Byte>, r: Reader, r': Reader, fields: seq<Item>, rest: seq<Item>, kinds: seq<Kind>,
                     n: nat, left: seq<Item>, end: nat)
    requires Fields(fields) && FitFields(kinds, fields) && !r.skip && (kinds == [] ==> !r.struck)
    requires Rest(data, r.at, fields + [StructEnd] + rest) && n == if |kinds| < |fields| then |kinds| else |fields|
    requires Behind(r, r', fields, |kinds|)
    requires n <= |fields| && left == fields[n..] + [StructEnd] + rest && end == r.at + |StreamBytes(fields)| + 1
    ensures Rest(data, end, rest) && Inside(data, r', left, end)
  {
    hide Fields, FitFields, Rest, StreamBytes, Has, Left, Behind;
    StructParts(data, r.at, fields, rest, n);
    BehindIs(r, r', fields, kinds, n);
  }

  lemma BehindIs(r: Reader, r': Reader, fields: seq<Item>, kinds: seq<Kind>, n: nat)
    requires FitFields(kinds, fields) && !r.skip && (kinds == [] ==> !r.struck)
    requires Behind(r, r', fields, |kinds|) && n == if |kinds| < |fields| then |kinds| else |fields|
    ensures n <= |fields|
    ensures |kinds| <= |fields| ==> r' == Reader(r.at + |StreamBytes(fields[..n])|, false, false)
    ensures |kinds| > |fields| ==> r' == Reader(r.at + |StreamBytes(fields)| + 1, true, false)
  {
    hide StreamBytes;
    if |kinds| == 0 { assert fields[..n] == []; StreamNone(); }
    if |kinds| >= |fields| { assert fields[..n] == fields; }
  }

  lemma FieldsDrop(fields: seq<Item>, n: nat)
    requires Fields(fields) && n <= |fields|
    ensures Fields(fields[n..])
  {}

  /** Structures one behind the other, each with its end mark. */
  ghost function Joined(structs: seq<seq<Item>>): seq<Item>
    decreases |structs|
  {
    if structs == [] then [] else structs[0] + [StructEnd] + Joined(structs[1..])
  }

  /** What is wanted of each structure fits it, and of each but the first something is wanted. */
  ghost predicate Wanted(wants: seq<seq<Kind>>, structs: seq<seq<Item>>)
  {
    |wants| == |structs| && forall i :: 0 <= i < |structs| ==> WantedOf(wants, structs, i)
  }

  ghost predicate WantedOf(wants: seq<seq<Kind>>, structs: seq<seq<Item>>, i: nat)
    requires i < |wants| && i < |structs|
  {
    Fields(structs[i]) && FitFields(wants[i], structs[i]) && RoomForTexts(wants[i]) && (i > 0 ==> wants[i] != [])
  }

  ghost predicate GotOf(got: seq<seq<Got>>, wants: seq<seq<Kind>>, structs: seq<seq<Item>>, i: nat)
    requires i < |got| && i < |wants| && i < |structs|
  {
    Fields(structs[i]) && FieldsGot(got[i], structs[i], |wants[i]|)
  }

  lemma JoinedNext(structs: seq<seq<Item>>, i: nat)
    requires i < |structs|
    ensures Joined(structs[i..]) == structs[i] + [StructEnd] + Joined(structs[i + 1..])
  {
    assert structs[i..][0] == structs[i] && structs[i..][1..] == structs[i + 1..];
  }

  /** A stream of structures, read one by one: whatever fields are wanted of each, and be it one more than it has, the
      reads of a structure give its own fields, and the stream is read to its end. */
  method ReadStructs(r: ReadStream, wants: seq<seq<Kind>>, ghost structs: seq<seq<Item>>)
    returns (got: seq<seq<Got>>)
    requires r.Valid() && !r.struckEnd && !r.skipEndMarker && !r.skipEndAll
    requires Wanted(wants, structs) && Rest(r.data, r.op, Joined(structs))
    modifies r`op, r`struckEnd, r`skipEndMarker
    ensures r.Valid() && |got| == |wants| && forall i :: 0 <= i < |wants| ==> GotOf(got, wants, structs, i)
    ensures r.op == |r.data|
  {
    hide Rest, Fields, FitFields, FieldsGot, RoomForTexts, StreamBytes, Joined;
    got := [];
    assert structs[0..] == structs;
    for i := 0 to |wants|
      invariant r.Valid() && !r.skipEndMarker && |got| == i && (i == 0 ==> !r.struckEnd)
      invariant Rest(r.data, r.op, Joined(structs[i..]))
      invariant forall j :: 0 <= j < i ==> GotOf(got, wants, structs, j)
    {
      JoinedNext(structs, i);
      assert WantedOf(wants, structs, i);
      var one, _ := ReadStruct(r, wants[i], structs[i], Joined(structs[i + 1..]));
      GotSnoc(got, one, wants, structs, i);
      got := got + [one];
    }
    NothingJoined(structs);
    RestNone(r.data, r.op);
  }

  lemma GotSnoc(got: seq<seq<Got>>, one: seq<Got>, wants: seq<seq<Kind>>, structs: seq<seq<Item>>, i: nat)
    requires |got| == i < |wants| == |structs| && forall j :: 0 <= j < i ==> GotOf(got, wants, structs, j)
    requires Fields(structs[i]) && FieldsGot(one, structs[i], |wants[i]|)
    ensures forall j :: 0 <= j <= i ==> GotOf(got + [one], wants, structs, j)
  {
    hide Fields, FieldsGot;
    forall j | 0 <= j <= i
      ensures GotOf(got + [one], wants, structs, j)
    {
      if j < i { assert GotOf(got, wants, structs, j); }
    }
  }

  lemma NothingJoined(structs: seq<seq<Item>>)
    ensures Joined(structs[|structs|..]) == []
  {}

  lemma RestNone(data: seq<Byte>, at: nat)
    requires Rest(data, at, [])
    ensures at == |data|
  {}

  /** The items of the structures can be written, and can be told apart again. */
  lemma {:induction false} JoinedGood(structs: seq<seq<Item>>)
    requires forall i :: 0 <= i < |structs| ==> Fields(structs[i])
    ensures var items := Joined(structs); AllPlain(items) && forall i :: 0 <= i < |items| ==> Writable(items[i])
    decreases |structs|
  {
    hide Fields, Writable;
    if structs != [] {
      JoinedGood(structs[1..]);
      FieldsPlain(structs[0], [StructEnd] + Joined(structs[1..]));
      EndPlain(Joined(structs[1..]));
      assert structs[0] + [StructEnd] + Joined(structs[1..]) == structs[0] + ([StructEnd] + Joined(structs[1..]));
    }
  }

  lemma EndPlain(rest: seq<Item>)
    requires AllPlain(rest)
    ensures AllPlain([StructEnd] + rest) && Writable(StructEnd)
  {
    assert ([StructEnd] + rest)[1..] == rest;
  }

  lemma {:induction false} FieldsPlain(fields: seq<Item>, rest: seq<Item>)
    requires Fields(fields)
    ensures AllPlain(rest) ==> AllPlain(fields + rest)
    ensures forall i :: 0 <= i < |fields| ==> Writable(fields[i])
    decreases |fields|
  {
    if fields == [] {
      assert fields + rest == rest;
    } else {
      FieldsPlain(fields[1..], rest);
      assert (fields + rest)[1..] == fields[1..] + rest;
    }
  }

  /** From one end to the other, with the marks in force: a reader that knows more or fewer fields of the structures
      than
      were written gets those that there are. */
  method TransmitStructs(structs: seq<seq<Item>>, items: seq<Item>, wants: seq<seq<Kind>>, capacity: nat)
    returns (ok: bool, got: seq<seq<Got>>)
    requires items == Joined(structs) && Wanted(wants, structs)
    ensures ok <==> |StreamBytes(Joined(structs))| <= capacity
    ensures ok ==> |got| == |wants| && forall i :: 0 <= i < |wants| ==> GotOf(got, wants, structs, i)
  {
    forall i | 0 <= i < |structs| ensures Fields(structs[i]) { assert WantedOf(wants, structs, i); }
    JoinedGood(structs);
    hide Fields, Wanted, Joined, StreamBytes, AllPlain;
    var buf := new Byte[capacity];
    var w := new WriteStream(buf);
    got := [];
    ok := WriteItems(w, items);
    if ok {
      var data := buf[..w.op];
      assert data == StreamBytes(items);
      var r := new ReadStream(data);
      RestAll(data, items);
      got := ReadStructs(r, wants, structs);
    }
  }

  lemma RestAll(data: seq<Byte>, items: seq<Item>)
    requires data == StreamBytes(items) && AllPlain(items)
    ensures Rest(data, 0, items)
  {}

  /** The commands: a marker of type 11 switches the skipping of end marks on, one of type 12 off. */
  lemma CommandRead(data: seq<Byte>, r: Reader, skipAll: bool, k: Kind)
    requires r.at < |data|
    ensures 0xb0 <= data[r.at] <= 0xbf ==>
      ReadOne(data, r, skipAll, k) == ReadOne(data, Reader(r.at + 1, r.struck, true), skipAll, k)
    ensures 0xc0 <= data[r.at] <= 0xcf ==>
      ReadOne(data, r, skipAll, k) == ReadOne(data, Reader(r.at + 1, r.struck, false), skipAll, k)
  {}

  /** A run of reads does not depend on whether the reader reports a mark. */
  lemma RunUnstruck(data: seq<Byte>, r: Reader, kinds: seq<Kind>, at: nat, skip: bool)
    requires kinds != [] && r.at <= |data| && at <= |data|
    requires ReadOne(data, r, false, kinds[0]) == ReadOne(data, Reader(at, false, skip), false, kinds[0])
    ensures ReadRun(data, r, false, kinds) == ReadRun(data, Reader(at, false, skip), false, kinds)
  {
    hide ReadOne;
    RunCons(data, r, false, kinds);
    RunCons(data, Reader(at, false, skip), false, kinds);
  }

  /** While the marks are switched off, fitting reads give the values of the items, marks or no marks between them, and
      the reads after those find the rest. */
  lemma {:induction false} SectionReads(data: seq<Byte>, r: Reader, items: seq<Item>, kinds: seq<Kind>,
                                        more: seq<Kind>)
    requires r.skip && more != [] && Has(data, r.at, StreamBytes(items)) && GoodItems(items) && FitAll(kinds, items)
    ensures PassesOver(data, r, items, kinds, more)
    decreases |items|
  {
    HasSlice(data, r.at, StreamBytes(items));
    hide *;
    if items == [] {
      SectionEnd(data, r, items, kinds, more);
    } else if items[0].StructEnd? {
      SectionMark(data, r, items, kinds, more);
      SectionReads(data, Reader(r.at + 1, false, true), items[1..], kinds, more);
      PassedMark(data, r, items, kinds, more);
    } else {
      SectionNext(data, r.at, items, kinds);
      SectionReads(data, Reader(r.at + |ItemBytes(items[0])|, false, true), items[1..], kinds[1..], more);
      PassedValue(data, r, items, kinds, more);
    }
  }

  /** The reads give the values of the items, and then what the others give behind them. */
  ghost predicate PassesOver(data: seq<Byte>, r: Reader, items: seq<Item>, kinds: seq<Kind>, more: seq<Kind>)
  {
    && r.at + |StreamBytes(items)| <= |data|
    && Prefixed(ReadRun(data, r, false, kinds + more), ValuesOf(items),
         ReadRun(data, Reader(r.at + |StreamBytes(items)|, false, true), false, more))
  }

  lemma PassedMark(data: seq<Byte>, r: Reader, items: seq<Item>, kinds: seq<Kind>, more: seq<Kind>)
    requires items != [] && |StreamBytes(items)| == 1 + |StreamBytes(items[1..])|
    requires ValuesOf(items) == ValuesOf(items[1..])
    requires PassesOver(data, Reader(r.at + 1, false, true), items[1..], kinds, more) && r.at + 1 <= |data|
    requires ReadRun(data, r, false, kinds + more) == ReadRun(data, Reader(r.at + 1, false, true), false, kinds + more)
    ensures PassesOver(data, r, items, kinds, more)
  {
    hide ReadRun, StreamBytes, ValuesOf, Prefixed;
  }

  lemma PassedValue(data: seq<Byte>, r: Reader, items: seq<Item>, kinds: seq<Kind>, more: seq<Kind>)
    requires r.skip && items != [] && !items[0].StructEnd? && Has(data, r.at, StreamBytes(items))
    requires GoodItems(items) && FitAll(kinds, items) && kinds != []
    requires PassesOver(data, Reader(r.at + |ItemBytes(items[0])|, false, true), items[1..], kinds[1..], more)
    ensures PassesOver(data, r, items, kinds, more)
  {
    hide *;
    SectionBytes(data, r.at, items);
    SectionFits(items, kinds);
    ItemPassed(data, r, items, kinds, more);
  }

  lemma ItemPassed(data: seq<Byte>, r: Reader, items: seq<Item>, kinds: seq<Kind>, more: seq<Kind>)
    requires r.skip && items != [] && kinds != [] && GoodItem(items[0]) && IsValue(items[0]) && Fits(kinds[0], items[0])
    requires var n := |ItemBytes(items[0])|;
      && r.at + n <= |data| && Has(data, r.at, ItemBytes(items[0]))
      && |StreamBytes(items)| == n + |StreamBytes(items[1..])|
      && PassesOver(data, Reader(r.at + n, false, true), items[1..], kinds[1..], more)
    requires ValuesOf(items) == [Got(ValueOf(items[0]))] + ValuesOf(items[1..])
    ensures PassesOver(data, r, items, kinds, more)
  {
    hide ReadRun, StreamBytes, ValuesOf, Prefixed, ItemBytes, GoodItem, IsValue, ValueOf, Fits, Has;
    HeadApart(kinds, more);
    var next := Reader(r.at + |ItemBytes(items[0])|, false, true);
    SectionRead(data, r, items[0], kinds[0], kinds[1..] + more);
    PrefixedCons(ReadRun(data, r, false, kinds + more), Got(ValueOf(items[0])),
      ReadRun(data, next, false, kinds[1..] + more), ValuesOf(items[1..]),
      ReadRun(data, Reader(r.at + |StreamBytes(items)|, false, true), false, more));
  }

  /** One run gives these values and then what the other one gives. */
  ghost predicate Prefixed(a: (seq<Got>, Reader), values: seq<Got>, b: (seq<Got>, Reader))
  {
    a == (values + b.0, b.1)
  }

  lemma PrefixedCons(a: (seq<Got>, Reader), v: Got, b: (seq<Got>, Reader), values: seq<Got>, c: (seq<Got>, Reader))
    requires Prefixed(a, [v], b) && Prefixed(b, values, c)
    ensures Prefixed(a, [v] + values, c)
  {
    assert [v] + (values + c.0) == [v] + values + c.0;
  }

  lemma SectionEnd(data: seq<Byte>, r: Reader, items: seq<Item>, kinds: seq<Kind>, more: seq<Kind>)
    requires r.skip && more != [] && items == [] && FitAll(kinds, items) && r.at <= |data|
    ensures PassesOver(data, r, items, kinds, more)
  {
    assert kinds + more == more;
    SameRead(data, r, more[0]);
    hide ReadOne, ReadRun;
    RunUnstruck(data, r, more, r.at, true);
    var rest := ReadRun(data, Reader(r.at, false, true), false, more);
    assert [] + rest.0 == rest.0;
  }

  lemma SectionMark(data: seq<Byte>, r: Reader, items: seq<Item>, kinds: seq<Kind>, more: seq<Kind>)
    requires r.skip && more != [] && Has(data, r.at, StreamBytes(items)) && GoodItems(items) && FitAll(kinds, items)
    requires items != [] && items[0].StructEnd?
    ensures Has(data, r.at + 1, StreamBytes(items[1..])) && |StreamBytes(items)| == 1 + |StreamBytes(items[1..])|
    ensures GoodItems(items[1..]) && FitAll(kinds, items[1..]) && ValuesOf(items) == ValuesOf(items[1..])
    ensures r.at + 1 <= |data|
    ensures ReadRun(data, r, false, kinds + more) == ReadRun(data, Reader(r.at + 1, false, true), false, kinds + more)
  {
    hide ReadOne, ReadRun, ItemBytes, GoodItem, Fits, Has;
    HasSplit(data, r.at, ItemBytes(items[0]), StreamBytes(items[1..]));
    SkippedMark(data, r, items[0], (kinds + more)[0]);
    RunUnstruck(data, r, kinds + more, r.at + 1, true);
  }

  lemma HeadApart(kinds: seq<Kind>, more: seq<Kind>)
    requires kinds != []
    ensures kinds + more == [kinds[0]] + (kinds[1..] + more)
  {}

  lemma SectionRead(data: seq<Byte>, r: Reader, i: Item, k: Kind, more: seq<Kind>)
    requires r.skip && GoodItem(i) && IsValue(i) && Fits(k, i) && Has(data, r.at, ItemBytes(i))
    ensures r.at + |ItemBytes(i)| <= |data|
    ensures Prefixed(ReadRun(data, r, false, [k] + more), [Got(ValueOf(i))],
              ReadRun(data, Reader(r.at + |ItemBytes(i)|, false, true), false, more))
  {
    hide ReadOne, ReadRun, ItemBytes, GoodItem, IsValue, ValueOf, Fits, Has;
    HasSlice(data, r.at, ItemBytes(i));
    ItemReadsBack(data, r, false, i, k);
    RunCons(data, r, false, [k] + more);
    assert ([k] + more)[1..] == more;
  }

  lemma SectionBytes(data: seq<Byte>, at: nat, items: seq<Item>)
    requires items != [] && Has(data, at, StreamBytes(items))
    ensures var n := |ItemBytes(items[0])|;
      && at + n <= |data| && Has(data, at, ItemBytes(items[0])) && Has(data, at + n, StreamBytes(items[1..]))
      && |StreamBytes(items)| == n + |StreamBytes(items[1..])|
  {
    hide ItemBytes, Has;
    HasSplit(data, at, ItemBytes(items[0]), StreamBytes(items[1..]));
    HasSlice(data, at, ItemBytes(items[0]));
  }

  lemma SectionNext(data: seq<Byte>, at: nat, items: seq<Item>, kinds: seq<Kind>)
    requires items != [] && !items[0].StructEnd? && Has(data, at, StreamBytes(items))
    requires GoodItems(items) && FitAll(kinds, items)
    ensures kinds != [] && Has(data, at + |ItemBytes(items[0])|, StreamBytes(items[1..]))
    ensures GoodItems(items[1..]) && FitAll(kinds[1..], items[1..])
  {
    hide *;
    SectionBytes(data, at, items);
    SectionFits(items, kinds);
  }

  lemma SectionFits(items: seq<Item>, kinds: seq<Kind>)
    requires items != [] && !items[0].StructEnd? && GoodItems(items) && FitAll(kinds, items)
    ensures kinds != [] && GoodItems(items[1..]) && FitAll(kinds[1..], items[1..]) && IsValue(items[0])
    ensures GoodItem(items[0]) && Fits(kinds[0], items[0])
    ensures ValuesOf(items) == [Got(ValueOf(items[0]))] + ValuesOf(items[1..])
  {}

  lemma SameRead(data: seq<Byte>, r: Reader, k: Kind)
    requires r.at <= |data|
    ensures ReadOne(data, r, false, k) == ReadOne(data, Reader(r.at, false, r.skip), false, k)
  {}

  lemma SkippedMark(data: seq<Byte>, r: Reader, i: Item, k: Kind)
    requires r.skip && i.StructEnd? && Has(data, r.at, ItemBytes(i))
    ensures |ItemBytes(i)| == 1 && r.at < |data|
    ensures ReadOne(data, r, false, k) == ReadOne(data, Reader(r.at + 1, false, true), false, k)
  {
    MarkBytes(i);
    MarkAt(data, r.at);
  }

  lemma Switched(data: seq<Byte>, r: Reader, b: Byte, s: seq<Byte>, kinds: seq<Kind>)
    requires Has(data, r.at, [b] + s) && 0xb0 <= b <= 0xcf && kinds != []
    ensures r.at + 1 <= |data| && Has(data, r.at + 1, s)
    ensures ReadRun(data, r, false, kinds) == ReadRun(data, Reader(r.at + 1, false, b <= 0xbf), false, kinds)
  {
    hide ReadOne, ReadRun;
    HasFirst(data, r.at, [b] + s);
    assert ([b] + s)[1..] == s;
    CommandRead(data, r, false, kinds[0]);
    SameRead(data, Reader(r.at + 1, r.struck, b <= 0xbf), kinds[0]);
    RunUnstruck(data, r, kinds, r.at + 1, b <= 0xbf);
  }

  /** A stream with commands: between a command that switches the marks off and one that switches them on, the fitting
      reads give the values of the items with the marks among them passed over; behind it a structure is read with its
      mark in force. */
  lemma CommandsReadBack(data: seq<Byte>, r: Reader, off: Byte, items: seq<Item>, kinds: seq<Kind>, on: Byte,
                         fields: seq<Item>, wants: seq<Kind>)
    requires 0xb0 <= off <= 0xbf && 0xc0 <= on <= 0xcf && wants != []
    requires GoodItems(items) && FitAll(kinds, items) && Fields(fields) && FitFields(wants, fields)
    requires Has(data, r.at, [off] + (StreamBytes(items) + ([on] + (StreamBytes(fields) + [STRUCT_END_MARK]))))
    ensures r.at <= |data|
    ensures var res := ReadRun(data, r, false, kinds + wants);
      var n, start := |ValuesOf(items)|, Reader(r.at + |StreamBytes(items)| + 2, false, false);
      && n <= |res.0| && res.0[..n] == ValuesOf(items)
      && FieldsGot(res.0[n..], fields, |wants|) && Behind(start, res.1, fields, |wants|)
  {
    hide ReadOne, ReadRun, ItemBytes, StreamBytes, Fits, GoodItems, FitAll, Fields, FitFields, FieldsGot, Behind, Has;
    var last: seq<Byte> := StreamBytes(fields) + [STRUCT_END_MARK];
    var mid := StreamBytes(items);
    Switched(data, r, off, mid + ([on] + last), kinds + wants);
    HasSplit(data, r.at + 1, mid, [on] + last);
    SectionReads(data, Reader(r.at + 1, false, true), items, kinds, wants);
    Switched(data, Reader(r.at + 1 + |mid|, false, true), on, last, wants);
    FieldsReadBack(data, Reader(r.at + |mid| + 2, false, false), fields, wants);
  }
}
