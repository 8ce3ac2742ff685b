/** The ring buffer of recbuf.c and the byte queue that it implements. */
module RingBuffer {
  import opened Words
  import opened Slices
  import opened Buffers

  const C_BUF_SIZE: nat := 0x10000

  /** EBUF_ALL moves as much as there is room or data for; EBUF_SPECIFIED moves everything or nothing. */
  datatype Flag = All | Specified

  /** How much an operation moves, given how much it could; -1 when it refuses. */
  function Amount(asked: nat, possible: nat, flag: Flag): int
  {
    if asked <= possible then asked else if flag == Specified then -1 else possible
  }

  /** The bytes between two offsets, going round the end of the buffer if need be. */
  ghost function Between(buf: seq<Byte>, start: nat, end: nat): (r: seq<Byte>)
    requires start <= |buf| && end <= |buf|
    ensures |r| == if end >= start then end - start else |buf| - (start - end)
  {
    if end >= start then buf[start..end] else buf[start..] + buf[..end]
  }

  /** Data written at the end offset, going round if need be. */
  ghost function Stored(buf: seq<Byte>, end: nat, data: seq<Byte>): (r: seq<Byte>)
    requires end <= |buf| && |data| <= |buf|
    ensures |r| == |buf|
  {
    var tail := |buf| - end;
    if tail >= |data| then buf[..end] + data + buf[end + |data|..]
    else data[tail..] + buf[|data| - tail..end] + data[..tail]
  }

  ghost function Advanced(n: nat, at: nat, k: nat): (r: nat)
    requires at < n && k <= n
    ensures r < n
  {
    if at + k >= n then at + k - n else at + k
  }

  /** Storing behind the contents appends to them. */
  lemma StoredBetween(buf: seq<Byte>, start: nat, end: nat, data: seq<Byte>)
    requires start < |buf| && end < |buf| && |data| + |Between(buf, start, end)| < |buf|
    ensures Between(Stored(buf, end, data), start, Advanced(|buf|, end, |data|)) == Between(buf, start, end) + data
  {
    if end < start {
      StoredWrapped(buf, start, end, data);
    } else if |buf| - end > |data| {
      StoredInLine(buf, start, end, data);
    } else {
      StoredAround(buf, start, end, data);
    }
  }

  lemma StoredWrapped(buf: seq<Byte>, start: nat, end: nat, data: seq<Byte>)
    requires end + |data| < start < |buf|
    ensures Between(Stored(buf, end, data), start, end + |data|) == buf[start..] + buf[..end] + data
  {
    var buf' := buf[..end] + data + buf[end + |data|..];
    assert Stored(buf, end, data) == buf';
    assert buf'[start..] == buf[start..];
    assert buf'[..end + |data|] == buf[..end] + data;
  }

  lemma StoredInLine(buf: seq<Byte>, start: nat, end: nat, data: seq<Byte>)
    requires start <= end && end + |data| < |buf|
    ensures Between(Stored(buf, end, data), start, end + |data|) == buf[start..end] + data
  {
    var buf' := buf[..end] + data + buf[end + |data|..];
    assert Stored(buf, end, data) == buf';
    assert buf'[start..end + |data|] == buf[start..end] + data;
  }

  lemma StoredAround(buf: seq<Byte>, start: nat, end: nat, data: seq<Byte>)
    requires start <= end < |buf| && |buf| <= end + |data| < |buf| + start
    ensures Between(Stored(buf, end, data), start, end + |data| - |buf|) == buf[start..end] + data
  {
    var buf', end', tail := Stored(buf, end, data), end + |data| - |buf|, |buf| - end;
    if tail == |data| {
      assert buf' == buf[..end] + data;
      assert buf'[start..] == buf[start..end] + data;
    } else {
      var lo, mid, hi := data[tail..], buf[end'..end], data[..tail];
      assert buf' == lo + mid + hi;
      hide *;
      ThreeParts(lo, mid, hi, start);
      assert mid[start - end'..] == buf[start..end];
      AroundJoin(buf[start..end], hi, lo);
      assert hi + lo == data;
    }
  }

  lemma ThreeParts(lo: seq<Byte>, mid: seq<Byte>, hi: seq<Byte>, at: nat)
    requires |lo| <= at <= |lo| + |mid|
    ensures (lo + mid + hi)[..|lo|] == lo && (lo + mid + hi)[at..] == mid[at - |lo|..] + hi
  {}

  lemma AroundJoin(a: seq<Byte>, b: seq<Byte>, c: seq<Byte>)
    ensures (a + b) + c == a + (b + c)
  {}

  /** Moving the start offset forward drops the front of the contents. */
  lemma AdvancedBetween(buf: seq<Byte>, start: nat, end: nat, k: nat)
    requires start < |buf| && end < |buf| && k <= |Between(buf, start, end)|
    ensures Between(buf, Advanced(|buf|, start, k), end) == Between(buf, start, end)[k..]
  {
    var all := Between(buf, start, end);
    if end < start && start + k >= |buf| {
      assert all[k..] == buf[start + k - |buf|..end];
    } else if end < start {
      assert all[k..] == buf[start + k..] + buf[..end];
    }
  }

  /** The front of the contents, as they lie in the buffer. */
  lemma FrontBetween(buf: seq<Byte>, start: nat, end: nat, k: nat)
    requires start < |buf| && end < |buf| && k <= |Between(buf, start, end)|
    ensures Between(buf, start, end)[..k] ==
      if end >= start || start + k <= |buf| then buf[start..start + k] else buf[start..] + buf[..k - (|buf| - start)]
  {}

  class Ring {
    var start: nat
    var end: nat
    const buf: array<Byte>

    ghost predicate Valid()
      reads this
    {
      buf.Length == C_BUF_SIZE && start < C_BUF_SIZE && end < C_BUF_SIZE
    }

    /** The queue: what was written and not read yet, oldest first. */
    ghost function Queue(): (q: seq<Byte>)
      requires Valid()
      reads this, buf
      ensures |q| <= C_BUF_SIZE - 1
    {
      Between(buf[..], start, end)
    }

    /** ndcbuf_init */
    constructor ()
      ensures Valid() && fresh(buf) && Queue() == []
    {
      buf := new Byte[C_BUF_SIZE];
      start, end := 0, 0;
    }

    /** ndcbuf_reset */
    method Reset()
      requires Valid()
      modifies this
      ensures Valid() && Queue() == []
    {
      start, end := 0, 0;
    }

    /** ndcbuf_datalen */
    method DataLen() returns (n: nat)
      requires Valid()
      ensures n == |Queue()|
    {
      if end >= start {
        n := end - start;
      } else {
        n := C_BUF_SIZE - (start - end);
      }
    }

    /** ndcbuf_freespace: one place always stays empty. */
    method FreeSpace() returns (n: nat)
      requires Valid()
      ensures n + |Queue()| == C_BUF_SIZE - 1
    {
      var ret: int;
      if end >= start {
        ret := C_BUF_SIZE - (end - start);
      } else {
        ret := start - end;
      }
      n := ret - 1;
    }

    /** _cbuf_write */
    method Put(data: seq<Byte>) returns (ret: int)
      requires Valid() && |data| + |Queue()| < C_BUF_SIZE
      modifies this`end, buf
      ensures Valid() && ret == |data| && Queue() == old(Queue()) + data
    {
      StoredBetween(buf[..], start, end, data);
      ret := |data|;
      var tail := C_BUF_SIZE - end;
      ghost var was: seq<Byte> := buf[..];
      hide Between;
      if tail >= |data| {
        CopyInto(buf, end, data);
        end := end + |data|;
        if end >= C_BUF_SIZE {
          end := 0;
        }
      } else {
        CopyInto(buf, end, data[..tail]);
        CopyInto(buf, 0, data[tail..]);
        StoredTwice(was, end, data, buf[..]);
        end := |data| - tail;
      }
    }

    /** Reading where the data do not go round the end. */
    method GetInLine(dst: array<Byte>, size: nat)
      requires Valid() && end >= start && size <= end - start && size <= dst.Length && dst != buf
      modifies this, dst
      ensures Valid() && Queue() == old(Queue())[size..] && dst[..] == old(Queue())[..size] + old(dst[size..])
    {
      CopyInto(dst, 0, buf[start..start + size]);
      start := start + size;
      if start == end {
        Reset();
      }
    }

    /** Reading across the end of the buffer. */
    method GetAround(dst: array<Byte>, size: nat)
      requires Valid() && end < start && C_BUF_SIZE - start < size <= C_BUF_SIZE - (start - end) && size <= dst.Length
      requires dst != buf
      modifies this, dst
      ensures Valid() && Queue() == old(Queue())[size..] && dst[..] == old(Queue())[..size] + old(dst[size..])
    {
      var tail := C_BUF_SIZE - start;
      ghost var d: seq<Byte>, all: seq<Byte> := dst[..], buf[..];
      CopyInto(dst, 0, buf[start..]);
      ghost var m: seq<Byte> := dst[..];
      CopyInto(dst, tail, buf[..size - tail]);
      AroundRead(all, start, end, size, d, m, dst[..], all[start..], all[..size - tail]);
      hide Between;
      start := size - tail;
      if start == end {
        NothingBetween(buf[..], end);
        Reset();
      }
    }

    /** _cbuf_read */
    method Get(dst: array<Byte>, size: nat) returns (ret: int)
      requires Valid() && size <= |Queue()| && size <= dst.Length && dst != buf
      modifies this, dst
      ensures Valid() && ret == size && Queue() == old(Queue())[size..]
      ensures dst[..] == old(Queue())[..size] + old(dst[size..])
    {
      ret := size;
      if end >= start {
        GetInLine(dst, size);
        return;
      }
      var tail := C_BUF_SIZE - start;
      if tail >= size {
        AdvancedBetween(buf[..], start, end, size);
        FrontBetween(buf[..], start, end, size);
        hide Between;
        CopyInto(dst, 0, buf[start..start + size]);
        start := start + size;
        if start >= C_BUF_SIZE {
          start := 0;
        }
      } else {
        GetAround(dst, size);
      }
    }

    /** ndcbuf_write: how much goes in, and that it goes to the back of the queue. */
    method Write(data: seq<Byte>, flag: Flag) returns (ret: int)
      requires Valid()
      modifies this`end, buf
      ensures Valid() && (ret, Queue()) == Enqueue(old(Queue()), data, flag)
      ensures flag == Specified ==>
        var fits := |data| + |old(Queue())| < C_BUF_SIZE;
        ret == (if fits then |data| else -1) && Queue() == old(Queue()) + if fits then data else []
      ensures flag == All ==>
        && 0 <= ret <= |data| && Queue() == old(Queue()) + data[..ret]
        && (ret == |data| || |Queue()| == C_BUF_SIZE - 1)
    {
      var space := FreeSpace();
      var len := |data|;
      if flag == Specified {
        if space < len {
          return -1;
        }
      } else if space < len {
        len := space;
      }
      ret := Put(data[..len]);
    }

    /** ndcbuf_read: how much comes out, and that it comes from the front of the queue. */
    method Read(dst: array<Byte>, size0: nat, flag: Flag) returns (ret: int)
      requires Valid() && size0 <= dst.Length && dst != buf
      modifies this, dst
      ensures Valid() && (ret, Queue()) == Dequeue(old(Queue()), size0, flag)
      ensures flag == Specified ==>
        var fits := size0 <= |old(Queue())|;
        ret == (if fits then size0 else -1) && Queue() == old(Queue())[if fits then size0 else 0..]
      ensures flag == All ==>
        && 0 <= ret <= size0 && ret <= |old(Queue())| && Queue() == old(Queue())[ret..]
        && (ret == size0 || Queue() == [])
      ensures ret <= dst.Length
      ensures dst[..] == old(Queue())[..if ret < 0 then 0 else ret] + old(dst[..])[if ret < 0 then 0 else ret..]
    {
      var size := size0;
      var len := DataLen();
      if flag == Specified {
        if len < size {
          return -1;
        }
      } else if len < size {
        size := len;
      }
      ret := Get(dst, size);
    }
  }

  lemma StoredTwice(s: seq<Byte>, end: nat, data: seq<Byte>, r: seq<Byte>)
    requires end <= |s| && |s| - end < |data| <= |s|
    requires var tail := |s| - end;
      var m := s[..end] + data[..tail];
      |m| == |s| && r == data[tail..] + m[|data| - tail..]
    ensures r == Stored(s, end, data)
  {
    var tail := |s| - end;
    var m := s[..end] + data[..tail];
    assert m[|data| - tail..] == s[|data| - tail..end] + data[..tail];
  }

  /** What reading across the end leaves in the destination and in the ring. */
  lemma AroundRead(buf: seq<Byte>, start: nat, end: nat, size: nat, d: seq<Byte>, m: seq<Byte>, r: seq<Byte>,
                   a: seq<Byte>, b: seq<Byte>)
    requires end < start < |buf| && |buf| - start < size <= |buf| - (start - end) && size <= |d|
    requires a == buf[start..] && b == buf[..size - |a|]
    requires m == d[..0] + a + d[0 + |a|..] && r == m[..|a|] + b + m[|a| + |b|..]
    ensures r == Between(buf, start, end)[..size] + d[size..]
    ensures Between(buf, size - (|buf| - start), end) == Between(buf, start, end)[size..]
  {
    hide *;
    CopiedTwice(d, a, b, m, r);
    AdvancedBetween(buf, start, end, size);
    FrontBetween(buf, start, end, size);
  }

  lemma NothingBetween(buf: seq<Byte>, at: nat)
    requires at <= |buf|
    ensures Between(buf, at, at) == []
  {}

  lemma CopiedTwice(d: seq<Byte>, a: seq<Byte>, b: seq<Byte>, m: seq<Byte>, r: seq<Byte>)
    requires |a| + |b| <= |d| && m == d[..0] + a + d[0 + |a|..] && r == m[..|a|] + b + m[|a| + |b|..]
    ensures r == a + b + d[|a| + |b|..]
  {
    assert m == a + d[|a|..];
    assert m[..|a|] == a && m[|a| + |b|..] == d[|a| + |b|..];
  }

  /** What the two operations do to a queue of bounded length. */
  ghost function Enqueue(q: seq<Byte>, data: seq<Byte>, flag: Flag): (int, seq<Byte>)
    requires |q| <= C_BUF_SIZE - 1
  {
    var n := Amount(|data|, C_BUF_SIZE - 1 - |q|, flag);
    if n < 0 then (n, q) else (n, q + data[..n])
  }

  ghost function Dequeue(q: seq<Byte>, size: nat, flag: Flag): (int, seq<Byte>)
  {
    var n := Amount(size, |q|, flag);
    if n < 0 then (n, q) else (n, q[n..])
  }

  datatype Op = WriteOp(data: seq<Byte>, flag: Flag) | ReadOp(size: nat, flag: Flag)

  /** One operation on the queue: the bytes it takes in, the bytes it gives out, and the queue after it. */
  ghost function TakenBy(q: seq<Byte>, op: Op): seq<Byte>
    requires |q| <= C_BUF_SIZE - 1
  {
    match op
    case WriteOp(data, flag) => var n := Amount(|data|, C_BUF_SIZE - 1 - |q|, flag); if n < 0 then [] else data[..n]
    case ReadOp(_, _) => []
  }

  ghost function GivenBy(q: seq<Byte>, op: Op): seq<Byte>
  {
    match op
    case WriteOp(_, _) => []
    case ReadOp(size, flag) => var n := Amount(size, |q|, flag); if n < 0 then [] else q[..n]
  }

  ghost function QueueAfter(q: seq<Byte>, op: Op): (q': seq<Byte>)
    requires |q| <= C_BUF_SIZE - 1
    ensures |q'| <= C_BUF_SIZE - 1
  {
    match op
    case WriteOp(data, flag) => Enqueue(q, data, flag).1
    case ReadOp(size, flag) => Dequeue(q, size, flag).1
  }

  /** The same over a run of operations. */
  ghost function Taken(q: seq<Byte>, ops: seq<Op>): seq<Byte>
    requires |q| <= C_BUF_SIZE - 1
    decreases |ops|
  {
    if ops == [] then [] else TakenBy(q, ops[0]) + Taken(QueueAfter(q, ops[0]), ops[1..])
  }

  ghost function Given(q: seq<Byte>, ops: seq<Op>): seq<Byte>
    requires |q| <= C_BUF_SIZE - 1
    decreases |ops|
  {
    if ops == [] then [] else GivenBy(q, ops[0]) + Given(QueueAfter(q, ops[0]), ops[1..])
  }

  ghost function Left(q: seq<Byte>, ops: seq<Op>): (q': seq<Byte>)
    requires |q| <= C_BUF_SIZE - 1
    ensures |q'| <= C_BUF_SIZE - 1
    decreases |ops|
  {
    if ops == [] then q else Left(QueueAfter(q, ops[0]), ops[1..])
  }

  lemma OneOpFifo(q: seq<Byte>, op: Op)
    requires |q| <= C_BUF_SIZE - 1
    ensures q + TakenBy(q, op) == GivenBy(q, op) + QueueAfter(q, op)
  {}

  /** Over every run, bytes leave in the order in which they entered and none is lost, made up or repeated:
      what was given out, followed by what is still inside, is what was inside at first, followed by what
      was taken in. */
  lemma {:induction false} Fifo(q: seq<Byte>, ops: seq<Op>)
    requires |q| <= C_BUF_SIZE - 1
    ensures q + Taken(q, ops) == Given(q, ops) + Left(q, ops)
    decreases |ops|
  {
    if ops != [] {
      var op, q' := ops[0], QueueAfter(q, ops[0]);
      OneOpFifo(q, op);
      Fifo(q', ops[1..]);
      hide TakenBy, GivenBy, QueueAfter;
      Regroup(q, TakenBy(q, op), Taken(q', ops[1..]), GivenBy(q, op), q', Given(q', ops[1..]), Left(q', ops[1..]));
    }
  }

  lemma Regroup<T>(q: seq<T>, t: seq<T>, ts: seq<T>, g: seq<T>, q': seq<T>, gs: seq<T>, l: seq<T>)
    requires q + t == g + q' && q' + ts == gs + l
    ensures q + (t + ts) == (g + gs) + l
  {
    assert q + (t + ts) == (q + t) + ts;
    assert (g + q') + ts == g + (q' + ts);
    assert g + (gs + l) == (g + gs) + l;
  }

  lemma {:induction false} RunSnoc(q: seq<Byte>, ops: seq<Op>, op: Op)
    requires |q| <= C_BUF_SIZE - 1
    ensures Left(q, ops + [op]) == QueueAfter(Left(q, ops), op)
    ensures Given(q, ops + [op]) == Given(q, ops) + GivenBy(Left(q, ops), op)
    decreases |ops|
  {
    hide GivenBy, QueueAfter;
    var all := ops + [op];
    if ops == [] {
      assert all[1..] == [];
    } else {
      assert all[1..] == ops[1..] + [op];
      RunSnoc(QueueAfter(q, ops[0]), ops[1..], op);
    }
  }

  lemma RunNone(q: seq<Byte>, ops: seq<Op>)
    requires |q| <= C_BUF_SIZE - 1
    ensures Left(q, ops[..0]) == q && Given(q, ops[..0]) == []
  {}

  lemma RunNext(q: seq<Byte>, ops: seq<Op>, i: nat)
    requires |q| <= C_BUF_SIZE - 1 && i < |ops|
    ensures Left(q, ops[..i + 1]) == QueueAfter(Left(q, ops[..i]), ops[i])
    ensures Given(q, ops[..i + 1]) == Given(q, ops[..i]) + GivenBy(Left(q, ops[..i]), ops[i])
  {
    hide *;
    TakeNext(ops, i);
    RunSnoc(q, ops[..i], ops[i]);
  }

  /** One operation on a ring, as on its queue. */
  method Apply(ring: Ring, op: Op) returns (out: seq<Byte>)
    requires ring.Valid()
    modifies ring, ring.buf
    ensures ring.Valid() && ring.Queue() == QueueAfter(old(ring.Queue()), op) && out == GivenBy(old(ring.Queue()), op)
  {
    hide Between;
    out := [];
    match op
    case WriteOp(data, flag) =>
      var _ := ring.Write(data, flag);
    case ReadOp(size, flag) =>
      var dst := new Byte[size];
      var ret := ring.Read(dst, size, flag);
      if ret >= 0 {
        out := dst[..ret];
      }
  }

  /** A run of operations on a ring is that run on its queue. */
  method Run(ring: Ring, ops: seq<Op>) returns (out: seq<Byte>)
    requires ring.Valid()
    modifies ring, ring.buf
    ensures ring.Valid() && ring.Queue() == Left(old(ring.Queue()), ops) && out == Given(old(ring.Queue()), ops)
  {
    ghost var q: seq<Byte> := ring.Queue();
    out := [];
    RunNone(q, ops);
    hide Between, QueueAfter, GivenBy, Left, Given;
    for i := 0 to |ops|
      invariant ring.Valid() && ring.Queue() == Left(q, ops[..i]) && out == Given(q, ops[..i])
    {
      var given := Apply(ring, ops[i]);
      out := out + given;
      RunNext(q, ops, i);
    }
    assert ops[..|ops|] == ops;
  }
}
