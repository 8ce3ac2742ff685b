/** The slot table of node_mgr.c while no other call is under way: accept and deaccept as wholes, and the
    iteration over the slots of one thread. */
module NodeTable {
  import opened NodeSlots

  /** How many slots are in use. */
  ghost function Count(s: seq<Slot>): nat
  {
    if s == [] then 0 else Count(s[..|s| - 1]) + Bit(s[|s| - 1].used > 0)
  }

  predicate Mine(slot: Slot, me: Thread)
  {
    slot.used > 0 && slot.owner == me
  }

  /** The first slot of a thread from an index on, or the end of the table. */
  ghost function NextMine(s: seq<Slot>, me: Thread, from: nat): (i: nat)
    requires from <= |s|
    ensures from <= i <= |s| && (i < |s| ==> Mine(s[i], me))
    ensures forall k :: from <= k < i ==> !Mine(s[k], me)
    decreases |s| - from
  {
    if from == |s| || Mine(s[from], me) then from else NextMine(s, me, from + 1)
  }

  ghost predicate NoneMine(s: seq<Slot>, me: Thread, from: nat, to: nat)
    requires to <= |s|
  {
    forall k :: from <= k < to ==> !Mine(s[k], me)
  }

  lemma NoneMineNext(s: seq<Slot>, me: Thread, from: nat, i: nat)
    requires i < |s| && NoneMine(s, me, from, i) && !Mine(s[i], me)
    ensures NoneMine(s, me, from, i + 1)
  {}

  lemma NextMineHere(s: seq<Slot>, me: Thread, from: nat, i: nat)
    requires from <= i < |s| && NoneMine(s, me, from, i) && Mine(s[i], me)
    ensures NextMine(s, me, from) == i
  {}

  /** No more slots of the thread, when all used ones have been seen. */
  lemma NextMineNone(s: seq<Slot>, me: Thread, from: nat, i: nat)
    requires from <= i <= |s| && NoneMine(s, me, from, i) && (i == |s| || Count(s[..i]) >= Count(s))
    ensures NextMine(s, me, from) == |s|
  {
    CountGrows(s, i);
  }

  /** All slots of a thread in the order of their ids, from an index on. */
  ghost function AllMine(s: seq<Slot>, me: Thread, from: nat): (r: seq<nat>)
    requires from <= |s|
    decreases |s| - from
  {
    var i := NextMine(s, me, from);
    if i == |s| then [] else [i] + AllMine(s, me, i + 1)
  }

  /** The slots of a thread up to the first one whose address is null, where its loop ends. */
  ghost function UpToNull(s: seq<Slot>, me: Thread, from: nat): (r: seq<nat>)
    requires from <= |s|
    decreases |s| - from
  {
    var i := NextMine(s, me, from);
    if i == |s| || s[i].addr == 0 then [] else [i] + UpToNull(s, me, i + 1)
  }

  lemma UpToNullHere(s: seq<Slot>, me: Thread, from: nat, done: seq<nat>)
    requires from <= |s|
    ensures var i := NextMine(s, me, from);
      && (i == |s| || s[i].addr == 0 ==> done + UpToNull(s, me, from) == done)
      && (i < |s| && s[i].addr != 0 ==> done + UpToNull(s, me, from) == (done + [i]) + UpToNull(s, me, i + 1))
  {}

  /** No slot of the thread has the null address. */
  ghost predicate NoNull(s: seq<Slot>, me: Thread, from: nat)
  {
    forall i :: from <= i < |s| && Mine(s[i], me) ==> s[i].addr != 0
  }

  /** The loop visits a first part of the thread's slots, and all of them if and only if none has the null
      address. */
  lemma {:induction false} UpToNullExact(s: seq<Slot>, me: Thread, from: nat)
    requires from <= |s|
    ensures UpToNull(s, me, from) <= AllMine(s, me, from)
    ensures |UpToNull(s, me, from)| == |AllMine(s, me, from)| <==> NoNull(s, me, from)
    decreases |s| - from
  {
    var i := NextMine(s, me, from);
    if i < |s| {
      UpToNullExact(s, me, i + 1);
      assert NoNull(s, me, from) <==> s[i].addr != 0 && NoNull(s, me, i + 1);
    }
  }

  /** AllMine is strictly increasing and holds exactly the slots of the thread. */
  lemma {:induction false} AllMineExact(s: seq<Slot>, me: Thread, from: nat)
    requires from <= |s|
    ensures var r := AllMine(s, me, from);
      && (forall j, k :: 0 <= j < k < |r| ==> r[j] < r[k])
      && (forall i :: i in r <==> from <= i < |s| && Mine(s[i], me))
    decreases |s| - from
  {
    var i := NextMine(s, me, from);
    if i < |s| {
      AllMineExact(s, me, i + 1);
      var rest := AllMine(s, me, i + 1);
      assert forall k :: 0 <= k < |rest| ==> rest[k] in rest;
    }
  }

  lemma {:induction false} CountGrows(s: seq<Slot>, i: nat)
    requires i <= |s|
    ensures Count(s[..i]) <= Count(s)
    ensures Count(s[..i]) == Count(s) ==> forall k :: i <= k < |s| ==> s[k].used <= 0
    decreases |s|
  {
    if i == |s| {
      assert s[..i] == s;
    } else {
      var front := s[..|s| - 1];
      assert front[..i] == s[..i];
      CountGrows(front, i);
    }
  }

  lemma CountNext(s: seq<Slot>, i: nat)
    requires i < |s|
    ensures Count(s[..i + 1]) == Count(s[..i]) + Bit(s[i].used > 0)
  {
    assert s[..i + 1][..i] == s[..i];
  }

  lemma {:induction false} CountBound(s: seq<Slot>)
    ensures Count(s) <= |s|
    decreases |s|
  {
    if s != [] { CountBound(s[..|s| - 1]); }
  }

  lemma {:induction false} CountUpdate(s: seq<Slot>, i: nat, slot: Slot)
    requires i < |s|
    ensures Count(s[i := slot]) == Count(s) + Bit(slot.used > 0) - Bit(s[i].used > 0)
    decreases |s|
  {
    var n := |s| - 1;
    if i < n {
      CountUpdate(s[..n], i, slot);
      assert s[i := slot][..n] == s[..n][i := slot];
    } else {
      assert s[i := slot][..n] == s[..n];
    }
  }

  /** The k-th index of the table in cyclic order from the parameter on. */
  function Cyclic(max: nat, param: nat, k: nat): nat
    requires max > 0
  {
    ((if param < max then param else 0) + k) % max
  }

  /** The k-th index in cyclic order is the first free one, and is taken. */
  ghost predicate TakesAt(max: nat, base: nat, param: nat, before: seq<Slot>, count: int, after: seq<Slot>, count': int,
                          me: Thread, addr: nat, id: nat, k: nat)
    requires |before| == max && k < max
  {
    var j := Cyclic(max, param, k);
    && before[j].used == 0 && (forall i :: 0 <= i < k ==> before[Cyclic(max, param, i)].used != 0)
    && id == base + j && after == before[j := Slot(1, me, addr)] && count' == count + 1
  }

  /** What an accept does: it takes the first free slot, or fails if and only if there is none. */
  ghost predicate Accepts(max: nat, base: nat, param: nat, before: seq<Slot>, count: int, after: seq<Slot>, count': int,
                          me: Thread, addr: nat, id: nat)
    requires |before| == max
  {
    if forall i :: 0 <= i < max ==> before[i].used != 0 then id == 0 && after == before && count' == count
    else exists k: nat :: k < max && TakesAt(max, base, param, before, count, after, count', me, addr, id, k)
  }

  /** What a deaccept does with the slot of an id in range. */
  ghost predicate Frees(base: nat, before: seq<Slot>, count: int, after: seq<Slot>, count': int, id: nat)
  {
    && 0 <= id - base < |before|
    && after == before[id - base := Slot(0, 0, 0)] && count' == count - 1
  }

  class Iterator {
    var nodeId: nat
    var numbers: nat
    var total: nat

    constructor ()
    {
      nodeId, numbers, total := 0, 0, 0;
    }
  }

  class NodeRoot {
    const max: nat
    const base: nat
    const param: nat
    const slots: array<Slot>
    var connectNum: int

    ghost predicate Valid()
      reads this, slots
    {
      && slots.Length == max && 0 < base && base + max <= 0x1_0000
      && (forall i :: 0 <= i < max ==> slots[i].used >= 0)
      && connectNum == Count(slots[..])
    }

    /** nd_node_mgr_create, with its memory at hand. */
    constructor (max: nat, base: nat)
      ensures fresh(slots) && this.max == max && this.base == base && param == 0 && connectNum == 0
      ensures slots[..] == seq(max, _ => Slot(0, 0, 0))
      ensures Valid() <==> 0 < base && base + max <= 0x1_0000
    {
      this.max, this.base, param, connectNum := max, base, 0, 0;
      slots := new Slot[max](_ => Slot(0, 0, 0));
      new;
      assert slots[..] == seq(max, _ => Slot(0, 0, 0));
      NothingUsed(slots[..]);
    }

    /** _nd_node_accept: takes a free slot if there is one. */
    method Accept(me: Thread, addr: nat) returns (id: nat)
      requires Valid()
      modifies this`connectNum, slots
      ensures Valid()
      ensures id == 0 <==> forall i :: 0 <= i < max ==> old(slots[i].used) != 0
      ensures id == 0 ==> slots[..] == old(slots[..]) && connectNum == old(connectNum)
      ensures id != 0 ==> 0 <= id - base < max && old(slots[id - base].used) == 0 &&
                          slots[..] == old(slots[..])[id - base := Slot(1, me, addr)]
      ensures Accepts(max, base, param, old(slots[..]), old(connectNum), slots[..], connectNum, me, addr, id)
    {
      ghost var before: seq<Slot>, count := slots[..], connectNum;
      var index, i := param, 0;
      while i < max
        invariant i <= max && slots[..] == old(slots[..])
        invariant forall k :: 0 <= k < i ==> slots[Tried(max, param, k)].used != 0
        invariant index == Next(max, param, i)
      {
        if index >= max {
          index := 0;
        }
        if slots[index].used == 0 {
          CountUpdate(slots[..], index, Slot(1, me, addr));
          slots[index] := Slot(1, me, addr);
          connectNum := connectNum + 1;
          Taken(max, base, param, before, count, me, addr, i);
          return (index + base) % 0x1_0000;
        }
        i, index := i + 1, index + 1;
      }
      forall j | 0 <= j < max
        ensures slots[j].used != 0
      {
        var k := TriedAt(max, param, j);
        assert slots[Tried(max, param, k)].used != 0;
      }
      id := 0;
    }

    /** _nd_node_deaccept: frees the slot of an id in range, and takes one off the counter even when the slot
        was free; the counter is then too small, and it is right otherwise. */
    method Deaccept(id: nat) returns (ret: int)
      requires Valid()
      modifies this`connectNum, slots
      ensures ret == (if 0 <= id - base < max then 0 else -1)
      ensures Valid() <==> ret == -1 || old(slots[id - base].used) > 0
      ensures connectNum == if ret == 0 then old(connectNum) - 1 else old(connectNum)
      ensures slots[..] == if ret == 0 then old(slots[..])[id - base := Slot(0, 0, 0)] else old(slots[..])
      ensures ret == 0 ==> Frees(base, old(slots[..]), old(connectNum), slots[..], connectNum, id)
    {
      var index := id - base;
      if index < 0 || index >= max {
        return -1;
      }
      CountUpdate(slots[..], index, Slot(0, 0, 0));
      slots[index] := Slot(0, 0, 0);
      connectNum := connectNum - 1;
      ret := 0;
    }

    /** The iterator stands on slot i and has counted the used slots so far. */
    ghost predicate Standing(it: Iterator, i: nat)
      reads this, slots, it
    {
      Valid() && i < max && it.nodeId == base + i && it.numbers == Count(slots[..i + 1]) && it.total == Count(slots[..])
    }

    /** _nd_node_lock_first: the first slot of the caller. */
    method LockFirst(it: Iterator, me: Thread) returns (addr: nat)
      requires Valid()
      modifies it
      ensures Valid()
      ensures var i := NextMine(slots[..], me, 0);
        if i < max then Standing(it, i) && addr == slots[i].addr
        else addr == 0 && (it.nodeId == 0 || it.nodeId == old(it.nodeId))
    {
      ghost var s: seq<Slot> := slots[..];
      CountBound(s);
      if connectNum < 1 {
        NoneUsed(s, 0);
        return 0;
      }
      it.nodeId, it.numbers, it.total := base, 0, connectNum % 0x1_0000;
      for i := 0 to max
        invariant it.nodeId == base + i && it.numbers == Count(s[..i]) && it.total == Count(s)
        invariant NoneMine(s, me, 0, i)
      {
        CountNext(s, i);
        if slots[i].used > 0 {
          it.numbers := it.numbers + 1;
          if slots[i].owner == me {
            NextMineHere(s, me, 0, i);
            return slots[i].addr;
          }
        }
        it.nodeId := it.nodeId + 1;
      }
      it.nodeId := 0;
      addr := 0;
    }

    /** _nd_node_lock_next: the next slot of the caller; stopping when as many used slots have been seen as
        the counter says misses none. */
    method LockNext(it: Iterator, me: Thread, ghost at: nat) returns (addr: nat)
      requires Standing(it, at)
      modifies it
      ensures Valid()
      ensures var i := NextMine(slots[..], me, at + 1);
        if i < max then Standing(it, i) && addr == slots[i].addr else addr == 0 && it.nodeId == 0
    {
      var i := it.nodeId - base;
      i := i + 1;
      it.nodeId := it.nodeId + 1;
      ghost var s: seq<Slot>, total := slots[..], it.total;
      assert slots.Length == max && 0 < base && total == Count(s);
      assert NoneMine(s, me, at + 1, i);
      hide Count, NextMine, Valid, NoneMine;
      while i < max && it.numbers < it.total
        invariant at < i <= max && it.nodeId == base + i && it.numbers == Count(s[..i]) && it.total == total
        invariant NoneMine(s, me, at + 1, i)
      {
        CountNext(s, i);
        if slots[i].used > 0 {
          it.numbers := it.numbers + 1;
          if slots[i].owner == me {
            NextMineHere(s, me, at + 1, i);
            return slots[i].addr;
          }
        }
        NoneMineNext(s, me, at + 1, i);
        i := i + 1;
        it.nodeId := it.nodeId + 1;
      }
      NextMineNone(s, me, at + 1, i);
      it.nodeId := 0;
      addr := 0;
    }

    /** The iterator stands on the first slot of the caller from an index on, or there is none. */
    ghost predicate Found(it: Iterator, me: Thread, from: nat, addr: nat)
      reads this, slots, it
    {
      from <= slots.Length &&
      var i := NextMine(slots[..], me, from);
      if i < slots.Length then Standing(it, i) && addr == slots[i].addr else addr == 0
    }

    ghost predicate Shifted(ids: seq<nat>, indices: seq<nat>)
      reads this
    {
      |ids| == |indices| && forall k :: 0 <= k < |ids| ==> ids[k] == base + indices[k]
    }

    /** The whole iteration visits the slots of the caller up to the first null address, in the order of their
        ids, and so every slot of the caller if and only if none has the null address. */
    method Iterate(it: Iterator, me: Thread) returns (ids: seq<nat>)
      requires Valid()
      modifies it
      ensures Shifted(ids, UpToNull(slots[..], me, 0))
      ensures Shifted(ids, AllMine(slots[..], me, 0)) <==> NoNull(slots[..], me, 0)
    {
      ids := [];
      var addr := LockFirst(it, me);
      ghost var done: seq<nat>, from := [], 0;
      assert Visiting(it, me, ids, done, from, addr);
      hide Visiting;
      while addr != 0
        invariant Visiting(it, me, ids, done, from, addr) && from <= max
        decreases max - from
      {
        ids, addr, done, from := Visit(it, me, ids, addr, done, from);
      }
      Visited(it, me, ids, done, from);
      UpToNullExact(slots[..], me, 0);
    }

    /** The state of the iteration: the ids of the slots in done are collected, and those from an index on are
        still to come. */
    ghost predicate Visiting(it: Iterator, me: Thread, ids: seq<nat>, done: seq<nat>, from: nat, addr: nat)
      reads this, slots, it
    {
      && Valid() && from <= |slots[..]| && Found(it, me, from, addr)
      && UpToNull(slots[..], me, 0) == done + UpToNull(slots[..], me, from) && Shifted(ids, done)
    }

    method Visit(it: Iterator, me: Thread, ids: seq<nat>, addr: nat, ghost done: seq<nat>, ghost from: nat)
      returns (ids': seq<nat>, addr': nat, ghost done': seq<nat>, ghost from': nat)
      requires addr != 0 && Visiting(it, me, ids, done, from, addr)
      modifies it
      ensures Visiting(it, me, ids', done', from', addr') && from < from' <= max
    {
      ghost var s: seq<Slot> := slots[..];
      ghost var at := NextMine(s, me, from);
      hide *;
      FoundHere(it, me, ids, done, from, addr);
      CollectNext(it, me, ids, done, from, addr);
      ids', done', from' := ids + [it.nodeId], done + [at], at + 1;
      addr' := Follow(it, me, at);
      assert slots[..] == s;
      StillVisiting(it, me, ids', done', from', addr');
    }

    lemma StillVisiting(it: Iterator, me: Thread, ids: seq<nat>, done: seq<nat>, from: nat, addr: nat)
      requires Valid() && from <= |slots[..]| && Found(it, me, from, addr) && Shifted(ids, done)
      requires UpToNull(slots[..], me, 0) == done + UpToNull(slots[..], me, from)
      ensures Visiting(it, me, ids, done, from, addr)
    {}

    lemma CollectNext(it: Iterator, me: Thread, ids: seq<nat>, done: seq<nat>, from: nat, addr: nat)
      requires addr != 0 && Visiting(it, me, ids, done, from, addr)
      ensures var at := NextMine(slots[..], me, from);
        && at < |slots[..]| && Shifted(ids + [it.nodeId], done + [at])
        && UpToNull(slots[..], me, 0) == (done + [at]) + UpToNull(slots[..], me, at + 1)
    {
      hide *;
      FoundHere(it, me, ids, done, from, addr);
      UpToNullHere(slots[..], me, from, done);
      ShiftedSnoc(ids, done, NextMine(slots[..], me, from));
    }

    lemma ShiftedSnoc(ids: seq<nat>, indices: seq<nat>, i: nat)
      requires Shifted(ids, indices)
      ensures Shifted(ids + [base + i], indices + [i])
    {}

    lemma Visited(it: Iterator, me: Thread, ids: seq<nat>, done: seq<nat>, from: nat)
      requires Visiting(it, me, ids, done, from, 0)
      ensures Shifted(ids, UpToNull(slots[..], me, 0))
    {
      FoundNone(it, me, from);
      UpToNullHere(slots[..], me, from, done);
    }

    lemma FoundHere(it: Iterator, me: Thread, ids: seq<nat>, done: seq<nat>, from: nat, addr: nat)
      requires addr != 0 && Visiting(it, me, ids, done, from, addr)
      ensures from <= |slots[..]|
      ensures var at := NextMine(slots[..], me, from);
        && at < |slots[..]| && slots[at].addr != 0 && Standing(it, at) && it.nodeId == base + at
        && Shifted(ids, done) && UpToNull(slots[..], me, 0) == done + UpToNull(slots[..], me, from)
    {}

    lemma FoundNone(it: Iterator, me: Thread, from: nat)
      requires Found(it, me, from, 0)
      ensures var i := NextMine(slots[..], me, from); i == |slots[..]| || slots[i].addr == 0
    {}

    method Follow(it: Iterator, me: Thread, ghost at: nat) returns (addr: nat)
      requires Standing(it, at)
      modifies it
      ensures Valid() && Found(it, me, at + 1, addr)
    {
      addr := LockNext(it, me, at);
    }
  }

  /** The index that accept tries in round k, and the value of its index variable before the range check. */
  ghost function Tried(max: nat, param: nat, k: nat): nat
    requires k < max
  {
    var first := if param >= max then 0 else param;
    if first + k >= max then first + k - max else first + k
  }

  ghost function Next(max: nat, param: nat, k: nat): nat
  {
    if k == 0 then param
    else
      var first := if param >= max then 0 else param;
      if first + k > max then first + k - max else first + k
  }

  lemma TriedIs(max: nat, param: nat, k: nat)
    requires k < max
    ensures Tried(max, param, k) == Cyclic(max, param, k)
    ensures var n := Next(max, param, k); Tried(max, param, k) == if n >= max then 0 else n
    ensures Tried(max, param, k) + 1 == Next(max, param, k + 1)
  {
    var first := if param < max then param else 0;
    CyclicIs(max, param, k);
    hide Cyclic;
  }

  lemma CyclicIs(max: nat, param: nat, k: nat)
    requires k < max
    ensures var first := if param < max then param else 0;
      Cyclic(max, param, k) == if first + k >= max then first + k - max else first + k
  {
    var n := (if param < max then param else 0) + k;
    WrapOnce(n, max, if n >= max then 1 else 0);
  }

  lemma WrapOnce(n: nat, m: nat, q: nat)
    requires m > 0 && q <= 1 && m * q <= n < m * q + m
    ensures n % m == n - m * q
  {
    if q == 0 { assert m * q == 0; } else { assert m * q == m; }
  }

  /** The first free slot, found in round k. */
  lemma Taken(max: nat, base: nat, param: nat, before: seq<Slot>, count: int, me: Thread, addr: nat, k: nat)
    requires |before| == max && k < max && before[Tried(max, param, k)].used == 0
    requires forall i :: 0 <= i < k ==> before[Tried(max, param, i)].used != 0
    ensures var j := Tried(max, param, k);
      Accepts(max, base, param, before, count, before[j := Slot(1, me, addr)], count + 1, me, addr, base + j)
  {
    var j := Tried(max, param, k);
    forall i | 0 <= i <= k
      ensures Tried(max, param, i) == Cyclic(max, param, i)
    {
      TriedIs(max, param, i);
    }
    hide Tried, Cyclic;
    var after := before[j := Slot(1, me, addr)];
    assert TakesAt(max, base, param, before, count, after, count + 1, me, addr, base + j, k);
  }

  lemma NoneTaken(max: nat, base: nat, param: nat, before: seq<Slot>, count: int, me: Thread, addr: nat)
    requires |before| == max && forall i :: 0 <= i < max ==> before[Tried(max, param, i)].used != 0
    ensures Accepts(max, base, param, before, count, before, count, me, addr, 0)
  {
    forall j | 0 <= j < max
      ensures before[j].used != 0
    {
      var k := TriedAt(max, param, j);
      assert before[Tried(max, param, k)].used != 0;
    }
  }

  /** Every index is tried in some round. */
  ghost function TriedAt(max: nat, param: nat, j: nat): (k: nat)
    requires j < max
    ensures k < max && Tried(max, param, k) == j
  {
    var first := if param >= max then 0 else param;
    if j >= first then j - first else j - first + max
  }

  lemma {:induction false} NoneUsed(s: seq<Slot>, from: nat)
    requires Count(s) == 0 && from <= |s|
    ensures forall k :: from <= k < |s| ==> s[k].used <= 0
  {
    CountGrows(s, 0);
  }

  /** In every state that a run can reach, the counter of the table counts what the iteration counts as soon as
      no call is under way. */
  lemma QuiescentCount(c: Config, s: State)
    requires Inv(c, s) && forall t <- s.pcs :: s.pcs[t].Idle?
    ensures s.connectNum == Count(s.slots)
  {
    Quiescent(c, s);
    CountIsUsed(s.slots);
  }

  lemma {:induction false} NothingUsed(s: seq<Slot>)
    requires forall i :: 0 <= i < |s| ==> s[i] == Slot(0, 0, 0)
    ensures Count(s) == 0
    decreases |s|
  {
    if s != [] { NothingUsed(s[..|s| - 1]); }
  }

  /** A table in which a run has come to rest is as the calls here need it. */
  lemma ValidAtRest(c: Config, s: State, root: NodeRoot)
    requires GoodConfig(c) && Inv(c, s) && forall t <- s.pcs :: s.pcs[t].Idle?
    requires root.max == c.max && root.base == c.base && root.slots[..] == s.slots && root.connectNum == s.connectNum
    ensures root.Valid()
  {
    QuiescentCount(c, s);
    forall i | 0 <= i < root.max
      ensures root.slots[i].used >= 0
    {
      assert root.slots[..][i] == s.slots[i];
    }
  }

  lemma {:induction false} CountIsUsed(s: seq<Slot>)
    requires forall i :: 0 <= i < |s| ==> s[i].used == 1 || s[i] == Slot(0, 0, 0)
    ensures |UsedSlots(s)| == Count(s)
    decreases |s|
  {
    if s == [] {
      assert UsedSlots(s) == {};
    } else {
      var n := |s| - 1;
      var front := s[..n];
      CountIsUsed(front);
      assert UsedSlots(s) == if s[n].used != 0 then UsedSlots(front) + {n} else UsedSlots(front) - {n};
      assert n !in UsedSlots(front);
      CardinalityChange(UsedSlots(front), UsedSlots(s), n, s[n].used != 0);
    }
  }
}
