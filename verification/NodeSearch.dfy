/** The search of accept: which slots it tries under every interleaving, and what a call does that no other thread
    interrupts, against the calls of the table as wholes. */
module NodeSearch {
  import opened NodeSlots
  import opened NodeTable

  /** One compare-and-swap of an accept: the index it tries, and what it finds in use there. */
  datatype Attempt = Attempt(index: nat, used: int)

  /** The attempts of a thread in its current or last accept, one move further. */
  ghost function Noted(c: Config, s: State, t: Thread, m: Move, h: seq<Attempt>): seq<Attempt>
    requires Inv(c, s) && Enabled(c, s, m.t, m.l)
  {
    if m.t != t then h
    else if m.l.StartAccept? then []
    else if m.l.Advance? && s.pcs[t].Probing? && s.pcs[t].i < c.max then
      var index := Try(c, s.pcs[t].index);
      h + [Attempt(index, s.slots[index].used)]
    else h
  }

  /** The attempts of a thread in a run. */
  ghost function Attempts(c: Config, s: State, moves: seq<Move>, t: Thread, h: seq<Attempt>): seq<Attempt>
    requires Inv(c, s) && IsRun(c, s, moves)
    decreases |moves|
  {
    if moves == [] then h
    else
      StepInv(c, s, moves[0].t, moves[0].l);
      Attempts(c, Step(c, s, moves[0].t, moves[0].l), moves[1..], t, Noted(c, s, t, moves[0], h))
  }

  /** The attempts go through the table in cyclic order, at most once. */
  ghost predicate InOrder(c: Config, h: seq<Attempt>)
  {
    |h| <= c.max && forall k :: 0 <= k < |h| ==> h[k].index == Cyclic(c.max, c.param, k)
  }

  /** Every one of the first n attempts has found its slot used. */
  ghost predicate AllUsed(h: seq<Attempt>, n: nat)
  {
    n <= |h| && forall k :: 0 <= k < n ==> h[k].used != 0
  }

  /** Every slot has been tried and found used. */
  ghost predicate Exhausted(c: Config, h: seq<Attempt>)
  {
    forall j :: 0 <= j < c.max ==> FoundUsed(h, j)
  }

  ghost predicate FoundUsed(h: seq<Attempt>, j: nat)
  {
    exists k :: 0 <= k < |h| && h[k].index == j && h[k].used != 0
  }

  /** The last attempt has found the given slot free. */
  ghost predicate WonAt(h: seq<Attempt>, slot: nat)
  {
    h != [] && AllUsed(h, |h| - 1) && h[|h| - 1] == Attempt(slot, 0)
  }

  /** What a thread has tried, by where it is. */
  ghost predicate Searched(c: Config, s: State, t: Thread, h: seq<Attempt>)
  {
    && t in s.pcs && InOrder(c, h)
    && match s.pcs[t]
       case Probing(_, i, index) => i == |h| && AllUsed(h, |h|) && index == Next(c.max, c.param, i)
       case Won(_, slot, _) => WonAt(h, slot)
       case _ => true
  }

  lemma TryIs(c: Config, i: nat)
    requires i < c.max
    ensures Try(c, Next(c.max, c.param, i)) == Tried(c.max, c.param, i) == Cyclic(c.max, c.param, i)
    ensures Tried(c.max, c.param, i) + 1 == Next(c.max, c.param, i + 1)
  {
    TriedIs(c.max, c.param, i);
    hide Next, Tried, Cyclic;
  }

  lemma MoveSearched(c: Config, s: State, t: Thread, m: Move, h: seq<Attempt>)
    requires Inv(c, s) && Enabled(c, s, m.t, m.l) && Searched(c, s, t, h)
    ensures Searched(c, Step(c, s, m.t, m.l), t, Noted(c, s, t, m, h))
  {
    if m.t == t && m.l.Advance? && s.pcs[t].Probing? && s.pcs[t].i < c.max {
      ProbeSearched(c, s, t, h);
    } else {
      hide Cyclic, Next, Tried, Try, InOrder, SlotsClear, ThreadsOk, ClaimsApart, HeldOk, Accounted, Counted;
      NothingTried(c);
    }
  }

  lemma NothingTried(c: Config)
    ensures InOrder(c, []) && AllUsed([], 0) && Next(c.max, c.param, 0) == c.param
  {}

  lemma ProbeSearched(c: Config, s: State, t: Thread, h: seq<Attempt>)
    requires Inv(c, s) && Searched(c, s, t, h) && s.pcs[t].Probing? && s.pcs[t].i < c.max
    ensures Searched(c, Step(c, s, t, Advance), t, Noted(c, s, t, Move(t, Advance), h))
  {
    TryIs(c, s.pcs[t].i);
    hide Cyclic, Next, Tried, Try, SlotsClear, ThreadsOk, ClaimsApart, HeldOk, Accounted, Counted;
  }

  /** The search stays in order, from any state in which what a thread has tried fits where it is. */
  lemma {:induction false} SearchStays(c: Config, s: State, moves: seq<Move>, t: Thread, h: seq<Attempt>)
    requires Inv(c, s) && IsRun(c, s, moves) && Searched(c, s, t, h)
    ensures Searched(c, AfterRun(c, s, moves), t, Attempts(c, s, moves, t, h))
    decreases |moves|
  {
    hide Step, Noted, InOrder, AllUsed, WonAt, Enabled, Shape, SlotsClear, ThreadsOk, ClaimsApart, HeldOk, Accounted,
      Counted;
    if moves != [] {
      StepInv(c, s, moves[0].t, moves[0].l);
      MoveSearched(c, s, t, moves[0], h);
      hide Searched;
      SearchStays(c, Step(c, s, moves[0].t, moves[0].l), moves[1..], t, Noted(c, s, t, moves[0], h));
    }
  }

  /** An idle thread has nothing to account for. */
  lemma SearchedIdle(c: Config, s: State, t: Thread)
    requires t in s.pcs && s.pcs[t].Idle?
    ensures Searched(c, s, t, [])
  {}

  /** The search of every accept, in every run from the empty table: its attempts are distinct and in cyclic order from
      the parameter on; as long as it searches all have found their slots used, and if it has won, all but the last,
      which is its slot. */
  lemma SearchInOrder(c: Config, threads: set<Thread>, moves: seq<Move>, t: Thread)
    requires t in threads && IsRun(c, Start(c, threads), moves)
    ensures var s, h := AfterRun(c, Start(c, threads), moves), Attempts(c, Start(c, threads), moves, t, []);
      && Inv(c, s) && t in s.pcs && InOrder(c, h)
      && (forall j, k :: 0 <= j < k < |h| ==> h[j].index != h[k].index)
      && (s.pcs[t].Probing? ==> |h| == s.pcs[t].i && AllUsed(h, |h|))
      && (s.pcs[t].Won? ==> WonAt(h, s.pcs[t].slot))
  {
    var s0 := Start(c, threads);
    SearchedIdle(c, s0, t);
    RunInv(c, s0, moves);
    SearchStays(c, s0, moves, t, []);
    hide Attempts, AfterRun, IsRun, Inv, InOrder, AllUsed;
    AttemptsDistinct(c, Attempts(c, s0, moves, t, []));
  }

  /** In order, no slot is tried twice. */
  lemma AttemptsDistinct(c: Config, h: seq<Attempt>)
    requires InOrder(c, h)
    ensures forall j, k :: 0 <= j < k < |h| ==> h[j].index != h[k].index
  {
    forall j, k | 0 <= j < k < |h|
      ensures h[j].index != h[k].index
    {
      TryIs(c, j);
      TryIs(c, k);
      assert h[j].index == Cyclic(c.max, c.param, j) && h[k].index == Cyclic(c.max, c.param, k);
      hide Cyclic;
    }
  }

  /** An accept gives up only when it has tried every slot of the table and found it used. */
  lemma FailureExhausts(c: Config, threads: set<Thread>, moves: seq<Move>, t: Thread)
    requires t in threads && IsRun(c, Start(c, threads), moves)
    requires var s := AfterRun(c, Start(c, threads), moves);
      && Inv(c, s) && Enabled(c, s, t, Advance) && s.pcs[t].Probing? && Step(c, s, t, Advance).pcs[t].Idle?
    ensures var h := Attempts(c, Start(c, threads), moves, t, []); |h| == c.max && Exhausted(c, h)
  {
    SearchInOrder(c, threads, moves, t);
    var s, h := AfterRun(c, Start(c, threads), moves), Attempts(c, Start(c, threads), moves, t, []);
    hide AfterRun, Attempts, IsRun;
    assert s.pcs[t].i >= c.max by { hide Inv, InOrder, AllUsed; }
    forall j | 0 <= j < c.max
      ensures FoundUsed(h, j)
    {
      var k := TriedAt(c.max, c.param, j);
      TryIs(c, k);
      hide Cyclic, Inv, Step, Enabled;
      assert h[k].index == j;
    }
  }

  /** n steps of one thread. */
  function Advances(t: Thread, n: nat): (moves: seq<Move>)
    ensures |moves| == n
  {
    if n == 0 then [] else [Move(t, Advance)] + Advances(t, n - 1)
  }

  lemma AdvanceFirst(c: Config, s: State, t: Thread, n: nat)
    requires Inv(c, s) && IsRun(c, s, Advances(t, n)) && n > 0
    ensures Enabled(c, s, t, Advance)
    ensures var s1 := Step(c, s, t, Advance);
      && Inv(c, s1) && IsRun(c, s1, Advances(t, n - 1))
      && AfterRun(c, s, Advances(t, n)) == AfterRun(c, s1, Advances(t, n - 1))
  {
    assert Advances(t, n)[0] == Move(t, Advance) && Advances(t, n)[1..] == Advances(t, n - 1);
    hide Step, Shape, SlotsClear, ThreadsOk, ClaimsApart, HeldOk, Accounted, Counted, Enabled;
    StepInv(c, s, t, Advance);
  }

  lemma NoAdvance(c: Config, s: State, t: Thread)
    requires Inv(c, s)
    ensures IsRun(c, s, Advances(t, 0)) && AfterRun(c, s, Advances(t, 0)) == s
  {}

  /** What a call of the thread leaves: the thread is idle, and no other thread has moved. */
  ghost predicate Back(s: State, s': State, t: Thread, slots: seq<Slot>, connectNum: int, held: set<nat>)
  {
    s' == State(slots, connectNum, s.pcs[t := Idle], held)
  }

  lemma BackVia(s: State, s1: State, s': State, t: Thread, pc: Pc, slots: seq<Slot>, connectNum: int, held: set<nat>)
    requires s1.pcs == s.pcs[t := pc] && Back(s1, s', t, slots, connectNum, held)
    ensures Back(s, s', t, slots, connectNum, held)
  {}

  lemma InvShape(c: Config, s: State)
    requires Inv(c, s)
    ensures Shape(c, s) && |s.slots| == c.max
  {}

  lemma SettleOnce(c: Config, s: State, t: Thread)
    requires Inv(c, s) && t in s.pcs && s.pcs[t].Won?
    ensures s.pcs[t].step <= 2 && s.pcs[t].slot < |s.slots| && Enabled(c, s, t, Advance)
    ensures var s1, pc := Step(c, s, t, Advance), s.pcs[t];
      if pc.step < 2 then
        s1.pcs == s.pcs[t := Won(pc.addr, pc.slot, pc.step + 1)] && s1.connectNum == s.connectNum && s1.held == s.held
        && s1.slots[pc.slot := Slot(1, t, pc.addr)] == s.slots[pc.slot := Slot(1, t, pc.addr)]
        && |s1.slots| == |s.slots|
      else Back(s, s1, t, s.slots[pc.slot := Slot(1, t, pc.addr)], s.connectNum + 1, s.held + {pc.slot})
  {
    hide SlotsClear, ClaimsApart, HeldOk, Accounted, Counted;
    var pc := s.pcs[t];
    assert Claims(pc) && ClaimOk(s.slots[pc.slot], t, pc);
    if pc.step == 2 { assert s.slots[pc.slot := Slot(1, t, pc.addr)] == s.slots; }
  }

  /** A call that has won its slot, to its end. */
  lemma {:induction false} SettlesAlone(c: Config, s: State, t: Thread, n: nat)
    requires Inv(c, s) && t in s.pcs && s.pcs[t].Won? && IsRun(c, s, Advances(t, n))
    requires var s' := AfterRun(c, s, Advances(t, n)); t in s'.pcs && s'.pcs[t].Idle?
    ensures s.pcs[t].slot < |s.slots|
    ensures var s', pc := AfterRun(c, s, Advances(t, n)), s.pcs[t];
      Back(s, s', t, s.slots[pc.slot := Slot(1, t, pc.addr)], s.connectNum + 1, s.held + {pc.slot})
    decreases n
  {
    hide *;
    InvShape(c, s);
    NoAdvance(c, s, t);
    SettleOnce(c, s, t);
    if n > 0 {
      AdvanceFirst(c, s, t, n);
      var s1, pc := Step(c, s, t, Advance), s.pcs[t];
      if pc.step < 2 {
        SettlesAlone(c, s1, t, n - 1);
        BackVia(s, s1, AfterRun(c, s, Advances(t, n)), t, Won(pc.addr, pc.slot, pc.step + 1),
          s.slots[pc.slot := Slot(1, t, pc.addr)], s.connectNum + 1, s.held + {pc.slot});
      } else {
        BackIdle(s, s1, t, s.slots[pc.slot := Slot(1, t, pc.addr)], s.connectNum + 1, s.held + {pc.slot});
        StaysIdle(c, s1, t, n - 1);
      }
    }
  }

  lemma BackIdle(s: State, s': State, t: Thread, slots: seq<Slot>, connectNum: int, held: set<nat>)
    requires Back(s, s', t, slots, connectNum, held)
    ensures t in s'.pcs && s'.pcs[t].Idle?
  {}

  /** An idle thread makes no step by itself. */
  lemma StaysIdle(c: Config, s: State, t: Thread, n: nat)
    requires Inv(c, s) && t in s.pcs && s.pcs[t].Idle? && IsRun(c, s, Advances(t, n))
    ensures n == 0 && AfterRun(c, s, Advances(t, n)) == s
  {
    if n > 0 { AdvanceFirst(c, s, t, n); }
  }

  lemma ProbeOnce(c: Config, s: State, t: Thread)
    requires Inv(c, s) && t in s.pcs && s.pcs[t].Probing? && s.pcs[t].i <= c.max
    requires s.pcs[t].index == Next(c.max, c.param, s.pcs[t].i)
    ensures Enabled(c, s, t, Advance)
    ensures var s1, pc := Step(c, s, t, Advance), s.pcs[t];
      if pc.i == c.max then Back(s, s1, t, s.slots, s.connectNum, s.held)
      else
        var j := Tried(c.max, c.param, pc.i);
        if s.slots[j].used == 0 then
          s1 == State(s.slots[j := Slot(1, 0, 0)], s.connectNum, s.pcs[t := Won(pc.addr, j, 0)], s.held)
        else
          s1 == s.(pcs := s.pcs[t := Probing(pc.addr, pc.i + 1, Next(c.max, c.param, pc.i + 1))])
  {
    if s.pcs[t].i < c.max { TryIs(c, s.pcs[t].i); }
    hide Next, Tried, Try, Cyclic, ThreadsOk, ClaimsApart, HeldOk, Accounted, Counted;
  }

  /** What an accept that nobody interrupts makes of the table. */
  ghost predicate Accepted(c: Config, s: State, s': State, t: Thread, addr: nat, id: nat)
    requires |s.slots| == c.max
  {
    && Accepts(c.max, c.base, c.param, s.slots, s.connectNum, s'.slots, s'.connectNum, t, addr, id)
    && s'.pcs == s.pcs[t := Idle] && (id != 0 ==> id >= c.base)
    && s'.held == if id == 0 then s.held else s.held + {id - c.base}
  }

  lemma AcceptedVia(c: Config, s: State, s1: State, s': State, t: Thread, addr: nat, id: nat, pc: Pc)
    requires |s.slots| == c.max && s1 == s.(pcs := s.pcs[t := pc]) && Accepted(c, s1, s', t, addr, id)
    ensures Accepted(c, s, s', t, addr, id)
  {
    hide Accepts;
  }

  lemma AcceptedNone(c: Config, s: State, s': State, t: Thread, addr: nat)
    requires |s.slots| == c.max && Back(s, s', t, s.slots, s.connectNum, s.held)
    requires forall k :: 0 <= k < c.max ==> s.slots[Tried(c.max, c.param, k)].used != 0
    ensures Accepted(c, s, s', t, addr, 0)
  {
    NoneTaken(c.max, c.base, c.param, s.slots, s.connectNum, t, addr);
    hide Accepts;
  }

  lemma AcceptedAt(c: Config, s: State, s': State, t: Thread, addr: nat, k: nat)
    requires c.base > 0 && |s.slots| == c.max && k < c.max && s.slots[Tried(c.max, c.param, k)].used == 0
    requires forall i :: 0 <= i < k ==> s.slots[Tried(c.max, c.param, i)].used != 0
    requires var j := Tried(c.max, c.param, k);
      Back(s, s', t, s.slots[j := Slot(1, t, addr)], s.connectNum + 1, s.held + {j})
    ensures Accepted(c, s, s', t, addr, c.base + Tried(c.max, c.param, k))
  {
    Taken(c.max, c.base, c.param, s.slots, s.connectNum, t, addr, k);
    hide Accepts, Tried;
  }

  /** The search, from the place it has come to. */
  ghost predicate SearchingAt(c: Config, s: State, t: Thread)
  {
    && t in s.pcs && s.pcs[t].Probing? && s.pcs[t].i <= c.max && s.pcs[t].index == Next(c.max, c.param, s.pcs[t].i)
    && |s.slots| == c.max && forall k :: 0 <= k < s.pcs[t].i ==> s.slots[Tried(c.max, c.param, k)].used != 0
  }

  lemma WonBack(s: State, s1: State, s': State, t: Thread, addr: nat, j: nat)
    requires j < |s.slots|
    requires s1 == State(s.slots[j := Slot(1, 0, 0)], s.connectNum, s.pcs[t := Won(addr, j, 0)], s.held)
    requires Back(s1, s', t, s1.slots[j := Slot(1, t, addr)], s1.connectNum + 1, s1.held + {j})
    ensures Back(s, s', t, s.slots[j := Slot(1, t, addr)], s.connectNum + 1, s.held + {j})
  {
    assert s1.slots[j := Slot(1, t, addr)] == s.slots[j := Slot(1, t, addr)];
  }

  /** The step after which the search is over. */
  lemma ProbeEnds(c: Config, s: State, t: Thread)
    requires Inv(c, s) && SearchingAt(c, s, t) && Enabled(c, s, t, Advance) && Step(c, s, t, Advance).pcs[t].Idle?
    ensures |s.slots| == c.max && Accepted(c, s, Step(c, s, t, Advance), t, s.pcs[t].addr, 0)
  {
    ProbeOnce(c, s, t);
    hide Inv, Step, Next, Tried, Accepted, Back;
    AcceptedNone(c, s, Step(c, s, t, Advance), t, s.pcs[t].addr);
  }

  /** The step that wins a slot, and the rest of the call. */
  lemma ProbeWins(c: Config, s: State, t: Thread, s': State) returns (id: nat)
    requires c.base > 0 && Inv(c, s) && SearchingAt(c, s, t) && Enabled(c, s, t, Advance)
    requires var s1 := Step(c, s, t, Advance);
      && s1.pcs[t].Won? && s1.pcs[t].slot < |s1.slots|
      && Back(s1, s', t, s1.slots[s1.pcs[t].slot := Slot(1, t, s1.pcs[t].addr)], s1.connectNum + 1,
           s1.held + {s1.pcs[t].slot})
    ensures |s.slots| == c.max && Accepted(c, s, s', t, s.pcs[t].addr, id)
  {
    ProbeOnce(c, s, t);
    var s1, pc := Step(c, s, t, Advance), s.pcs[t];
    hide Inv, Step, Next, Tried, Accepted;
    assert pc.i < c.max by { hide Tried; }
    hide Back;
    var j := Tried(c.max, c.param, pc.i);
    WonBack(s, s1, s', t, pc.addr, j);
    AcceptedAt(c, s, s', t, pc.addr, pc.i);
    id := c.base + j;
  }

  lemma ProbeGoesOn(c: Config, s: State, t: Thread)
    requires Inv(c, s) && SearchingAt(c, s, t) && Enabled(c, s, t, Advance)
    requires !Step(c, s, t, Advance).pcs[t].Idle? && !Step(c, s, t, Advance).pcs[t].Won?
    ensures var s1 := Step(c, s, t, Advance);
      && SearchingAt(c, s1, t) && s1 == s.(pcs := s.pcs[t := s1.pcs[t]]) && s1.pcs[t].addr == s.pcs[t].addr
  {
    ProbeOnce(c, s, t);
    hide Inv, Step, Next, Tried;
  }

  lemma SearchingIs(c: Config, s: State, t: Thread)
    requires SearchingAt(c, s, t)
    ensures t in s.pcs && s.pcs[t].Probing? && |s.slots| == c.max
  {}

  lemma StepHas(c: Config, s: State, t: Thread)
    requires Shape(c, s) && Enabled(c, s, t, Advance)
    ensures t in s.pcs && t in Step(c, s, t, Advance).pcs
  {}

  /** A search, to the end of its call. */
  lemma SearchesAlone(c: Config, s: State, t: Thread, n: nat) returns (id: nat)
    requires c.base > 0 && Inv(c, s) && SearchingAt(c, s, t) && IsRun(c, s, Advances(t, n))
    requires var s' := AfterRun(c, s, Advances(t, n)); t in s'.pcs && s'.pcs[t].Idle?
    ensures |s.slots| == c.max && t in s.pcs && s.pcs[t].Probing?
    ensures Accepted(c, s, AfterRun(c, s, Advances(t, n)), t, s.pcs[t].addr, id)
    decreases n
  {
    hide *;
    id := 0;
    InvShape(c, s);
    SearchingIs(c, s, t);
    NoAdvance(c, s, t);
    if n > 0 {
      AdvanceFirst(c, s, t, n);
      var s1 := Step(c, s, t, Advance);
      StepHas(c, s, t);
      if s1.pcs[t].Idle? {
        StaysIdle(c, s1, t, n - 1);
        ProbeEnds(c, s, t);
      } else if s1.pcs[t].Won? {
        SettlesAlone(c, s1, t, n - 1);
        id := ProbeWins(c, s, t, AfterRun(c, s1, Advances(t, n - 1)));
      } else {
        ProbeGoesOn(c, s, t);
        id := SearchesAlone(c, s1, t, n - 1);
        AcceptedVia(c, s, s1, AfterRun(c, s1, Advances(t, n - 1)), t, s.pcs[t].addr, id, s1.pcs[t]);
      }
    }
  }

  /** The first move of a run, and the rest. */
  lemma FirstMove(c: Config, s: State, m: Move, t: Thread, n: nat)
    requires Inv(c, s) && IsRun(c, s, [m] + Advances(t, n))
    ensures Enabled(c, s, m.t, m.l)
    ensures var s1 := Step(c, s, m.t, m.l);
      && Inv(c, s1) && IsRun(c, s1, Advances(t, n))
      && AfterRun(c, s, [m] + Advances(t, n)) == AfterRun(c, s1, Advances(t, n))
  {
    var moves := [m] + Advances(t, n);
    assert moves[0] == m && moves[1..] == Advances(t, n);
    hide Step, Shape, SlotsClear, ThreadsOk, ClaimsApart, HeldOk, Accounted, Counted, Enabled;
    StepInv(c, s, m.t, m.l);
  }

  lemma AcceptStarts(c: Config, s: State, t: Thread, addr: nat)
    requires Shape(c, s) && Enabled(c, s, t, StartAccept(addr))
    ensures var s1 := Step(c, s, t, StartAccept(addr));
      s1 == s.(pcs := s.pcs[t := Probing(addr, 0, c.param)]) && SearchingAt(c, s1, t)
  {
    NothingTried(c);
    hide Tried, Next;
  }

  /** An accept whose steps no other thread interrupts, from any state that a run can reach: it ends with the slots and
      the
      counter that the call of the table leaves, and so takes a slot if and only if one is free. */
  lemma AcceptAlone(c: Config, s: State, t: Thread, addr: nat, n: nat) returns (id: nat)
    requires GoodConfig(c) && Inv(c, s) && IsRun(c, s, [Move(t, StartAccept(addr))] + Advances(t, n))
    requires var s' := AfterRun(c, s, [Move(t, StartAccept(addr))] + Advances(t, n)); t in s'.pcs && s'.pcs[t].Idle?
    ensures |s.slots| == c.max
    ensures var s' := AfterRun(c, s, [Move(t, StartAccept(addr))] + Advances(t, n)); Accepted(c, s, s', t, addr, id)
  {
    FirstMove(c, s, Move(t, StartAccept(addr)), t, n);
    InvShape(c, s);
    assert c.base > 0;
    hide *;
    var s1 := Step(c, s, t, StartAccept(addr));
    AcceptStarts(c, s, t, addr);
    id := SearchesAlone(c, s1, t, n);
    AcceptedVia(c, s, s1, AfterRun(c, s1, Advances(t, n)), t, addr, id, Probing(addr, 0, c.param));
  }

  lemma DropOnce(c: Config, s: State, t: Thread)
    requires Inv(c, s) && t in s.pcs && s.pcs[t].Dropping?
    ensures s.pcs[t].slot < |s.slots| && Enabled(c, s, t, Advance)
    ensures var s1, pc := Step(c, s, t, Advance), s.pcs[t];
      if pc.step < 3 then
        s1.pcs == s.pcs[t := Dropping(pc.slot, pc.step + 1)] && s1.connectNum == s.connectNum && s1.held == s.held
        && s1.slots[pc.slot := Slot(0, 0, 0)] == s.slots[pc.slot := Slot(0, 0, 0)] && |s1.slots| == |s.slots|
        && (pc.step == 2 ==> s1.slots[pc.slot] == Slot(0, 0, 0))
      else Back(s, s1, t, s.slots, s.connectNum - 1, s.held)
  {
    hide SlotsClear, ClaimsApart, HeldOk, Accounted, Counted;
    var pc := s.pcs[t];
    if pc.step < 3 { assert Claims(pc) && ClaimOk(s.slots[pc.slot], t, pc); }
  }

  lemma {:induction false} DropsAlone(c: Config, s: State, t: Thread, n: nat)
    requires Inv(c, s) && t in s.pcs && s.pcs[t].Dropping? && IsRun(c, s, Advances(t, n))
    requires s.pcs[t].slot < |s.slots| && (s.pcs[t].step >= 3 ==> s.slots[s.pcs[t].slot] == Slot(0, 0, 0))
    requires var s' := AfterRun(c, s, Advances(t, n)); t in s'.pcs && s'.pcs[t].Idle?
    ensures var s', slot := AfterRun(c, s, Advances(t, n)), s.pcs[t].slot;
      Back(s, s', t, s.slots[slot := Slot(0, 0, 0)], s.connectNum - 1, s.held)
    decreases n
  {
    hide *;
    InvShape(c, s);
    NoAdvance(c, s, t);
    DropOnce(c, s, t);
    if n > 0 {
      AdvanceFirst(c, s, t, n);
      var s1, pc := Step(c, s, t, Advance), s.pcs[t];
      if pc.step < 3 {
        DropsAlone(c, s1, t, n - 1);
        BackVia(s, s1, AfterRun(c, s, Advances(t, n)), t, Dropping(pc.slot, pc.step + 1),
          s.slots[pc.slot := Slot(0, 0, 0)], s.connectNum - 1, s.held);
      } else {
        BackIdle(s, s1, t, s.slots, s.connectNum - 1, s.held);
        StaysIdle(c, s1, t, n - 1);
        assert s.slots[pc.slot := Slot(0, 0, 0)] == s.slots;
      }
    }
  }

  lemma DeacceptStarts(c: Config, s: State, t: Thread, id: nat)
    requires Inv(c, s) && Enabled(c, s, t, StartDeaccept(id))
    ensures id >= c.base && 0 <= id - c.base < |s.slots| && t in s.pcs && s.pcs[t].Idle?
    ensures Step(c, s, t, StartDeaccept(id)) ==
      State(s.slots, s.connectNum, s.pcs[t := Dropping(id - c.base, 0)], s.held - {id - c.base})
  {
    hide SlotsClear, ThreadsOk, ClaimsApart, Accounted, Counted;
  }

  /** A deaccept that nobody interrupts leaves what the call of the table leaves. */
  lemma DeacceptAlone(c: Config, s: State, t: Thread, id: nat, n: nat)
    requires Inv(c, s) && IsRun(c, s, [Move(t, StartDeaccept(id))] + Advances(t, n))
    requires var s' := AfterRun(c, s, [Move(t, StartDeaccept(id))] + Advances(t, n)); t in s'.pcs && s'.pcs[t].Idle?
    ensures var s' := AfterRun(c, s, [Move(t, StartDeaccept(id))] + Advances(t, n));
      && id >= c.base && Frees(c.base, s.slots, s.connectNum, s'.slots, s'.connectNum, id)
      && s'.pcs == s.pcs && s'.held == s.held - {id - c.base}
  {
    FirstMove(c, s, Move(t, StartDeaccept(id)), t, n);
    InvShape(c, s);
    hide *;
    DeacceptStarts(c, s, t, id);
    var s1 := Step(c, s, t, StartDeaccept(id));
    DropsAlone(c, s1, t, n);
    DropBack(c, s, s1, AfterRun(c, s1, Advances(t, n)), t, id);
  }

  lemma DropBack(c: Config, s: State, s1: State, s': State, t: Thread, id: nat)
    requires id >= c.base && 0 <= id - c.base < |s.slots| && t in s.pcs && s.pcs[t].Idle?
    requires s1 == State(s.slots, s.connectNum, s.pcs[t := Dropping(id - c.base, 0)], s.held - {id - c.base})
    requires Back(s1, s', t, s1.slots[id - c.base := Slot(0, 0, 0)], s1.connectNum - 1, s1.held)
    ensures Frees(c.base, s.slots, s.connectNum, s'.slots, s'.connectNum, id)
    ensures s'.pcs == s.pcs && s'.held == s.held - {id - c.base}
  {
    assert s.pcs[t := Idle] == s.pcs;
  }

  /** The steps that a call still has to make, at most. */
  ghost function StepsLeft(c: Config, pc: Pc): nat
  {
    match pc
    case Idle => 0
    case Probing(_, i, _) => (if i < c.max then c.max - i else 0) + 4
    case Won(_, _, step) => if step < 3 then 3 - step else 1
    case Dropping(_, step) => if step < 4 then 4 - step else 1
  }

  lemma AdvanceCounts(c: Config, s: State, t: Thread)
    requires Inv(c, s) && t in s.pcs && !s.pcs[t].Idle?
    ensures Enabled(c, s, t, Advance)
    ensures var s1 := Step(c, s, t, Advance); t in s1.pcs && StepsLeft(c, s1.pcs[t]) < StepsLeft(c, s.pcs[t])
  {
    hide SlotsClear, ThreadsOk, ClaimsApart, HeldOk, Accounted, Counted;
  }

  /** Every call left to itself comes to an end. */
  lemma {:induction false} EndsAlone(c: Config, s: State, t: Thread) returns (n: nat)
    requires Inv(c, s) && t in s.pcs
    ensures n <= StepsLeft(c, s.pcs[t]) && IsRun(c, s, Advances(t, n))
    ensures var s' := AfterRun(c, s, Advances(t, n)); t in s'.pcs && s'.pcs[t].Idle?
    decreases StepsLeft(c, s.pcs[t])
  {
    n := 0;
    if s.pcs[t].Idle? {
      NoAdvance(c, s, t);
    } else {
      AdvanceCounts(c, s, t);
      StepInv(c, s, t, Advance);
      var s1 := Step(c, s, t, Advance);
      n := EndsAlone(c, s1, t);
      n := n + 1;
      assert Advances(t, n)[0] == Move(t, Advance) && Advances(t, n)[1..] == Advances(t, n - 1);
      hide Step, Inv, Enabled;
    }
  }
}
