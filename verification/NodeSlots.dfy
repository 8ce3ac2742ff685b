/** The slot table of node_mgr.c under concurrent accept and deaccept calls. Each atomic access of a call is
    one step; the steps of different threads interleave freely. */
module NodeSlots {

  type Thread = t: nat | t > 0 witness 1

  /** One entry of the table; an owner or an address of 0 means none. */
  datatype Slot = Slot(used: int, owner: nat, addr: nat)

  /** Where a thread is: in the search loop of accept with the next index to try, past the winning
      compare-and-swap at the given slot, or in deaccept; the steps are numbered in program order. */
  datatype Pc =
    | Idle
    | Probing(addr: nat, i: nat, index: nat)
    | Won(addr: nat, slot: nat, step: nat)
    | Dropping(slot: nat, step: nat)

  datatype State = State(slots: seq<Slot>, connectNum: int, pcs: map<Thread, Pc>, held: set<nat>)

  datatype Config = Config(max: nat, base: nat, param: nat)

  /** Ids fit in 16 bits, and 0 is none of them. */
  ghost predicate GoodConfig(c: Config)
  {
    0 < c.base && c.base + c.max <= 0x1_0000
  }

  datatype Label = StartAccept(addr: nat) | StartDeaccept(id: nat) | Advance

  function IdOf(c: Config, slot: nat): nat
  {
    (slot + c.base) % 0x1_0000
  }

  /** The id that accept returns leads deaccept back to the slot, and is never the 0 of a failed accept. */
  lemma IdsReturn(c: Config, slot: nat)
    requires GoodConfig(c) && slot < c.max
    ensures IdOf(c, slot) - c.base == slot && IdOf(c, slot) != 0
  {}

  /** Threads call accept whenever they are idle, and deaccept with an id that was accepted and has not been
      given back. */
  ghost predicate Enabled(c: Config, s: State, t: Thread, l: Label)
  {
    && t in s.pcs
    && match l
       case StartAccept(_) => s.pcs[t].Idle?
       case StartDeaccept(id) => s.pcs[t].Idle? && id >= c.base && id - c.base in s.held
       case Advance => !s.pcs[t].Idle?
  }

  ghost function Initial(c: Config, threads: set<Thread>): State
  {
    State(seq(c.max, _ => Slot(0, 0, 0)), 0, map t | t in threads :: Idle, {})
  }

  /** Where the search goes on: index runs over the end of the table to its start. */
  function Try(c: Config, index: nat): nat
  {
    if index >= c.max then 0 else index
  }

  ghost function Moved(s: State, t: Thread, pc: Pc): State
  {
    s.(pcs := s.pcs[t := pc])
  }

  /** The compare-and-swap of accept. */
  ghost function Probe(c: Config, s: State, t: Thread, pc: Pc): State
    requires pc.Probing? && |s.slots| == c.max
  {
    var index := Try(c, pc.index);
    if pc.i >= c.max then Moved(s, t, Idle)
    else if s.slots[index].used == 0 then
      Moved(s, t, Won(pc.addr, index, 0)).(slots := s.slots[index := s.slots[index].(used := 1)])
    else Moved(s, t, Probing(pc.addr, pc.i + 1, index + 1))
  }

  /** What accept does after it has won a slot. */
  ghost function Settle(s: State, t: Thread, pc: Pc): State
    requires pc.Won? && pc.slot < |s.slots|
  {
    var slot := s.slots[pc.slot];
    if pc.step == 0 then Moved(s, t, Won(pc.addr, pc.slot, 1)).(slots := s.slots[pc.slot := slot.(owner := t)])
    else if pc.step == 1 then
      Moved(s, t, Won(pc.addr, pc.slot, 2)).(slots := s.slots[pc.slot := slot.(addr := pc.addr)])
    else Moved(s, t, Idle).(connectNum := s.connectNum + 1, held := s.held + {pc.slot})
  }

  /** The steps of deaccept. */
  ghost function Drop(s: State, t: Thread, pc: Pc): State
    requires pc.Dropping? && pc.slot < |s.slots|
  {
    var slot := s.slots[pc.slot];
    if pc.step == 0 then Moved(s, t, Dropping(pc.slot, 1)).(slots := s.slots[pc.slot := slot.(addr := 0)])
    else if pc.step == 1 then Moved(s, t, Dropping(pc.slot, 2)).(slots := s.slots[pc.slot := slot.(owner := 0)])
    else if pc.step == 2 then Moved(s, t, Dropping(pc.slot, 3)).(slots := s.slots[pc.slot := slot.(used := 0)])
    else Moved(s, t, Idle).(connectNum := s.connectNum - 1)
  }

  ghost predicate Shape(c: Config, s: State)
  {
    && |s.slots| == c.max
    && forall t <- s.pcs :: (s.pcs[t].Won? || s.pcs[t].Dropping? ==> s.pcs[t].slot < c.max)
  }

  ghost function Step(c: Config, s: State, t: Thread, l: Label): State
    requires Shape(c, s) && Enabled(c, s, t, l)
  {
    match l
    case StartAccept(addr) => Moved(s, t, Probing(addr, 0, c.param))
    case StartDeaccept(id) => Moved(s, t, Dropping(id - c.base, 0)).(held := s.held - {id - c.base})
    case Advance =>
      match s.pcs[t]
      case Probing(_, _, _) => Probe(c, s, t, s.pcs[t])
      case Won(_, _, _) => Settle(s, t, s.pcs[t])
      case Dropping(_, _) => Drop(s, t, s.pcs[t])
  }

  /** A call that has its slot for itself: from the winning compare-and-swap on, or until the slot is marked
      free again. */
  ghost predicate Claims(pc: Pc)
  {
    pc.Won? || (pc.Dropping? && pc.step < 3)
  }

  /** A free slot has been cleared. */
  ghost predicate SlotsClear(s: State)
  {
    forall i :: 0 <= i < |s.slots| ==> (s.slots[i].used == 1 || s.slots[i] == Slot(0, 0, 0))
  }

  /** What a slot holds while a call has it, by the step of the call. */
  ghost predicate ClaimOk(slot: Slot, t: Thread, pc: Pc)
  {
    && slot.used == 1
    && (pc.Won? ==>
      && pc.step <= 2 && slot.owner == (if pc.step == 0 then 0 else t)
      && slot.addr == (if pc.step == 2 then pc.addr else 0))
    && (pc.Dropping? ==> (pc.step > 0 ==> slot.addr == 0) && (pc.step > 1 ==> slot.owner == 0))
  }

  ghost predicate ThreadsOk(s: State)
  {
    forall t <- s.pcs :: Claims(s.pcs[t]) ==>
      s.pcs[t].slot < |s.slots| && s.pcs[t].slot !in s.held && ClaimOk(s.slots[s.pcs[t].slot], t, s.pcs[t])
  }

  /** No two calls have the same slot. */
  ghost predicate ClaimsApart(s: State)
  {
    forall t <- s.pcs, u <- s.pcs :: t != u && Claims(s.pcs[t]) && Claims(s.pcs[u]) ==> s.pcs[t].slot != s.pcs[u].slot
  }

  ghost predicate HeldOk(s: State)
  {
    forall i <- s.held :: i < |s.slots| && s.slots[i].used == 1 && s.slots[i].owner != 0
  }

  ghost predicate ClaimedBySome(pcs: map<Thread, Pc>, i: nat)
  {
    exists t <- pcs :: Claims(pcs[t]) && pcs[t].slot == i
  }

  /** No used slot is lost: someone holds it or a call has it. */
  ghost predicate Accounted(s: State)
  {
    forall i :: 0 <= i < |s.slots| && s.slots[i].used == 1 ==> i in s.held || ClaimedBySome(s.pcs, i)
  }

  ghost function UsedSlots(slots: seq<Slot>): set<nat>
  {
    set i | 0 <= i < |slots| && slots[i].used != 0
  }

  /** The accepts whose increment, and the deaccepts whose decrement, of the counter is still to come. */
  ghost function PendingIncrements(pcs: map<Thread, Pc>): set<Thread>
  {
    set t | t in pcs && pcs[t].Won?
  }

  ghost function PendingDecrements(pcs: map<Thread, Pc>): set<Thread>
  {
    set t | t in pcs && pcs[t].Dropping? && pcs[t].step >= 3
  }

  ghost predicate Counted(s: State)
  {
    s.connectNum == |UsedSlots(s.slots)| - |PendingIncrements(s.pcs)| + |PendingDecrements(s.pcs)|
  }

  ghost predicate Inv(c: Config, s: State)
  {
    Shape(c, s) && SlotsClear(s) && ThreadsOk(s) && ClaimsApart(s) && HeldOk(s) && Accounted(s) && Counted(s)
  }

  lemma StepShape(c: Config, s: State, t: Thread, l: Label)
    requires Inv(c, s) && Enabled(c, s, t, l)
    ensures Shape(c, Step(c, s, t, l))
  {}

  lemma StepSlotsClear(c: Config, s: State, t: Thread, l: Label)
    requires Inv(c, s) && Enabled(c, s, t, l)
    ensures SlotsClear(Step(c, s, t, l))
  {}

  /** The invariant without the counter. */
  ghost predicate Owned(c: Config, s: State)
  {
    Shape(c, s) && SlotsClear(s) && ThreadsOk(s) && ClaimsApart(s) && HeldOk(s)
  }

  /** The slot that a step is about, if it changes one: claimed by the thread before, or free before and
      claimed by it after. */
  ghost predicate Touches(s: State, s': State, t: Thread, i: nat)
    requires t in s.pcs && t in s'.pcs && i < |s.slots|
  {
    || (Claims(s.pcs[t]) && s.pcs[t].slot == i)
    || (Claims(s'.pcs[t]) && s'.pcs[t].slot == i && (s.slots[i].used == 0 || i in s.held))
  }

  /** Steps are local: other threads stay where they are, and only the slot that the step is about changes
      hands or contents. */
  lemma StepLocal(c: Config, s: State, t: Thread, l: Label)
    requires Owned(c, s) && Enabled(c, s, t, l)
    ensures var s' := Step(c, s, t, l);
      && s'.pcs.Keys == s.pcs.Keys && |s'.slots| == |s.slots|
      && (forall u <- s.pcs :: u != t ==> s'.pcs[u] == s.pcs[u])
      && (forall i :: 0 <= i < |s.slots| && !Touches(s, s', t, i) ==>
        s'.slots[i] == s.slots[i] && (i in s'.held <==> i in s.held))
  {}

  /** What others have is not touched. */
  lemma NotTouched(c: Config, s: State, s': State, t: Thread, u: Thread)
    requires Owned(c, s) && t in s.pcs && u in s.pcs && t in s'.pcs && t != u && Claims(s.pcs[u])
    ensures !Touches(s, s', t, s.pcs[u].slot)
  {}

  lemma StepSelf(c: Config, s: State, t: Thread, l: Label)
    requires Owned(c, s) && Enabled(c, s, t, l)
    ensures var s' := Step(c, s, t, l);
      Claims(s'.pcs[t]) ==>
        s'.pcs[t].slot < |s'.slots| && s'.pcs[t].slot !in s'.held && ClaimOk(s'.slots[s'.pcs[t].slot], t, s'.pcs[t])
        && Touches(s, s', t, s'.pcs[t].slot)
  {}

  lemma StepThreadsOk(c: Config, s: State, t: Thread, l: Label)
    requires Owned(c, s) && Enabled(c, s, t, l)
    ensures ThreadsOk(Step(c, s, t, l)) && ClaimsApart(Step(c, s, t, l))
  {
    var s' := Step(c, s, t, l);
    StepLocal(c, s, t, l);
    StepSelf(c, s, t, l);
    hide Step, Touches, ClaimOk;
    forall u <- s'.pcs | Claims(s'.pcs[u])
      ensures s'.pcs[u].slot < |s'.slots| && s'.pcs[u].slot !in s'.held
      ensures ClaimOk(s'.slots[s'.pcs[u].slot], u, s'.pcs[u])
      ensures u != t && Claims(s'.pcs[t]) ==> s'.pcs[u].slot != s'.pcs[t].slot
    {
      if u != t {
        NotTouched(c, s, s', t, u);
      }
    }
  }

  lemma StepHeldOk(c: Config, s: State, t: Thread, l: Label)
    requires Inv(c, s) && Enabled(c, s, t, l)
    ensures HeldOk(Step(c, s, t, l))
  {}

  /** A slot that is used and unheld after a step is claimed by the thread, or was used and unheld before and
      not claimed by it. */
  lemma SlotKept(c: Config, s: State, t: Thread, l: Label, i: nat)
    requires Owned(c, s) && Enabled(c, s, t, l) && i < |s.slots|
    ensures var s' := Step(c, s, t, l);
      s'.slots[i].used == 1 && i !in s'.held && !(Claims(s'.pcs[t]) && s'.pcs[t].slot == i) ==>
        s.slots[i].used == 1 && i !in s.held && !(Claims(s.pcs[t]) && s.pcs[t].slot == i)
  {}

  lemma StepAccounted(c: Config, s: State, t: Thread, l: Label)
    requires Owned(c, s) && Accounted(s) && Enabled(c, s, t, l)
    ensures Accounted(Step(c, s, t, l))
  {
    var s' := Step(c, s, t, l);
    StepLocal(c, s, t, l);
    hide Step, Touches;
    forall i | 0 <= i < |s'.slots| && s'.slots[i].used == 1 && i !in s'.held
      ensures ClaimedBySome(s'.pcs, i)
    {
      SlotKept(c, s, t, l, i);
      if Claims(s'.pcs[t]) && s'.pcs[t].slot == i {
      } else {
        var u :| u in s.pcs && Claims(s.pcs[u]) && s.pcs[u].slot == i;
        assert s'.pcs[u] == s.pcs[u];
      }
    }
  }

  lemma UsedUpdate(slots: seq<Slot>, i: nat, slot: Slot)
    requires i < |slots|
    ensures UsedSlots(slots[i := slot]) == if slot.used != 0 then UsedSlots(slots) + {i} else UsedSlots(slots) - {i}
    ensures i in UsedSlots(slots) <==> slots[i].used != 0
  {}

  lemma PendingUpdate(pcs: map<Thread, Pc>, t: Thread, pc: Pc)
    requires t in pcs
    ensures var pcs' := pcs[t := pc];
      && PendingIncrements(pcs') == (if pc.Won? then PendingIncrements(pcs) + {t} else PendingIncrements(pcs) - {t})
      && PendingDecrements(pcs')
        == (if pc.Dropping? && pc.step >= 3 then PendingDecrements(pcs) + {t} else PendingDecrements(pcs) - {t})
    ensures t in PendingIncrements(pcs) <==> pcs[t].Won?
    ensures t in PendingDecrements(pcs) <==> pcs[t].Dropping? && pcs[t].step >= 3
  {}

  function Bit(b: bool): int
  {
    if b then 1 else 0
  }

  lemma CardinalityChange<T>(a: set<T>, b: set<T>, t: T, now: bool)
    requires b == if now then a + {t} else a - {t}
    ensures |b| == |a| + Bit(now) - Bit(t in a)
  {
    if now && t in a { assert b == a; }
    if !now && t !in a { assert b == a; }
  }

  lemma UsedChange(slots: seq<Slot>, i: nat, slot: Slot)
    requires i < |slots|
    ensures |UsedSlots(slots[i := slot])| == |UsedSlots(slots)| + Bit(slot.used != 0) - Bit(slots[i].used != 0)
  {
    UsedUpdate(slots, i, slot);
    hide UsedSlots;
    CardinalityChange(UsedSlots(slots), UsedSlots(slots[i := slot]), i, slot.used != 0);
  }

  lemma PendingChange(pcs: map<Thread, Pc>, t: Thread, pc: Pc)
    requires t in pcs
    ensures |PendingIncrements(pcs[t := pc])| == |PendingIncrements(pcs)| + Bit(pc.Won?) - Bit(pcs[t].Won?)
    ensures |PendingDecrements(pcs[t := pc])| ==
            |PendingDecrements(pcs)| + Bit(pc.Dropping? && pc.step >= 3) - Bit(pcs[t].Dropping? && pcs[t].step >= 3)
  {
    PendingUpdate(pcs, t, pc);
    hide PendingIncrements, PendingDecrements;
    CardinalityChange(PendingIncrements(pcs), PendingIncrements(pcs[t := pc]), t, pc.Won?);
    CardinalityChange(PendingDecrements(pcs), PendingDecrements(pcs[t := pc]), t, pc.Dropping? && pc.step >= 3);
  }

  lemma ProbeCounted(c: Config, s: State, t: Thread, pc: Pc)
    requires Shape(c, s) && Counted(s) && t in s.pcs && s.pcs[t] == pc && pc.Probing?
    ensures Counted(Probe(c, s, t, pc))
  {
    var index := Try(c, pc.index);
    PendingChange(s.pcs, t, Probe(c, s, t, pc).pcs[t]);
    if pc.i < c.max { UsedChange(s.slots, index, s.slots[index].(used := 1)); }
    hide UsedSlots, PendingIncrements, PendingDecrements;
  }

  lemma SettleCounted(c: Config, s: State, t: Thread, pc: Pc)
    requires Shape(c, s) && Counted(s) && t in s.pcs && s.pcs[t] == pc && pc.Won?
    ensures Counted(Settle(s, t, pc))
  {
    PendingChange(s.pcs, t, Settle(s, t, pc).pcs[t]);
    UsedChange(s.slots, pc.slot, Settle(s, t, pc).slots[pc.slot]);
    hide UsedSlots, PendingIncrements, PendingDecrements;
  }

  lemma DropCounted(c: Config, s: State, t: Thread, pc: Pc)
    requires Shape(c, s) && Counted(s) && ThreadsOk(s) && t in s.pcs && s.pcs[t] == pc && pc.Dropping?
    ensures Counted(Drop(s, t, pc))
  {
    PendingChange(s.pcs, t, Drop(s, t, pc).pcs[t]);
    UsedChange(s.slots, pc.slot, Drop(s, t, pc).slots[pc.slot]);
    hide UsedSlots, PendingIncrements, PendingDecrements;
  }

  lemma StepCounted(c: Config, s: State, t: Thread, l: Label)
    requires Owned(c, s) && Counted(s) && Enabled(c, s, t, l)
    ensures Counted(Step(c, s, t, l))
  {
    var pc := s.pcs[t];
    match l
    case StartAccept(addr) => PendingChange(s.pcs, t, Probing(addr, 0, c.param));
    case StartDeaccept(id) => PendingChange(s.pcs, t, Dropping(id - c.base, 0));
    case Advance =>
      hide Counted, Probe, Settle, Drop;
      match pc
      case Probing(_, _, _) => ProbeCounted(c, s, t, pc);
      case Won(_, _, _) => SettleCounted(c, s, t, pc);
      case Dropping(_, _) => DropCounted(c, s, t, pc);
  }

  /** Every step of every thread keeps the invariant. */
  lemma StepInv(c: Config, s: State, t: Thread, l: Label)
    requires Inv(c, s) && Enabled(c, s, t, l)
    ensures Inv(c, Step(c, s, t, l))
  {
    StepShape(c, s, t, l);
    StepSlotsClear(c, s, t, l);
    StepThreadsOk(c, s, t, l);
    StepHeldOk(c, s, t, l);
    StepAccounted(c, s, t, l);
    StepCounted(c, s, t, l);
    hide Step, Shape, SlotsClear, ThreadsOk, ClaimsApart, HeldOk, Accounted, Counted, Enabled;
  }

  lemma InitialInv(c: Config, threads: set<Thread>)
    ensures Inv(c, Initial(c, threads))
  {
    var s := Initial(c, threads);
    assert UsedSlots(s.slots) == {} && PendingIncrements(s.pcs) == {} && PendingDecrements(s.pcs) == {};
  }

  /** The empty table, as nd_node_mgr_create leaves it, and any set of threads. */
  ghost function Start(c: Config, threads: set<Thread>): (s: State)
    ensures Inv(c, s)
  {
    InitialInv(c, threads);
    Initial(c, threads)
  }

  datatype Move = Move(t: Thread, l: Label)

  /** A run from s: every move is enabled when its turn comes. */
  ghost predicate IsRun(c: Config, s: State, moves: seq<Move>)
    requires Inv(c, s)
    decreases |moves|
  {
    moves != [] ==>
      && Enabled(c, s, moves[0].t, moves[0].l)
      && (StepInv(c, s, moves[0].t, moves[0].l); IsRun(c, Step(c, s, moves[0].t, moves[0].l), moves[1..]))
  }

  ghost function AfterRun(c: Config, s: State, moves: seq<Move>): State
    requires Inv(c, s) && IsRun(c, s, moves)
    decreases |moves|
  {
    if moves == [] then s
    else StepInv(c, s, moves[0].t, moves[0].l); AfterRun(c, Step(c, s, moves[0].t, moves[0].l), moves[1..])
  }

  lemma {:induction false} RunInv(c: Config, s: State, moves: seq<Move>)
    requires Inv(c, s) && IsRun(c, s, moves)
    ensures Inv(c, AfterRun(c, s, moves))
    decreases |moves|
  {
    if moves != [] {
      StepInv(c, s, moves[0].t, moves[0].l);
      hide Step, Inv;
      RunInv(c, Step(c, s, moves[0].t, moves[0].l), moves[1..]);
    }
  }

  /** Safety over every interleaving, from the empty table, of any number of threads: a slot has at most one
      holder, a compare-and-swap that wins finds owner and address cleared, no used slot is lost, and the
      counter is the number of used slots up to the updates that are still to come. */
  lemma SafeRuns(c: Config, threads: set<Thread>, moves: seq<Move>)
    requires IsRun(c, Start(c, threads), moves)
    ensures var s := AfterRun(c, Start(c, threads), moves);
      && (forall t <- s.pcs, u <- s.pcs :: t != u && Claims(s.pcs[t]) && Claims(s.pcs[u]) ==>
        s.pcs[t].slot != s.pcs[u].slot)
      && (forall t <- s.pcs :: Claims(s.pcs[t]) ==> s.pcs[t].slot !in s.held)
      && (forall i :: 0 <= i < |s.slots| && s.slots[i].used == 0 ==> s.slots[i].owner == 0 && s.slots[i].addr == 0)
      && (forall i :: 0 <= i < |s.slots| && s.slots[i].used != 0 ==> i in s.held || ClaimedBySome(s.pcs, i))
      && s.connectNum == |UsedSlots(s.slots)| - |PendingIncrements(s.pcs)| + |PendingDecrements(s.pcs)|
  {
    RunInv(c, Start(c, threads), moves);
  }

  /** When no call is under way, the used slots are the held ones and the counter is their number. */
  lemma Quiescent(c: Config, s: State)
    requires Inv(c, s) && forall t <- s.pcs :: s.pcs[t].Idle?
    ensures UsedSlots(s.slots) == s.held && s.connectNum == |s.held|
  {
    assert PendingIncrements(s.pcs) == {} && PendingDecrements(s.pcs) == {};
    forall i <- UsedSlots(s.slots)
      ensures i in s.held
    {
      assert s.slots[i].used == 1;
    }
  }

  /** The assertion in accept: whenever its compare-and-swap wins, the slot has neither owner nor address,
      nobody holds it and no other call has it. */
  lemma WinnerFindsCleared(c: Config, s: State, t: Thread)
    requires Inv(c, s) && t in s.pcs && s.pcs[t].Probing? && s.pcs[t].i < c.max
    requires s.slots[Try(c, s.pcs[t].index)].used == 0
    ensures var i, s' := Try(c, s.pcs[t].index), Step(c, s, t, Advance);
      && s'.pcs[t] == Won(s.pcs[t].addr, i, 0) && s'.slots[i] == Slot(1, 0, 0)
      && i !in s'.held && forall u <- s'.pcs :: u != t && Claims(s'.pcs[u]) ==> s'.pcs[u].slot != i
  {
    StepInv(c, s, t, Advance);
  }
}
