/** The round-robin scheduler as a value: what every operation does to the process table,
    the ready queue and the blocked list. Slot 0 is the idle process. */
module SchedulerModel {
  import opened Options

  const SLOTS: nat := 64
  const DEFAULT_QUANTUM: nat := 20
  const TICKS: nat := 0x1_0000_0000_0000_0000
  const PIDS: nat := 0x1_0000_0000
  /** No current process. */
  const NONE: int := -1

  datatype PState = New | Ready | Running | Blocked | Suspended | Terminated

  datatype Proc = Proc(pid: nat, state: PState, cpuTime: nat, lastSchedule: nat, quantum: nat)

  datatype Sched = Sched(procs: seq<Proc>, ready: seq<nat>, blocked: seq<nat>, cur: int, nextPid: nat)

  predicate Slot(p: int) { 0 <= p < SLOTS }

  /** The table has its 64 slots, and everything queued or current names one of them. */
  predicate Shaped(s: Sched) {
    && |s.procs| == SLOTS
    && (forall p :: p in s.ready ==> Slot(p))
    && (forall p :: p in s.blocked ==> Slot(p))
    && (s.cur == NONE || Slot(s.cur))
  }

  function SetState(s: Sched, p: nat, st: PState): Sched
    requires p < |s.procs|
  {
    s.(procs := s.procs[p := s.procs[p].(state := st)])
  }

  /** `add_to_ready_queue`. */
  function Enqueue(s: Sched, p: nat): Sched
    requires p < |s.procs|
  {
    SetState(s, p, Ready).(ready := s.ready + [p])
  }

  /** The state part of `context_switch`: nothing at all when `p` is already current. */
  function SwitchTo(s: Sched, p: nat): Sched
    requires Shaped(s) && Slot(p)
  {
    if p == s.cur then s else
    var s1 := if s.cur != NONE && s.procs[s.cur].state == Running then SetState(s, s.cur, Ready) else s;
    s1.(cur := p,
        procs := s1.procs[p := s1.procs[p].(state := Running, lastSchedule := s1.procs[p].cpuTime)])
  }

  /** `schedule_next`: the head of the ready queue, or the idle process. */
  function ScheduleNext(s: Sched): (r: Sched)
    requires Shaped(s)
    ensures |r.procs| == SLOTS
  {
    if s.ready == [] then SwitchTo(s, 0) else SwitchTo(s.(ready := s.ready[1..]), s.ready[0])
  }

  function Yield(s: Sched): Sched
    requires Shaped(s)
  {
    ScheduleNext(if s.cur == NONE then s else Enqueue(s, s.cur))
  }

  /** One more tick on the current process's clock. */
  function Charge(s: Sched): Sched
    requires Shaped(s) && s.cur != NONE
  {
    s.(procs := s.procs[s.cur := s.procs[s.cur].(cpuTime := (s.procs[s.cur].cpuTime + 1) % TICKS)])
  }

  /** Whether this tick ends the current process's quantum. */
  predicate Expires(s: Sched)
    requires Shaped(s)
  {
    s.cur != NONE && s.procs[s.cur].state == Running
    && ((s.procs[s.cur].cpuTime + 1) % TICKS - s.procs[s.cur].lastSchedule) % TICKS >= s.procs[s.cur].quantum
  }

  /** `timer_callback`; it does nothing while interrupts are disabled. */
  function Tick(s: Sched, enabled: bool): Sched
    requires Shaped(s)
  {
    if !enabled then s
    else if s.cur != NONE && s.procs[s.cur].state == Running then
      if !Expires(s) then Charge(s)
      else ScheduleNext(if s.cur == 0 then Charge(s) else Enqueue(Charge(s), s.cur))
    else ScheduleNext(s)
  }

  /** `process_block`: whatever state is asked for, the process ends up BLOCKED. */
  function Block(s: Sched, st: PState): Sched
    requires Shaped(s)
  {
    if s.cur == NONE || st == Running then s else
    ScheduleNext(SetState(s, s.cur, Blocked).(blocked := [s.cur as nat] + s.blocked))
  }

  /** The queue without `p`. */
  function Without(q: seq<nat>, p: nat): (r: seq<nat>)
    ensures forall x :: x in r ==> x in q
  {
    if q == [] then [] else if q[0] == p then q[1..] else [q[0]] + Without(q[1..], p)
  }

  /** `process_get_by_id` uses the pid as a slot number. */
  function Lookup(s: Sched, pid: nat): Option<nat>
    requires Shaped(s)
  {
    if pid < SLOTS && s.procs[pid].pid == pid then Some(pid) else None
  }

  function Unblock(s: Sched, p: nat): (Sched, bool)
    requires Shaped(s) && Slot(p)
  {
    if s.procs[p].state != Blocked then (s, false)
    else (Enqueue(s.(blocked := Without(s.blocked, p)), p), true)
  }

  /** `process_terminate` of the process found in slot `p`; the idle process and free slots
      are not found. */
  function Terminate(s: Sched, p: nat): (Sched, bool)
    requires Shaped(s) && Slot(p)
  {
    if p == 0 || s.procs[p].pid == 0 then (s, false) else
    var st := s.procs[p].state;
    var s1 := SetState(s.(ready := if st == Ready then Without(s.ready, p) else s.ready,
                          blocked := if st == Blocked then Without(s.blocked, p) else s.blocked), p, Terminated);
    (if s.cur == p then ScheduleNext(s1.(cur := NONE)) else s1, true)
  }

  /** How far `process_create` gets once a slot is claimed. */
  datatype Outcome = Created | NoAddressSpace | LaterFailure

  /** The first reusable slot from `i` on. */
  function FreeSlot(procs: seq<Proc>, i: nat): (r: int)
    requires i <= |procs|
    ensures r == NONE || (i <= r < |procs| && (procs[r].state == Terminated || procs[r].pid == 0))
    ensures forall j :: i <= j < (if r == NONE then |procs| else r) ==> procs[j].state != Terminated && procs[j].pid != 0
    decreases |procs| - i
  {
    if i == |procs| then NONE
    else if procs[i].state == Terminated || procs[i].pid == 0 then i
    else FreeSlot(procs, i + 1)
  }

  function NextPid(pid: nat): nat {
    if (pid + 1) % PIDS == 0 then 1 else (pid + 1) % PIDS
  }

  /** Building a process in the claimed slot. Failing to get an address space leaves the slot
      claimed in state NEW; a later failure frees it. */
  function BuildIn(s: Sched, p: nat, quantum: nat, outcome: Outcome): Sched
    requires Shaped(s) && Slot(p)
  {
    var blank := Proc(s.nextPid, New, 0, 0, if quantum == 0 then DEFAULT_QUANTUM else quantum);
    var s1 := s.(nextPid := NextPid(s.nextPid));
    match outcome
    case Created => Enqueue(s1.(procs := s.procs[p := blank]), p)
    case NoAddressSpace => s1.(procs := s.procs[p := blank])
    case LaterFailure => s1.(procs := s.procs[p := blank.(pid := 0)])
  }

  /** `process_create` after its argument checks. */
  function Create(s: Sched, quantum: nat, outcome: Outcome): Sched
    requires Shaped(s)
  {
    var p := FreeSlot(s.procs, 1);
    if p == NONE then s else BuildIn(s, p, quantum, outcome)
  }

  datatype Op =
    | DoCreate(quantum: nat, outcome: Outcome)
    | DoTick(enabled: bool)
    | DoYield
    | DoBlock(st: PState)
    | DoUnblock(p: nat)
    | DoTerminate(p: nat)

  function Step(s: Sched, op: Op): Sched
    requires Shaped(s)
  {
    match op
    case DoCreate(quantum, outcome) => Create(s, quantum, outcome)
    case DoTick(enabled) => Tick(s, enabled)
    case DoYield => Yield(s)
    case DoBlock(st) => Block(s, st)
    case DoUnblock(p) => if Slot(p) then Unblock(s, p).0 else s
    case DoTerminate(p) => if Slot(p) then Terminate(s, p).0 else s
  }

  /** Calls of `schedule_next` the operation makes. */
  function Calls(s: Sched, op: Op): (n: nat)
    requires Shaped(s)
    ensures n <= 1
  {
    match op
    case DoTick(enabled) => if enabled && (s.cur == NONE || s.procs[s.cur].state != Running || Expires(s)) then 1 else 0
    case DoYield => 1
    case DoBlock(st) => if s.cur != NONE && st != Running then 1 else 0
    case DoTerminate(p) => if Slot(p) && p != 0 && s.procs[p].pid != 0 && s.cur == p then 1 else 0
    case _ => 0
  }

  // ----- the invariant

  predicate NoDup(q: seq<nat>) {
    forall i, j :: 0 <= i < j < |q| ==> q[i] != q[j]
  }

  /** Between operations: both lists duplicate-free and disjoint, queued processes READY,
      listed exactly the BLOCKED ones, RUNNING only the current one, the current one in no
      list, and free slots in no list and never current. */
  ghost predicate Inv(s: Sched) {
    && Shaped(s) && Slot(s.cur) && s.nextPid != 0
    && NoDup(s.ready) && NoDup(s.blocked)
    && (forall p :: p in s.ready ==> p !in s.blocked && p != s.cur && s.procs[p].state == Ready)
    && (forall p :: 0 <= p < SLOTS ==> (p in s.blocked <==> s.procs[p].state == Blocked))
    && (forall p :: 0 <= p < SLOTS && s.procs[p].state == Running ==> p == s.cur)
    && (s.procs[s.cur].state == Ready || s.procs[s.cur].state == Running)
    && (s.procs[0].state == Ready || s.procs[0].state == Running)
    && (forall p :: p in s.ready && p != 0 ==> s.procs[p].pid != 0)
    && (forall p :: p in s.blocked ==> s.procs[p].pid != 0)
    && (s.cur != 0 ==> s.procs[s.cur].pid != 0)
  }

  /** The state `process_register_kernel_idle` leaves: the idle process current and READY,
      every other slot free. */
  function Initial(quantum: nat): Sched {
    Sched([Proc(0, Ready, 0, 0, quantum)] + seq(SLOTS - 1, _ => Proc(0, New, 0, 0, 0)), [], [], 0, 1)
  }

  lemma InitialInv(quantum: nat)
    ensures Inv(Initial(quantum))
  {
  }

  /** The idle process never blocks itself. */
  predicate Allowed(s: Sched, op: Op) {
    op.DoBlock? ==> s.cur != 0
  }
}

/** What the scheduler keeps over every run. */
module SchedulerLaws {
  import opened SchedulerModel

  lemma {:induction false} WithoutIs(q: seq<nat>, p: nat)
    requires NoDup(q)
    ensures NoDup(Without(q, p))
    ensures forall x :: x in Without(q, p) <==> x in q && x != p
  {
    if q != [] {
      WithoutIs(q[1..], p);
      assert q == [q[0]] + q[1..];
      if q[0] != p {
        assert q[0] !in q[1..];
      }
    }
  }

  lemma EnqueueNoDup(q: seq<nat>, p: nat)
    requires NoDup(q) && p !in q
    ensures NoDup(q + [p])
    ensures forall x :: x in q + [p] <==> x in q || x == p
  {
  }

  /** What holds just before `schedule_next` is called: like the invariant, but the current
      process may be none, queued or blocked. */
  ghost predicate Switchable(s: Sched) {
    && Shaped(s) && s.nextPid != 0
    && NoDup(s.ready) && NoDup(s.blocked)
    && (forall p :: p in s.ready ==> p !in s.blocked && s.procs[p].state == Ready)
    && (forall p :: 0 <= p < SLOTS ==> (p in s.blocked <==> s.procs[p].state == Blocked))
    && (forall p :: 0 <= p < SLOTS && s.procs[p].state == Running ==> p == s.cur)
    && (s.procs[0].state == Ready || s.procs[0].state == Running)
    && (forall p :: p in s.ready && p != 0 ==> s.procs[p].pid != 0)
    && (forall p :: p in s.blocked ==> s.procs[p].pid != 0)
  }

  lemma SwitchKeeps(s: Sched, p: nat)
    requires Switchable(s) && Slot(p) && p !in s.ready && s.procs[p].state != Blocked
    requires p == s.cur ==> s.procs[p].state == Ready || s.procs[p].state == Running
    requires p != 0 ==> s.procs[p].pid != 0
    requires s.cur != NONE && s.procs[s.cur].state == Running && s.cur != p ==> s.cur !in s.ready
    ensures Inv(SwitchTo(s, p))
  {
  }

  lemma ScheduleKeeps(s: Sched)
    requires Switchable(s)
    ensures Inv(ScheduleNext(s))
  {
    if s.ready == [] {
      SwitchKeeps(s, 0);
    } else {
      var p := s.ready[0];
      assert p in s.ready;
      var s1 := s.(ready := s.ready[1..]);
      assert forall x :: x in s1.ready ==> x in s.ready;
      assert p !in s1.ready;
      SwitchKeeps(s1, p);
    }
  }

  lemma EnqueueCurrent(s: Sched)
    requires Inv(s)
    ensures Switchable(Enqueue(s, s.cur))
  {
    EnqueueNoDup(s.ready, s.cur);
  }

  lemma YieldKeeps(s: Sched)
    requires Inv(s)
    ensures Inv(Yield(s))
  {
    EnqueueCurrent(s);
    ScheduleKeeps(Enqueue(s, s.cur));
  }

  lemma ChargeKeeps(s: Sched)
    requires Inv(s)
    ensures Inv(Charge(s)) && Charge(s).cur == s.cur && Charge(s).ready == s.ready
    ensures forall p :: 0 <= p < SLOTS ==> Charge(s).procs[p].state == s.procs[p].state
  {
  }

  lemma TickKeeps(s: Sched, enabled: bool)
    requires Inv(s)
    ensures Inv(Tick(s, enabled))
  {
    assert Shaped(s) && Slot(s.cur);
    hide Charge, Expires, ScheduleNext, Inv, Switchable, Enqueue;
    ChargeKeeps(s);
    if enabled {
      if s.procs[s.cur].state != Running {
        InvSwitchable(s);
        ScheduleKeeps(s);
      } else if Expires(s) {
        TickExpires(s);
      }
    }
  }

  lemma InvSwitchable(s: Sched)
    requires Inv(s)
    ensures Switchable(s)
  {
  }

  lemma TickExpires(s: Sched)
    requires Inv(s)
    ensures Inv(ScheduleNext(if s.cur == 0 then Charge(s) else Enqueue(Charge(s), s.cur)))
  {
    ChargeKeeps(s);
    hide Charge;
    if s.cur == 0 {
      InvSwitchable(Charge(s));
      ScheduleKeeps(Charge(s));
    } else {
      EnqueueCurrent(Charge(s));
      ScheduleKeeps(Enqueue(Charge(s), s.cur));
    }
  }

  lemma BlockKeeps(s: Sched, st: PState)
    requires Inv(s) && s.cur != 0
    ensures Inv(Block(s, st))
  {
    if st != Running {
      var s1 := SetState(s, s.cur, Blocked).(blocked := [s.cur as nat] + s.blocked);
      assert forall x :: x in s1.blocked <==> x in s.blocked || x == s.cur;
      ScheduleKeeps(s1);
    }
  }

  lemma UnblockKeeps(s: Sched, p: nat)
    requires Inv(s) && Slot(p)
    ensures Inv(Unblock(s, p).0)
  {
    if s.procs[p].state == Blocked {
      WithoutIs(s.blocked, p);
      EnqueueNoDup(s.ready, p);
    }
  }

  lemma TerminateKeeps(s: Sched, p: nat)
    requires Inv(s) && Slot(p)
    ensures Inv(Terminate(s, p).0)
  {
    if p != 0 && s.procs[p].pid != 0 {
      WithoutIs(s.ready, p);
      WithoutIs(s.blocked, p);
      hide Without, NoDup, ScheduleNext;
      var st := s.procs[p].state;
      var s1 := SetState(s.(ready := if st == Ready then Without(s.ready, p) else s.ready,
                            blocked := if st == Blocked then Without(s.blocked, p) else s.blocked), p, Terminated);
      if s.cur == p {
        ScheduleKeeps(s1.(cur := NONE));
      }
    }
  }

  lemma CreateKeeps(s: Sched, quantum: nat, outcome: Outcome)
    requires Inv(s)
    ensures Inv(Create(s, quantum, outcome))
  {
    var p := FreeSlot(s.procs, 1);
    if p != NONE {
      FreeSlotUnlisted(s, p);
      var blank := Proc(s.nextPid, New, 0, 0, if quantum == 0 then DEFAULT_QUANTUM else quantum);
      ClaimKeeps(s, p, blank);
      ClaimKeeps(s, p, blank.(pid := 0));
      var claimed := s.(nextPid := NextPid(s.nextPid), procs := s.procs[p := blank]);
      EnqueueNewKeeps(claimed, p);
      hide Inv, NextPid, FreeSlot;
      assert outcome == Created ==> Create(s, quantum, outcome) == Enqueue(claimed, p);
    }
  }

  lemma FreeSlotUnlisted(s: Sched, p: nat)
    requires Inv(s) && 0 < p < SLOTS && (s.procs[p].state == Terminated || s.procs[p].pid == 0)
    ensures p !in s.ready && p !in s.blocked && p != s.cur
  {
  }

  /** A claimed slot is NEW and in no list. */
  lemma ClaimKeeps(s: Sched, p: nat, blank: Proc)
    requires Inv(s) && 0 < p < SLOTS && p !in s.ready && p !in s.blocked && p != s.cur && blank.state == New
    ensures Inv(s.(nextPid := NextPid(s.nextPid), procs := s.procs[p := blank]))
  {
    hide NoDup;
  }

  lemma EnqueueNewKeeps(s: Sched, p: nat)
    requires Inv(s) && 0 < p < SLOTS && p !in s.ready && p != s.cur && s.procs[p].state == New && s.procs[p].pid != 0
    ensures Inv(Enqueue(s, p))
  {
    EnqueueNoDup(s.ready, p);
    hide NoDup;
  }

  lemma StepKeeps(s: Sched, op: Op)
    requires Inv(s) && Allowed(s, op)
    ensures Inv(Step(s, op))
  {
    match op
    case DoCreate(quantum, outcome) => CreateKeeps(s, quantum, outcome);
    case DoTick(enabled) => TickKeeps(s, enabled);
    case DoYield => YieldKeeps(s);
    case DoBlock(st) => BlockKeeps(s, st);
    case DoUnblock(p) => if Slot(p) { UnblockKeeps(s, p); }
    case DoTerminate(p) => if Slot(p) { TerminateKeeps(s, p); }
  }

  // ----- runs

  ghost predicate AllowedRun(s: Sched, ops: seq<Op>)
    requires Inv(s)
    decreases |ops|
  {
    ops == [] || (Allowed(s, ops[0]) && (StepKeeps(s, ops[0]); AllowedRun(Step(s, ops[0]), ops[1..])))
  }

  ghost function Run(s: Sched, ops: seq<Op>): Sched
    requires Inv(s) && AllowedRun(s, ops)
    decreases |ops|
  {
    if ops == [] then s else StepKeeps(s, ops[0]); Run(Step(s, ops[0]), ops[1..])
  }

  /** Every run keeps the invariant. */
  lemma {:induction false} RunKeeps(s: Sched, ops: seq<Op>)
    requires Inv(s) && AllowedRun(s, ops)
    ensures Inv(Run(s, ops))
    decreases |ops|
  {
    if ops == [] {
    } else {
      StepKeeps(s, ops[0]);
      RunKeeps(Step(s, ops[0]), ops[1..]);
    }
  }

  // ----- no process is lost

  /** Every READY process other than idle is in the ready queue. */
  ghost predicate NoneLost(s: Sched)
    requires Inv(s)
  {
    forall p :: 0 < p < SLOTS && s.procs[p].state == Ready ==> p in s.ready
  }

  /** The operation puts a non-idle current process back into the ready queue. */
  predicate Requeues(s: Sched, op: Op)
    requires Shaped(s)
  {
    s.cur > 0 && (op.DoYield? || (op.DoTick? && op.enabled && Expires(s)))
  }

  lemma SwitchStates(s: Sched, p: nat)
    requires Shaped(s) && Slot(p) && p != s.cur
    ensures var s' := SwitchTo(s, p);
            && s'.cur == p && s'.ready == s.ready && s'.procs[p].state == Running
            && forall x :: 0 <= x < SLOTS && x != p ==>
                 s'.procs[x].state == (if x == s.cur && s.procs[x].state == Running then Ready else s.procs[x].state)
  {
  }

  /** Requeueing the current process loses it if and only if the ready queue was empty. */
  lemma RequeueKeepsAllIff(s: Sched, op: Op)
    requires Inv(s) && NoneLost(s) && Requeues(s, op)
    ensures Inv(Step(s, op))
    ensures NoneLost(Step(s, op)) <==> s.ready != []
  {
    StepKeeps(s, op);
    ChargeKeeps(s);
    var s1 := Enqueue(if op.DoYield? then s else Charge(s), s.cur);
    assert Step(s, op) == ScheduleNext(s1);
    hide Charge, Expires;
    if s.ready == [] {
      assert s1.ready == [s.cur];
      assert Step(s, op).procs[s.cur].state == Ready;
    } else {
      RequeueBehind(s, s1);
    }
  }

  /** With another process queued, the requeued one waits behind it and nobody is lost. */
  lemma RequeueBehind(s: Sched, s1: Sched)
    requires Inv(s) && NoneLost(s) && s.ready != [] && s.cur > 0
    requires Shaped(s1) && s1.ready == s.ready + [s.cur as nat] && s1.cur == s.cur
    requires forall p :: 0 <= p < SLOTS ==> s1.procs[p].state == if p == s.cur then Ready else s.procs[p].state
    ensures forall p :: 0 < p < SLOTS && ScheduleNext(s1).procs[p].state == Ready ==> p in ScheduleNext(s1).ready
  {
    var head := s.ready[0];
    assert head in s.ready && s1.ready[0] == head;
    SwitchStates(s1.(ready := s1.ready[1..]), head);
    var s' := ScheduleNext(s1);
    forall p | 0 < p < SLOTS && s'.procs[p].state == Ready
      ensures p in s'.ready
    {
      assert p != head;
      assert s1.ready == [head] + s'.ready;
      assert p in s1.ready;
    }
  }

  lemma PlainStepKeepsAll(s: Sched, op: Op)
    requires Inv(s) && Allowed(s, op) && NoneLost(s) && !Requeues(s, op)
    ensures Inv(Step(s, op)) && NoneLost(Step(s, op))
  {
    hide Create, Tick, Block, Unblock, Terminate, NoneLost, Expires, Yield;
    StepKeeps(s, op);
    match op
    case DoCreate(quantum, outcome) => CreateKeepsAll(s, quantum, outcome);
    case DoTick(enabled) => TickKeepsAll(s, enabled);
    case DoYield => IdleYieldKeepsAll(s);
    case DoBlock(st) => BlockKeepsAll(s, st);
    case DoUnblock(p) => if Slot(p) { UnblockKeepsAll(s, p); }
    case DoTerminate(p) => if Slot(p) { TerminateKeepsAll(s, p); }
  }

  lemma CreateKeepsAll(s: Sched, quantum: nat, outcome: Outcome)
    requires Inv(s) && NoneLost(s)
    ensures Inv(Create(s, quantum, outcome)) && NoneLost(Create(s, quantum, outcome))
  {
    CreateKeeps(s, quantum, outcome);
    hide Inv, NextPid;
  }

  lemma IdleYieldKeepsAll(s: Sched)
    requires Inv(s) && NoneLost(s) && s.cur == 0
    ensures Inv(Yield(s)) && NoneLost(Yield(s))
  {
    EnqueueCurrent(s);
    ScheduleKeepsAll(Enqueue(s, 0));
  }

  lemma BlockKeepsAll(s: Sched, st: PState)
    requires Inv(s) && NoneLost(s) && s.cur != 0
    ensures Inv(Block(s, st)) && NoneLost(Block(s, st))
  {
    if st != Running {
      var s1 := SetState(s, s.cur, Blocked).(blocked := [s.cur as nat] + s.blocked);
      assert forall x :: x in s1.blocked <==> x in s.blocked || x == s.cur;
      ScheduleKeepsAll(s1);
    }
  }

  lemma UnblockKeepsAll(s: Sched, p: nat)
    requires Inv(s) && NoneLost(s) && Slot(p)
    ensures Inv(Unblock(s, p).0) && NoneLost(Unblock(s, p).0)
  {
    UnblockKeeps(s, p);
    hide Inv;
  }

  /** A scheduling step that no non-idle RUNNING process is switched away from. */
  lemma ScheduleKeepsAll(s: Sched)
    requires Switchable(s)
    requires forall p :: 0 < p < SLOTS && s.procs[p].state == Ready ==> p in s.ready
    requires s.cur > 0 ==> s.procs[s.cur].state != Running && s.cur !in s.ready
    ensures Inv(ScheduleNext(s)) && NoneLost(ScheduleNext(s))
  {
    ScheduleKeeps(s);
    if s.ready != [] {
      assert s.ready == [s.ready[0]] + s.ready[1..];
    }
  }

  lemma TickKeepsAll(s: Sched, enabled: bool)
    requires Inv(s) && NoneLost(s) && !Requeues(s, DoTick(enabled))
    ensures Inv(Tick(s, enabled)) && NoneLost(Tick(s, enabled))
  {
    TickKeeps(s, enabled);
    ChargeKeeps(s);
    hide Charge, Expires;
    if enabled {
      if s.procs[s.cur].state != Running {
        ScheduleKeepsAll(s);
      } else if Expires(s) {
        InvSwitchable(Charge(s));
        ScheduleKeepsAll(Charge(s));
      }
    }
  }

  lemma TerminateKeepsAll(s: Sched, p: nat)
    requires Inv(s) && NoneLost(s) && Slot(p)
    ensures Inv(Terminate(s, p).0) && NoneLost(Terminate(s, p).0)
  {
    TerminateKeeps(s, p);
    if p != 0 && s.procs[p].pid != 0 {
      WithoutIs(s.ready, p);
      WithoutIs(s.blocked, p);
      hide Without, NoDup, ScheduleNext;
      var st := s.procs[p].state;
      var s1 := SetState(s.(ready := if st == Ready then Without(s.ready, p) else s.ready,
                            blocked := if st == Blocked then Without(s.blocked, p) else s.blocked), p, Terminated);
      if s.cur == p {
        ScheduleKeepsAll(s1.(cur := NONE));
      }
    }
  }

  /** Along the run, a non-idle process is requeued only while another one is queued. */
  ghost predicate CarefulRun(s: Sched, ops: seq<Op>)
    requires Inv(s) && AllowedRun(s, ops)
    decreases |ops|
  {
    ops == []
    || ((Requeues(s, ops[0]) ==> s.ready != [])
        && (StepKeeps(s, ops[0]); CarefulRun(Step(s, ops[0]), ops[1..])))
  }

  /** In every careful run each READY non-idle process is queued, exactly once. */
  lemma {:induction false} NoProcessLost(s: Sched, ops: seq<Op>)
    requires Inv(s) && NoneLost(s) && AllowedRun(s, ops) && CarefulRun(s, ops)
    ensures Inv(Run(s, ops)) && NoneLost(Run(s, ops)) && NoDup(Run(s, ops).ready)
    decreases |ops|
  {
    if ops == [] {
    } else {
      StepKeeps(s, ops[0]);
      if Requeues(s, ops[0]) {
        RequeueKeepsAllIff(s, ops[0]);
      } else {
        PlainStepKeepsAll(s, ops[0]);
      }
      NoProcessLost(Step(s, ops[0]), ops[1..]);
    }
  }

  /** READY, not queued and not current: nothing refers to the process any more. */
  ghost predicate Lost(s: Sched, p: nat)
    requires Inv(s)
  {
    0 < p < SLOTS && s.procs[p].state == Ready && s.procs[p].pid != 0 && p !in s.ready && p != s.cur
  }

  /** Scheduling never picks a process that is not queued, other than idle. */
  lemma ScheduleSkips(s: Sched, p: nat)
    requires Shaped(s) && 0 < p < SLOTS && p !in s.ready && p != s.cur
    ensures var s' := ScheduleNext(s); p !in s'.ready && p != s'.cur && s'.procs[p] == s.procs[p]
  {
    if s.ready != [] {
      assert s.ready[0] in s.ready;
      assert forall x :: x in s.ready[1..] ==> x in s.ready;
    }
  }

  lemma LostStaysLost(s: Sched, op: Op, p: nat)
    requires Inv(s) && Allowed(s, op) && Lost(s, p) && op != DoTerminate(p)
    ensures Inv(Step(s, op)) && Lost(Step(s, op), p)
  {
    StepKeeps(s, op);
    match op
    case DoCreate(quantum, outcome) =>
      hide NextPid;
    case DoTick(enabled) =>
      LostThroughTick(s, enabled, p);
    case DoYield =>
      ScheduleSkips(Enqueue(s, s.cur), p);
      hide ScheduleNext;
    case DoBlock(st) =>
      if st != Running {
        ScheduleSkips(SetState(s, s.cur, Blocked).(blocked := [s.cur as nat] + s.blocked), p);
        hide ScheduleNext;
      }
    case DoUnblock(q) =>
    case DoTerminate(q) =>
      if Slot(q) {
        LostThroughTerminate(s, q, p);
      }
  }

  lemma LostThroughTick(s: Sched, enabled: bool, p: nat)
    requires Inv(s) && Lost(s, p)
    ensures Inv(Tick(s, enabled)) && Lost(Tick(s, enabled), p)
  {
    TickKeeps(s, enabled);
    ChargeKeeps(s);
    assert Charge(s).procs[p] == s.procs[p];
    hide Charge, Expires;
    ScheduleSkips(s, p);
    ScheduleSkips(Charge(s), p);
    ScheduleSkips(Enqueue(Charge(s), s.cur), p);
    hide ScheduleNext;
  }

  lemma LostThroughTerminate(s: Sched, q: nat, p: nat)
    requires Inv(s) && Lost(s, p) && Slot(q) && q != p
    ensures Inv(Terminate(s, q).0) && Lost(Terminate(s, q).0, p)
  {
    TerminateKeeps(s, q);
    if q != 0 && s.procs[q].pid != 0 && s.cur == q {
      var s1 := SetState(s.(ready := if s.procs[q].state == Ready then Without(s.ready, q) else s.ready), q, Terminated);
      assert Terminate(s, q).0 == ScheduleNext(s1.(cur := NONE));
      ScheduleSkips(s1.(cur := NONE), p);
      hide ScheduleNext;
    }
  }

  /** A lost process never runs again: no run brings it back short of terminating it. */
  lemma {:induction false} LostForever(s: Sched, ops: seq<Op>, p: nat)
    requires Inv(s) && AllowedRun(s, ops) && Lost(s, p)
    requires forall i :: 0 <= i < |ops| ==> ops[i] != DoTerminate(p)
    ensures Inv(Run(s, ops)) && Lost(Run(s, ops), p)
    decreases |ops|
  {
    if ops == [] {
    } else {
      LostStaysLost(s, ops[0], p);
      LostForever(Step(s, ops[0]), ops[1..], p);
    }
  }

  /** READY, not queued and not current, in a state between operations or inside one. */
  predicate Adrift(s: Sched, p: nat)
    requires Shaped(s)
  {
    0 < p < SLOTS && s.procs[p].state == Ready && s.procs[p].pid != 0 && p !in s.ready && p != s.cur
  }

  lemma HeadOrTail(q: seq<nat>, p: nat)
    requires q != []
    ensures p in q <==> p == q[0] || p in q[1..]
  {
    assert q == [q[0]] + q[1..];
  }

  /** Scheduling leaves behind exactly the unqueued processes that were READY or running. */
  lemma ScheduleLeaves(s: Sched, p: nat)
    requires Shaped(s) && 0 < p < SLOTS && (s.procs[p].state == Running ==> p == s.cur)
    ensures Shaped(ScheduleNext(s))
    ensures Adrift(ScheduleNext(s), p)
            <==> s.procs[p].pid != 0 && p !in s.ready && (s.procs[p].state == Ready || s.procs[p].state == Running)
  {
    if s.ready != [] {
      HeadOrTail(s.ready, p);
    }
  }

  lemma TickLeaves(s: Sched, enabled: bool, p: nat)
    requires Inv(s) && 0 < p < SLOTS && !Lost(s, p)
    ensures Inv(Tick(s, enabled))
    ensures Lost(Tick(s, enabled), p) <==> enabled && p == s.cur && s.procs[p].state == Ready
  {
    TickKeeps(s, enabled);
    ChargeKeeps(s);
    assert forall x :: 0 <= x < SLOTS ==> Charge(s).procs[x].pid == s.procs[x].pid;
    hide Charge, Expires;
    ScheduleLeaves(s, p);
    ScheduleLeaves(Charge(s), p);
    ScheduleLeaves(Enqueue(Charge(s), s.cur), p);
    hide ScheduleNext;
  }

  lemma TerminateLeaves(s: Sched, q: nat, p: nat)
    requires Inv(s) && 0 < p < SLOTS && !Lost(s, p) && Slot(q)
    ensures Inv(Terminate(s, q).0) && !Lost(Terminate(s, q).0, p)
  {
    TerminateKeeps(s, q);
    WithoutIs(s.ready, q);
    if q != 0 && s.procs[q].pid != 0 && s.cur == q {
      var s1 := SetState(s.(ready := if s.procs[q].state == Ready then Without(s.ready, q) else s.ready), q, Terminated);
      assert Terminate(s, q).0 == ScheduleNext(s1.(cur := NONE));
      ScheduleLeaves(s1.(cur := NONE), p);
      hide ScheduleNext;
    }
  }

  lemma CreateLeaves(s: Sched, quantum: nat, outcome: Outcome, p: nat)
    requires Inv(s) && 0 < p < SLOTS && !Lost(s, p)
    ensures Inv(Create(s, quantum, outcome)) && !Lost(Create(s, quantum, outcome), p)
  {
    CreateKeeps(s, quantum, outcome);
    hide NextPid, NoDup;
  }

  lemma YieldLeaves(s: Sched, p: nat)
    requires Inv(s) && 0 < p < SLOTS && !Lost(s, p)
    ensures Inv(Yield(s)) && !Lost(Yield(s), p)
  {
    YieldKeeps(s);
    ScheduleLeaves(Enqueue(s, s.cur), p);
    hide ScheduleNext, NoDup;
  }

  lemma BlockLeaves(s: Sched, st: PState, p: nat)
    requires Inv(s) && 0 < p < SLOTS && !Lost(s, p) && s.cur != 0
    ensures Inv(Block(s, st)) && !Lost(Block(s, st), p)
  {
    BlockKeeps(s, st);
    if st != Running {
      ScheduleLeaves(SetState(s, s.cur, Blocked).(blocked := [s.cur as nat] + s.blocked), p);
      hide ScheduleNext, NoDup;
    }
  }

  lemma UnblockLeaves(s: Sched, q: nat, p: nat)
    requires Inv(s) && 0 < p < SLOTS && !Lost(s, p) && Slot(q)
    ensures Inv(Unblock(s, q).0) && !Lost(Unblock(s, q).0, p)
  {
    UnblockKeeps(s, q);
    hide Without, NoDup;
  }

  /** The step that loses a process, exactly: a tick while it is current and READY, which is
      what a requeue with nobody else queued leaves behind. */
  lemma BecomesLostIff(s: Sched, op: Op, p: nat)
    requires Inv(s) && Allowed(s, op) && 0 < p < SLOTS && !Lost(s, p)
    ensures Inv(Step(s, op))
    ensures Lost(Step(s, op), p) <==> op == DoTick(true) && p == s.cur && s.procs[p].state == Ready
  {
    StepKeeps(s, op);
    hide Create, Tick, Yield, Block, Unblock, Terminate, Lost, NoDup;
    match op {
      case DoCreate(quantum, outcome) => CreateLeaves(s, quantum, outcome, p);
      case DoTick(enabled) => TickLeaves(s, enabled, p);
      case DoYield => YieldLeaves(s, p);
      case DoBlock(st) => BlockLeaves(s, st, p);
      case DoUnblock(q) =>
        if Slot(q) {
          UnblockLeaves(s, q, p);
        }
      case DoTerminate(q) =>
        if Slot(q) {
          TerminateLeaves(s, q, p);
        }
    }
  }

  /** Such a state is reached from the start: the only process yields, and the next tick
      leaves it behind for good. */
  lemma LostIsReached(quantum: nat, q: nat)
    ensures var start, ops := Initial(quantum), [DoCreate(q, Created), DoTick(true), DoYield, DoTick(true)];
            Inv(start) && AllowedRun(start, ops) && Inv(Run(start, ops)) && Lost(Run(start, ops), 1)
  {
    InitialInv(quantum);
    var s0 := Initial(quantum);
    var s1 := Step(s0, DoCreate(q, Created));
    StepKeeps(s0, DoCreate(q, Created));
    assert FreeSlot(s0.procs, 1) == 1;
    assert s1.ready == [1] && s1.cur == 0 && s1.procs[1].pid == 1;
    var s2 := Step(s1, DoTick(true));
    StepKeeps(s1, DoTick(true));
    assert s2.ready == [] && s2.cur == 1 && s2.procs[1].state == Running;
    var s3 := Step(s2, DoYield);
    StepKeeps(s2, DoYield);
    assert s3.ready == [] && s3.cur == 1 && s3.procs[1].state == Ready && s3.procs[1].pid == 1;
    FourSteps(s0, DoCreate(q, Created), DoTick(true), DoYield, DoTick(true));
    BecomesLostIff(s3, DoTick(true), 1);
  }

  lemma FourSteps(s: Sched, a: Op, b: Op, c: Op, d: Op)
    requires Inv(s) && Allowed(s, a) && Inv(Step(s, a)) && Allowed(Step(s, a), b)
    requires Inv(Step(Step(s, a), b)) && Allowed(Step(Step(s, a), b), c)
    requires Inv(Step(Step(Step(s, a), b), c)) && Allowed(Step(Step(Step(s, a), b), c), d)
    ensures AllowedRun(s, [a, b, c, d])
    ensures Run(s, [a, b, c, d]) == Step(Step(Step(Step(s, a), b), c), d)
  {
    hide Step, Allowed, NoDup;
    var s1 := Step(s, a);
    var s2 := Step(s1, b);
    var s3 := Step(s2, c);
    StepKeeps(s3, d);
    assert [a, b, c, d][1..] == [b, c, d] && [b, c, d][1..] == [c, d] && [c, d][1..] == [d] && [d][1..] == [];
    assert AllowedRun(Step(s3, d), []) && Run(Step(s3, d), []) == Step(s3, d);
    assert AllowedRun(s3, [d]) && Run(s3, [d]) == Step(s3, d);
    assert AllowedRun(s2, [c, d]) && Run(s2, [c, d]) == Step(s3, d);
    assert AllowedRun(s1, [b, c, d]) && Run(s1, [b, c, d]) == Step(s3, d);
  }

  // ----- bounded waiting

  ghost predicate At(q: seq<nat>, p: nat, k: int) {
    0 <= k < |q| && q[k] == p
  }

  lemma {:induction false} WithoutPosition(q: seq<nat>, x: nat, p: nat, k: nat) returns (k': nat)
    requires At(q, p, k) && x != p
    ensures k' <= k && At(Without(q, x), p, k')
  {
    if q[0] == x {
      k' := k - 1;
    } else if k == 0 {
      k' := 0;
    } else {
      var j := WithoutPosition(q[1..], x, p, k - 1);
      k' := j + 1;
    }
  }

  /** One scheduling step moves a queued process one place forward, or runs it. */
  lemma ScheduleMoves(s: Sched, p: nat, k: nat)
    requires Shaped(s) && At(s.ready, p, k)
    ensures var s' := ScheduleNext(s); if k == 0 then s'.cur == p else At(s'.ready, p, k - 1)
  {
  }

  /** Whatever the operation, a waiting process moves forward by at least the number of
      scheduling steps it makes, or becomes current. */
  lemma StepMoves(s: Sched, op: Op, p: nat, k: nat) returns (k': nat)
    requires Inv(s) && Allowed(s, op) && At(s.ready, p, k) && op != DoTerminate(p)
    ensures var s' := Step(s, op);
            s'.cur == p || (k' + Calls(s, op) <= k && At(s'.ready, p, k'))
  {
    k' := k - (if k == 0 then 0 else Calls(s, op));
    match op
    case DoCreate(quantum, outcome) =>
    case DoTick(enabled) =>
      ChargeKeeps(s);
      hide Charge, Expires;
      if enabled && Calls(s, op) == 1 {
        var s1 := if s.procs[s.cur].state != Running then s
                  else if s.cur == 0 then Charge(s) else Enqueue(Charge(s), s.cur);
        assert Step(s, op) == ScheduleNext(s1);
        assert At(s1.ready, p, k);
        ScheduleMoves(s1, p, k);
      }
    case DoYield =>
      ScheduleMoves(Enqueue(s, s.cur), p, k);
    case DoBlock(st) =>
      if st != Running {
        ScheduleMoves(SetState(s, s.cur, Blocked).(blocked := [s.cur as nat] + s.blocked), p, k);
      }
    case DoUnblock(q) =>
    case DoTerminate(q) =>
      if Slot(q) && q != 0 && s.procs[q].pid != 0 {
        if s.cur == q {
          k' := TerminateCurrentMoves(s, p, k);
        } else if s.procs[q].state == Ready {
          k' := WithoutPosition(s.ready, q, p, k);
        }
      }
  }

  lemma TerminateCurrentMoves(s: Sched, p: nat, k: nat) returns (k': nat)
    requires Inv(s) && At(s.ready, p, k) && s.cur > 0
    ensures var s' := Terminate(s, s.cur).0; s'.cur == p || (k' + 1 <= k && At(s'.ready, p, k'))
  {
    var q := s.cur;
    k' := k;
    if s.procs[q].state == Ready {
      k' := WithoutPosition(s.ready, q, p, k);
    }
    var s1 := SetState(s.(ready := if s.procs[q].state == Ready then Without(s.ready, q) else s.ready), q, Terminated);
    assert Terminate(s, q).0 == ScheduleNext(s1.(cur := NONE));
    ScheduleMoves(s1.(cur := NONE), p, k');
    k' := if k' == 0 then 0 else k' - 1;
  }

  ghost function TotalCalls(s: Sched, ops: seq<Op>): nat
    requires Inv(s) && AllowedRun(s, ops)
    decreases |ops|
  {
    if ops == [] then 0 else StepKeeps(s, ops[0]); Calls(s, ops[0]) + TotalCalls(Step(s, ops[0]), ops[1..])
  }

  /** Process `p` is or becomes current before more than `n` scheduling steps are made. */
  ghost predicate RunsWithin(s: Sched, ops: seq<Op>, p: nat, n: int)
    requires Inv(s) && AllowedRun(s, ops)
    decreases |ops|
  {
    s.cur == p
    || (ops != [] && Calls(s, ops[0]) <= n
        && (StepKeeps(s, ops[0]); RunsWithin(Step(s, ops[0]), ops[1..], p, n - Calls(s, ops[0]))))
  }

  /** A process at position `k` of the ready queue is current by the (k+1)-th scheduling
      step, whatever creations, yields, blocks, unblocks and other terminations intervene. */
  lemma {:induction false} BoundedWaiting(s: Sched, ops: seq<Op>, p: nat, k: nat)
    requires Inv(s) && AllowedRun(s, ops) && At(s.ready, p, k)
    requires forall i :: 0 <= i < |ops| ==> ops[i] != DoTerminate(p)
    requires TotalCalls(s, ops) >= k + 1
    ensures RunsWithin(s, ops, p, k + 1)
    decreases |ops|
  {
    hide Step, Calls;
    StepKeeps(s, ops[0]);
    var s' := Step(s, ops[0]);
    var k' := StepMoves(s, ops[0], p, k);
    if s'.cur != p {
      BoundedWaiting(s', ops[1..], p, k');
      MoreBudget(s', ops[1..], p, k' + 1, k + 1 - Calls(s, ops[0]));
    }
  }

  lemma {:induction false} MoreBudget(s: Sched, ops: seq<Op>, p: nat, n: int, m: int)
    requires Inv(s) && AllowedRun(s, ops) && RunsWithin(s, ops, p, n) && n <= m
    ensures RunsWithin(s, ops, p, m)
    decreases |ops|
  {
    hide Step, Calls;
    if s.cur != p {
      StepKeeps(s, ops[0]);
      MoreBudget(Step(s, ops[0]), ops[1..], p, n - Calls(s, ops[0]), m - Calls(s, ops[0]));
    }
  }

  // ----- the quantum

  /** `n` ticks charged to the current process. */
  function ChargeTimes(s: Sched, n: nat): (r: Sched)
    requires Shaped(s) && s.cur != NONE
    ensures Shaped(r) && r.cur == s.cur
  {
    if n == 0 then s else Charge(ChargeTimes(s, n - 1))
  }

  lemma {:induction false} ChargedClock(s: Sched, n: nat)
    requires Shaped(s) && s.cur != NONE && s.procs[s.cur].cpuTime < TICKS
    ensures var a, b := s.procs[s.cur], ChargeTimes(s, n).procs[s.cur];
            b == a.(cpuTime := (a.cpuTime + n) % TICKS)
  {
    if n == 0 {
      assert s.procs[s.cur].cpuTime % TICKS == s.procs[s.cur].cpuTime;
    } else {
      ChargedClock(s, n - 1);
      OneMoreTick(s.procs[s.cur].cpuTime + n - 1);
    }
  }

  lemma OneMoreTick(x: nat)
    ensures (x % TICKS + 1) % TICKS == (x + 1) % TICKS
  {
  }

  lemma ElapsedTicks(c: nat, n: nat)
    requires c < TICKS && n < TICKS
    ensures (((c + n) % TICKS) - c) % TICKS == n
  {
  }

  /** A process that is switched to keeps running for exactly its quantum of ticks, also when
      its tick counter wraps around meanwhile: the tick that ends it is the quantum-th. */
  lemma QuantumLasts(s: Sched, p: nat, n: nat)
    requires Shaped(s) && Slot(p) && p != s.cur && s.procs[p].cpuTime < TICKS && n < s.procs[p].quantum < TICKS
    ensures var t := ChargeTimes(SwitchTo(s, p), n);
            && t.cur == p && t.procs[p].state == Running && (Expires(t) <==> n + 1 == s.procs[p].quantum)
            && (n + 1 < s.procs[p].quantum ==> Tick(t, true) == ChargeTimes(SwitchTo(s, p), n + 1))
  {
    var s1 := SwitchTo(s, p);
    ChargedClock(s1, n);
    ElapsedTicks(s.procs[p].cpuTime, n + 1);
    OneMoreTick(s.procs[p].cpuTime + n);
    hide SwitchTo, ScheduleNext;
  }
}
