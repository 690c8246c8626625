/** What each scheduler operation does to the process it is about and to everybody else, said on
    fields, positions and membership instead of through the queue functions; and which pids
    those processes carry. */
module SchedulerEffects {
  import opened Options
  import opened QueueLinks
  import opened SchedulerLaws
  import opened SchedulerModel

  /** `t` is `q` with one more element at its end. */
  ghost predicate Appended(q: seq<nat>, t: seq<nat>, p: nat) {
    |t| == |q| + 1 && t[|q|] == p && forall i :: 0 <= i < |q| ==> t[i] == q[i]
  }

  /** `t` is `q` with one more element in front. */
  ghost predicate Prepended(q: seq<nat>, t: seq<nat>, p: nat) {
    |t| == |q| + 1 && t[0] == p && forall i :: 0 <= i < |q| ==> t[i + 1] == q[i]
  }

  /** `t` is `q` in the same order without what stood at `k`. */
  ghost predicate RemovedAt(q: seq<nat>, t: seq<nat>, k: int) {
    && 0 <= k < |q| && |t| == |q| - 1
    && (forall i :: 0 <= i < k ==> t[i] == q[i])
    && (forall i :: k <= i < |t| ==> t[i] == q[i + 1])
  }

  /** No process but `p` and `q` differs. */
  ghost predicate OthersSame(s: Sched, t: Sched, p: int, q: int) {
    |t.procs| == |s.procs| && forall x :: 0 <= x < |s.procs| && x != p && x != q ==> t.procs[x] == s.procs[x]
  }

  /** Only the state field differs. */
  ghost predicate NowIn(a: Proc, b: Proc, st: PState) {
    b.state == st && b.pid == a.pid && b.cpuTime == a.cpuTime && b.lastSchedule == a.lastSchedule && b.quantum == a.quantum
  }

  /** The process starts its quantum. */
  ghost predicate Started(a: Proc, b: Proc) {
    b.state == Running && b.lastSchedule == a.cpuTime && b.pid == a.pid && b.cpuTime == a.cpuTime && b.quantum == a.quantum
  }

  /** The head of `q`, or the idle process when `q` is empty, was not current and now runs; the
      rest of `q` is the ready queue. Only that process and `left` may differ. */
  ghost predicate Dispatched(q: seq<nat>, s: Sched, t: Sched, left: int)
    requires |s.procs| == |t.procs| == SLOTS && (q == [] || Slot(q[0]))
  {
    var next := if q == [] then 0 else q[0];
    && t.cur == next && next != left && Started(s.procs[next], t.procs[next])
    && (if q == [] then t.ready == [] else RemovedAt(q, t.ready, 0))
    && OthersSame(s, t, next, left) && t.nextPid == s.nextPid
  }

  // ----- queue functions on positions

  lemma WithoutRemoves(q: seq<nat>, p: nat) returns (k: int)
    requires NoDup(q)
    ensures p in q ==> RemovedAt(q, Without(q, p), k) && q[k] == p
    ensures p !in q ==> Without(q, p) == q
  {
    k := -1;
    if p in q {
      k :| 0 <= k < |q| && q[k] == p;
      WithoutAt(q, k);
    } else {
      WithoutAbsent(q, p);
    }
  }

  lemma DispatchOther(s: Sched)
    requires Shaped(s) && (if s.ready == [] then s.cur != 0 else s.cur != s.ready[0])
    requires s.cur != NONE && s.procs[s.cur].state == Running ==> s.cur !in s.ready
    ensures |ScheduleNext(s).procs| == SLOTS && Dispatched(s.ready, s, ScheduleNext(s), s.cur)
    ensures ScheduleNext(s).blocked == s.blocked
    ensures s.cur != NONE ==>
      NowIn(s.procs[s.cur], ScheduleNext(s).procs[s.cur], if s.procs[s.cur].state == Running then Ready else s.procs[s.cur].state)
  {
    if s.ready != [] {
      assert s.ready[0] in s.ready;
    }
  }

  // ----- unblock

  /** Unblocking works exactly on BLOCKED processes. The process is then READY and last in the
      ready queue, it is gone from the blocked list, and nothing else has changed. */
  lemma UnblockEffect(s: Sched, p: nat) returns (k: int)
    requires Inv(s) && Slot(p)
    ensures var (t, ok) := Unblock(s, p);
            && (ok <==> s.procs[p].state == Blocked)
            && (!ok ==> t == s)
            && (ok ==> |t.procs| == SLOTS && NowIn(s.procs[p], t.procs[p], Ready) && OthersSame(s, t, p, p)
                       && Appended(s.ready, t.ready, p)
                       && RemovedAt(s.blocked, t.blocked, k) && s.blocked[k] == p && p !in t.blocked
                       && t.cur == s.cur && t.nextPid == s.nextPid)
  {
    k := WithoutRemoves(s.blocked, p);
    WithoutIs(s.blocked, p);
    hide Without, NoDup;
  }

  // ----- block

  /** Asking for RUNNING changes nothing. Any other request leaves the current process BLOCKED
      at the head of the blocked list, and the head of the ready queue, or idle, runs. */
  lemma BlockEffect(s: Sched, st: PState)
    requires Inv(s) && s.cur != 0
    ensures st == Running ==> Block(s, st) == s
    ensures st != Running ==>
              var t, b := Block(s, st), s.cur;
              && |t.procs| == SLOTS && NowIn(s.procs[b], t.procs[b], Blocked)
              && Prepended(s.blocked, t.blocked, b) && Dispatched(s.ready, s, t, b)
  {
    if st != Running {
      var s1 := SetState(s, s.cur, Blocked).(blocked := [s.cur as nat] + s.blocked);
      assert s.ready != [] ==> s.ready[0] in s.ready;
      DispatchOther(s1);
    }
  }

  // ----- terminate

  /** Terminating works exactly on used slots other than idle. The process ends TERMINATED and in
      no list, and nothing else changes: the others keep their order. */
  lemma TerminateEffect(s: Sched, p: nat) returns (k: int)
    requires Inv(s) && Slot(p) && p != s.cur
    ensures var (t, ok) := Terminate(s, p);
            && (ok <==> p != 0 && s.procs[p].pid != 0)
            && (!ok ==> t == s)
            && (ok ==> |t.procs| == SLOTS && NowIn(s.procs[p], t.procs[p], Terminated) && OthersSame(s, t, p, p)
                       && t.cur == s.cur && t.nextPid == s.nextPid && p !in t.ready && p !in t.blocked
                       && TakenOut(s.ready, t.ready, p, k) && TakenOut(s.blocked, t.blocked, p, k))
  {
    var i := WithoutRemoves(s.ready, p);
    var j := WithoutRemoves(s.blocked, p);
    k := if p in s.ready then i else j;
    WithoutIs(s.ready, p);
    WithoutIs(s.blocked, p);
    hide ScheduleNext, Without, NoDup, RemovedAt;
  }

  /** `p` stood at `k` and was taken out, or was not there at all. */
  ghost predicate TakenOut(q: seq<nat>, t: seq<nat>, p: nat, k: int) {
    if p in q then RemovedAt(q, t, k) && q[k] == p else t == q
  }

  /** Terminating the current process, exactly when it is not idle, leaves it TERMINATED and in no
      list, and the head of the ready queue, or idle, runs. */
  lemma TerminateCurrentEffect(s: Sched)
    requires Inv(s)
    ensures var (t, ok) := Terminate(s, s.cur);
            && (ok <==> s.cur != 0)
            && (!ok ==> t == s)
            && (ok ==> |t.procs| == SLOTS && NowIn(s.procs[s.cur], t.procs[s.cur], Terminated)
                       && s.cur !in t.ready && s.cur !in t.blocked && t.blocked == s.blocked
                       && (s.ready == [] || Slot(s.ready[0])) && Dispatched(s.ready, s, t, s.cur))
  {
    if s.cur != 0 {
      WithoutAbsent(s.ready, s.cur);
      HeadIn(s.ready);
      var s1 := SetState(s, s.cur, Terminated).(cur := NONE);
      assert Terminate(s, s.cur).0 == ScheduleNext(s1);
      DispatchOther(s1);
      hide ScheduleNext, Terminate, Without, NoDup;
    }
  }

  lemma HeadIn(q: seq<nat>)
    ensures q != [] ==> q[0] in q && forall x :: x in q[1..] ==> x in q
  {
  }

  // ----- yield and tick

  /** Without another process queued, a yield only turns the current process READY: it stays
      current and is queued nowhere. Otherwise it is queued last and the old head runs. */
  lemma YieldEffect(s: Sched)
    requires Inv(s)
    ensures var t := Yield(s);
            && |t.procs| == SLOTS && NowIn(s.procs[s.cur], t.procs[s.cur], Ready)
            && t.blocked == s.blocked && t.nextPid == s.nextPid
            && (s.ready == [] ==> t.cur == s.cur && t.ready == [] && OthersSame(s, t, s.cur, s.cur))
            && (s.ready != [] ==> Dispatched(s.ready + [s.cur as nat], s, t, s.cur))
  {
    var s1 := Enqueue(s, s.cur);
    if s.ready != [] {
      assert s1.ready[0] == s.ready[0] && s.ready[0] in s.ready;
      DispatchOther(s1);
    }
  }

  /** The ticks used since the current process was switched to, this one included. */
  function Used(a: Proc): nat {
    (a.cpuTime + 1 - a.lastSchedule) % 0x1_0000_0000_0000_0000
  }

  /** Only the clock differs: one tick more, modulo 2^64. */
  ghost predicate Charged(a: Proc, b: Proc) {
    && b.pid == a.pid && b.state == a.state && b.lastSchedule == a.lastSchedule && b.quantum == a.quantum
    && b.cpuTime == (a.cpuTime + 1) % 0x1_0000_0000_0000_0000
  }

  lemma UsedIs(a: Proc)
    ensures ((a.cpuTime + 1) % TICKS - a.lastSchedule) % TICKS == Used(a)
  {
    var x := a.cpuTime + 1;
    var q := x / TICKS;
    assert x == q * TICKS + x % TICKS;
    ModShift(x % TICKS - a.lastSchedule, q);
  }

  lemma ModShift(y: int, q: nat)
    ensures (y + q * TICKS) % TICKS == y % TICKS
    decreases q
  {
    if q > 0 {
      ModShift(y, q - 1);
      assert (y + q * TICKS) == (y + (q - 1) * TICKS) + TICKS;
    }
  }

  /** A tick while interrupts are disabled does nothing; a tick within the quantum of the running
      process only advances its clock. */
  lemma TickCharges(s: Sched, enabled: bool)
    requires Inv(s)
    ensures !enabled ==> Tick(s, enabled) == s
    ensures enabled && s.procs[s.cur].state == Running && Used(s.procs[s.cur]) < s.procs[s.cur].quantum ==>
              var t := Tick(s, enabled);
              && |t.procs| == SLOTS && Charged(s.procs[s.cur], t.procs[s.cur]) && OthersSame(s, t, s.cur, s.cur)
              && t.cur == s.cur && t.ready == s.ready && t.blocked == s.blocked && t.nextPid == s.nextPid
  {
    UsedIs(s.procs[s.cur]);
  }

  /** The tick that ends a quantum: a process other than idle is queued last, the idle process
      is not, and the head of the queue runs; with nobody else queued the current process stays
      current, READY unless it is idle. */
  lemma TickSwitches(s: Sched)
    requires Inv(s) && s.procs[s.cur].state == Running && Used(s.procs[s.cur]) >= s.procs[s.cur].quantum
    ensures var t, c := Tick(s, true), s.cur;
            && |t.procs| == SLOTS && t.blocked == s.blocked && t.nextPid == s.nextPid
            && Charged(s.procs[c], t.procs[c].(state := Running))
            && t.procs[c].state == (if s.ready == [] && c == 0 then Running else Ready)
            && (s.ready == [] ==> t.cur == c && t.ready == [] && OthersSame(s, t, c, c))
            && (s.ready != [] ==> Dispatched(if c == 0 then s.ready else s.ready + [c as nat], s, t, c))
  {
    UsedIs(s.procs[s.cur]);
    ChargeKeeps(s);
    var s1 := if s.cur == 0 then Charge(s) else Enqueue(Charge(s), s.cur);
    assert Expires(s) && Tick(s, true) == ScheduleNext(s1);
    assert Charged(s.procs[s.cur], Charge(s).procs[s.cur]);
    if s.ready != [] {
      assert s1.ready[0] == s.ready[0] && s.ready[0] in s.ready;
      DispatchOther(s1);
      hide ScheduleNext, Expires;
    }
  }

  /** A tick while the current process is READY dispatches without queueing it: nothing changes
      when it is idle with nobody queued, and any other process is left where it is. */
  lemma TickDispatches(s: Sched)
    requires Inv(s) && s.procs[s.cur].state == Ready
    ensures var t := Tick(s, true);
            && |t.procs| == SLOTS && t.blocked == s.blocked
            && (s.ready == [] && s.cur == 0 ==> t == s)
            && (s.ready != [] || s.cur != 0 ==> Dispatched(s.ready, s, t, s.cur) && t.procs[s.cur] == s.procs[s.cur])
  {
    assert Tick(s, true) == ScheduleNext(s);
    if s.ready != [] || s.cur != 0 {
      assert s.ready != [] ==> s.ready[0] in s.ready;
      DispatchOther(s);
    }
  }

  // ----- create

  /** The slot can be claimed by `process_create`. */
  predicate Reusable(a: Proc) {
    a.pid == 0 || a.state == Terminated
  }

  /** The pid after `pid`, skipping 0 when 32 bits wrap around. */
  ghost predicate FollowingPid(pid: nat, next: nat) {
    if pid == 0xFFFF_FFFF then next == 1 else next == pid + 1
  }

  /** With every slot after idle in use nothing changes. Otherwise the first reusable one is
      claimed with the next pid: queued last and READY when the process could be built, left
      NEW when its address space could not, and free again after a later failure. */
  lemma CreateEffect(s: Sched, quantum: nat, outcome: Outcome) returns (p: nat)
    requires Inv(s) && s.nextPid < PIDS
    ensures 1 <= p <= SLOTS && forall j :: 1 <= j < p ==> !Reusable(s.procs[j])
    ensures p == SLOTS ==> Create(s, quantum, outcome) == s
    ensures p < SLOTS ==>
              var t := Create(s, quantum, outcome);
              && Reusable(s.procs[p]) && |t.procs| == SLOTS && OthersSame(s, t, p, p)
              && FollowingPid(s.nextPid, t.nextPid) && t.cur == s.cur && t.blocked == s.blocked
              && t.procs[p].pid == (if outcome == LaterFailure then 0 else s.nextPid)
              && t.procs[p].state == (if outcome == Created then Ready else New)
              && t.procs[p].cpuTime == 0 && t.procs[p].lastSchedule == 0
              && t.procs[p].quantum == (if quantum == 0 then 20 else quantum)
              && (if outcome == Created then Appended(s.ready, t.ready, p) else t.ready == s.ready)
  {
    var i := FreeSlot(s.procs, 1);
    p := if i == NONE then SLOTS else i;
    hide FreeSlot;
  }

  // ----- pids

  /** A process that has not been terminated, other than idle. */
  predicate Live(a: Proc) {
    a.pid != 0 && a.state != Terminated
  }

  ghost predicate PidsDiffer(s: Sched) {
    forall i, j :: 0 <= i < j < |s.procs| && Live(s.procs[i]) && Live(s.procs[j]) ==> s.procs[i].pid != s.procs[j].pid
  }

  ghost predicate PidUsed(s: Sched, pid: nat) {
    exists i :: 0 <= i < |s.procs| && Live(s.procs[i]) && s.procs[i].pid == pid
  }

  /** No process appears and none changes its pid. */
  ghost predicate PidsStay(s: Sched, t: Sched) {
    |t.procs| == |s.procs| && forall x :: 0 <= x < |s.procs| ==>
      t.procs[x].pid == s.procs[x].pid && (Live(t.procs[x]) ==> Live(s.procs[x]))
  }

  lemma DispatchedStays(q: seq<nat>, s: Sched, t: Sched, left: int)
    requires |s.procs| == |t.procs| == SLOTS && (q == [] || Slot(q[0])) && Dispatched(q, s, t, left)
    requires Slot(left) && t.procs[left].pid == s.procs[left].pid && (Live(t.procs[left]) ==> Live(s.procs[left]))
    requires q == [] || q[0] == left || s.procs[q[0]].state != Terminated
    requires s.procs[0].state != Terminated
    ensures PidsStay(s, t) && t.nextPid == s.nextPid
  {
    assert q != [] ==> q[0] in q;
  }

  lemma TickStays(s: Sched, enabled: bool)
    requires Inv(s)
    ensures PidsStay(s, Tick(s, enabled)) && Tick(s, enabled).nextPid == s.nextPid
  {
    hide Tick, Used, RemovedAt, NoDup;
    TickCharges(s, enabled);
    var a := s.procs[s.cur];
    if enabled && a.state == Ready {
      TickDispatches(s);
      if s.ready != [] || s.cur != 0 {
        DispatchedStays(s.ready, s, Tick(s, true), s.cur);
      }
    } else if enabled && Used(a) >= a.quantum {
      TickSwitches(s);
      if s.ready != [] {
        DispatchedStays(if s.cur == 0 then s.ready else s.ready + [s.cur as nat], s, Tick(s, true), s.cur);
      }
    }
  }

  /** Every operation but create keeps all pids and brings no terminated process back. */
  lemma OnlyCreateGivesPids(s: Sched, op: Op)
    requires Inv(s) && Allowed(s, op) && !op.DoCreate?
    ensures PidsStay(s, Step(s, op)) && Step(s, op).nextPid == s.nextPid
  {
    hide Tick, Yield, Block, Unblock, Terminate, RemovedAt, NoDup;
    match op {
      case DoTick(enabled) => TickStays(s, enabled);
      case DoYield =>
        YieldEffect(s);
        if s.ready != [] {
          DispatchedStays(s.ready + [s.cur as nat], s, Yield(s), s.cur);
        }
      case DoBlock(st) =>
        BlockEffect(s, st);
        if st != Running {
          DispatchedStays(s.ready, s, Block(s, st), s.cur);
        }
      case DoUnblock(p) =>
        if Slot(p) {
          var _ := UnblockEffect(s, p);
        }
      case DoTerminate(p) =>
        if Slot(p) {
          if p == s.cur {
            TerminateCurrentEffect(s);
            if s.cur != 0 {
              DispatchedStays(s.ready, s, Terminate(s, p).0, s.cur);
            }
          } else {
            var _ := TerminateEffect(s, p);
          }
        }
    }
  }

  /** A create keeps the pids of live processes different if and only if it gives no pid away
      (the table is full or building failed late) or nobody holds the next pid. */
  lemma CreateKeepsPidsIff(s: Sched, quantum: nat, outcome: Outcome)
    requires Inv(s) && s.nextPid < PIDS && PidsDiffer(s)
    ensures PidsDiffer(Create(s, quantum, outcome))
            <==> (forall j :: 1 <= j < SLOTS ==> !Reusable(s.procs[j])) || outcome == LaterFailure || !PidUsed(s, s.nextPid)
  {
    var p := CreateEffect(s, quantum, outcome);
    var t := Create(s, quantum, outcome);
    hide Create, Inv;
    if p < SLOTS && outcome != LaterFailure {
      assert Live(t.procs[p]) && t.procs[p].pid == s.nextPid;
      if PidUsed(s, s.nextPid) {
        var i :| 0 <= i < |s.procs| && Live(s.procs[i]) && s.procs[i].pid == s.nextPid;
        assert i != p && t.procs[i] == s.procs[i];
      }
    }
  }

  /** Live pids differ and were all given out before the next one. */
  ghost predicate PidsOrdered(s: Sched) {
    PidsDiffer(s) && forall i :: 0 <= i < |s.procs| && Live(s.procs[i]) ==> s.procs[i].pid < s.nextPid
  }

  lemma StepOrders(s: Sched, op: Op)
    requires Inv(s) && Allowed(s, op) && PidsOrdered(s) && s.nextPid + 1 < PIDS
    ensures PidsOrdered(Step(s, op)) && s.nextPid <= Step(s, op).nextPid <= s.nextPid + 1
  {
    if op.DoCreate? {
      var p := CreateEffect(s, op.quantum, op.outcome);
      CreateKeepsPidsIff(s, op.quantum, op.outcome);
    } else {
      OnlyCreateGivesPids(s, op);
    }
    hide Create, Tick, Yield, Block, Unblock, Terminate, Inv;
  }

  /** As long as a run cannot reach the end of the 32-bit pids, live processes have different
      pids all along. */
  lemma {:induction false} RunPidsDiffer(s: Sched, ops: seq<Op>)
    requires Inv(s) && AllowedRun(s, ops) && PidsOrdered(s) && s.nextPid + |ops| < PIDS
    ensures PidsOrdered(Run(s, ops))
    decreases |ops|
  {
    hide Step, PidsOrdered;
    if ops == [] {
    } else {
      StepKeeps(s, ops[0]);
      StepOrders(s, ops[0]);
      RunPidsDiffer(Step(s, ops[0]), ops[1..]);
    }
  }

  /** A create that fails late uses up a pid and leaves the slot free. */
  lemma FailedCreate(s: Sched)
    requires Inv(s) && s.nextPid < PIDS && Reusable(s.procs[2]) && Live(s.procs[1])
    ensures var t := Create(s, 0, LaterFailure);
            && Inv(t) && Reusable(t.procs[2]) && t.procs[1] == s.procs[1] && FollowingPid(s.nextPid, t.nextPid)
  {
    StepKeeps(s, DoCreate(0, LaterFailure));
    var p := CreateEffect(s, 0, LaterFailure);
    assert p == 2;
    hide Create, Inv;
  }

  ghost function Failing(n: nat): (r: seq<Op>)
    ensures |r| == n
  {
    if n == 0 then [DoCreate(0, Created)][..0] else [DoCreate(0, LaterFailure)] + Failing(n - 1)
  }

  /** Such creates move the next pid on, over the end of the 32 bits back to 1. */
  lemma {:induction false} FailedCreates(s: Sched, n: nat)
    requires Inv(s) && Reusable(s.procs[2]) && Live(s.procs[1]) && s.nextPid + n <= PIDS && s.nextPid < PIDS
    ensures AllowedRun(s, Failing(n))
    ensures var t := Run(s, Failing(n));
            && Inv(t) && Reusable(t.procs[2]) && t.procs[1] == s.procs[1]
            && t.nextPid == if s.nextPid + n == PIDS then 1 else s.nextPid + n
    decreases n
  {
    if n == 0 {
    } else {
      FailedCreate(s);
      var t := Step(s, Failing(n)[0]);
      assert t == Create(s, 0, LaterFailure);
      assert Failing(n)[1..] == Failing(n - 1);
      hide Create, Inv, Live, Reusable;
      FailedCreates(t, n - 1);
    }
  }

  lemma {:induction false} RunAppends(s: Sched, a: seq<Op>, b: seq<Op>)
    requires Inv(s) && AllowedRun(s, a) && Inv(Run(s, a)) && AllowedRun(Run(s, a), b)
    ensures AllowedRun(s, a + b) && Run(s, a + b) == Run(Run(s, a), b)
    decreases |a|
  {
    hide Step;
    if a == [] {
      assert a + b == b;
    } else {
      StepKeeps(s, a[0]);
      RunAppends(Step(s, a[0]), a[1..], b);
      assert (a + b)[1..] == a[1..] + b;
    }
  }

  lemma OneStep(s: Sched, op: Op)
    requires Inv(s) && Allowed(s, op)
    ensures Inv(Step(s, op)) && AllowedRun(s, [op]) && Run(s, [op]) == Step(s, op)
  {
    hide Step, Inv, Allowed;
    StepKeeps(s, op);
    assert [op][1..] == [];
  }

  /** The end of the pids can be reached: creating a process, failing 2^32 - 2 times and creating
      another one leaves two live processes with pid 1. */
  lemma PidsCollide(quantum: nat)
    ensures var ops := [DoCreate(0, Created)] + Failing(0xFFFF_FFFE) + [DoCreate(0, Created)];
            Inv(Initial(quantum)) && AllowedRun(Initial(quantum), ops) && !PidsDiffer(Run(Initial(quantum), ops))
  {
    InitialInv(quantum);
    var s0, op := Initial(quantum), DoCreate(0, Created);
    OneStep(s0, op);
    var p := CreateEffect(s0, 0, Created);
    var s1 := Step(s0, op);
    assert p == 1 && Live(s1.procs[1]) && s1.procs[1].pid == 1 && s1.nextPid == 2 && s1.procs[2] == s0.procs[2];
    assert Reusable(s1.procs[2]);
    hide Step, Inv, Failing;
    FailedCreates(s1, 0xFFFF_FFFE);
    var s2 := Run(s1, Failing(0xFFFF_FFFE));
    RunAppends(s0, [op], Failing(0xFFFF_FFFE));
    SecondPidOne(s2);
    OneStep(s2, op);
    RunAppends(s0, [op] + Failing(0xFFFF_FFFE), [op]);
  }

  lemma SecondPidOne(s: Sched)
    requires Inv(s) && Reusable(s.procs[2]) && Live(s.procs[1]) && s.procs[1].pid == 1 && s.nextPid == 1
    ensures !PidsDiffer(Step(s, DoCreate(0, Created)))
  {
    var p := CreateEffect(s, 0, Created);
    var t := Step(s, DoCreate(0, Created));
    assert p == 2 && Live(t.procs[1]) && Live(t.procs[2]) && t.procs[1].pid == t.procs[2].pid;
  }

  // ----- finding a process by its pid

  /** A process is found by its own pid if and only if it sits in the slot of that number. */
  lemma FoundIff(s: Sched, p: nat)
    requires Shaped(s) && Slot(p)
    ensures Lookup(s, s.procs[p].pid) == Some(p) <==> s.procs[p].pid == p
  {
  }

  /** The pid a create returns finds the new process if and only if the first reusable slot has
      the number of the next pid; otherwise no unblock or terminate can name it. */
  lemma CreatedIsFoundIff(s: Sched, quantum: nat) returns (p: nat)
    requires Inv(s) && s.nextPid < PIDS && exists j :: 1 <= j < SLOTS && Reusable(s.procs[j])
    ensures 1 <= p < SLOTS && Reusable(s.procs[p]) && forall j :: 1 <= j < p ==> !Reusable(s.procs[j])
    ensures var t := Create(s, quantum, Created);
            && Shaped(t) && t.procs[p].pid == s.nextPid
            && (Lookup(t, s.nextPid) == Some(p) <==> s.nextPid == p)
  {
    p := CreateEffect(s, quantum, Created);
    StepKeeps(s, DoCreate(quantum, Created));
    hide Create, NoDup;
  }

  /** While no slot has been reused, pids are slot numbers: the used slots are those below the
      next pid. */
  ghost predicate PidsAreSlots(s: Sched) {
    && |s.procs| == SLOTS && 1 <= s.nextPid <= SLOTS
    && (forall p :: 1 <= p < s.nextPid ==> Live(s.procs[p]) && s.procs[p].pid == p)
    && (forall p :: s.nextPid <= p < SLOTS ==> s.procs[p].pid == 0)
  }

  /** The operation neither ends a process nor gives a pid away for nothing. */
  predicate KeepsSlots(op: Op) {
    !op.DoTerminate? && (op.DoCreate? ==> op.outcome != LaterFailure)
  }

  lemma StepPidsAreSlots(s: Sched, op: Op)
    requires Inv(s) && Allowed(s, op) && PidsAreSlots(s) && KeepsSlots(op)
    ensures Inv(Step(s, op)) && PidsAreSlots(Step(s, op))
  {
    StepKeeps(s, op);
    if op.DoCreate? {
      CreatePidsAreSlots(s, op.quantum, op.outcome);
    } else {
      OnlyCreateGivesPids(s, op);
      NobodyEnds(s, op);
      hide Step, Inv;
    }
  }

  lemma CreatePidsAreSlots(s: Sched, quantum: nat, outcome: Outcome)
    requires Inv(s) && PidsAreSlots(s) && outcome != LaterFailure
    ensures PidsAreSlots(Create(s, quantum, outcome))
  {
    var p := CreateEffect(s, quantum, outcome);
    hide Create, Inv;
    if s.nextPid < SLOTS {
      assert s.procs[s.nextPid].pid == 0;
      assert p == s.nextPid;
    }
  }

  /** Only terminate ends a process. */
  lemma NobodyEnds(s: Sched, op: Op)
    requires Inv(s) && Allowed(s, op) && !op.DoTerminate? && !op.DoCreate?
    ensures |Step(s, op).procs| == SLOTS
    ensures forall x :: 0 <= x < SLOTS && s.procs[x].state != Terminated ==> Step(s, op).procs[x].state != Terminated
  {
    hide Tick, Yield, Block, Unblock, RemovedAt, NoDup, Used;
    match op {
      case DoTick(enabled) => TickEndsNobody(s, enabled);
      case DoYield => YieldEffect(s);
      case DoBlock(st) => BlockEffect(s, st);
      case DoUnblock(p) =>
        if Slot(p) {
          var _ := UnblockEffect(s, p);
        }
    }
  }

  lemma TickEndsNobody(s: Sched, enabled: bool)
    requires Inv(s)
    ensures |Tick(s, enabled).procs| == SLOTS
    ensures forall x :: 0 <= x < SLOTS && s.procs[x].state != Terminated ==> Tick(s, enabled).procs[x].state != Terminated
  {
    hide Tick, RemovedAt, NoDup, Used;
    TickCharges(s, enabled);
    if enabled && s.procs[s.cur].state == Ready {
      TickDispatches(s);
    } else if enabled && Used(s.procs[s.cur]) >= s.procs[s.cur].quantum {
      TickSwitches(s);
    }
  }

  /** In every run without terminations and late failures each process is found by its pid. */
  lemma {:induction false} RunFindsAll(s: Sched, ops: seq<Op>)
    requires Inv(s) && AllowedRun(s, ops) && PidsAreSlots(s) && forall i :: 0 <= i < |ops| ==> KeepsSlots(ops[i])
    ensures PidsAreSlots(Run(s, ops)) && Shaped(Run(s, ops))
    ensures forall p :: 1 <= p < SLOTS && Live(Run(s, ops).procs[p]) ==> Lookup(Run(s, ops), Run(s, ops).procs[p].pid) == Some(p)
    decreases |ops|
  {
    hide Step, Allowed, KeepsSlots;
    if ops == [] {
    } else {
      StepPidsAreSlots(s, ops[0]);
      RunFindsAll(Step(s, ops[0]), ops[1..]);
    }
  }

  /** After one process has ended, the next one is not found by its pid 2: it sits in slot 1. */
  lemma ReusedSlotIsNotFound(quantum: nat)
    ensures var s0 := Initial(quantum);
            var s1 := Step(s0, DoCreate(0, Created));
            Inv(s0) && Inv(s1) && Inv(Step(s1, DoTerminate(1)))
    ensures var t := Step(Step(Step(Initial(quantum), DoCreate(0, Created)), DoTerminate(1)), DoCreate(0, Created));
            Inv(t) && Live(t.procs[1]) && t.procs[1].pid == 2 && Lookup(t, 2) == None
  {
    InitialInv(quantum);
    var s0, op := Initial(quantum), DoCreate(0, Created);
    StepKeeps(s0, op);
    var p := CreateEffect(s0, 0, Created);
    var s1 := Step(s0, op);
    assert p == 1 && s1.procs[1].pid == 1 && s1.nextPid == 2 && s1.cur == 0 && s1.procs[2] == s0.procs[2];
    var _ := TerminateEffect(s1, 1);
    StepKeeps(s1, DoTerminate(1));
    var s2 := Step(s1, DoTerminate(1));
    assert s2.procs[1].state == Terminated && s2.nextPid == 2 && s2.procs[2] == s0.procs[2];
    hide Create, Terminate, NoDup;
    StepKeeps(s2, op);
    var q := CreateEffect(s2, 0, Created);
    assert q == 1;
  }
}
