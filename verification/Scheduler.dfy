/** The two queues as link fields: a doubly linked ready queue and a singly linked blocked
    list over the same `next` field. Slots stand for pointers, -1 for null. */
module QueueLinks {
  import opened SchedulerModel

  datatype Links = Links(next: seq<int>, prev: seq<int>, head: int, tail: int, blockedHead: int)

  /** The slot at position `k`, null beyond the ends. */
  function At(q: seq<nat>, k: int): int {
    if 0 <= k < |q| then q[k] else NONE
  }

  predicate InTable(q: seq<nat>) {
    forall i :: 0 <= i < |q| ==> Slot(q[i])
  }

  predicate Sized(l: Links) {
    |l.next| == SLOTS && |l.prev| == SLOTS
  }

  ghost predicate ReadyNode(l: Links, q: seq<nat>, k: int)
    requires Sized(l) && InTable(q) && 0 <= k < |q|
  {
    l.next[q[k]] == At(q, k + 1) && l.prev[q[k]] == At(q, k - 1)
  }

  ghost predicate BlockedNode(l: Links, q: seq<nat>, k: int)
    requires Sized(l) && InTable(q) && 0 <= k < |q|
  {
    l.next[q[k]] == At(q, k + 1)
  }

  /** The ready queue is exactly `q`: reachable from both ends, linked both ways. */
  ghost predicate ReadyLinked(l: Links, q: seq<nat>) {
    && Sized(l) && InTable(q) && NoDup(q)
    && l.head == At(q, 0) && l.tail == At(q, |q| - 1)
    && (forall k :: 0 <= k < |q| ==> ReadyNode(l, q, k))
  }

  ghost predicate BlockedLinked(l: Links, q: seq<nat>) {
    && Sized(l) && InTable(q) && NoDup(q)
    && l.blockedHead == At(q, 0)
    && (forall k :: 0 <= k < |q| ==> BlockedNode(l, q, k))
  }

  /** Both lists well linked and disjoint; whoever is in neither has null links, and only
      ready processes have a predecessor. */
  ghost predicate WellLinked(l: Links, ready: seq<nat>, blocked: seq<nat>) {
    && ReadyLinked(l, ready) && BlockedLinked(l, blocked)
    && (forall p :: p in ready ==> p !in blocked)
    && (forall p :: 0 <= p < SLOTS && p !in ready ==> l.prev[p] == NONE)
    && (forall p :: 0 <= p < SLOTS && p !in ready && p !in blocked ==> l.next[p] == NONE)
  }

  // ----- the pointer updates

  /** The assignments of `add_to_ready_queue`. */
  function LinkReady(l: Links, p: nat): Links
    requires Sized(l) && Slot(p)
  {
    var l1 := l.(next := l.next[p := NONE]);
    if l.head == NONE then l1.(head := p, tail := p, prev := l1.prev[p := NONE])
    else if !Slot(l.tail) then l1
    else l1.(next := l1.next[l.tail := p], prev := l1.prev[p := l.tail], tail := p)
  }

  /** The assignments of `remove_from_ready_queue`. */
  function UnlinkReady(l: Links, p: nat): Links
    requires Sized(l) && Slot(p)
  {
    var n, b := l.next[p], l.prev[p];
    var l1 :=
      if p == l.head then
        if Slot(n) then l.(head := n, prev := l.prev[n := NONE]) else l.(head := n, tail := NONE)
      else if p == l.tail then
        if Slot(b) then l.(tail := b, next := l.next[b := NONE]) else l.(tail := b, head := NONE)
      else
        var l2 := if Slot(b) then l.(next := l.next[b := n]) else l;
        if Slot(n) then l2.(prev := l2.prev[n := b]) else l2;
    l1.(next := l1.next[p := NONE], prev := l1.prev[p := NONE])
  }

  /** The dequeue in `schedule_next`. */
  function PopReady(l: Links): Links
    requires Sized(l) && Slot(l.head)
  {
    var p, n := l.head, l.next[l.head];
    var l1 := if Slot(n) then l.(head := n, prev := l.prev[n := NONE]) else l.(head := n, tail := NONE);
    l1.(next := l1.next[p := NONE], prev := l1.prev[p := NONE])
  }

  function LinkBlocked(l: Links, p: nat): Links
    requires Sized(l) && Slot(p)
  {
    l.(next := l.next[p := l.blockedHead], blockedHead := p)
  }

  /** Taking `p` out of the blocked list behind `before`, or at the head when null. */
  function UnlinkBlocked(l: Links, before: int, p: nat): Links
    requires Sized(l) && Slot(p)
  {
    var l1 := if Slot(before) then l.(next := l.next[before := l.next[p]]) else l.(blockedHead := l.next[p]);
    l1.(next := l1.next[p := NONE])
  }

  // ----- they do what they should to the lists

  lemma {:induction false} WithoutAt(q: seq<nat>, k: nat)
    requires k < |q| && NoDup(q)
    ensures Without(q, q[k]) == q[..k] + q[k + 1..]
  {
    if k > 0 {
      WithoutAt(q[1..], k - 1);
      assert q[0] != q[k];
      assert q[..k] == [q[0]] + q[1..][..k - 1];
      assert q[1..][k..] == q[k + 1..];
    }
  }

  lemma {:induction false} WithoutAbsent(q: seq<nat>, p: nat)
    requires p !in q
    ensures Without(q, p) == q
  {
    if q != [] {
      WithoutAbsent(q[1..], p);
    }
  }

  lemma LinkReadyKeeps(l: Links, ready: seq<nat>, blocked: seq<nat>, p: nat)
    requires WellLinked(l, ready, blocked) && Slot(p) && p !in ready && p !in blocked
    ensures WellLinked(LinkReady(l, p), ready + [p], blocked)
  {
    var l', q := LinkReady(l, p), ready + [p];
    forall k | 0 <= k < |q|
      ensures ReadyNode(l', q, k)
    {
      if k < |ready| {
        assert ReadyNode(l, ready, k) && q[k] == ready[k];
        assert k < |ready| - 1 ==> ready[k] != ready[|ready| - 1];
      }
    }
    forall k | 0 <= k < |blocked|
      ensures BlockedNode(l', blocked, k)
    {
      assert BlockedNode(l, blocked, k) && blocked[k] in blocked;
      assert ready != [] ==> ready[|ready| - 1] in ready;
    }
  }

  /** The node that is at position `k` once position `j` is gone. */
  lemma NodeAfterUnlink(l: Links, ready: seq<nat>, j: nat, k: nat)
    requires ReadyLinked(l, ready) && j < |ready| && k < |ready| - 1
    ensures var q := ready[..j] + ready[j + 1..];
            InTable(q) && ReadyNode(UnlinkReady(l, ready[j]), q, k)
  {
    var q, p := ready[..j] + ready[j + 1..], ready[j];
    var i := if k < j then k else k + 1;
    assert q[k] == ready[i];
    assert ReadyNode(l, ready, i) && ReadyNode(l, ready, j);
    assert ready[i] != ready[j];
    UnlinkWrites(l, ready, j);
    assert j > 0 && i != j - 1 ==> ready[i] != ready[j - 1];
    assert j < |ready| - 1 && i != j + 1 ==> ready[i] != ready[j + 1];
    hide UnlinkReady, NoDup;
  }

  /** Removal rewrites the links of the two neighbours and clears those of the process. */
  lemma UnlinkWrites(l: Links, ready: seq<nat>, j: nat)
    requires ReadyLinked(l, ready) && j < |ready|
    ensures var p, l' := ready[j], UnlinkReady(l, ready[j]);
            var n, b := At(ready, j + 1), At(ready, j - 1);
            && Sized(l') && l'.blockedHead == l.blockedHead
            && l'.head == (if j == 0 then n else l.head) && l'.tail == (if j == |ready| - 1 then b else l.tail)
            && (forall x :: 0 <= x < SLOTS ==> l'.next[x] == if x == p then NONE else if x == b then n else l.next[x])
            && (forall x :: 0 <= x < SLOTS ==> l'.prev[x] == if x == p then NONE else if x == n then b else l.prev[x])
  {
    assert ReadyNode(l, ready, j);
    assert j > 0 ==> ready[0] != ready[j] && ready[j - 1] != ready[j];
    assert j < |ready| - 1 ==> ready[j] != ready[|ready| - 1] && ready[j] != ready[j + 1];
    assert 0 < j < |ready| - 1 ==> ready[j - 1] != ready[j + 1];
  }

  /** Removing a queued process keeps the rest linked in order. */
  lemma UnlinkReadyKeeps(l: Links, ready: seq<nat>, blocked: seq<nat>, j: nat)
    requires WellLinked(l, ready, blocked) && j < |ready|
    ensures WellLinked(UnlinkReady(l, ready[j]), ready[..j] + ready[j + 1..], blocked)
  {
    var p, q := ready[j], ready[..j] + ready[j + 1..];
    var l' := UnlinkReady(l, p);
    UnlinkWrites(l, ready, j);
    hide UnlinkReady;
    forall k | 0 <= k < |q|
      ensures InTable(q) && ReadyNode(l', q, k)
    {
      NodeAfterUnlink(l, ready, j, k);
    }
    assert p in ready;
    assert forall x :: x in ready <==> x in q || x == p;
    forall k | 0 <= k < |blocked|
      ensures BlockedNode(l', blocked, k)
    {
      assert BlockedNode(l, blocked, k) && blocked[k] in blocked;
      assert j > 0 ==> ready[j - 1] in ready;
    }
    assert j < |ready| - 1 ==> ready[j + 1] in ready;
    assert j > 0 ==> ready[j - 1] in ready;
  }

  /** Taking the head off the queue is removing its first process. */
  lemma PopReadyKeeps(l: Links, ready: seq<nat>, blocked: seq<nat>)
    requires WellLinked(l, ready, blocked) && ready != []
    ensures Slot(l.head) && l.head == ready[0] && WellLinked(PopReady(l), ready[1..], blocked)
  {
    UnlinkReadyKeeps(l, ready, blocked, 0);
    assert ready[..0] + ready[1..] == ready[1..];
    assert PopReady(l) == UnlinkReady(l, ready[0]);
  }

  /** Removing a process that is in no list changes nothing. */
  lemma UnlinkReadyAbsent(l: Links, ready: seq<nat>, blocked: seq<nat>, p: nat)
    requires WellLinked(l, ready, blocked) && Slot(p) && p !in ready && p !in blocked
    ensures UnlinkReady(l, p) == l
  {
    assert ready != [] ==> l.head in ready && l.tail in ready;
  }

  lemma LinkBlockedKeeps(l: Links, ready: seq<nat>, blocked: seq<nat>, p: nat)
    requires WellLinked(l, ready, blocked) && Slot(p) && p !in ready && p !in blocked
    ensures WellLinked(LinkBlocked(l, p), ready, [p] + blocked)
  {
    var l', q := LinkBlocked(l, p), [p] + blocked;
    forall k | 0 <= k < |q|
      ensures BlockedNode(l', q, k)
    {
      if k > 0 {
        assert BlockedNode(l, blocked, k - 1) && q[k] == blocked[k - 1] && blocked[k - 1] in blocked;
      }
    }
    forall k | 0 <= k < |ready|
      ensures ReadyNode(l', ready, k)
    {
      assert ReadyNode(l, ready, k) && ready[k] in ready;
    }
  }

  lemma BlockedNodeAfterUnlink(l: Links, blocked: seq<nat>, j: nat, k: nat)
    requires BlockedLinked(l, blocked) && j < |blocked| && k < |blocked| - 1
    ensures var q := blocked[..j] + blocked[j + 1..];
            InTable(q) && BlockedNode(UnlinkBlocked(l, At(blocked, j - 1), blocked[j]), q, k)
  {
    var q := blocked[..j] + blocked[j + 1..];
    var i := if k < j then k else k + 1;
    assert q[k] == blocked[i];
    assert BlockedNode(l, blocked, i) && BlockedNode(l, blocked, j);
    assert blocked[i] != blocked[j];
    assert j > 0 && i != j - 1 ==> blocked[i] != blocked[j - 1];
    hide NoDup;
  }

  lemma UnlinkBlockedKeeps(l: Links, ready: seq<nat>, blocked: seq<nat>, j: nat)
    requires WellLinked(l, ready, blocked) && j < |blocked|
    ensures WellLinked(UnlinkBlocked(l, At(blocked, j - 1), blocked[j]), ready, blocked[..j] + blocked[j + 1..])
  {
    var p, q, b := blocked[j], blocked[..j] + blocked[j + 1..], At(blocked, j - 1);
    var l' := UnlinkBlocked(l, b, p);
    assert p in blocked && BlockedNode(l, blocked, j);
    assert j > 0 ==> blocked[j - 1] in blocked;
    forall k | 0 <= k < |q|
      ensures InTable(q) && BlockedNode(l', q, k)
    {
      BlockedNodeAfterUnlink(l, blocked, j, k);
    }
    assert forall x :: x in blocked <==> x in q || x == p;
    forall k | 0 <= k < |ready|
      ensures ReadyNode(l', ready, k)
    {
      assert ReadyNode(l, ready, k) && ready[k] in ready;
    }
  }
}

/** The scheduler in place, on process control blocks. */
module Scheduling {
  import opened Options
  import opened SchedulerModel
  import opened QueueLinks

  class Process {
    const slot: nat
    var pid: nat
    var state: PState
    var cpuTime: nat
    var lastSchedule: nat
    var quantum: nat
    var next: Process?
    var prev: Process?

    constructor (slot: nat)
      ensures this.slot == slot && next == null && prev == null && Value() == Proc(0, New, 0, 0, 0)
    {
      this.slot := slot;
      pid, state, cpuTime, lastSchedule, quantum := 0, New, 0, 0, 0;
      next, prev := null, null;
    }

    function Value(): Proc
      reads this
    {
      Proc(pid, state, cpuTime, lastSchedule, quantum)
    }
  }

  /** A pointer as a slot number. */
  function Ref(p: Process?): int {
    if p == null then NONE else p.slot
  }

  class Scheduler {
    const table: seq<Process>
    var current: Process?
    var readyHead: Process?
    var readyTail: Process?
    var blockedHead: Process?
    var nextPid: nat
    /** The slots along each list, head first. */
    ghost var ready: seq<nat>
    ghost var blocked: seq<nat>

    ghost predicate TableOk() {
      |table| == SLOTS && forall i :: 0 <= i < SLOTS ==> table[i].slot == i
    }

    ghost predicate Known(p: Process?) {
      p != null ==> p in table
    }

    /** Pointers stay inside the table. */
    ghost predicate Inside()
      reads this`current, this`readyHead, this`readyTail, this`blockedHead, table
    {
      && Known(current) && Known(readyHead) && Known(readyTail) && Known(blockedHead)
      && forall i :: 0 <= i < |table| ==> Known(table[i].next) && Known(table[i].prev)
    }

    ghost function Pointers(): (l: Links)
      requires TableOk()
      reads this`readyHead, this`readyTail, this`blockedHead, table
      ensures Sized(l)
    {
      Links(seq(SLOTS, i requires 0 <= i < SLOTS reads table => Ref(table[i].next)),
            seq(SLOTS, i requires 0 <= i < SLOTS reads table => Ref(table[i].prev)),
            Ref(readyHead), Ref(readyTail), Ref(blockedHead))
    }

    ghost function Values(): (ps: seq<Proc>)
      requires TableOk()
      reads table
      ensures |ps| == SLOTS
    {
      seq(SLOTS, i requires 0 <= i < SLOTS reads table => table[i].Value())
    }

    ghost predicate Valid()
      reads this, table
    {
      TableOk() && Inside() && WellLinked(Pointers(), ready, blocked)
    }

    ghost function State(): (s: Sched)
      requires Valid()
      reads this, table
      ensures Shaped(s)
    {
      Sched(Values(), ready, blocked, Ref(current), nextPid)
    }

    /** `process_register_kernel_idle` on a cleared table: slot 0 becomes the current, READY
        idle process with an unlimited quantum. */
    constructor (table: seq<Process>)
      requires |table| == SLOTS && forall i :: 0 <= i < SLOTS ==> table[i].slot == i
      requires forall i :: 0 <= i < SLOTS ==>
                 table[i].next == null && table[i].prev == null && table[i].Value() == Proc(0, New, 0, 0, 0)
      modifies table[0]
      ensures Valid() && this.table == table && State() == Initial(TICKS - 1)
    {
      this.table := table;
      current, readyHead, readyTail, blockedHead, nextPid := table[0], null, null, null, 1;
      ready, blocked := [], [];
      new;
      table[0].state, table[0].quantum := Ready, TICKS - 1;
      assert Values() == Initial(TICKS - 1).procs;
    }

    // ----- single assignments

    /** The table is sound and its pointers stay inside it; the lists may be in flux. */
    ghost predicate Sound()
      reads this`current, this`readyHead, this`readyTail, this`blockedHead, table
    {
      TableOk() && Inside()
    }

    method SetNext(p: Process, q: Process?)
      requires Sound() && p in table && Known(q)
      modifies p`next
      ensures Sound() && Values() == old(Values())
      ensures Pointers() == old(Pointers()).(next := old(Pointers()).next[p.slot := Ref(q)])
    {
      p.next := q;
    }

    method SetPrev(p: Process, q: Process?)
      requires Sound() && p in table && Known(q)
      modifies p`prev
      ensures Sound() && Values() == old(Values())
      ensures Pointers() == old(Pointers()).(prev := old(Pointers()).prev[p.slot := Ref(q)])
    {
      p.prev := q;
    }

    method SetHead(q: Process?)
      requires Sound() && Known(q)
      modifies this`readyHead
      ensures Sound() && Values() == old(Values()) && readyHead == q
      ensures Pointers() == old(Pointers()).(head := Ref(q))
    {
      readyHead := q;
    }

    method SetTail(q: Process?)
      requires Sound() && Known(q)
      modifies this`readyTail
      ensures Sound() && Values() == old(Values()) && readyTail == q
      ensures Pointers() == old(Pointers()).(tail := Ref(q))
    {
      readyTail := q;
    }

    method SetBlockedHead(q: Process?)
      requires Sound() && Known(q)
      modifies this`blockedHead
      ensures Sound() && Values() == old(Values()) && blockedHead == q
      ensures Pointers() == old(Pointers()).(blockedHead := Ref(q))
    {
      blockedHead := q;
    }

    method SetProcState(p: Process, st: PState)
      requires Sound() && p in table
      modifies p`state
      ensures Sound() && Pointers() == old(Pointers())
      ensures Values() == old(Values())[p.slot := old(Values())[p.slot].(state := st)]
    {
      p.state := st;
    }

    /** What a pointer read yields, in terms of slots. */
    lemma Reading(p: Process)
      requires Sound() && p in table
      ensures p == table[p.slot] && Slot(p.slot) && Values()[p.slot] == p.Value()
      ensures Pointers().next[p.slot] == Ref(p.next) && Pointers().prev[p.slot] == Ref(p.prev)
      ensures Known(p.next) && Known(p.prev)
      ensures Pointers().head == Ref(readyHead) && Pointers().tail == Ref(readyTail)
      ensures Pointers().blockedHead == Ref(blockedHead)
    {
    }

    lemma RefSlot(p: Process?)
      requires TableOk() && Known(p)
      ensures Slot(Ref(p)) <==> p != null
    {
    }

    // ----- the queues

    /** The pointer assignments of `add_to_ready_queue`. */
    method LinkLast(p: Process)
      requires Sound() && p in table && (readyHead != null ==> readyTail != null)
      modifies this`readyHead, this`readyTail, table
      ensures Sound() && Values() == old(Values()) && Pointers() == LinkReady(old(Pointers()), p.slot)
    {
      Reading(p);
      RefSlot(readyTail);
      hide Pointers, Values;
      SetNext(p, null);
      if readyHead == null {
        SetHead(p);
        SetTail(p);
        SetPrev(p, null);
      } else {
        SetNext(readyTail, p);
        SetPrev(p, readyTail);
        SetTail(p);
      }
    }

    /** The pointer assignments of `remove_from_ready_queue`. */
    method UnlinkFromReady(p: Process)
      requires Sound() && p in table
      modifies this`readyHead, this`readyTail, table
      ensures Sound() && Values() == old(Values()) && Pointers() == UnlinkReady(old(Pointers()), p.slot)
    {
      Reading(p);
      RefSlot(p.next);
      RefSlot(p.prev);
      SameRef(p, readyHead);
      SameRef(p, readyTail);
      hide Pointers, Values;
      var next, prev := p.next, p.prev;
      if p == readyHead {
        SetHead(next);
        if readyHead != null {
          SetPrev(readyHead, null);
        } else {
          SetTail(null);
        }
      } else if p == readyTail {
        SetTail(prev);
        if readyTail != null {
          SetNext(readyTail, null);
        } else {
          SetHead(null);
        }
      } else {
        if prev != null {
          SetNext(prev, next);
        }
        if next != null {
          SetPrev(next, prev);
        }
      }
      SetNext(p, null);
      SetPrev(p, null);
    }

    lemma SameRef(p: Process, q: Process?)
      requires TableOk() && p in table && Known(q)
      ensures p == q <==> p.slot == Ref(q)
    {
    }

    lemma TailBehindHead()
      requires Valid()
      ensures readyHead != null ==> readyTail != null
      ensures readyHead == null <==> ready == []
    {
      assert ReadyLinked(Pointers(), ready);
    }

    lemma ListsNoDup()
      requires Valid()
      ensures NoDup(ready) && NoDup(blocked)
    {
    }

    method AddToReadyQueue(p: Process)
      requires Valid() && p in table && p.slot !in ready && p.slot !in blocked
      modifies this`readyHead, this`readyTail, this`ready, table
      ensures Valid() && State() == Enqueue(old(State()), p.slot)
    {
      hide WellLinked, Pointers, Values, LinkReady, Inside, NoDup;
      Reading(p);
      TailBehindHead();
      LinkReadyKeeps(Pointers(), ready, blocked, p.slot);
      LinkLast(p);
      SetProcState(p, Ready);
      ready := ready + [p.slot];
    }

    method RemoveFromReadyQueue(p: Process)
      requires Valid() && p in table && p.slot !in blocked
      modifies this`readyHead, this`readyTail, this`ready, table
      ensures Valid() && State() == old(State()).(ready := Without(old(ready), p.slot))
    {
      hide WellLinked, Pointers, Values, UnlinkReady, Inside, Without, NoDup;
      Reading(p);
      ListsNoDup();
      if p.slot in ready {
        ghost var j :| 0 <= j < |ready| && ready[j] == p.slot;
        UnlinkReadyKeeps(Pointers(), ready, blocked, j);
        WithoutAt(ready, j);
      } else {
        UnlinkReadyAbsent(Pointers(), ready, blocked, p.slot);
        WithoutAbsent(ready, p.slot);
      }
      UnlinkFromReady(p);
      ready := Without(ready, p.slot);
    }

    method AddToBlockedQueue(p: Process)
      requires Valid() && p in table && p.slot !in ready && p.slot !in blocked
      modifies this`blockedHead, this`blocked, table
      ensures Valid()
      ensures State() == SetState(old(State()), p.slot, Blocked).(blocked := [p.slot] + old(blocked))
    {
      hide WellLinked, Pointers, Values, Inside, NoDup, LinkBlocked;
      Reading(p);
      LinkBlockedKeeps(Pointers(), ready, blocked, p.slot);
      LinkFirst(p);
      SetProcState(p, Blocked);
      blocked := [p.slot] + blocked;
    }

    method LinkFirst(p: Process)
      requires Sound() && p in table
      modifies this`blockedHead, p`next
      ensures Sound() && Values() == old(Values()) && Pointers() == LinkBlocked(old(Pointers()), p.slot)
    {
      Reading(p);
      SetNext(p, blockedHead);
      SetBlockedHead(p);
    }

    /** The search loop of `remove_from_blocked_queue`: the node before `p`, null at the head. */
    method FindBefore(p: Process) returns (before: Process?, ghost j: nat)
      requires Valid() && p in table && p.slot in blocked
      ensures j < |blocked| && blocked[j] == p.slot && Ref(before) == At(blocked, j - 1) && Known(before)
    {
      var node := blockedHead;
      before, j := null, 0;
      assert BlockedLinked(Pointers(), blocked);
      ghost var l := Pointers();
      hide Valid, WellLinked, NoDup;
      while node != null && node != p
        invariant 0 <= j <= |blocked| && Ref(node) == At(blocked, j) && Ref(before) == At(blocked, j - 1)
        invariant Known(node) && Known(before) && p.slot !in blocked[..j]
        decreases |blocked| - j
      {
        Reading(node);
        SameRef(p, node);
        assert BlockedNode(l, blocked, j);
        before := node;
        node := node.next;
        j := j + 1;
      }
      assert blocked[..|blocked|] == blocked;
    }

    method RemoveFromBlockedQueue(p: Process)
      requires Valid() && p in table && p.slot in blocked
      modifies this`blockedHead, this`blocked, table
      ensures Valid() && State() == old(State()).(blocked := Without(old(blocked), p.slot))
    {
      hide WellLinked, Pointers, Values, Inside, Without, NoDup, UnlinkBlocked;
      var before, j := FindBefore(p);
      ListsNoDup();
      UnlinkBlockedKeeps(Pointers(), ready, blocked, j);
      WithoutAt(blocked, j);
      Reading(p);
      UnlinkBehind(before, p);
      blocked := Without(blocked, p.slot);
    }

    method UnlinkBehind(before: Process?, p: Process)
      requires Sound() && p in table && Known(before)
      modifies this`blockedHead, table
      ensures Sound() && Values() == old(Values()) && Pointers() == UnlinkBlocked(old(Pointers()), Ref(before), p.slot)
    {
      Reading(p);
      RefSlot(before);
      hide Pointers, Values;
      if before != null {
        SetNext(before, p.next);
      } else {
        SetBlockedHead(p.next);
      }
      SetNext(p, null);
    }

    // ----- switching

    /** The state part of `context_switch`. */
    method ContextSwitch(p: Process)
      requires Valid() && p in table
      modifies this`current, table
      ensures Valid() && State() == SwitchTo(old(State()), p.slot)
    {
      hide WellLinked, Pointers, Values;
      Reading(p);
      SameRef(p, current);
      if p == current {
        return;
      }
      var before := current;
      if before != null {
        Reading(before);
      }
      current := p;
      if before != null {
        if before.state == Running {
          SetProcState(before, Ready);
        }
      }
      StartRunning(p);
    }

    method StartRunning(p: Process)
      requires Sound() && p in table
      modifies p`state, p`lastSchedule
      ensures Sound() && Pointers() == old(Pointers())
      ensures var v := old(Values())[p.slot];
              Values() == old(Values())[p.slot := v.(state := Running, lastSchedule := v.cpuTime)]
    {
      p.state := Running;
      p.lastSchedule := p.cpuTime;
    }

    method Schedule()
      requires Valid()
      modifies this`current, this`readyHead, this`readyTail, this`ready, table
      ensures Valid() && State() == ScheduleNext(old(State()))
    {
      TailBehindHead();
      if readyHead != null {
        var p := readyHead;
        PopHead();
        ContextSwitch(p);
      } else {
        ContextSwitch(table[0]);
      }
    }

    /** Takes the head off the ready queue. */
    method PopHead()
      requires Valid() && readyHead != null
      modifies this`readyHead, this`readyTail, this`ready, table
      ensures Valid() && old(ready) != [] && old(readyHead).slot == old(ready)[0]
      ensures State() == old(State()).(ready := old(ready)[1..])
    {
      TailBehindHead();
      PopReadyKeeps(Pointers(), ready, blocked);
      assert readyHead.slot == ready[0];
      hide WellLinked, Pointers, Values, Inside, NoDup, PopReady, ReadyLinked;
      UnlinkHead();
      ready := ready[1..];
    }

    method UnlinkHead()
      requires Sound() && readyHead != null
      modifies this`readyHead, this`readyTail, table
      ensures Slot(old(Pointers()).head) && Sound() && Values() == old(Values())
              && Pointers() == PopReady(old(Pointers()))
    {
      var p := readyHead;
      Reading(p);
      RefSlot(p.next);
      hide Pointers, Values;
      SetHead(p.next);
      if readyHead != null {
        SetPrev(readyHead, null);
      } else {
        SetTail(null);
      }
      SetNext(p, null);
      SetPrev(p, null);
    }

    // ----- operations

    lemma CurrentFree()
      requires Valid() && Inv(State())
      ensures current != null && current in table && current.slot !in ready && current.slot !in blocked
    {
    }

    method YieldCpu()
      requires Valid() && Inv(State())
      modifies this`current, this`readyHead, this`readyTail, this`ready, table
      ensures Valid() && State() == Yield(old(State()))
    {
      CurrentFree();
      hide Valid, Inv, ScheduleNext, Enqueue;
      if current != null {
        AddToReadyQueue(current);
      }
      Schedule();
    }

    method BlockCurrent(st: PState)
      requires Valid() && Inv(State())
      modifies this`current, this`readyHead, this`readyTail, this`ready, this`blockedHead, this`blocked, table
      ensures Valid() && State() == Block(old(State()), st)
    {
      CurrentFree();
      hide Inv, ScheduleNext, WellLinked, Inside;
      if current == null || st == Running {
        return;
      }
      AddToBlockedQueue(current);
      Schedule();
    }

    method UnblockProcess(p: Process) returns (ok: bool)
      requires Valid() && Inv(State()) && p in table
      modifies this`readyHead, this`readyTail, this`ready, this`blockedHead, this`blocked, table
      ensures Valid() && (State(), ok) == Unblock(old(State()), p.slot)
    {
      Reading(p);
      if p.state != Blocked {
        return false;
      }
      assert State().procs[p.slot].state == Blocked;
      assert p.slot in blocked && p.slot !in ready && NoDup(blocked);
      GoneFromBlocked(blocked, p.slot);
      hide Valid, Inv, Enqueue, Without;
      RemoveFromBlockedQueue(p);
      AddToReadyQueue(p);
      return true;
    }

    lemma BlockedListed(p: Process)
      requires Valid() && Inv(State()) && p in table
      ensures State().procs[p.slot] == p.Value() && (p.slot in blocked <==> p.state == Blocked)
    {
      Reading(p);
    }

    method TerminateProcess(p: Process) returns (ok: bool)
      requires Valid() && Inv(State()) && p in table
      modifies this`current, this`readyHead, this`readyTail, this`ready, this`blockedHead, this`blocked, table
      ensures Valid() && (State(), ok) == Terminate(old(State()), p.slot)
    {
      hide Inv, ScheduleNext, WellLinked, Pointers, Without;
      Reading(p);
      SameRef(p, current);
      BlockedListed(p);
      if p.slot == 0 || p.pid == 0 {
        return false;
      }
      if p.state == Ready {
        RemoveFromReadyQueue(p);
      } else if p.state == Blocked {
        RemoveFromBlockedQueue(p);
      }
      MarkTerminated(p);
      if current == p {
        ClearCurrent();
        Schedule();
      }
      return true;
    }

    method GetById(pid: nat) returns (p: Process?)
      requires Valid()
      ensures p != null ==> p in table && p.slot == pid
      ensures (p != null) == (Lookup(State(), pid) == Some(pid))
    {
      if pid >= SLOTS {
        return null;
      }
      p := table[pid];
      Reading(p);
      if p.pid != pid {
        p := null;
      }
    }

    /** `process_unblock`: only a process whose pid is its slot number is found. */
    method UnblockPid(pid: nat) returns (ok: bool)
      requires Valid() && Inv(State())
      modifies this`readyHead, this`readyTail, this`ready, this`blockedHead, this`blocked, table
      ensures Valid()
              && (State(), ok) == match Lookup(old(State()), pid) case Some(p) => Unblock(old(State()), p) case None => (old(State()), false)
    {
      hide Valid, Inv;
      var p := GetById(pid);
      if p == null {
        return false;
      }
      ok := UnblockProcess(p);
    }

    /** `process_terminate`, with the same look-up. */
    method TerminatePid(pid: nat) returns (ok: bool)
      requires Valid() && Inv(State())
      modifies this`current, this`readyHead, this`readyTail, this`ready, this`blockedHead, this`blocked, table
      ensures Valid()
              && (State(), ok) == match Lookup(old(State()), pid) case Some(p) => Terminate(old(State()), p) case None => (old(State()), false)
    {
      hide Valid, Inv;
      var p := GetById(pid);
      if pid == 0 || p == null {
        return false;
      }
      ok := TerminateProcess(p);
    }

    method MarkTerminated(p: Process)
      requires Valid() && p in table
      modifies p`state
      ensures Valid() && State() == SetState(old(State()), p.slot, Terminated)
    {
      SetProcState(p, Terminated);
    }

    method ClearCurrent()
      requires Valid()
      modifies this`current
      ensures Valid() && State() == old(State()).(cur := NONE)
    {
      current := null;
    }

    lemma SlotsTell(p: Process)
      requires TableOk() && p in table
      ensures Slot(p.slot) && table[p.slot] == p && forall i :: 0 <= i < SLOTS && i != p.slot ==> table[i] != p
    {
    }

    /** Writes the clock fields of a control block; everything else stays. */
    method SetClock(p: Process, cpuTime: nat, lastSchedule: nat, quantum: nat)
      requires Sound() && p in table
      modifies p`cpuTime, p`lastSchedule, p`quantum
      ensures Sound() && Pointers() == old(Pointers())
      ensures var v := old(Values())[p.slot];
              Values() == old(Values())[p.slot := v.(cpuTime := cpuTime, lastSchedule := lastSchedule, quantum := quantum)]
    {
      p.cpuTime, p.lastSchedule, p.quantum := cpuTime, lastSchedule, quantum;
    }

    method SetPid(p: Process, pid: nat)
      requires Sound() && p in table
      modifies p`pid
      ensures Sound() && Pointers() == old(Pointers())
      ensures Values() == old(Values())[p.slot := old(Values())[p.slot].(pid := pid)]
    {
      p.pid := pid;
    }

    /** Writes all scheduling fields of a control block; the links stay. */
    method Overwrite(p: Process, v: Proc)
      requires Sound() && p in table
      modifies p`pid, p`state, p`cpuTime, p`lastSchedule, p`quantum
      ensures Sound() && Pointers() == old(Pointers()) && Values() == old(Values())[p.slot := v]
    {
      hide Pointers, Values, Inside;
      SlotsTell(p);
      SetPid(p, v.pid);
      SetProcState(p, v.state);
      SetClock(p, v.cpuTime, v.lastSchedule, v.quantum);
    }

    method ChargeTick()
      requires Valid() && current != null
      modifies table
      ensures Valid() && State() == Charge(old(State()))
    {
      Reading(current);
      hide WellLinked, Pointers, Values, Inside;
      var v := current.Value();
      Overwrite(current, v.(cpuTime := (v.cpuTime + 1) % TICKS));
    }

    /** The timer callback. */
    method TimerTick(enabled: bool)
      requires Valid() && Inv(State())
      modifies this`current, this`readyHead, this`readyTail, this`ready, table
      ensures Valid() && State() == Tick(old(State()), enabled)
    {
      if !enabled {
        return;
      }
      CurrentFree();
      Reading(current);
      SameRef(current, table[0]);
      if current != null && current.state == Running {
        var expires := ((current.cpuTime + 1) % TICKS - current.lastSchedule) % TICKS >= current.quantum;
        assert expires == Expires(State());
        hide Inv, ScheduleNext, WellLinked, Inside, Charge, Enqueue, Expires;
        ChargeTick();
        if expires {
          if current != table[0] {
            AddToReadyQueue(current);
          }
          Schedule();
        }
      } else {
        hide Inv, ScheduleNext, WellLinked, Inside;
        Schedule();
      }
    }

    /** The slot search of `process_create`; the idle slot is skipped. */
    method FindFreeSlot() returns (i: nat)
      requires Valid()
      ensures 1 <= i <= SLOTS && (i < SLOTS ==> table[i].slot == i) && FreeSlot(State().procs, 1) == if i == SLOTS then NONE else i
    {
      i := 1;
      ghost var procs := Values();
      while i < SLOTS
        invariant 1 <= i <= SLOTS && FreeSlot(procs, 1) == FreeSlot(procs, i)
      {
        Reading(table[i]);
        if table[i].state == Terminated || table[i].pid == 0 {
          return;
        }
        i := i + 1;
      }
    }

    lemma UnlistedUnlinked(p: Process)
      requires Valid() && p in table && p.slot !in ready && p.slot !in blocked
      ensures Slot(p.slot) && Pointers().next[p.slot] == NONE && Pointers().prev[p.slot] == NONE
    {
      hide Pointers, Values, NoDup;
      Reading(p);
    }

    /** Clears a slot no list refers to and gives it a pid. */
    method ClaimSlot(p: Process, pid: nat, quantum: nat)
      requires Valid() && p in table && p.slot !in ready && p.slot !in blocked
      modifies this`nextPid, table
      ensures Valid() && State() == old(State()).(procs := old(State()).procs[p.slot := Proc(pid, New, 0, 0, quantum)],
                                                  nextPid := NextPid(old(nextPid)))
    {
      UnlistedUnlinked(p);
      hide WellLinked, Pointers, Values, Inside;
      Reading(p);
      ghost var l := Pointers();
      SetNext(p, null);
      SetPrev(p, null);
      assert Pointers() == l;
      Overwrite(p, Proc(pid, New, 0, 0, quantum));
      nextPid := NextPid(nextPid);
    }

    method FreePid(p: Process)
      requires Valid() && p in table
      modifies table
      ensures Valid()
              && State() == old(State()).(procs := old(State()).procs[p.slot := old(State()).procs[p.slot].(pid := 0)])
    {
      Reading(p);
      hide WellLinked, Pointers, Values, Inside;
      Overwrite(p, p.Value().(pid := 0));
    }

    lemma FreeSlotUnlisted(i: nat)
      requires Valid() && Inv(State()) && 1 <= i < SLOTS && FreeSlot(State().procs, 1) == i
      ensures i !in ready && i !in blocked
    {
    }

    /** `process_create` past its argument checks, with the outcome of building the address
        space, stack and image; the new pid, or 0. */
    method CreateProcess(quantum: nat, outcome: Outcome) returns (pid: nat)
      requires Valid() && Inv(State())
      modifies this`nextPid, this`readyHead, this`readyTail, this`ready, table
      ensures Valid() && State() == Create(old(State()), quantum, outcome)
      ensures pid == if FreeSlot(old(State()).procs, 1) != NONE && outcome == Created then old(nextPid) else 0
    {
      var i := FindFreeSlot();
      if i == SLOTS {
        return 0;
      }
      FreeSlotUnlisted(i);
      var p := table[i];
      hide Inv, Valid, FreeSlot, BuildIn;
      pid := BuildProcess(p, quantum, outcome);
    }

    method BuildProcess(p: Process, quantum: nat, outcome: Outcome) returns (pid: nat)
      requires Valid() && p in table && p.slot !in ready && p.slot !in blocked
      modifies this`nextPid, this`readyHead, this`readyTail, this`ready, table
      ensures Valid() && State() == BuildIn(old(State()), p.slot, quantum, outcome)
      ensures pid == if outcome == Created then old(nextPid) else 0
    {
      Reading(p);
      BuildSteps(State(), p.slot, quantum);
      hide Valid, Enqueue, NextPid, BuildIn;
      var id := nextPid;
      ClaimSlot(p, id, if quantum == 0 then DEFAULT_QUANTUM else quantum);
      match outcome
      case NoAddressSpace =>
        return 0;
      case LaterFailure =>
        FreePid(p);
        return 0;
      case Created =>
        AddToReadyQueue(p);
        return id;
    }
  }

  /** Building a process is claiming its slot, and then enqueuing it or giving the pid up. */
  lemma BuildSteps(s: Sched, p: nat, quantum: nat)
    requires Shaped(s) && Slot(p)
    ensures var blank := Proc(s.nextPid, New, 0, 0, if quantum == 0 then DEFAULT_QUANTUM else quantum);
            var claimed := s.(procs := s.procs[p := blank], nextPid := NextPid(s.nextPid));
            && BuildIn(s, p, quantum, Created) == Enqueue(claimed, p)
            && BuildIn(s, p, quantum, NoAddressSpace) == claimed
            && BuildIn(s, p, quantum, LaterFailure) == claimed.(procs := claimed.procs[p := claimed.procs[p].(pid := 0)])
  {
    hide NextPid;
    var blank := Proc(s.nextPid, New, 0, 0, if quantum == 0 then DEFAULT_QUANTUM else quantum);
    assert s.procs[p := blank][p := blank.(pid := 0)] == s.procs[p := blank.(pid := 0)];
  }

  lemma GoneFromBlocked(q: seq<nat>, p: nat)
    requires NoDup(q)
    ensures p !in Without(q, p)
  {
    if p in q {
      var j :| 0 <= j < |q| && q[j] == p;
      WithoutAt(q, j);
    }
  }
}
