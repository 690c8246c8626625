/** The NVMe completion queue: a device that posts entries with a phase bit and a driver that
    consumes them and rings the head doorbell, interleaved step by step. */
module CompletionRing {

  /** A completion queue entry. Bit 0 of `status` is the phase tag. */
  datatype Cqe = Cqe(result: nat, sqHead: nat, commandId: nat, status: nat)

  function Tag(e: Cqe): nat { e.status % 2 }

  function WithTag(e: Cqe, phase: nat): Cqe { e.(status := e.status / 2 * 2 + phase) }

  /** The driver is outside `nvme_process_completions`, or inside with a count of entries. */
  datatype Call = Idle | Busy(processed: nat)

  /** `posted`, `consumed` and `rung` record the history: what the device wrote, what the driver
      took, and how many entries the last doorbell acknowledged. */
  datatype Ring = Ring(slots: seq<Cqe>, head: nat, phase: nat, sqHead: nat, call: Call,
                       doorbell: nat, tail: nat, devPhase: nat,
                       posted: seq<Cqe>, consumed: seq<Cqe>, rung: nat)

  const MAX_ENTRIES: nat := 65536

  ghost predicate Shaped(s: Ring) {
    2 <= |s.slots| <= MAX_ENTRIES && s.head < |s.slots| && s.tail < |s.slots|
  }

  /** Queue state after set-up: a cleared ring, phase 1 expected, everything at entry 0. */
  function Initial(size: nat, sqHead: nat): Ring {
    Ring(seq(size, _ => Cqe(0, 0, 0, 0)), 0, 1, sqHead, Idle, 0, 0, 1, [], [], 0)
  }

  /** The entry after entry `h` of a ring of `n`. */
  function Next(h: nat, n: nat): (r: nat)
    requires n > 0
    ensures r < n
  {
    (h + 1) % n
  }

  /** The slot of the k-th entry ever posted. */
  function SlotOf(k: nat, n: nat): (r: nat)
    requires n > 0
    ensures r < n
  {
    k % n
  }

  // ----- steps

  datatype Action = Post(e: Cqe) | Begin | Consume | Finish

  /** The device posts only while the ring has room as far as the doorbell tells. */
  ghost predicate HasRoom(s: Ring)
    requires Shaped(s)
  {
    Next(s.tail, |s.slots|) != s.doorbell
  }

  /** The loop test of `nvme_process_completions`. */
  predicate Ready(s: Ring)
    requires Shaped(s)
  {
    Tag(s.slots[s.head]) == s.phase && s.call.Busy? && s.call.processed < |s.slots|
  }

  ghost predicate Enabled(s: Ring, a: Action)
    requires Shaped(s)
  {
    match a
    case Post(_) => HasRoom(s)
    case Begin => s.call.Idle?
    case Consume => Ready(s)
    case Finish => s.call.Busy? && !Ready(s)
  }

  function Step(s: Ring, a: Action): Ring
    requires Shaped(s) && (a.Consume? || a.Finish? ==> s.call.Busy?)
  {
    var n := |s.slots|;
    match a
    case Post(e) =>
      var w := WithTag(e, s.devPhase);
      var tail := Next(s.tail, n);
      s.(slots := s.slots[s.tail := w], tail := tail,
         devPhase := if tail == 0 then (if s.devPhase == 0 then 1 else 0) else s.devPhase, posted := s.posted + [w])
    case Begin => s.(call := Busy(0))
    case Consume =>
      var e := s.slots[s.head];
      var head := Next(s.head, n);
      s.(sqHead := e.sqHead, head := head, phase := if head == 0 then (if s.phase == 0 then 1 else 0) else s.phase,
         call := Busy((s.call.processed + 1) % 65536), consumed := s.consumed + [e])
    case Finish =>
      if s.call.processed > 0 then s.(call := Idle, doorbell := s.head, rung := |s.consumed|) else s.(call := Idle)
  }

  // ----- division facts for a ring of any size

  lemma Multiple(d: int, n: int)
    requires n > 0
    ensures d >= 1 ==> d * n >= n
    ensures d <= -1 ==> d * n <= -n
  {
  }

  lemma Quotient(x: nat, n: nat, q: nat, r: nat)
    requires n > 0 && r < n && x == q * n + r
    ensures x / n == q && x % n == r
  {
    var d := q - x / n;
    assert d * n == q * n - x / n * n == x % n - r;
    Multiple(d, n);
  }

  lemma NextRaw(x: nat, n: nat)
    requires n > 0
    ensures (x + 1) % n == (x % n + 1) % n
    ensures (x + 1) % n == if x % n == n - 1 then 0 else x % n + 1
    ensures (x + 1) / n == if x % n == n - 1 then x / n + 1 else x / n
  {
    if x % n == n - 1 {
      assert x + 1 == (x / n + 1) * n;
      Quotient(x + 1, n, x / n + 1, 0);
      Quotient(n, n, 1, 0);
    } else {
      Quotient(x + 1, n, x / n, x % n + 1);
      Quotient(x % n + 1, n, 0, x % n + 1);
    }
  }

  lemma NextEntry(x: nat, n: nat)
    requires n > 0
    ensures SlotOf(x + 1, n) == Next(SlotOf(x, n), n)
  {
    NextRaw(x, n);
  }

  lemma OneLap(x: nat, n: nat)
    requires n > 0
    ensures (x + n) % n == x % n && (x + n) / n == x / n + 1
  {
    assert x + n == (x / n + 1) * n + x % n;
    Quotient(x + n, n, x / n + 1, x % n);
  }

  /** Entries less than a lap apart lie in different slots. */
  lemma SlotsDiffer(x: nat, y: nat, n: nat)
    requires n > 0 && x < y < x + n
    ensures SlotOf(x, n) != SlotOf(y, n)
  {
    var d := y / n - x / n;
    assert d * n == y / n * n - x / n * n == (y - y % n) - (x - x % n);
    Multiple(d, n);
  }

  /** The tag of the k-th entry ever posted: 1 on even laps. */
  function PhaseOf(k: nat, n: nat): (r: nat)
    requires n > 0
    ensures r <= 1
  {
    1 - k / n % 2
  }

  lemma FirstLap(k: nat, n: nat)
    requires k < n
    ensures SlotOf(k, n) == k && PhaseOf(k, n) == 1
  {
    Quotient(k, n, 0, k);
  }

  lemma LapSlot(x: nat, n: nat)
    requires n > 0
    ensures SlotOf(x + n, n) == SlotOf(x, n)
  {
    OneLap(x, n);
  }

  lemma PhaseStep(k: nat, n: nat)
    requires n > 0
    ensures PhaseOf(k + 1, n) == if SlotOf(k + 1, n) == 0 then 1 - PhaseOf(k, n) else PhaseOf(k, n)
    ensures PhaseOf(k + n, n) == 1 - PhaseOf(k, n)
  {
    NextRaw(k, n);
    OneLap(k, n);
  }

  // ----- the invariant

  /** The k-th posted entry is still in its slot, with the tag of its lap. */
  ghost predicate Holds(s: Ring, k: nat)
    requires Shaped(s) && k < |s.posted|
  {
    Tag(s.posted[k]) == PhaseOf(k, |s.slots|)
    && (|s.posted| <= k + |s.slots| ==> s.slots[SlotOf(k, |s.slots|)] == s.posted[k])
  }

  ghost predicate Inv(s: Ring) {
    && Shaped(s)
    && var n := |s.slots|;
       var c, p := |s.consumed|, |s.posted|;
       && s.rung <= c <= p < s.rung + n
       && s.consumed == s.posted[..c]
       && s.head == SlotOf(c, n) && s.phase == PhaseOf(c, n)
       && s.tail == SlotOf(p, n) && s.devPhase == PhaseOf(p, n)
       && s.doorbell == SlotOf(s.rung, n)
       && s.call == (if s.call.Idle? then Idle else Busy(c - s.rung)) && (s.call.Idle? ==> c == s.rung)
       && (forall k: nat :: k < p ==> Holds(s, k))
       && (forall j: nat :: p <= j < n ==> Tag(s.slots[j]) == 0)
  }

  lemma InitialInv(size: nat, sqHead: nat)
    requires 2 <= size <= MAX_ENTRIES
    ensures Inv(Initial(size, sqHead))
  {
    FirstLap(0, size);
  }

  /** The phase test holds at the head exactly when an unconsumed entry is there. */
  lemma TagTellsNew(s: Ring)
    requires Inv(s)
    ensures Tag(s.slots[s.head]) == s.phase <==> |s.consumed| < |s.posted|
    ensures |s.consumed| < |s.posted| ==> s.slots[s.head] == s.posted[|s.consumed|]
  {
    hide Next, SlotOf, PhaseOf;
    var n, c, p := |s.slots|, |s.consumed|, |s.posted|;
    if c < p {
      assert Holds(s, c);
    } else if p < n {
      FirstLap(p, n);
    } else {
      assert Holds(s, p - n);
      LapSlot(p - n, n);
      PhaseStep(p - n, n);
    }
  }

  /** The loop never stops for its bound: fewer than a ring's worth can be outstanding. */
  lemma BoundNeverReached(s: Ring)
    requires Inv(s) && s.call.Busy?
    ensures Ready(s) <==> |s.consumed| < |s.posted|
    ensures s.call.processed < |s.slots|
  {
    hide Next, SlotOf, PhaseOf;
    TagTellsNew(s);
  }

  /** The device sees room exactly when fewer than `n - 1` entries await the doorbell. */
  lemma RoomMeans(s: Ring)
    requires Inv(s)
    ensures HasRoom(s) <==> |s.posted| - s.rung < |s.slots| - 1
  {
    hide Next, SlotOf, PhaseOf;
    var n, p := |s.slots|, |s.posted|;
    NextEntry(p, n);
    if p - s.rung == n - 1 {
      LapSlot(s.rung, n);
    } else {
      SlotsDiffer(s.rung, p + 1, n);
    }
  }

  lemma TagWritten(e: Cqe, phase: nat)
    requires phase <= 1
    ensures Tag(WithTag(e, phase)) == phase
  {
  }

  /** Posting overwrites no entry that still counts. */
  lemma PostHolds(s: Ring, e: Cqe, k: nat)
    requires Inv(s) && k <= |s.posted|
    ensures Holds(Step(s, Post(e)), k)
  {
    hide Next, SlotOf, PhaseOf, Tag, WithTag;
    var n, p := |s.slots|, |s.posted|;
    TagWritten(e, s.devPhase);
    if k < p {
      assert Holds(s, k);
      if p + 1 <= k + n {
        SlotsDiffer(k, p, n);
      }
    }
  }

  lemma PostKeeps(s: Ring, e: Cqe)
    requires Inv(s) && HasRoom(s)
    ensures Inv(Step(s, Post(e)))
  {
    hide Next, SlotOf, PhaseOf, Holds, Tag, WithTag;
    var n, p := |s.slots|, |s.posted|;
    var s' := Step(s, Post(e));
    RoomMeans(s);
    NextEntry(p, n);
    PhaseStep(p, n);
    forall k: nat | k < |s'.posted|
      ensures Holds(s', k)
    {
      PostHolds(s, e, k);
    }
    if p < n {
      FirstLap(p, n);
    }
  }

  lemma SameHistory(s: Ring, s': Ring)
    requires Shaped(s) && Shaped(s') && s'.slots == s.slots && s'.posted == s.posted
    requires forall k: nat :: k < |s.posted| ==> Holds(s, k)
    ensures forall k: nat :: k < |s'.posted| ==> Holds(s', k)
  {
    hide Next, SlotOf, PhaseOf;
    forall k: nat | k < |s'.posted|
      ensures Holds(s', k)
    {
      assert Holds(s, k);
    }
  }

  lemma ConsumeKeeps(s: Ring)
    requires Inv(s) && Ready(s)
    ensures Inv(Step(s, Consume))
  {
    hide Holds, PhaseOf, Next, SlotOf;
    var n, c := |s.slots|, |s.consumed|;
    var s' := Step(s, Consume);
    BoundNeverReached(s);
    TagTellsNew(s);
    NextEntry(c, n);
    PhaseStep(c, n);
    SameHistory(s, s');
    assert s'.consumed == s.posted[..c + 1];
  }

  lemma StepKeeps(s: Ring, a: Action)
    requires Inv(s) && Enabled(s, a)
    ensures Inv(Step(s, a))
  {
    hide Next, SlotOf, PhaseOf;
    match a
    case Post(e) => PostKeeps(s, e);
    case Consume => ConsumeKeeps(s);
    case _ =>
      SameHistory(s, Step(s, a));
  }

  // ----- runs

  ghost predicate Possible(s: Ring, acts: seq<Action>)
    requires Inv(s)
    decreases |acts|
  {
    acts == [] || (Enabled(s, acts[0]) && (StepKeeps(s, acts[0]); Possible(Step(s, acts[0]), acts[1..])))
  }

  ghost function Run(s: Ring, acts: seq<Action>): Ring
    requires Inv(s) && Possible(s, acts)
    decreases |acts|
  {
    if acts == [] then s else StepKeeps(s, acts[0]); Run(Step(s, acts[0]), acts[1..])
  }

  lemma {:induction false} RunKeeps(s: Ring, acts: seq<Action>)
    requires Inv(s) && Possible(s, acts)
    ensures Inv(Run(s, acts))
    decreases |acts|
  {
    if acts != [] {
      StepKeeps(s, acts[0]);
      RunKeeps(Step(s, acts[0]), acts[1..]);
    }
  }

  /** In every interleaving, across any number of laps, the driver has consumed exactly a
      prefix of what the device posted, in order and once each, and the phase test tells
      precisely whether an unconsumed entry waits at the head. */
  lemma ConsumedIsPrefix(start: Ring, acts: seq<Action>)
    requires Inv(start) && Possible(start, acts)
    ensures var s := Run(start, acts);
            && Shaped(s) && s.consumed <= s.posted
            && (Tag(s.slots[s.head]) == s.phase <==> |s.consumed| < |s.posted|)
            && (|s.consumed| < |s.posted| ==> s.slots[s.head] == s.posted[|s.consumed|])
            && |s.posted| - |s.consumed| < |s.slots|
  {
    RunKeeps(start, acts);
    TagTellsNew(Run(start, acts));
  }
}

/** The driver's side in place. */
module CompletionQueue {
  import opened CompletionRing

  class Queue {
    const cq: array<Cqe>
    var cqHead: nat
    var phase: nat
    var sqHead: nat
    /** The controller's head doorbell register. */
    var doorbell: nat
    /** The controller's own place in the ring and the tag it writes. */
    var tail: nat
    var devPhase: nat
    ghost var posted: seq<Cqe>
    ghost var consumed: seq<Cqe>
    ghost var rung: nat

    ghost function State(call: Call): Ring
      reads this, cq
    {
      Ring(cq[..], cqHead, phase, sqHead, call, doorbell, tail, devPhase, posted, consumed, rung)
    }

    constructor (size: nat, sq: nat)
      requires 2 <= size <= MAX_ENTRIES
      ensures fresh(cq) && State(Idle) == Initial(size, sq)
    {
      cq := new Cqe[size](_ => Cqe(0, 0, 0, 0));
      cqHead, phase, sqHead, doorbell := 0, 1, sq, 0;
      tail, devPhase, posted, consumed, rung := 0, 1, [], [], 0;
      new;
      assert cq[..] == Initial(size, sq).slots;
    }

    /** The controller posts entries while it sees room; the rest wait for another time. */
    method DevicePosts(es: seq<Cqe>, ghost call: Call)
      requires Inv(State(call))
      modifies this`tail, this`devPhase, this`posted, cq
      ensures Inv(State(call)) && old(posted) <= posted && |posted| <= |old(posted)| + |es|
    {
      hide Holds, PhaseOf, SlotOf, Inv, Next;
      var k := 0;
      while k < |es|
        invariant 0 <= k <= |es| && Inv(State(call)) && old(posted) <= posted && |posted| <= |old(posted)| + k
      {
        Unfold(State(call));
        if Next(tail, cq.Length) != doorbell {
          PostOne(es[k], call);
        }
        k := k + 1;
      }
    }

    method PostOne(e: Cqe, ghost call: Call)
      requires Inv(State(call)) && HasRoom(State(call))
      modifies this`tail, this`devPhase, this`posted, cq
      ensures Inv(State(call)) && old(posted) <= posted && |posted| == |old(posted)| + 1
    {
      ghost var before := State(call);
      PostKeeps(before, e);
      Unfold(before);
      hide Holds, PhaseOf, SlotOf, Inv, Next, Tag;
      var w := WithTag(e, devPhase);
      cq[tail] := w;
      tail := Next(tail, cq.Length);
      if tail == 0 {
        devPhase := if devPhase == 0 then 1 else 0;
      }
      posted := posted + [w];
      assert cq[..] == before.slots[before.tail := w];
      assert State(call) == Step(before, Post(e));
    }

    /** `nvme_process_completions` while the controller goes on posting: `arrivals[k]` is what
        it tries to post before the k-th loop test. The call ends, every entry posted by its
        last test is consumed, in order, and the doorbell is rung with the new head if there
        was any. */
    method ProcessCompletions(arrivals: seq<seq<Cqe>>) returns (processed: nat)
      requires Inv(State(Idle))
      modifies this, cq
      ensures Inv(State(Idle)) && old(posted) <= posted && consumed == posted && doorbell == cqHead
      ensures processed == |consumed| - |old(consumed)| && old(consumed) <= consumed
      ensures sqHead == if processed == 0 then old(sqHead) else posted[|posted| - 1].sqHead
    {
      StepKeeps(State(Idle), Begin);
      Unfold(State(Idle));
      processed := 0;
      assert State(Busy(0)) == Step(State(Idle), Begin);
      hide Holds, PhaseOf, Inv, Next, SlotOf, Step;
      DevicePosts(if arrivals == [] then [] else arrivals[0], Busy(0));
      Unfold(State(Busy(0)));
      var turn := 0;
      while cq[cqHead].status % 2 == phase && processed < cq.Length
        invariant cqHead < cq.Length && Inv(State(Busy(processed)))
        invariant old(posted) <= posted && old(consumed) <= consumed
        invariant 0 <= processed == |consumed| - |old(consumed)|
        invariant sqHead == if processed == 0 then old(sqHead) else consumed[|consumed| - 1].sqHead
        decreases cq.Length - processed
      {
        turn := turn + 1;
        processed := Turn(processed, if turn < |arrivals| then arrivals[turn] else []);
      }
      ghost var last := State(Busy(processed));
      Unfold(last);
      BoundNeverReached(last);
      RingDoorbell(processed);
      Unfold(State(Idle));
    }

    /** One turn of the loop, and what arrives before the next test. */
    method Turn(processed: nat, es: seq<Cqe>) returns (count: nat)
      requires Inv(State(Busy(processed))) && Ready(State(Busy(processed)))
      modifies this`cqHead, this`phase, this`sqHead, this`consumed, this`tail, this`devPhase, this`posted, cq
      ensures count == processed + 1 && Inv(State(Busy(count))) && cqHead < cq.Length && count <= cq.Length
      ensures old(posted) <= posted && old(consumed) <= consumed && |consumed| == |old(consumed)| + 1
      ensures sqHead == consumed[|consumed| - 1].sqHead
    {
      hide Holds, PhaseOf, Inv, Next, SlotOf, Tag;
      count := ConsumeOne(processed);
      DevicePosts(es, Busy(count));
      Unfold(State(Busy(count)));
    }

    /** One turn of the loop. */
    method ConsumeOne(processed: nat) returns (count: nat)
      requires Inv(State(Busy(processed))) && Ready(State(Busy(processed)))
      modifies this`cqHead, this`phase, this`sqHead, this`consumed
      ensures count == processed + 1 && Inv(State(Busy(count))) && cqHead < cq.Length
      ensures |old(consumed)| < |posted| && consumed == old(consumed) + [posted[|old(consumed)|]]
      ensures sqHead == consumed[|consumed| - 1].sqHead
    {
      ghost var before := State(Busy(processed));
      Unfold(before);
      BoundNeverReached(before);
      TagTellsNew(before);
      ConsumeKeeps(before);
      hide Inv, Holds, PhaseOf, Next, SlotOf;
      var entry := cq[cqHead];
      sqHead := entry.sqHead;
      cqHead := Next(cqHead, cq.Length);
      if cqHead == 0 {
        phase := if phase == 0 then 1 else 0;
      }
      count := (processed + 1) % 65536;
      consumed := consumed + [entry];
      assert State(Busy(count)) == Step(before, Consume);
      Unfold(State(Busy(count)));
    }

    /** Acknowledges the consumed entries, if there were any. */
    method RingDoorbell(processed: nat)
      requires Inv(State(Busy(processed))) && !Ready(State(Busy(processed)))
      modifies this`doorbell, this`rung
      ensures Inv(State(Idle)) && rung == |consumed| && doorbell == cqHead
    {
      ghost var last := State(Busy(processed));
      StepKeeps(last, Finish);
      if processed > 0 {
        doorbell := cqHead;
        rung := |consumed|;
      }
      assert State(Idle) == Step(last, Finish);
      Unfold(State(Idle));
    }
  }

  /** The parts of the invariant the loop uses. */
  lemma Unfold(s: Ring)
    requires Inv(s)
    ensures Shaped(s) && |s.consumed| <= |s.posted| && s.consumed == s.posted[..|s.consumed|]
    ensures |s.posted| - s.rung < |s.slots| && s.rung <= |s.consumed|
    ensures s.call.Busy? ==> s.call.processed == |s.consumed| - s.rung
    ensures s.call.Idle? ==> |s.consumed| == s.rung && s.doorbell == s.head
  {
  }
}
