/** The one-block cache of the ext4 driver over a sector device, as steps on a value. */
module BlockCache {
  import opened Options

  const UINT64: nat := 0x1_0000_0000_0000_0000
  const UINT32: nat := 0x1_0000_0000
  const NO_BLOCK: nat := 0xffff_ffff_ffff_ffff

  type byte = x: int | 0 <= x < 256
  type Bytes = seq<byte>

  /** What the superblock and the group descriptors say; `tables` holds the first block of
      each group's inode table. */
  datatype Geometry = Geometry(blockSize: nat, sectorSize: nat, blockCount: nat, inodesPerGroup: nat,
                               inodeSize: nat, tables: seq<nat>)

  /** The outcome of the n-th device operation or allocation. */
  type Outcome = nat -> bool

  /** `disk` is the device, byte by byte; the rest is the driver's state. */
  datatype Fs = Fs(disk: Bytes, buffer: Bytes, cached: nat, dirty: bool, clock: nat)

  // ----- blocks and sectors

  /** `block_to_sector`, in 64 bits. */
  function FirstSector(g: Geometry, b: nat): nat
    requires g.sectorSize > 0
  {
    b * g.blockSize % UINT64 / g.sectorSize
  }

  /** How many sectors one block takes, in 32 bits. */
  function SectorCount(g: Geometry): nat
    requires g.sectorSize > 0
  {
    (g.blockSize + g.sectorSize - 1) % UINT32 / g.sectorSize
  }

  /** Nothing overflows, and there is a block to speak of. */
  predicate Sized(g: Geometry) {
    && g.sectorSize > 0 && g.blockSize > 0 && g.blockSize + g.sectorSize <= UINT32
    && g.blockCount * g.blockSize < UINT64
  }

  predicate Mounted(g: Geometry) {
    Sized(g) && g.blockSize % g.sectorSize == 0
  }

  predicate SectorsApart(g: Geometry, b: nat, c: nat)
    requires g.sectorSize > 0
  {
    || FirstSector(g, b) + SectorCount(g) <= FirstSector(g, c)
    || FirstSector(g, c) + SectorCount(g) <= FirstSector(g, b)
  }

  lemma InRange(g: Geometry, b: nat)
    requires Sized(g) && b <= g.blockCount
    ensures 0 <= b * g.blockSize <= g.blockCount * g.blockSize && b * g.blockSize % UINT64 == b * g.blockSize
  {
    Multiples(b, g.blockCount, g.blockSize);
  }

  lemma Multiples(b: nat, c: nat, n: nat)
    requires b <= c
    ensures 0 <= b * n <= c * n
  {
  }

  lemma Next(b: nat, c: nat, n: nat)
    requires b < c
    ensures b * n + n <= c * n
  {
    Multiples(b + 1, c, n);
  }

  /** When sectors divide blocks, a block is exactly its sectors. */
  lemma SectorsAreBlock(g: Geometry, b: nat)
    requires Mounted(g) && b <= g.blockCount
    ensures FirstSector(g, b) * g.sectorSize == b * g.blockSize
    ensures SectorCount(g) * g.sectorSize == g.blockSize
  {
    var k := g.blockSize / g.sectorSize;
    assert g.blockSize == k * g.sectorSize;
    InRange(g, b);
    assert b * g.blockSize == (b * k) * g.sectorSize by {
      Associate(b, k, g.sectorSize);
    }
    ExactQuotient(b * k, g.sectorSize, 0);
    ExactQuotient(k, g.sectorSize, g.sectorSize - 1);
  }

  lemma Associate(a: int, b: int, c: int)
    ensures a * (b * c) == (a * b) * c
  {
  }

  lemma ExactQuotient(q: nat, n: nat, r: nat)
    requires r < n
    ensures (q * n + r) / n == q && (q * n + r) % n == r
  {
    var x := q * n + r;
    assert x == x / n * n + x % n;
    if x / n < q {
      Next(x / n, q, n);
    } else if q < x / n {
      Next(q, x / n, n);
    }
  }

  /** Distinct blocks use disjoint sectors if and only if the sector size divides the block
      size. */
  lemma BlocksApartIff(g: Geometry)
    requires Sized(g) && g.blockCount >= 2
    ensures (forall b: nat, c: nat :: b < c < g.blockCount ==> SectorsApart(g, b, c))
            <==> g.blockSize % g.sectorSize == 0
  {
    if g.blockSize % g.sectorSize == 0 {
      forall b: nat, c: nat | b < c < g.blockCount
        ensures SectorsApart(g, b, c)
      {
        DividedApart(g, b, c);
      }
    } else {
      UndividedOverlap(g);
    }
  }

  lemma DividedApart(g: Geometry, b: nat, c: nat)
    requires Mounted(g) && b < c < g.blockCount
    ensures SectorsApart(g, b, c)
  {
    SectorsAreBlock(g, b);
    SectorsAreBlock(g, c);
    Next(b, c, g.blockSize);
    var p, q, k := FirstSector(g, b), FirstSector(g, c), SectorCount(g);
    hide FirstSector, SectorCount, Mounted;
    Distribute(p, k, g.sectorSize);
    Distribute(b, 1, g.blockSize);
    CancelFactor(p + k, q, g.sectorSize);
  }

  lemma Distribute(a: nat, b: nat, n: nat)
    ensures (a + b) * n == a * n + b * n
  {
  }

  lemma CancelFactor(a: nat, b: nat, n: nat)
    requires n > 0 && a * n <= b * n
    ensures a <= b
  {
    if a > b {
      Next(b, a, n);
    }
  }

  lemma UndividedOverlap(g: Geometry)
    requires Sized(g) && g.blockCount >= 2 && g.blockSize % g.sectorSize != 0
    ensures !SectorsApart(g, 0, 1)
  {
    InRange(g, 0);
    InRange(g, 1);
    var q, r := g.blockSize / g.sectorSize, g.blockSize % g.sectorSize;
    assert FirstSector(g, 0) == 0 && FirstSector(g, 1) == q;
    assert (q + 1) * g.sectorSize + (r - 1) == g.blockSize + g.sectorSize - 1;
    ExactQuotient(q + 1, g.sectorSize, r - 1);
  }

  // ----- the device

  function Splice(d: Bytes, at: nat, x: Bytes): (r: Bytes)
    requires at + |x| <= |d|
    ensures |r| == |d|
  {
    d[..at] + x + d[at + |x|..]
  }

  /** The bytes of block `b` on the device. */
  function DiskBlock(g: Geometry, disk: Bytes, b: nat): (d: Bytes)
    requires Mounted(g) && b < g.blockCount && g.blockCount * g.blockSize <= |disk|
    ensures |d| == g.blockSize
  {
    Next(b, g.blockCount, g.blockSize);
    disk[b * g.blockSize..b * g.blockSize + g.blockSize]
  }

  /** The driver's state fits its geometry; a clean buffer holds what is on the device. */
  ghost predicate Inv(g: Geometry, s: Fs) {
    && Mounted(g) && g.blockCount * g.blockSize <= |s.disk| && |s.buffer| == g.blockSize && g.blockCount <= NO_BLOCK
    && (s.cached < g.blockCount || (s.cached == NO_BLOCK && !s.dirty))
    && (!s.dirty && s.cached < g.blockCount ==> s.buffer == DiskBlock(g, s.disk, s.cached))
  }

  /** What the driver would give for block `b`. */
  function View(g: Geometry, s: Fs, b: nat): (d: Bytes)
    requires Mounted(g) && b < g.blockCount && g.blockCount * g.blockSize <= |s.disk| && |s.buffer| == g.blockSize
    ensures |d| == g.blockSize
  {
    if s.cached == b then s.buffer else DiskBlock(g, s.disk, b)
  }

  /** The device's copy of the cached block is up to date, dirty or not. */
  ghost predicate Settled(g: Geometry, s: Fs)
    requires Inv(g, s)
  {
    s.cached < g.blockCount ==> s.buffer == DiskBlock(g, s.disk, s.cached)
  }

  /** `read_blocks` for one block: whole sectors. */
  function DeviceBytes(g: Geometry, disk: Bytes, b: nat): (d: Bytes)
    requires Mounted(g) && b < g.blockCount && g.blockCount * g.blockSize <= |disk|
  {
    SectorsAreBlock(g, b);
    Next(b, g.blockCount, g.blockSize);
    var from := FirstSector(g, b) * g.sectorSize;
    disk[from..from + SectorCount(g) * g.sectorSize]
  }

  lemma DeviceReadsBlock(g: Geometry, disk: Bytes, b: nat)
    requires Mounted(g) && b < g.blockCount && g.blockCount * g.blockSize <= |disk|
    ensures DeviceBytes(g, disk, b) == DiskBlock(g, disk, b)
  {
    SectorsAreBlock(g, b);
  }

  /** `write_blocks` for one block; a failed write changes nothing on the device. */
  function WriteBlocks(g: Geometry, ok: Outcome, s: Fs, b: nat, data: Bytes): (r: (Fs, bool))
    requires Mounted(g) && b < g.blockCount && g.blockCount * g.blockSize <= |s.disk| && |data| == g.blockSize
    ensures |r.0.disk| == |s.disk|
  {
    SectorsAreBlock(g, b);
    Next(b, g.blockCount, g.blockSize);
    var t := s.(clock := s.clock + 1);
    if ok(s.clock) then (t.(disk := Splice(s.disk, FirstSector(g, b) * g.sectorSize, data)), true) else (t, false)
  }

  /** A device write of one block changes that block only. */
  lemma WriteReaches(g: Geometry, ok: Outcome, s: Fs, b: nat, data: Bytes, c: nat)
    requires Mounted(g) && b < g.blockCount && g.blockCount * g.blockSize <= |s.disk| && |data| == g.blockSize
    requires c < g.blockCount
    ensures var (t, w) := WriteBlocks(g, ok, s, b, data);
            DiskBlock(g, t.disk, c) == if w && c == b then data else DiskBlock(g, s.disk, c)
  {
    SectorsAreBlock(g, b);
    var n := g.blockSize;
    Next(b, g.blockCount, n);
    Next(c, g.blockCount, n);
    var at, from := b * n, c * n;
    if b < c {
      Next(b, c, n);
    } else if c < b {
      Next(c, b, n);
    }
    SpliceReads(s.disk, at, data, from, n);
  }

  lemma SpliceReads(d: Bytes, at: nat, x: Bytes, from: nat, n: nat)
    requires at + |x| <= |d| && from + n <= |d|
    requires (from == at && |x| == n) || at + |x| <= from || from + n <= at
    ensures Splice(d, at, x)[from..from + n] == if from == at && |x| == n then x else d[from..from + n]
  {
    var r := Splice(d, at, x);
    if from == at && |x| == n {
      assert r[from..from + n] == x;
    } else {
      assert forall k :: from <= k < from + n ==> r[k] == d[k];
    }
  }

  // ----- the driver's block operations

  function ReadBlock(g: Geometry, ok: Outcome, s: Fs, b: nat): (r: (Fs, Option<Bytes>))
    requires Inv(g, s)
  {
    if b >= g.blockCount then (s, None)
    else if b == s.cached then (s, Some(s.buffer))
    else
      var (s1, w) := if s.dirty then WriteBlocks(g, ok, s, s.cached, s.buffer) else (s, true);
      if !w then (s1, None) else
      var s2 := s1.(dirty := false, clock := s1.clock + 1);
      if !ok(s1.clock) then (s2, None) else
      var data := DeviceBytes(g, s2.disk, b);
      (s2.(buffer := data, cached := b), Some(data))
  }

  function WriteBlock(g: Geometry, ok: Outcome, s: Fs, b: nat, data: Bytes): (r: (Fs, bool))
    requires Inv(g, s) && |data| == g.blockSize
  {
    if b >= g.blockCount then (s, false)
    else WriteBlocks(g, ok, s.(buffer := data, cached := b, dirty := true), b, data)
  }

  function Flush(g: Geometry, ok: Outcome, s: Fs): (r: (Fs, bool))
    requires Inv(g, s)
  {
    var (s1, w) := if s.dirty then WriteBlocks(g, ok, s, s.cached, s.buffer) else (s, true);
    if !w then (s1, false)
    else (s1.(dirty := false, clock := s1.clock + 1), ok(s1.clock))
  }
}

/** The cache against a plain array of blocks. */
module CacheLaws {
  import opened Options
  import opened BlockCache

  datatype Op = Read(block: nat) | Write(block: nat, data: Bytes) | FlushAll

  /** `data` is what a successful read gives. */
  datatype Reply = Reply(ok: bool, data: Bytes)

  ghost predicate Fits(g: Geometry, op: Op) {
    op.Write? ==> |op.data| == g.blockSize
  }

  function Step(g: Geometry, ok: Outcome, s: Fs, op: Op): (r: (Fs, Reply))
    requires Inv(g, s) && Fits(g, op)
  {
    match op
    case Read(b) =>
      var (t, d) := ReadBlock(g, ok, s, b);
      (t, if d.Some? then Reply(true, d.value) else Reply(false, []))
    case Write(b, data) =>
      var (t, w) := WriteBlock(g, ok, s, b, data);
      (t, Reply(w, []))
    case FlushAll =>
      var (t, w) := Flush(g, ok, s);
      (t, Reply(w, []))
  }

  /** The plain array, except that a failed write leaves open which of the values is there. */
  type Blocks = seq<set<Bytes>>

  function Track(q: Blocks, op: Op, ok: bool): (r: Blocks)
    ensures |r| == |q|
  {
    if !op.Write? || op.block >= |q| then q
    else if ok then q[op.block := {op.data}]
    else q[op.block := q[op.block] + {op.data}]
  }

  ghost predicate Faithful(g: Geometry, s: Fs, q: Blocks)
    requires Inv(g, s)
  {
    && |q| == g.blockCount
    && (forall b :: 0 <= b < |q| ==> DiskBlock(g, s.disk, b) in q[b])
    && (s.cached < g.blockCount ==> s.buffer in q[s.cached])
  }

  // ----- one step

  lemma WriteBackKeeps(g: Geometry, ok: Outcome, s: Fs, q: Blocks)
    requires Inv(g, s) && Faithful(g, s, q) && s.dirty
    ensures var (t, w) := WriteBlocks(g, ok, s, s.cached, s.buffer);
            && Inv(g, t) && Faithful(g, t, q) && (w ==> t.buffer == DiskBlock(g, t.disk, t.cached))
            && t.buffer == s.buffer && t.cached == s.cached && t.dirty
  {
    hide Mounted, DiskBlock;
    var (t, w) := WriteBlocks(g, ok, s, s.cached, s.buffer);
    WriteReaches(g, ok, s, s.cached, s.buffer, s.cached);
    forall b | 0 <= b < |q|
      ensures DiskBlock(g, t.disk, b) in q[b]
    {
      WriteReaches(g, ok, s, s.cached, s.buffer, b);
    }
  }

  lemma ReadKeeps(g: Geometry, ok: Outcome, s: Fs, q: Blocks, b: nat)
    requires Inv(g, s) && Faithful(g, s, q)
    ensures var (t, d) := ReadBlock(g, ok, s, b);
            Inv(g, t) && Faithful(g, t, q) && (d.Some? ==> b < g.blockCount && d.value in q[b])
  {
    hide Mounted, DiskBlock, WriteBlocks, DeviceBytes;
    if b < g.blockCount && b != s.cached {
      var (s1, w) := if s.dirty then WriteBlocks(g, ok, s, s.cached, s.buffer) else (s, true);
      if s.dirty {
        WriteBackKeeps(g, ok, s, q);
      }
      if w {
        DeviceReadsBlock(g, s1.disk, b);
      }
    }
  }

  lemma WriteKeeps(g: Geometry, ok: Outcome, s: Fs, q: Blocks, b: nat, data: Bytes)
    requires Inv(g, s) && Faithful(g, s, q) && |data| == g.blockSize
    ensures var (t, w) := WriteBlock(g, ok, s, b, data);
            Inv(g, t) && Faithful(g, t, Track(q, Write(b, data), w))
  {
    hide Mounted, DiskBlock;
    if b < g.blockCount {
      var s1 := s.(buffer := data, cached := b, dirty := true);
      var (t, w) := WriteBlocks(g, ok, s1, b, data);
      var r := Track(q, Write(b, data), w);
      forall c | 0 <= c < |r|
        ensures DiskBlock(g, t.disk, c) in r[c]
      {
        WriteReaches(g, ok, s1, b, data, c);
      }
    }
  }

  /** A successful flush leaves the device up to date. */
  lemma FlushKeeps(g: Geometry, ok: Outcome, s: Fs, q: Blocks)
    requires Inv(g, s) && Faithful(g, s, q)
    ensures var (t, w) := Flush(g, ok, s);
            Inv(g, t) && Faithful(g, t, q) && (w ==> Settled(g, t) && !t.dirty)
  {
    hide Mounted, DiskBlock, WriteBlocks;
    if s.dirty {
      WriteBackKeeps(g, ok, s, q);
    }
  }

  lemma StepFaithful(g: Geometry, ok: Outcome, s: Fs, op: Op, q: Blocks)
    requires Inv(g, s) && Faithful(g, s, q) && Fits(g, op)
    ensures var (t, r) := Step(g, ok, s, op);
            && Inv(g, t) && Faithful(g, t, Track(q, op, r.ok))
            && (op.Read? && r.ok ==> op.block < |q| && r.data in q[op.block])
  {
    hide Inv, Faithful, ReadBlock, WriteBlock, Flush;
    match op {
      case Read(b) => ReadKeeps(g, ok, s, q, b);
        assert |q| == g.blockCount by {
          Lengths(g, s, q);
        }
      case Write(b, data) => WriteKeeps(g, ok, s, q, b, data);
      case FlushAll => FlushKeeps(g, ok, s, q);
    }
  }

  lemma Lengths(g: Geometry, s: Fs, q: Blocks)
    requires Inv(g, s) && Faithful(g, s, q)
    ensures |q| == g.blockCount
  {
  }

  // ----- runs

  ghost predicate AllFit(g: Geometry, ops: seq<Op>) {
    forall k :: 0 <= k < |ops| ==> Fits(g, ops[k])
  }

  /** One step of the driver and of the plain array. */
  function StepBoth(g: Geometry, ok: Outcome, s: Fs, q: Blocks, op: Op): (r: (Fs, Blocks))
    requires Inv(g, s) && Faithful(g, s, q) && Fits(g, op)
    ensures Inv(g, r.0) && Faithful(g, r.0, r.1)
  {
    StepFaithful(g, ok, s, op, q);
    var (t, reply) := Step(g, ok, s, op);
    (t, Track(q, op, reply.ok))
  }

  /** The state and the plain array after a run. */
  function Run(g: Geometry, ok: Outcome, s: Fs, q: Blocks, ops: seq<Op>): (r: (Fs, Blocks))
    requires Inv(g, s) && Faithful(g, s, q) && AllFit(g, ops)
    ensures Inv(g, r.0) && Faithful(g, r.0, r.1)
    decreases |ops|
  {
    if ops == [] then (s, q) else
    var (t, p) := StepBoth(g, ok, s, q, ops[0]);
    Run(g, ok, t, p, ops[1..])
  }

  /** The plain array of what is on the device before the driver has done anything. */
  function Initial(g: Geometry, disk: Bytes): (q: Blocks)
    requires Mounted(g) && g.blockCount * g.blockSize <= |disk|
  {
    seq(g.blockCount, b requires 0 <= b < g.blockCount => {DiskBlock(g, disk, b)})
  }

  lemma InitialFaithful(g: Geometry, disk: Bytes, buffer: Bytes, clock: nat)
    requires Mounted(g) && g.blockCount * g.blockSize <= |disk| && |buffer| == g.blockSize && g.blockCount <= NO_BLOCK
    ensures var s := Fs(disk, buffer, NO_BLOCK, false, clock);
            Inv(g, s) && Settled(g, s) && Faithful(g, s, Initial(g, disk))
  {
    hide DiskBlock;
  }

  ghost predicate Writes(op: Op, b: nat) {
    op.Write? && op.block == b
  }

  ghost predicate NeverWrites(ops: seq<Op>, b: nat) {
    forall k :: 0 <= k < |ops| ==> !Writes(ops[k], b)
  }

  lemma {:induction false} UnwrittenStays(g: Geometry, ok: Outcome, s: Fs, q: Blocks, ops: seq<Op>, b: nat)
    requires Inv(g, s) && Faithful(g, s, q) && AllFit(g, ops) && NeverWrites(ops, b) && b < g.blockCount
    ensures |q| == |Run(g, ok, s, q, ops).1| == g.blockCount && Run(g, ok, s, q, ops).1[b] == q[b]
    decreases |ops|
  {
    hide Inv, Faithful, Step;
    Lengths(g, s, q);
    if ops == [] {
    } else {
      var (t, p) := StepBoth(g, ok, s, q, ops[0]);
      assert !Writes(ops[0], b);
      UnwrittenStays(g, ok, t, p, ops[1..], b);
    }
  }

  /** Whatever fails in between: a successful read of a block whose last write returned true
      gives what that write put there. */
  lemma ReadsLastWrite(g: Geometry, ok: Outcome, s: Fs, q: Blocks, b: nat, v: Bytes, between: seq<Op>)
    requires Inv(g, s) && Faithful(g, s, q) && |v| == g.blockSize && AllFit(g, between) && NeverWrites(between, b)
    requires Step(g, ok, s, Write(b, v)).1.ok
    ensures var t := Step(g, ok, s, Write(b, v)).0;
            var q1 := Track(q, Write(b, v), true);
            && Inv(g, t) && Faithful(g, t, q1)
            && var u := Run(g, ok, t, q1, between).0;
               var r := Step(g, ok, u, Read(b)).1;
               r.ok ==> r.data == v
  {
    hide Inv, Faithful, Run;
    StepFaithful(g, ok, s, Write(b, v), q);
    var t := Step(g, ok, s, Write(b, v)).0;
    var q1 := Track(q, Write(b, v), true);
    Lengths(g, s, q);
    assert b < g.blockCount;
    assert q1[b] == {v};
    UnwrittenStays(g, ok, t, q1, between, b);
    var (u, q2) := Run(g, ok, t, q1, between);
    StepFaithful(g, ok, u, Read(b), q2);
  }

  /** And a block that was never written reads as what was on the device at the start. */
  lemma ReadsInitial(g: Geometry, ok: Outcome, disk: Bytes, buffer: Bytes, clock: nat, b: nat, ops: seq<Op>)
    requires Mounted(g) && g.blockCount * g.blockSize <= |disk| && |buffer| == g.blockSize && g.blockCount <= NO_BLOCK
    requires AllFit(g, ops) && NeverWrites(ops, b) && b < g.blockCount
    ensures var s := Fs(disk, buffer, NO_BLOCK, false, clock);
            && Inv(g, s) && Faithful(g, s, Initial(g, disk))
            && var u := Run(g, ok, s, Initial(g, disk), ops).0;
               var r := Step(g, ok, u, Read(b)).1;
               r.ok ==> r.data == DiskBlock(g, disk, b)
  {
    InitialFaithful(g, disk, buffer, clock);
    var s, q := Fs(disk, buffer, NO_BLOCK, false, clock), Initial(g, disk);
    hide Inv, Faithful, Run;
    UnwrittenStays(g, ok, s, q, ops, b);
    var (u, q2) := Run(g, ok, s, q, ops);
    StepFaithful(g, ok, u, Read(b), q2);
  }

  /** `n` outcomes from `from` on are all successes. */
  ghost predicate AllOk(ok: Outcome, from: nat, n: nat) {
    forall k: nat :: from <= k < from + n ==> ok(k)
  }

  /** Device operations a read of block `b` needs: none for the cached block, otherwise one to
      read, and one before it when the cached block has to be written back. */
  function ReadOps(s: Fs, b: nat): (n: nat) {
    if b == s.cached then 0 else if s.dirty then 2 else 1
  }

  /** When a read succeeds, exactly, and how many outcomes it uses up. */
  lemma ReadSucceedsIff(g: Geometry, ok: Outcome, s: Fs, b: nat)
    requires Inv(g, s)
    ensures var (t, d) := ReadBlock(g, ok, s, b);
            && (d.Some? <==> b < g.blockCount && AllOk(ok, s.clock, ReadOps(s, b)))
            && (d.Some? ==> t.clock == s.clock + ReadOps(s, b) && t.cached == b)
  {
    hide Mounted, DiskBlock, DeviceBytes;
    assert AllOk(ok, s.clock, 1) <==> ok(s.clock);
    assert AllOk(ok, s.clock, 2) <==> ok(s.clock) && ok(s.clock + 1);
  }

  /** A write succeeds if and only if the block exists and its one device operation succeeds; the
      device then holds the data there and its other blocks as before. */
  lemma WriteSucceedsIff(g: Geometry, ok: Outcome, s: Fs, b: nat, data: Bytes)
    requires Inv(g, s) && |data| == g.blockSize
    ensures var (t, w) := WriteBlock(g, ok, s, b, data);
            && (w <==> b < g.blockCount && ok(s.clock))
            && (b < g.blockCount ==> t.clock == s.clock + 1)
            && |t.disk| == |s.disk|
            && (w ==> forall c: nat :: c < g.blockCount ==>
                  DiskBlock(g, t.disk, c) == if c == b then data else DiskBlock(g, s.disk, c))
  {
    hide Mounted, DiskBlock;
    if b < g.blockCount {
      var s1 := s.(buffer := data, cached := b, dirty := true);
      forall c: nat | c < g.blockCount
        ensures ok(s.clock) ==>
                  DiskBlock(g, WriteBlock(g, ok, s, b, data).0.disk, c) == if c == b then data else DiskBlock(g, s.disk, c)
      {
        WriteReaches(g, ok, s1, b, data, c);
      }
    }
  }

  /** A flush succeeds if and only if the write-back, when one is due, and the device's own flush
      do; every block is then on the device as it is shown. */
  lemma FlushSucceedsIff(g: Geometry, ok: Outcome, s: Fs)
    requires Inv(g, s)
    ensures var (t, w) := Flush(g, ok, s);
            && (w <==> AllOk(ok, s.clock, if s.dirty then 2 else 1))
            && Inv(g, t) && SameViews(g, s, t)
            && (w ==> !t.dirty && forall b: nat :: b < g.blockCount ==> DiskBlock(g, t.disk, b) == View(g, s, b))
  {
    hide Mounted, DiskBlock, WriteBlocks;
    assert AllOk(ok, s.clock, 1) <==> ok(s.clock);
    assert AllOk(ok, s.clock, 2) <==> ok(s.clock) && ok(s.clock + 1);
    if s.dirty {
      WriteBackShows(g, ok, s);
      WriteBackOutcome(g, ok, s);
    }
    var (t, w) := Flush(g, ok, s);
    if w {
      forall b: nat | b < g.blockCount
        ensures DiskBlock(g, t.disk, b) == View(g, s, b)
      {
        assert View(g, t, b) == View(g, s, b);
      }
    }
  }

  lemma WriteBackOutcome(g: Geometry, ok: Outcome, s: Fs)
    requires Inv(g, s) && s.dirty
    ensures var (t, w) := WriteBlocks(g, ok, s, s.cached, s.buffer);
            (w <==> ok(s.clock)) && t.clock == s.clock + 1
  {
    hide Mounted, DiskBlock;
  }

  // ----- what the driver shows

  ghost predicate SameViews(g: Geometry, s: Fs, t: Fs)
    requires Inv(g, s) && Inv(g, t)
  {
    forall b: nat :: b < g.blockCount ==> View(g, t, b) == View(g, s, b)
  }

  /** Writing the cached block back shows the same blocks and brings the device up to date. */
  lemma WriteBackShows(g: Geometry, ok: Outcome, s: Fs)
    requires Inv(g, s) && s.dirty
    ensures var (t, w) := WriteBlocks(g, ok, s, s.cached, s.buffer);
            && Inv(g, t) && SameViews(g, s, t) && t == s.(disk := t.disk, clock := s.clock + 1)
            && (w ==> t.buffer == DiskBlock(g, t.disk, t.cached)) && (!w ==> t.disk == s.disk)
  {
    hide Mounted, DiskBlock;
    var (t, w) := WriteBlocks(g, ok, s, s.cached, s.buffer);
    WriteReaches(g, ok, s, s.cached, s.buffer, s.cached);
    forall b: nat | b < g.blockCount
      ensures View(g, t, b) == View(g, s, b)
    {
      WriteReaches(g, ok, s, s.cached, s.buffer, b);
    }
  }

  /** Reading, successful or not and dirty or not, shows the same blocks as before. */
  lemma ReadShows(g: Geometry, ok: Outcome, s: Fs, b: nat)
    requires Inv(g, s)
    ensures var (t, d) := ReadBlock(g, ok, s, b);
            && Inv(g, t) && SameViews(g, s, t) && (Settled(g, s) ==> Settled(g, t)) && t.clock >= s.clock
            && (d.Some? ==> b < g.blockCount && t.cached == b && d.value == View(g, s, b))
  {
    hide Mounted, DiskBlock, WriteBlocks, DeviceBytes;
    if b < g.blockCount && b != s.cached {
      var (s1, w) := if s.dirty then WriteBlocks(g, ok, s, s.cached, s.buffer) else (s, true);
      if s.dirty {
        WriteBackShows(g, ok, s);
      }
      if w {
        assert View(g, s1, b) == View(g, s, b);
        DeviceReadsBlock(g, s1.disk, b);
        CleanShows(g, s1, b);
      }
    }
  }

  /** A buffer that agrees with the device can be replaced by any other block. */
  lemma CleanShows(g: Geometry, s: Fs, b: nat)
    requires Inv(g, s) && Settled(g, s) && b < g.blockCount
    ensures var t := s.(dirty := false, clock := s.clock + 1);
            && Inv(g, t) && SameViews(g, s, t)
            && var u := t.(buffer := DiskBlock(g, s.disk, b), cached := b);
               Inv(g, u) && SameViews(g, s, u)
  {
    hide Mounted, DiskBlock;
  }

  /** A successful write shows the data for its block and the device's blocks elsewhere: what
      is shown elsewhere stays if and only if no other block was waiting to be written back. */
  lemma WriteShows(g: Geometry, ok: Outcome, s: Fs, b: nat, data: Bytes)
    requires Inv(g, s) && |data| == g.blockSize && WriteBlock(g, ok, s, b, data).1
    ensures var t := WriteBlock(g, ok, s, b, data).0;
            && b < g.blockCount && Inv(g, t) && Settled(g, t)
            && (forall c: nat :: c < g.blockCount ==>
                  View(g, t, c) == if c == b then data else DiskBlock(g, s.disk, c))
            && ((forall c: nat :: c < g.blockCount && c != b ==> View(g, t, c) == View(g, s, c))
                <==> s.cached == b || Settled(g, s))
  {
    hide Mounted, DiskBlock;
    var s1 := s.(buffer := data, cached := b, dirty := true);
    var t := WriteBlock(g, ok, s, b, data).0;
    forall c: nat | c < g.blockCount
      ensures DiskBlock(g, t.disk, c) == if c == b then data else DiskBlock(g, s.disk, c)
    {
      WriteReaches(g, ok, s1, b, data, c);
    }
    if s.cached != b && !Settled(g, s) {
      assert View(g, t, s.cached) != View(g, s, s.cached);
    }
  }

  /** A failed write leaves the device as it was; its own block shows the data, and another
      block shows what the device holds. */
  lemma FailedWriteShows(g: Geometry, ok: Outcome, s: Fs, b: nat, data: Bytes)
    requires Inv(g, s) && |data| == g.blockSize && !WriteBlock(g, ok, s, b, data).1
    ensures var t := WriteBlock(g, ok, s, b, data).0;
            && Inv(g, t)
            && (forall c: nat :: c < g.blockCount ==> DiskBlock(g, t.disk, c) == DiskBlock(g, s.disk, c))
            && (b >= g.blockCount ==> t == s)
            && (b < g.blockCount ==>
                  forall c: nat :: c < g.blockCount ==>
                    View(g, t, c) == if c == b then data else DiskBlock(g, s.disk, c))
  {
    hide Mounted, DiskBlock;
  }
}
