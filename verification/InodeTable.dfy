/** Where inodes live, and reading and writing them through the block cache. */
module InodeTable {
  import opened Options
  import opened BlockCache
  import opened CacheLaws

  /** sizeof(ext4_inode_t). */
  const INODE_BYTES: nat := 160

  function TableBlocks(g: Geometry): nat
    requires g.blockSize > 0
  {
    (g.inodesPerGroup * g.inodeSize + g.blockSize - 1) / g.blockSize
  }

  predicate TablesApart(g: Geometry, j: nat, k: nat)
    requires g.blockSize > 0 && j < |g.tables| && k < |g.tables|
  {
    g.tables[j] + TableBlocks(g) <= g.tables[k] || g.tables[k] + TableBlocks(g) <= g.tables[j]
  }

  /** Inodes fill blocks evenly, and a group's table is below 4 GiB. */
  predicate EvenSlots(g: Geometry)
    requires g.inodeSize > 0
  {
    g.blockSize % g.inodeSize == 0 && g.inodesPerGroup * g.inodeSize < UINT32
  }

  /** The inode layout: even slots of at least the structure's size, disjoint tables. */
  predicate Arranged(g: Geometry) {
    && Mounted(g) && g.blockSize > 0 && g.inodesPerGroup > 0 && g.inodeSize >= INODE_BYTES && EvenSlots(g)
    && (forall k :: 0 <= k < |g.tables| ==> g.tables[k] + TableBlocks(g) <= UINT64)
    && (forall j, k :: 0 <= j < k < |g.tables| ==> TablesApart(g, j, k))
  }

  datatype Place = Place(block: nat, offset: nat)

  function Row(x: nat, n: nat): nat
    requires n > 0
  {
    x / n
  }

  function Column(x: nat, n: nat): (c: nat)
    requires n > 0
    ensures c < n
  {
    x % n
  }

  /** The block and the offset of inode number `i`, with the source's integer widths. */
  function Locate(g: Geometry, i: nat): Option<Place>
    requires g.blockSize > 0 && g.inodesPerGroup > 0
  {
    if i == 0 then None else
    var group := Row(i - 1, g.inodesPerGroup);
    if group >= |g.tables| then None else
    var at := Column(i - 1, g.inodesPerGroup) * g.inodeSize % UINT32;
    Some(Place((g.tables[group] + Row(at, g.blockSize)) % UINT64, Column(at, g.blockSize)))
  }

  // ----- arithmetic of the layout

  lemma SlotSplit(x: nat, m: nat, n: nat)
    requires m > 0 && n > 0
    ensures m * n > 0 && Row(x * n, m * n) == Row(x, m) && Column(x * n, m * n) == Column(x, m) * n
    ensures Column(x, m) * n + n <= m * n
  {
    var q, r := Row(x, m), Column(x, m);
    Recompose(x, m);
    Next(r, m, n);
    Distribute(q * m, r, n);
    Associate(q, m, n);
    ExactQuotient(q, m * n, r * n);
  }

  lemma Recompose(x: nat, n: nat)
    requires n > 0
    ensures x == Row(x, n) * n + Column(x, n)
  {
  }

  lemma QuotientBelow(x: nat, y: nat, n: nat)
    requires n > 0 && x < y
    ensures Row(x, n) < (y + n - 1) / n
  {
    var q, p := x / n, (y + n - 1) / n;
    assert q * n <= x && y + n - 1 < p * n + n;
    if p <= q {
      Multiples(p, q, n);
    }
  }

  /** Inodes per block. */
  function PerBlock(g: Geometry): nat
    requires g.inodeSize > 0
  {
    g.blockSize / g.inodeSize
  }

  lemma BlockIsSlots(g: Geometry)
    requires g.inodeSize > 0 && g.blockSize > 0 && EvenSlots(g)
    ensures g.blockSize == PerBlock(g) * g.inodeSize && PerBlock(g) > 0
  {
  }

  lemma BelowTable(g: Geometry, index: nat)
    requires g.blockSize > 0 && g.inodeSize > 0 && index < g.inodesPerGroup && EvenSlots(g)
    ensures 0 <= index * g.inodeSize < UINT32 && index * g.inodeSize % UINT32 == index * g.inodeSize
    ensures Row(index * g.inodeSize, g.blockSize) < TableBlocks(g)
  {
    Next(index, g.inodesPerGroup, g.inodeSize);
    QuotientBelow(index * g.inodeSize, g.inodesPerGroup * g.inodeSize, g.blockSize);
    hide Row;
  }

  /** With nothing wrapping, an inode's place is its slot in its group's table. */
  lemma PlaceOf(g: Geometry, i: nat)
    requires Arranged(g) && Locate(g, i).Some?
    ensures i > 0 && Row(i - 1, g.inodesPerGroup) < |g.tables|
    ensures var group, index := Row(i - 1, g.inodesPerGroup), Column(i - 1, g.inodesPerGroup);
            var m := PerBlock(g);
            && m > 0 && Row(index, m) < TableBlocks(g)
            && Locate(g, i).value == Place(g.tables[group] + Row(index, m), Column(index, m) * g.inodeSize)
            && Column(index, m) * g.inodeSize + g.inodeSize <= g.blockSize
  {
    hide Row, Column, EvenSlots, Mounted, TableBlocks, PerBlock;
    var group, index := Row(i - 1, g.inodesPerGroup), Column(i - 1, g.inodesPerGroup);
    var m := PerBlock(g);
    BlockIsSlots(g);
    BelowTable(g, index);
    SlotSplit(index, m, g.inodeSize);
    var block := g.tables[group] + Row(index, m);
    assert g.tables[group] + TableBlocks(g) <= UINT64;
    SmallWord(block);
  }

  lemma SmallWord(x: nat)
    requires x < UINT64
    ensures x % UINT64 == x
  {
  }

  /** An inode is found if and only if its number is from 1 to the number of inodes in the groups. */
  lemma LocateIff(g: Geometry, i: nat)
    requires g.blockSize > 0 && g.inodesPerGroup > 0
    ensures Locate(g, i).Some? <==> 1 <= i <= |g.tables| * g.inodesPerGroup
  {
    var n := g.inodesPerGroup;
    if i > 0 {
      Recompose(i - 1, n);
      var group, groups := Row(i - 1, n), |g.tables|;
      hide Row, Column;
      if group < groups {
        Next(group, groups, n);
      } else {
        Multiples(groups, group, n);
      }
    }
  }

  /** Byte `at` of the blocks from `base` on. */
  predicate LiesAt(p: Place, base: nat, at: nat, blockSize: nat)
    requires blockSize > 0
  {
    p.block == base + at / blockSize && p.offset == at % blockSize
  }

  /** Inode number group * inodesPerGroup + index + 1 lies `index` inodes into the table of its
      group. */
  lemma InodeNumbered(g: Geometry, group: nat, index: nat, i: nat, at: nat)
    requires Arranged(g) && group < |g.tables| && index < g.inodesPerGroup
    requires i == group * g.inodesPerGroup + index + 1 && at == index * g.inodeSize
    ensures Locate(g, i).Some? && LiesAt(Locate(g, i).value, g.tables[group], at, g.blockSize)
  {
    hide EvenSlots, Mounted, TableBlocks;
    GroupAndIndex(group, index, g.inodesPerGroup);
    BelowTable(g, index);
    assert g.tables[group] + TableBlocks(g) <= UINT64;
    SmallWord(g.tables[group] + Row(at, g.blockSize));
  }

  lemma GroupAndIndex(group: nat, index: nat, n: nat)
    requires index < n
    ensures group * n >= 0 && Row(group * n + index, n) == group && Column(group * n + index, n) == index
  {
    ExactQuotient(group, n, index);
  }

  predicate Overlap(p: Place, q: Place, size: nat) {
    p.block == q.block && p.offset < q.offset + size && q.offset < p.offset + size
  }

  lemma SameSlot(i: nat, j: nat, n: nat, m: nat)
    requires n > 0 && m > 0 && Row(i, n) == Row(j, n)
    requires Row(Column(i, n), m) == Row(Column(j, n), m) && Column(Column(i, n), m) == Column(Column(j, n), m)
    ensures i == j
  {
    Recompose(i, n);
    Recompose(j, n);
    Recompose(Column(i, n), m);
    Recompose(Column(j, n), m);
    hide Row, Column;
  }

  /** Different inodes have disjoint places, through group, index, block and offset. */
  lemma InodesApart(g: Geometry, i: nat, j: nat)
    requires Arranged(g) && i != j && Locate(g, i).Some? && Locate(g, j).Some?
    ensures !Overlap(Locate(g, i).value, Locate(g, j).value, g.inodeSize)
  {
    hide Locate, TableBlocks, Mounted, EvenSlots, Row, Column, PerBlock;
    PlaceOf(g, i);
    PlaceOf(g, j);
    var m := PerBlock(g);
    var gi, gj := Row(i - 1, g.inodesPerGroup), Row(j - 1, g.inodesPerGroup);
    var xi, xj := Column(i - 1, g.inodesPerGroup), Column(j - 1, g.inodesPerGroup);
    if gi != gj {
      assert TablesApart(g, if gi < gj then gi else gj, if gi < gj then gj else gi);
    } else if Row(xi, m) == Row(xj, m) {
      if Column(xi, m) == Column(xj, m) {
        SameSlot(i - 1, j - 1, g.inodesPerGroup, m);
      } else if Column(xi, m) < Column(xj, m) {
        Next(Column(xi, m), Column(xj, m), g.inodeSize);
      } else {
        Next(Column(xj, m), Column(xi, m), g.inodeSize);
      }
    }
  }

  /** The source copies sizeof(ext4_inode_t) bytes whatever the inode size on disk: the next
      inode of the same block survives a write if and only if inodes are at least that large. */
  lemma NeighbourKeptIff(blockSize: nat, inodeSize: nat, offset: nat)
    requires inodeSize > 0 && offset + inodeSize + INODE_BYTES <= blockSize
    ensures (forall d: Bytes, x: Bytes :: |d| == blockSize && |x| == INODE_BYTES ==>
              NeighbourSame(d, x, offset, inodeSize)) <==> inodeSize >= INODE_BYTES
  {
    var next := offset + inodeSize;
    if inodeSize >= INODE_BYTES {
      forall d: Bytes, x: Bytes | |d| == blockSize && |x| == INODE_BYTES
        ensures NeighbourSame(d, x, offset, inodeSize)
      {
        SpliceReads(d, offset, x, next, INODE_BYTES);
      }
    } else {
      var d: Bytes, x: Bytes := seq(blockSize, _ => 0), seq(INODE_BYTES, _ => 1);
      assert Splice(d, offset, x)[next] == 1 && d[next] == 0;
      assert Splice(d, offset, x)[next..next + INODE_BYTES][0] == 1 && d[next..next + INODE_BYTES][0] == 0;
      assert !NeighbourSame(d, x, offset, inodeSize);
    }
  }

  ghost predicate NeighbourSame(d: Bytes, x: Bytes, offset: nat, inodeSize: nat)
    requires |x| == INODE_BYTES && offset + inodeSize + INODE_BYTES <= |d|
  {
    var next := offset + inodeSize;
    Splice(d, offset, x)[next..next + INODE_BYTES] == d[next..next + INODE_BYTES]
  }

  // ----- reading and writing inodes

  ghost predicate Ready(g: Geometry, s: Fs) {
    Arranged(g) && Inv(g, s)
  }

  /** `read_inode`: allocate a block, read it, copy the inode out. */
  function ReadInode(g: Geometry, ok: Outcome, s: Fs, i: nat): (r: (Fs, Option<Bytes>))
    requires Ready(g, s)
  {
    var p := Locate(g, i);
    if p.None? then (s, None) else
    var s1 := s.(clock := s.clock + 1);
    if !ok(s.clock) then (s1, None) else
    var (s2, d) := ReadBlock(g, ok, s1, p.value.block);
    if d.None? then (s2, None) else
    ReadSize(g, ok, s1, p.value.block);
    (s2, Some(InodeIn(g, d.value, i)))
  }

  /** `write_inode`: read the block, copy the inode in, write the block back. */
  function WriteInode(g: Geometry, ok: Outcome, s: Fs, i: nat, x: Bytes): (r: (Fs, bool))
    requires Ready(g, s) && |x| == INODE_BYTES
  {
    var p := Locate(g, i);
    if p.None? then (s, false) else
    var s1 := s.(clock := s.clock + 1);
    if !ok(s.clock) then (s1, false) else
    var (s2, d) := ReadBlock(g, ok, s1, p.value.block);
    if d.None? then (s2, false) else
    ReadSize(g, ok, s1, p.value.block);
    PlaceOf(g, i);
    WriteBlock(g, ok, s2, p.value.block, Splice(d.value, p.value.offset, x))
  }

  lemma ReadSize(g: Geometry, ok: Outcome, s: Fs, b: nat)
    requires Inv(g, s)
    ensures var (t, d) := ReadBlock(g, ok, s, b);
            Inv(g, t) && (d.Some? ==> b < g.blockCount && |d.value| == g.blockSize)
  {
    var q: Blocks := seq(g.blockCount, c requires 0 <= c < g.blockCount =>
      {DiskBlock(g, s.disk, c)} + {s.buffer});
    assert Faithful(g, s, q);
    ReadKeeps(g, ok, s, q, b);
    hide ReadBlock, Mounted, DiskBlock;
  }

  /** The inode inside the bytes of its block. */
  function InodeIn(g: Geometry, d: Bytes, i: nat): (x: Bytes)
    requires Arranged(g) && |d| == g.blockSize && Locate(g, i).Some?
    ensures |x| == INODE_BYTES
  {
    PlaceOf(g, i);
    var o := Locate(g, i).value.offset;
    d[o..o + INODE_BYTES]
  }

  /** The inode the volume shows: nothing for a number outside the tables or the volume. */
  function InodeAt(g: Geometry, s: Fs, i: nat): Option<Bytes>
    requires Ready(g, s)
  {
    var p := Locate(g, i);
    if p.None? || p.value.block >= g.blockCount then None
    else Some(InodeIn(g, View(g, s, p.value.block), i))
  }

  lemma InodeSpliced(g: Geometry, d: Bytes, i: nat, x: Bytes, j: nat)
    requires Arranged(g) && |d| == g.blockSize && |x| == INODE_BYTES
    requires Locate(g, i).Some? && Locate(g, j).Some? && Locate(g, i).value.block == Locate(g, j).value.block
    ensures Locate(g, i).value.offset + INODE_BYTES <= |d|
    ensures InodeIn(g, Splice(d, Locate(g, i).value.offset, x), j) == if i == j then x else InodeIn(g, d, j)
  {
    PlaceOf(g, i);
    PlaceOf(g, j);
    if i != j {
      InodesApart(g, i, j);
    }
    hide Locate, TablesApart, TableBlocks, Mounted, EvenSlots, DiskBlock;
    SpliceReads(d, Locate(g, i).value.offset, x, Locate(g, j).value.offset, INODE_BYTES);
  }

  lemma SameViewsSameInode(g: Geometry, s: Fs, t: Fs, j: nat)
    requires Ready(g, s) && Ready(g, t) && SameViews(g, s, t)
    ensures InodeAt(g, t, j) == InodeAt(g, s, j)
  {
    hide Locate, View, InodeIn, TablesApart, TableBlocks, Mounted, EvenSlots, DiskBlock;
    var p := Locate(g, j);
    if p.Some? && p.value.block < g.blockCount {
      assert View(g, t, p.value.block) == View(g, s, p.value.block);
    }
  }

  /** Reading an inode gives what the volume shows and changes nothing it shows. */
  lemma ReadInodeShows(g: Geometry, ok: Outcome, s: Fs, i: nat)
    requires Ready(g, s)
    ensures var (t, x) := ReadInode(g, ok, s, i);
            && Ready(g, t) && SameViews(g, s, t) && (Settled(g, s) ==> Settled(g, t)) && t.clock >= s.clock
            && (x.Some? ==> x == InodeAt(g, s, i))
  {
    hide Locate, ReadBlock, InodeIn, Settled, TablesApart, TableBlocks, Mounted, EvenSlots, DiskBlock;
    var p := Locate(g, i);
    ClockShows(g, s);
    if p.Some? && ok(s.clock) {
      var s1 := s.(clock := s.clock + 1);
      ReadShows(g, ok, s1, p.value.block);
      var d := ReadBlock(g, ok, s1, p.value.block).1;
      if d.Some? {
        assert View(g, s1, p.value.block) == View(g, s, p.value.block);
        assert d.value == View(g, s, p.value.block);
        assert ReadInode(g, ok, s, i).1 == Some(InodeIn(g, d.value, i));
      }
    }
  }

  /** After the block was read it is the cached one, so writing it back changes no other. */
  lemma RewriteShows(g: Geometry, ok: Outcome, s: Fs, b: nat, data: Bytes)
    requires Inv(g, s) && s.cached == b && b < g.blockCount && |data| == g.blockSize
    ensures var (t, w) := WriteBlock(g, ok, s, b, data);
            && Inv(g, t) && (w ==> Settled(g, t))
            && (forall c: nat :: c < g.blockCount ==> View(g, t, c) == if c == b then data else View(g, s, c))
            && (!w ==> forall c: nat :: c < g.blockCount ==> DiskBlock(g, t.disk, c) == DiskBlock(g, s.disk, c))
  {
    if WriteBlock(g, ok, s, b, data).1 {
      WriteShows(g, ok, s, b, data);
    } else {
      FailedWriteShows(g, ok, s, b, data);
    }
    hide WriteBlock, Mounted, DiskBlock;
  }

  /** Whether it succeeds or fails at its last step, a `write_inode` that has read its block
      shows the new inode there and every other inode as before. */
  lemma WriteInodeReaches(g: Geometry, ok: Outcome, s: Fs, i: nat, x: Bytes)
    requires Ready(g, s) && |x| == INODE_BYTES && Locate(g, i).Some? && ok(s.clock)
    requires ReadBlock(g, ok, s.(clock := s.clock + 1), Locate(g, i).value.block).1.Some?
    ensures var (t, w) := WriteInode(g, ok, s, i, x);
            && Ready(g, t) && (w ==> Settled(g, t))
            && forall j: nat :: InodeAt(g, t, j) == if j == i then Some(x) else InodeAt(g, s, j)
  {
    hide Locate, ReadBlock, WriteBlock, InodeIn, View, Splice, Settled, TablesApart, TableBlocks, Mounted,
         EvenSlots, DiskBlock;
    var t := WriteInode(g, ok, s, i, x).0;
    var p := Locate(g, i).value;
    var s1 := s.(clock := s.clock + 1);
    ClockShows(g, s);
    ReadShows(g, ok, s1, p.block);
    var (s2, d) := ReadBlock(g, ok, s1, p.block);
    PlaceOf(g, i);
    RewriteShows(g, ok, s2, p.block, Splice(d.value, p.offset, x));
    hide WriteInode;
    forall c: nat | c < g.blockCount
      ensures View(g, t, c) == if c == p.block then Splice(View(g, s, c), p.offset, x) else View(g, s, c)
    {
      assert View(g, s2, c) == View(g, s1, c) == View(g, s, c);
    }
    forall j: nat
      ensures InodeAt(g, t, j) == if j == i then Some(x) else InodeAt(g, s, j)
    {
      InodeChanges(g, s, t, i, x, j);
    }
  }

  /** Writing an inode changes that inode and no other. */
  lemma WriteInodeShows(g: Geometry, ok: Outcome, s: Fs, i: nat, x: Bytes)
    requires Ready(g, s) && |x| == INODE_BYTES && WriteInode(g, ok, s, i, x).1
    ensures var t := WriteInode(g, ok, s, i, x).0;
            && Ready(g, t) && Settled(g, t)
            && forall j: nat :: InodeAt(g, t, j) == if j == i then Some(x) else InodeAt(g, s, j)
  {
    hide Locate, ReadBlock, WriteBlock, InodeAt, TablesApart, TableBlocks, Mounted, EvenSlots, DiskBlock;
    WriteInodeReaches(g, ok, s, i, x);
  }

  lemma InodeChanges(g: Geometry, s: Fs, t: Fs, i: nat, x: Bytes, j: nat)
    requires Ready(g, s) && Ready(g, t) && |x| == INODE_BYTES && Locate(g, i).Some?
    requires var p := Locate(g, i).value;
             && p.block < g.blockCount && p.offset + INODE_BYTES <= g.blockSize
             && forall c: nat :: c < g.blockCount ==>
                  View(g, t, c) == if c == p.block then Splice(View(g, s, c), p.offset, x) else View(g, s, c)
    ensures InodeAt(g, t, j) == if j == i then Some(x) else InodeAt(g, s, j)
  {
    hide Locate, InodeIn, View, Splice, TablesApart, TableBlocks, Mounted, EvenSlots, DiskBlock;
    var r := Locate(g, j);
    if r.Some? && r.value.block < g.blockCount && r.value.block == Locate(g, i).value.block {
      InodeSpliced(g, View(g, s, r.value.block), i, x, j);
    }
  }

  /** Inode `j` is there, both as shown and on the device. */
  ghost predicate Holds(g: Geometry, t: Fs, j: nat, x: Bytes)
    requires Ready(g, t)
  {
    var p := Locate(g, j);
    && p.Some? && p.value.block < g.blockCount
    && InodeIn(g, View(g, t, p.value.block), j) == x && InodeIn(g, DiskBlock(g, t.disk, p.value.block), j) == x
  }

  /** Even a `write_inode` that fails, wherever it fails, spares every other inode: as shown
      always, and on the device when nothing was waiting to be written back. */
  lemma WriteInodeSparesOthers(g: Geometry, ok: Outcome, s: Fs, i: nat, x: Bytes, j: nat)
    requires Ready(g, s) && |x| == INODE_BYTES && j != i && InodeAt(g, s, j).Some?
    ensures var t := WriteInode(g, ok, s, i, x).0;
            && Ready(g, t) && InodeAt(g, t, j) == InodeAt(g, s, j)
            && (Settled(g, s) ==> Holds(g, t, j, InodeAt(g, s, j).value))
  {
    hide Locate, ReadBlock, WriteBlock, InodeIn, Splice, TablesApart, TableBlocks, Mounted, EvenSlots, DiskBlock;
    ClockShows(g, s);
    var s1 := s.(clock := s.clock + 1);
    var p := Locate(g, i);
    var t := WriteInode(g, ok, s, i, x).0;
    if p.Some? && ok(s.clock) {
      var b := p.value.block;
      ReadShows(g, ok, s1, b);
      var (s2, d) := ReadBlock(g, ok, s1, b);
      if d.Some? {
        WriteInodeReaches(g, ok, s, i, x);
        PlaceOf(g, i);
        var e := Splice(d.value, p.value.offset, x);
        RewriteShows(g, ok, s2, b, e);
        var r := Locate(g, j).value.block;
        assert View(g, s2, r) == View(g, s1, r) == View(g, s, r);
      } else {
        SameViewsSameInode(g, s1, s2, j);
        SameViewsSameInode(g, s, s1, j);
      }
    } else if p.Some? {
      SameViewsSameInode(g, s, s1, j);
    }
  }

  lemma ClockShows(g: Geometry, s: Fs)
    requires Inv(g, s)
    ensures var t := s.(clock := s.clock + 1);
            Inv(g, t) && (Settled(g, s) <==> Settled(g, t)) && SameViews(g, s, t)
  {
  }

  /** `write_inode` then `read_inode`: the written inode comes back, every other is as before. */
  lemma WriteThenRead(g: Geometry, ok: Outcome, s: Fs, i: nat, x: Bytes, j: nat)
    requires Ready(g, s) && |x| == INODE_BYTES && WriteInode(g, ok, s, i, x).1
    ensures var t := WriteInode(g, ok, s, i, x).0;
            && Ready(g, t)
            && var y := ReadInode(g, ok, t, j).1;
               y.Some? ==> y == if j == i then Some(x) else InodeAt(g, s, j)
  {
    hide Settled, WriteInode, ReadInode, InodeAt, Inv, Arranged;
    WriteInodeShows(g, ok, s, i, x);
    ReadInodeShows(g, ok, WriteInode(g, ok, s, i, x).0, j);
  }

  // ----- when reading and writing inodes succeeds

  /** The inode's number is in range and its block on the volume. */
  ghost predicate Stored(g: Geometry, i: nat)
    requires g.blockSize > 0 && g.inodesPerGroup > 0
  {
    1 <= i <= |g.tables| * g.inodesPerGroup && (LocateIff(g, i); Locate(g, i).value.block < g.blockCount)
  }

  /** `read_inode` succeeds if and only if the inode is stored on the volume and the allocation
      and the device operations of reading its block do. */
  lemma ReadInodeSucceedsIff(g: Geometry, ok: Outcome, s: Fs, i: nat)
    requires Ready(g, s)
    ensures ReadInode(g, ok, s, i).1.Some?
            <==> Stored(g, i) && AllOk(ok, s.clock, 1 + ReadOps(s, Locate(g, i).value.block))
  {
    LocateIff(g, i);
    hide Locate, ReadBlock, InodeIn, TablesApart, TableBlocks, Mounted, EvenSlots, DiskBlock, ReadOps, AllOk;
    if Locate(g, i).Some? {
      var s1 := s.(clock := s.clock + 1);
      ReadSucceedsIff(g, ok, s1, Locate(g, i).value.block);
      FirstThen(ok, s.clock, ReadOps(s, Locate(g, i).value.block));
      assert ReadOps(s1, Locate(g, i).value.block) == ReadOps(s, Locate(g, i).value.block) by {
        SameOps(s, Locate(g, i).value.block);
      }
    }
  }

  lemma SameOps(s: Fs, b: nat)
    ensures ReadOps(s.(clock := s.clock + 1), b) == ReadOps(s, b)
  {
  }

  lemma FirstThen(ok: Outcome, from: nat, n: nat)
    ensures AllOk(ok, from, 1 + n) <==> ok(from) && AllOk(ok, from + 1, n)
  {
  }

  lemma ThenLast(ok: Outcome, from: nat, n: nat)
    ensures AllOk(ok, from, n + 1) <==> AllOk(ok, from, n) && ok(from + n)
  {
  }

  /** `write_inode` succeeds if and only if the inode is stored on the volume and the allocation,
      the device operations of reading its block and the one of writing it do. */
  lemma WriteInodeSucceedsIff(g: Geometry, ok: Outcome, s: Fs, i: nat, x: Bytes)
    requires Ready(g, s) && |x| == INODE_BYTES
    ensures WriteInode(g, ok, s, i, x).1
            <==> Stored(g, i) && AllOk(ok, s.clock, 2 + ReadOps(s, Locate(g, i).value.block))
  {
    LocateIff(g, i);
    hide Locate, ReadBlock, WriteBlock, InodeIn, View, Splice, TablesApart, TableBlocks, Mounted, EvenSlots,
         DiskBlock, ReadOps, AllOk;
    if Locate(g, i).Some? {
      var p := Locate(g, i).value;
      var s1 := s.(clock := s.clock + 1);
      var n := ReadOps(s, p.block);
      SameOps(s, p.block);
      ReadSucceedsIff(g, ok, s1, p.block);
      FirstThen(ok, s.clock, n);
      ThenLast(ok, s.clock, 1 + n);
      var (s2, d) := ReadBlock(g, ok, s1, p.block);
      if ok(s.clock) && d.Some? {
        ReadSize(g, ok, s1, p.block);
        PlaceOf(g, i);
        WriteSucceedsIff(g, ok, s2, p.block, Splice(d.value, p.offset, x));
      }
    }
  }

  /** The device then holds the inode, and it is shown. */
  lemma WriteInodeHolds(g: Geometry, ok: Outcome, s: Fs, i: nat, x: Bytes)
    requires Ready(g, s) && |x| == INODE_BYTES && WriteInode(g, ok, s, i, x).1
    ensures var t := WriteInode(g, ok, s, i, x).0; Ready(g, t) && Holds(g, t, i, x)
  {
    hide Locate, WriteInode, InodeIn, TablesApart, TableBlocks, Mounted, EvenSlots, DiskBlock;
    WriteInodeShows(g, ok, s, i, x);
    var t := WriteInode(g, ok, s, i, x).0;
    assert InodeAt(g, t, i) == Some(x);
  }

  /** Every inode table lies on the volume. */
  ghost predicate TablesInside(g: Geometry)
    requires g.blockSize > 0
  {
    forall k :: 0 <= k < |g.tables| ==> g.tables[k] + TableBlocks(g) <= g.blockCount
  }

  lemma StoredInside(g: Geometry, i: nat)
    requires Arranged(g) && TablesInside(g)
    ensures Stored(g, i) <==> 1 <= i <= |g.tables| * g.inodesPerGroup
  {
    LocateIff(g, i);
    if Locate(g, i).Some? {
      PlaceOf(g, i);
      hide Locate, EvenSlots, Mounted, TableBlocks, PerBlock, Row, Column, TablesApart;
      var group := Row(i - 1, g.inodesPerGroup);
      assert g.tables[group] + TableBlocks(g) <= g.blockCount;
    }
  }

  /** On a volume that holds its tables, while everything succeeds, every inode number from 1 to
      the last can be read and written, from any state of the cache. */
  lemma EveryInodeWorks(g: Geometry, ok: Outcome, s: Fs, i: nat, x: Bytes)
    requires Ready(g, s) && TablesInside(g) && |x| == INODE_BYTES && AllOk(ok, s.clock, 4)
    requires 1 <= i <= |g.tables| * g.inodesPerGroup
    ensures ReadInode(g, ok, s, i).1.Some? && ReadInode(g, ok, s, i).1 == InodeAt(g, s, i)
    ensures WriteInode(g, ok, s, i, x).1
  {
    hide Locate, ReadInode, WriteInode, InodeAt, TablesApart, TableBlocks, Mounted, EvenSlots, DiskBlock;
    StoredInside(g, i);
    ReadInodeSucceedsIff(g, ok, s, i);
    WriteInodeSucceedsIff(g, ok, s, i, x);
    ReadInodeShows(g, ok, s, i);
  }

  /** What is read for inode `index` of a group are the bytes of the structure from byte
      index * inodeSize of the group's table on. */
  lemma ReadsTableBytes(g: Geometry, ok: Outcome, s: Fs, group: nat, index: nat, i: nat, at: nat)
    requires Ready(g, s) && ReadInode(g, ok, s, i).1.Some? && group < |g.tables| && index < g.inodesPerGroup
    requires i == group * g.inodesPerGroup + index + 1 && at == index * g.inodeSize
    ensures Locate(g, i).Some?
    ensures var p, x := Locate(g, i).value, ReadInode(g, ok, s, i).1.value;
            && LiesAt(p, g.tables[group], at, g.blockSize) && p.block < g.blockCount
            && |x| == 160 && p.offset + 160 <= g.blockSize
            && forall k :: 0 <= k < 160 ==> x[k] == View(g, s, p.block)[p.offset + k]
  {
    hide Locate, ReadInode, LiesAt, View, TablesApart, TableBlocks, Mounted, EvenSlots, DiskBlock;
    InodeNumbered(g, group, index, i, at);
    ReadInodeShows(g, ok, s, i);
    PlaceOf(g, i);
  }
}
