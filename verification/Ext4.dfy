/** The driver's state changed in place: every operation is the step proved in the models. */
module Ext4 {
  import opened Options
  import opened BlockCache
  import opened CacheLaws
  import opened InodeTable
  import opened Paths
  import opened Directories

  /** A mounted volume. `ok` and `clock` decide how each device operation and each allocation
      turns out; `disk` is the device itself. */
  class Volume {
    const g: Geometry
    const ok: Outcome
    const blockBuffer: array<byte>
    var disk: Bytes
    var cached: nat
    var dirty: bool
    var clock: nat

    ghost predicate Valid()
      reads this, blockBuffer
    {
      Ready(g, State())
    }

    ghost function State(): Fs
      reads this, blockBuffer
    {
      Fs(disk, blockBuffer[..], cached, dirty, clock)
    }

    /** The state after `ext4_mount`: an invalid cached block. */
    constructor (geometry: Geometry, outcome: Outcome, device: Bytes)
      requires Arranged(geometry) && geometry.blockCount * geometry.blockSize <= |device|
      requires geometry.blockCount <= NO_BLOCK
      ensures Valid() && Settled(g, State()) && fresh(blockBuffer) && g == geometry && ok == outcome
      ensures disk == device && cached == NO_BLOCK && !dirty
      ensures forall b: nat :: b < g.blockCount ==> View(g, State(), b) == DiskBlock(g, device, b)
    {
      g := geometry;
      ok := outcome;
      blockBuffer := new byte[geometry.blockSize](_ => 0);
      disk := device;
      cached := NO_BLOCK;
      dirty := false;
      clock := 0;
    }

    /** One device operation or allocation. */
    method Attempt() returns (r: bool)
      modifies `clock
      ensures r == ok(old(clock)) && clock == old(clock) + 1
    {
      r := ok(clock);
      clock := clock + 1;
    }

    /** `write_blocks` for one block. */
    method WriteDevice(block: nat, data: array<byte>) returns (r: bool)
      requires Mounted(g) && block < g.blockCount && g.blockCount * g.blockSize <= |disk| && data.Length == g.blockSize
      modifies `disk, `clock
      ensures (State(), r) == WriteBlocks(g, ok, old(State()), block, old(data[..]))
    {
      SectorsAreBlock(g, block);
      Next(block, g.blockCount, g.blockSize);
      hide Mounted;
      var start, count := FirstSector(g, block), SectorCount(g);
      r := Attempt();
      assert data[..count * g.sectorSize] == data[..];
      if r {
        disk := Splice(disk, start * g.sectorSize, data[..count * g.sectorSize]);
      }
    }

    /** `read_blocks` for one block. */
    method ReadDevice(block: nat, data: array<byte>) returns (r: bool)
      requires Mounted(g) && block < g.blockCount && g.blockCount * g.blockSize <= |disk|
      requires data.Length == g.blockSize && data != blockBuffer
      modifies `clock, data
      ensures State() == old(State()).(clock := old(clock) + 1) && r == ok(old(clock))
      ensures r ==> data[..] == DeviceBytes(g, disk, block)
    {
      SectorsAreBlock(g, block);
      Next(block, g.blockCount, g.blockSize);
      hide Mounted;
      var start, count := FirstSector(g, block), SectorCount(g);
      r := Attempt();
      if r {
        var from := start * g.sectorSize;
        var bytes := disk[from..from + count * g.sectorSize];
        Copy(data, bytes);
      }
    }

    /** `memcpy` over a whole buffer. */
    static method Copy(dst: array<byte>, src: Bytes)
      requires |src| == dst.Length
      modifies dst
      ensures dst[..] == src
    {
      forall k | 0 <= k < dst.Length {
        dst[k] := src[k];
      }
    }

    // ----- the block cache

    method ReadBlock(block: nat, buffer: array<byte>) returns (r: bool)
      requires Valid() && buffer.Length == g.blockSize && buffer != blockBuffer
      modifies this, blockBuffer, buffer
      ensures Valid()
      ensures var (s, d) := BlockCache.ReadBlock(g, ok, old(State()), block);
              State() == s && r == d.Some? && (r ==> buffer[..] == d.value)
    {
      ReadSize(g, ok, State(), block);
      hide Mounted, DiskBlock, WriteBlocks, DeviceBytes, EvenSlots, TablesApart, TableBlocks;
      if block >= g.blockCount {
        return false;
      }
      if block == cached {
        Copy(buffer, blockBuffer[..]);
        return true;
      }
      if dirty {
        var w := WriteDevice(cached, blockBuffer);
        if !w {
          return false;
        }
        dirty := false;
      }
      var d := ReadDevice(block, buffer);
      if !d {
        dirty := false;
        return false;
      }
      Copy(blockBuffer, buffer[..]);
      cached := block;
      return true;
    }

    /** Write-through: the device's answer is the result, and the buffer stays dirty. */
    method WriteBlock(block: nat, buffer: array<byte>) returns (r: bool)
      requires Valid() && buffer.Length == g.blockSize && buffer != blockBuffer
      modifies this, blockBuffer
      ensures Valid() && (State(), r) == BlockCache.WriteBlock(g, ok, old(State()), block, old(buffer[..]))
    {
      WriteValid(g, ok, State(), block, buffer[..]);
      hide Mounted, DiskBlock, WriteBlocks, EvenSlots, TablesApart, TableBlocks;
      if block >= g.blockCount {
        return false;
      }
      Copy(blockBuffer, buffer[..]);
      cached := block;
      dirty := true;
      r := WriteDevice(block, buffer);
    }

    method FlushBlocks() returns (r: bool)
      requires Valid()
      modifies this
      ensures Valid() && (State(), r) == Flush(g, ok, old(State()))
    {
      FlushValid(g, ok, State());
      hide Mounted, DiskBlock, WriteBlocks, EvenSlots, TablesApart, TableBlocks;
      if dirty {
        var w := WriteDevice(cached, blockBuffer);
        if !w {
          return false;
        }
        dirty := false;
      }
      dirty := false;
      r := Attempt();
    }

    // ----- inodes

    method ReadInode(i: nat) returns (r: bool, inode: Bytes)
      requires Valid()
      modifies this, blockBuffer
      ensures Valid()
      ensures var (s, x) := InodeTable.ReadInode(g, ok, old(State()), i);
              State() == s && r == x.Some? && (r ==> inode == x.value)
    {
      r, inode := false, [];
      ghost var before := State();
      ReadInodeReady(g, ok, before, i);
      hide Locate, BlockCache.ReadBlock, Mounted, DiskBlock, EvenSlots, TablesApart, TableBlocks;
      var p := Locate(g, i);
      if p.None? {
        return;
      }
      PlaceOf(g, i);
      var a := Attempt();
      if !a {
        return;
      }
      var data := new byte[g.blockSize](_ => 0);
      assert State() == before.(clock := before.clock + 1);
      var d := ReadBlock(p.value.block, data);
      if !d {
        return;
      }
      inode := data[p.value.offset..p.value.offset + INODE_BYTES];
      assert inode == data[..][p.value.offset..p.value.offset + INODE_BYTES];
      r := true;
    }

    method WriteInode(i: nat, x: Bytes) returns (r: bool)
      requires Valid() && |x| == INODE_BYTES
      modifies this, blockBuffer
      ensures Valid()
      ensures var (s, w) := InodeTable.WriteInode(g, ok, old(State()), i, x);
              State() == s && r == w
    {
      ghost var before := State();
      hide Locate, BlockCache.ReadBlock, BlockCache.WriteBlock, Splice, Mounted, DiskBlock, EvenSlots, TablesApart,
           TableBlocks;
      var p := Locate(g, i);
      if p.None? {
        return false;
      }
      PlaceOf(g, i);
      var a := Attempt();
      assert State() == before.(clock := before.clock + 1);
      if !a {
        return false;
      }
      var data := new byte[g.blockSize](_ => 0);
      ghost var s1 := State();
      var d := ReadBlock(p.value.block, data);
      assert State() == BlockCache.ReadBlock(g, ok, s1, p.value.block).0;
      if !d {
        assert InodeTable.WriteInode(g, ok, before, i, x) == (State(), false);
        return false;
      }
      ghost var bytes := data[..];
      forall k | 0 <= k < INODE_BYTES {
        data[p.value.offset + k] := x[k];
      }
      SpliceIs(bytes, p.value.offset, x, data[..]);
      r := WriteBlock(p.value.block, data);
    }

    // ----- directories

    /** The entry scan over one block. */
    method ScanBlock(data: array<byte>, name: Path) returns (found: Option<nat>)
      requires data.Length == g.blockSize
      ensures found == ScanEntries(g.blockSize, data[..], 0, name)
    {
      found := None;
      var offset: nat := 0;
      while offset < g.blockSize
        invariant ScanEntries(g.blockSize, data[..], offset, name) == ScanEntries(g.blockSize, data[..], 0, name)
      {
        var length := U16(data[..], offset + 4);
        if length == 0 {
          break;
        }
        if Matches(data[..], offset, name) {
          found := Some(U32(data[..], offset));
          return;
        }
        offset := offset + length;
      }
    }

    /** One directory block: skipped when it cannot be read. */
    method SearchBlock(block: nat, data: array<byte>, name: Path, ghost rest: seq<nat>) returns (found: Option<nat>)
      requires Valid() && data.Length == g.blockSize && data != blockBuffer
      modifies this, blockBuffer, data
      ensures Valid()
      ensures SearchBlocks(g, ok, old(State()), [block] + rest, name)
              == if found.Some? then (State(), found) else SearchBlocks(g, ok, State(), rest, name)
    {
      hide ScanEntries, BlockCache.ReadBlock, Ready;
      ghost var before := State();
      SearchFirst(g, ok, before, block, rest, name);
      found := None;
      var r := ReadBlock(block, data);
      if r {
        found := ScanBlock(data, name);
      }
    }

    method SearchExtents(x: Bytes, data: array<byte>, name: Path) returns (found: Option<nat>)
      requires Valid() && data.Length == g.blockSize && data != blockBuffer
      modifies this, blockBuffer, data
      ensures Valid()
      ensures (State(), found) == SearchBlocks(g, ok, old(State()), ExtentBlocks(x, 0, U16(x, 42)), name)
    {
      hide SearchBlocks, Ready, U16, ExtentStart, ExtentLength;
      found := None;
      var entries := U16(x, 42);
      ghost var all := SearchBlocks(g, ok, State(), ExtentBlocks(x, 0, entries), name);
      var k := 0;
      while k < entries && found.None?
        invariant Valid() && k <= entries
        invariant all == if found.Some? then (State(), found)
                         else SearchBlocks(g, ok, State(), ExtentBlocks(x, k, entries), name)
      {
        var start, length := ExtentStart(x, k), ExtentLength(x, k);
        ghost var rest := ExtentBlocks(x, k + 1, entries);
        var j := 0;
        assert Range(start, length)[0..] == Range(start, length);
        while j < length && found.None?
          invariant Valid() && j <= length
          invariant all == if found.Some? then (State(), found)
                           else SearchBlocks(g, ok, State(), Range(start, length)[j..] + rest, name)
        {
          assert Range(start, length)[j..] + rest == [start + j] + (Range(start, length)[j + 1..] + rest);
          found := SearchBlock(start + j, data, name, Range(start, length)[j + 1..] + rest);
          j := j + 1;
        }
        assert j == length ==> Range(start, length)[j..] + rest == rest;
        k := k + 1;
      }
      if found.None? {
        NothingLeft(g, ok, State(), name);
      }
    }

    method SearchDirect(x: Bytes, data: array<byte>, name: Path) returns (found: Option<nat>)
      requires Valid() && data.Length == g.blockSize && data != blockBuffer
      modifies this, blockBuffer, data
      ensures Valid()
      ensures (State(), found) == SearchBlocks(g, ok, old(State()), DirectBlocks(x, 0), name)
    {
      hide SearchBlocks, Ready, U16, BlockWord, DirectBlocks;
      found := None;
      ghost var all := SearchBlocks(g, ok, State(), DirectBlocks(x, 0), name);
      var k := 0;
      while k < DIRECT_BLOCKS && found.None?
        invariant Valid() && k <= DIRECT_BLOCKS
        invariant all == if found.Some? then (State(), found)
                         else SearchBlocks(g, ok, State(), DirectBlocks(x, k), name)
      {
        var block := BlockWord(x, k);
        ghost var rest := DirectBlocks(x, k + 1);
        DirectStep(x, k);
        if block != 0 {
          found := SearchBlock(block, data, name, rest);
        }
        k := k + 1;
      }
      if found.None? {
        DirectEnd(x);
        NothingLeft(g, ok, State(), name);
      }
    }

    /** One path component, from inode `cur`. */
    method EnterDirectory(cur: nat, name: Path) returns (next: Option<nat>)
      requires Valid()
      modifies this, blockBuffer
      ensures Valid()
      ensures var (s, n) := Directories.EnterDirectory(g, ok, old(State()), cur, name);
              State() == s && next == n
    {
      hide SearchBlocks, Ready, InodeTable.ReadInode, U16, U32, DirectBlocks, ExtentBlocks;
      next := None;
      ghost var before := State();
      var r, x := ReadInode(cur);
      ghost var s := State();
      assert s == InodeTable.ReadInode(g, ok, before, cur).0;
      if !r || !IsDirectory(x) {
        assert Directories.EnterDirectory(g, ok, before, cur, name) == (s, None);
        return;
      }
      var a := Attempt();
      assert State() == s.(clock := s.clock + 1);
      ClockReady(g, s);
      if !a {
        return;
      }
      var data := new byte[g.blockSize](_ => 0);
      if UsesExtents(x) {
        if U16(x, 40) != EXTENT_MAGIC {
          return;
        }
        if U16(x, 46) == 0 {
          next := SearchExtents(x, data, name);
        } else {
          NothingLeft(g, ok, State(), name);
        }
      } else {
        next := SearchDirect(x, data, name);
      }
    }

    /** The component at `at`, cut to 255 bytes, and where it ends. */
    method NextComponent(path: Path, at: nat) returns (component: Path, i: nat)
      requires at <= |path|
      ensures i == at + NameEnd(path[at..]) && component == Cut(path[at..i])
    {
      component, i := [], at;
      while i < |path| && path[i] != SLASH
        invariant at <= i <= |path| && component == Cut(path[at..i])
        invariant forall k :: at <= k < i ==> path[k] != SLASH
      {
        assert path[at..i + 1] == path[at..i] + [path[i]];
        if |component| < NAME_MAX {
          component := component + [path[i]];
        }
        i := i + 1;
      }
      NameEndIs(path[at..], i - at);
    }

    /** `find_inode_by_path`: the walk over the components, from the root inode. */
    method FindInodeByPath(path: Path) returns (found: Option<nat>)
      requires Valid()
      modifies this, blockBuffer
      ensures Valid() && (State(), found) == FindInode(g, ok, old(State()), path)
    {
      hide WalkNames, Directories.EnterDirectory, Ready, Cut, NameEnd, Components;
      var cur: nat := ROOT;
      ghost var all := FindInode(g, ok, State(), path);
      if path == [SLASH] {
        RootOnly(g, ok, State());
        return Some(cur);
      }
      var i: nat := 0;
      assert path[0..] == path;
      if path != [] && path[0] == SLASH {
        SlashFirst(path);
        i := 1;
      }
      while i < |path|
        invariant Valid() && i <= |path|
        invariant all == WalkNames(g, ok, State(), cur, Components(path[i..]))
      {
        ghost var rest := path[i..];
        var component, end := NextComponent(path, i);
        assert path[i..][..end - i] == path[i..end] && path[i..][end - i..] == path[end..];
        if component == [] {
          EmptyName(rest);
          if path[end] == SLASH {
            i := end + 1;
          }
          assert path[i..] == rest[1..];
        } else {
          FirstName(rest);
          WalkOne(g, ok, State(), cur, component, Components(path[end..]));
          var next := EnterDirectory(cur, component);
          if next.None? {
            return None;
          }
          cur := next.value;
          if end < |path| && path[end] == SLASH {
            assert path[end..][1..] == path[end + 1..];
            SlashFirst(path[end..]);
            i := end + 1;
          } else {
            i := end;
          }
        }
      }
      WalkDone(g, ok, State(), cur, path[i..]);
      return Some(cur);
    }
  }

  // ----- steps of the loops

  lemma WriteValid(g: Geometry, ok: Outcome, s: Fs, b: nat, data: Bytes)
    requires Inv(g, s) && |data| == g.blockSize
    ensures Inv(g, BlockCache.WriteBlock(g, ok, s, b, data).0)
  {
    hide Mounted, DiskBlock;
  }

  lemma FlushValid(g: Geometry, ok: Outcome, s: Fs)
    requires Inv(g, s)
    ensures Inv(g, Flush(g, ok, s).0)
  {
    hide Mounted, DiskBlock;
    if s.dirty {
      WriteReaches(g, ok, s, s.cached, s.buffer, s.cached);
    }
  }

  lemma ClockReady(g: Geometry, s: Fs)
    requires Ready(g, s)
    ensures Ready(g, s.(clock := s.clock + 1))
  {
  }

  lemma SpliceIs(d: Bytes, at: nat, x: Bytes, e: Bytes)
    requires at + |x| <= |d| == |e|
    requires forall k :: 0 <= k < |x| ==> e[at + k] == x[k]
    requires forall k :: 0 <= k < |d| && !(at <= k < at + |x|) ==> e[k] == d[k]
    ensures e == Splice(d, at, x)
  {
    forall k | 0 <= k < |e|
      ensures e[k] == Splice(d, at, x)[k]
    {
      if at <= k < at + |x| {
        assert e[at + (k - at)] == x[k - at];
      }
    }
  }

  lemma SearchFirst(g: Geometry, ok: Outcome, s: Fs, block: nat, rest: seq<nat>, name: Path)
    requires Ready(g, s)
    ensures var (t, d) := BlockCache.ReadBlock(g, ok, s, block);
            && Ready(g, t)
            && var hit := if d.Some? then ScanEntries(g.blockSize, d.value, 0, name) else None;
               SearchBlocks(g, ok, s, [block] + rest, name)
               == if hit.Some? then (t, hit) else SearchBlocks(g, ok, t, rest, name)
  {
    ReadSize(g, ok, s, block);
    assert ([block] + rest)[1..] == rest;
    hide ScanEntries, BlockCache.ReadBlock;
  }

  lemma NothingLeft(g: Geometry, ok: Outcome, s: Fs, name: Path)
    requires Ready(g, s)
    ensures SearchBlocks(g, ok, s, [], name) == (s, None)
  {
  }

  lemma DirectStep(x: Bytes, k: nat)
    requires k < DIRECT_BLOCKS
    ensures DirectBlocks(x, k)
            == if BlockWord(x, k) == 0 then DirectBlocks(x, k + 1) else [BlockWord(x, k)] + DirectBlocks(x, k + 1)
  {
    hide BlockWord;
    assert [] + DirectBlocks(x, k + 1) == DirectBlocks(x, k + 1);
  }

  lemma DirectEnd(x: Bytes)
    ensures DirectBlocks(x, DIRECT_BLOCKS) == []
  {
  }

  lemma NameEndIs(p: Path, n: nat)
    requires n <= |p| && (forall i :: 0 <= i < n ==> p[i] != SLASH) && (n < |p| ==> p[n] == SLASH)
    ensures NameEnd(p) == n
  {
    var m := NameEnd(p);
  }

  lemma RootOnly(g: Geometry, ok: Outcome, s: Fs)
    requires Ready(g, s)
    ensures FindInode(g, ok, s, [SLASH]) == (s, Some(ROOT))
  {
    LeadingSlashes(1, []);
    assert Slashes(1) + [] == [SLASH];
    NoComponents();
  }

  lemma EmptyName(p: Path)
    requires p != [] && Cut(p[..NameEnd(p)]) == []
    ensures p[0] == SLASH && NameEnd(p) == 0 && Components(p) == Components(p[1..])
  {
  }

  lemma FirstName(p: Path)
    requires p != [] && Cut(p[..NameEnd(p)]) != []
    ensures Components(p) == [Cut(p[..NameEnd(p)])] + Components(p[NameEnd(p)..])
  {
  }

  lemma SlashFirst(p: Path)
    requires p != [] && p[0] == SLASH
    ensures Components(p) == Components(p[1..])
  {
  }

  lemma WalkOne(g: Geometry, ok: Outcome, s: Fs, cur: nat, name: Path, names: seq<Path>)
    requires Ready(g, s)
    ensures var (t, next) := Directories.EnterDirectory(g, ok, s, cur, name);
            WalkNames(g, ok, s, cur, [name] + names)
            == if next.None? then (t, None) else WalkNames(g, ok, t, next.value, names)
  {
    hide Directories.EnterDirectory, Ready;
    assert ([name] + names)[1..] == names;
  }

  lemma WalkDone(g: Geometry, ok: Outcome, s: Fs, cur: nat, p: Path)
    requires Ready(g, s) && p == []
    ensures WalkNames(g, ok, s, cur, Components(p)) == (s, Some(cur))
  {
  }
}
