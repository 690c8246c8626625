/** What a path means: its components, and looking one name up after the other. */
module Paths {
  import opened BlockCache

  const SLASH: byte := 47

  const NAME_MAX: nat := 255

  /** A C string: no byte of it is zero. */
  type Path = p: Bytes | forall i :: 0 <= i < |p| ==> p[i] != 0 witness []

  function NameEnd(p: Path): (n: nat)
    ensures n <= |p| && (forall i :: 0 <= i < n ==> p[i] != SLASH) && (n < |p| ==> p[n] == SLASH)
  {
    if p == [] || p[0] == SLASH then 0 else 1 + NameEnd(p[1..])
  }

  function Cut(name: Path): Path {
    if |name| > NAME_MAX then name[..NAME_MAX] else name
  }

  /** The non-empty components, each cut to 255 bytes. */
  function Components(p: Path): seq<Path>
    decreases |p|
  {
    if p == [] then []
    else if p[0] == SLASH then Components(p[1..])
    else [Cut(p[..NameEnd(p)])] + Components(p[NameEnd(p)..])
  }

  // ----- slashes

  lemma {:induction false} NameEndJoin(a: Path, b: Path)
    ensures NameEnd(a + [SLASH] + b) == NameEnd(a)
  {
    if a == [] || a[0] == SLASH {
    } else {
      assert (a + [SLASH] + b)[1..] == a[1..] + [SLASH] + b;
      NameEndJoin(a[1..], b);
    }
  }

  /** A slash splits the components of a path. */
  lemma {:induction false} ComponentsSplit(a: Path, b: Path)
    ensures Components(a + [SLASH] + b) == Components(a) + Components(b)
    decreases |a|
  {
    var p := a + [SLASH] + b;
    if a == [] {
      assert p[1..] == b;
    } else if a[0] == SLASH {
      assert p[1..] == a[1..] + [SLASH] + b;
      ComponentsSplit(a[1..], b);
    } else {
      var n := NameEnd(a);
      NameEndJoin(a, b);
      assert p[..n] == a[..n] && p[n..] == a[n..] + [SLASH] + b;
      ComponentsSplit(a[n..], b);
      assert [Cut(a[..n])] + (Components(a[n..]) + Components(b)) == ([Cut(a[..n])] + Components(a[n..])) + Components(b);
    }
  }

  function Slashes(k: nat): (p: Path)
    ensures |p| == k
  {
    seq(k, _ => SLASH)
  }

  lemma {:induction false} LeadingSlashes(k: nat, b: Path)
    ensures Components(Slashes(k) + b) == Components(b)
  {
    if k == 0 {
      assert Slashes(0) + b == b;
    } else {
      assert (Slashes(k) + b)[1..] == Slashes(k - 1) + b;
      LeadingSlashes(k - 1, b);
    }
  }

  /** Any number of slashes between two parts, in front or behind, changes nothing. */
  lemma RepeatedSlashes(a: Path, k: nat, b: Path)
    requires k > 0
    ensures Components(a + Slashes(k) + b) == Components(a) + Components(b)
  {
    assert a + Slashes(k) + b == a + [SLASH] + (Slashes(k - 1) + b);
    ComponentsSplit(a, Slashes(k - 1) + b);
    LeadingSlashes(k - 1, b);
  }

  lemma TrailingSlashes(a: Path, k: nat)
    ensures Components(a + Slashes(k)) == Components(a)
  {
    if k == 0 {
      assert a + Slashes(0) == a;
    } else {
      RepeatedSlashes(a, k, []);
      assert a + Slashes(k) + [] == a + Slashes(k);
    }
  }

  /** A name longer than 255 bytes is looked up by its first 255. */
  lemma LongNameIsCut(n: Path)
    requires |n| > 255 && forall i :: 0 <= i < |n| ==> n[i] != 47
    ensures Components(n) == [n[..255]]
  {
    NameAlone(n);
    assert n[..|n|] == n && n[|n|..] == [];
  }

  ghost predicate IsName(n: Path) {
    0 < |n| <= NAME_MAX && forall i :: 0 <= i < |n| ==> n[i] != SLASH
  }

  function Join(names: seq<Path>): Path {
    if names == [] then [] else [SLASH] + names[0] + Join(names[1..])
  }

  lemma {:induction false} NameAlone(n: Path)
    requires forall i :: 0 <= i < |n| ==> n[i] != SLASH
    ensures NameEnd(n) == |n|
  {
  }

  lemma OneName(n: Path)
    requires IsName(n)
    ensures Components(n) == [n]
  {
    NameAlone(n);
    assert n[..|n|] == n && n[|n|..] == [];
  }

  lemma NameFirst(n: Path, rest: Path)
    requires IsName(n) && (rest == [] || rest[0] == SLASH)
    ensures Components([SLASH] + n + rest) == [n] + Components(rest)
  {
    OneName(n);
    hide Components, NameEnd, Cut;
    assert Slashes(1) == [SLASH];
    if rest == [] {
      assert [SLASH] + n + rest == Slashes(1) + n;
      LeadingSlashes(1, n);
      assert Components([]) == [] by {
        NoComponents();
      }
    } else {
      var tail := rest[1..];
      assert rest == Slashes(1) + tail;
      assert [SLASH] + n + rest == Slashes(1) + (n + [SLASH] + tail);
      LeadingSlashes(1, n + [SLASH] + tail);
      ComponentsSplit(n, tail);
      LeadingSlashes(1, tail);
    }
  }

  lemma NoComponents()
    ensures Components([]) == []
  {
  }

  /** Splitting undoes joining: the components of a path are the names it was made of. */
  lemma {:induction false} JoinSplits(names: seq<Path>)
    requires forall i :: 0 <= i < |names| ==> IsName(names[i])
    ensures Components(Join(names)) == names
  {
    if names == [] {
      NoComponents();
    } else {
      JoinSplits(names[1..]);
      assert IsName(names[0]);
      NameFirst(names[0], Join(names[1..]));
    }
  }
}

/** Reading directories. Bytes behind the end of a buffer read as zero here. */
module Directories {
  import opened Options
  import opened BlockCache
  import opened CacheLaws
  import opened InodeTable
  import opened Paths

  const ROOT: nat := 2
  const EXTENT_MAGIC: nat := 0xF30A
  const DIRECT_BLOCKS: nat := 12

  function At(d: Bytes, i: nat): nat {
    if i < |d| then d[i] else 0
  }

  /** Little-endian fields. */
  function U16(d: Bytes, i: nat): nat {
    At(d, i) + 256 * At(d, i + 1)
  }

  function U32(d: Bytes, i: nat): nat {
    U16(d, i) + 65536 * U16(d, i + 2)
  }

  // ----- inode fields

  /** `(i_mode & 0xF000) == 0x4000`. */
  predicate IsDirectory(x: Bytes) {
    U16(x, 0) / 4096 == 4
  }

  /** `i_flags & EXT4_EXTENTS_FL`. */
  predicate UsesExtents(x: Bytes) {
    U32(x, 32) / 0x80000 % 2 == 1
  }

  function BlockWord(x: Bytes, k: nat): nat {
    U32(x, 40 + 4 * k)
  }

  function ExtentStart(x: Bytes, k: nat): nat {
    U32(x, 52 + 12 * k + 8) + UINT32 * U16(x, 52 + 12 * k + 6)
  }

  function ExtentLength(x: Bytes, k: nat): nat {
    U16(x, 52 + 12 * k + 4)
  }

  function Range(start: nat, n: nat): (r: seq<nat>)
    ensures |r| == n && forall i :: 0 <= i < n ==> r[i] == start + i
  {
    seq(n, i => start + i)
  }

  /** The blocks of extents `k` up to `n`. */
  function ExtentBlocks(x: Bytes, k: nat, n: nat): seq<nat>
    decreases n - k
  {
    if k >= n then [] else Range(ExtentStart(x, k), ExtentLength(x, k)) + ExtentBlocks(x, k + 1, n)
  }

  /** The direct blocks from the k-th on, without the holes. */
  function DirectBlocks(x: Bytes, k: nat): seq<nat>
    decreases DIRECT_BLOCKS - k
  {
    if k >= DIRECT_BLOCKS then []
    else (if BlockWord(x, k) == 0 then [] else [BlockWord(x, k)]) + DirectBlocks(x, k + 1)
  }

  /** The blocks searched, in order; nothing when the extent header is no extent header. */
  function DirectoryBlocks(x: Bytes): Option<seq<nat>> {
    if !UsesExtents(x) then Some(DirectBlocks(x, 0))
    else if U16(x, 40) != EXTENT_MAGIC then None
    else if U16(x, 46) == 0 then Some(ExtentBlocks(x, 0, U16(x, 42)))
    else Some([])
  }

  // ----- entries

  predicate NameIs(d: Bytes, at: nat, name: Path) {
    forall i :: 0 <= i < |name| ==> At(d, at + i) == name[i]
  }

  /** The entry at `off` carries `name`. */
  predicate Matches(d: Bytes, off: nat, name: Path) {
    U32(d, off) != 0 && At(d, off + 6) == |name| && NameIs(d, off + 8, name)
  }

  /** The inode of the first entry from `off` on that carries `name`. */
  function ScanEntries(size: nat, d: Bytes, off: nat, name: Path): Option<nat>
    decreases size - off
  {
    if off >= size || U16(d, off + 4) == 0 then None
    else if Matches(d, off, name) then Some(U32(d, off))
    else ScanEntries(size, d, off + U16(d, off + 4), name)
  }

  /** The entries of a block, up to the one of length zero or the block's end. */
  function EntryOffsets(size: nat, d: Bytes, off: nat): seq<nat>
    decreases size - off
  {
    if off >= size || U16(d, off + 4) == 0 then [] else [off] + EntryOffsets(size, d, off + U16(d, off + 4))
  }

  /** No entry before the k-th carries `name`. */
  ghost predicate NoneBefore(d: Bytes, es: seq<nat>, k: nat, name: Path)
    requires k <= |es|
  {
    forall m :: 0 <= m < k ==> !Matches(d, es[m], name)
  }

  lemma NoneBeforeShift(d: Bytes, off: nat, rest: seq<nat>, k: nat, name: Path)
    requires 0 < k <= |rest| + 1
    ensures NoneBefore(d, [off] + rest, k, name) <==> !Matches(d, off, name) && NoneBefore(d, rest, k - 1, name)
  {
    hide Matches;
    var es := [off] + rest;
    if NoneBefore(d, es, k, name) {
      assert !Matches(d, es[0], name);
      forall m | 0 <= m < k - 1
        ensures !Matches(d, rest[m], name)
      {
        assert es[m + 1] == rest[m];
      }
    }
  }

  /** The scan finds nothing exactly when no entry matches, and otherwise the first match. */
  lemma {:induction false} ScanIsFirstMatch(size: nat, d: Bytes, off: nat, name: Path)
    ensures var es := EntryOffsets(size, d, off);
            && (ScanEntries(size, d, off, name).None? <==> NoneBefore(d, es, |es|, name))
            && forall k: nat :: k < |es| && NoneBefore(d, es, k, name) && Matches(d, es[k], name) ==>
                 ScanEntries(size, d, off, name) == Some(U32(d, es[k]))
    decreases size - off
  {
    hide Matches, U16, U32;
    var es := EntryOffsets(size, d, off);
    if off >= size || U16(d, off + 4) == 0 {
    } else {
      var next := off + U16(d, off + 4);
      var rest := EntryOffsets(size, d, next);
      ScanIsFirstMatch(size, d, next, name);
      assert es == [off] + rest;
      forall k: nat | 0 < k <= |es|
        ensures NoneBefore(d, es, k, name) <==> !Matches(d, off, name) && NoneBefore(d, rest, k - 1, name)
      {
        NoneBeforeShift(d, off, rest, k, name);
      }
    }
  }

  // ----- the meaning of a path

  /** First match over the blocks that exist. */
  function LookUp(g: Geometry, s: Fs, blocks: seq<nat>, name: Path): Option<nat>
    requires Ready(g, s)
  {
    if blocks == [] then None else
    var hit := if blocks[0] < g.blockCount then ScanEntries(g.blockSize, View(g, s, blocks[0]), 0, name) else None;
    if hit.Some? then hit else LookUp(g, s, blocks[1..], name)
  }

  /** One component: `cur` must be an existing directory. */
  function Enter(g: Geometry, s: Fs, cur: nat, name: Path): Option<nat>
    requires Ready(g, s)
  {
    var x := InodeAt(g, s, cur);
    if x.None? || !IsDirectory(x.value) || DirectoryBlocks(x.value).None? then None
    else LookUp(g, s, DirectoryBlocks(x.value).value, name)
  }

  /** Looking the components up one after the other. */
  function Resolve(g: Geometry, s: Fs, cur: nat, names: seq<Path>): Option<nat>
    requires Ready(g, s)
    decreases |names|
  {
    if names == [] then Some(cur) else
    var next := Enter(g, s, cur, names[0]);
    if next.None? then None else Resolve(g, s, next.value, names[1..])
  }

  // ----- what the driver does, failures included

  /** A block that cannot be read is skipped. */
  function SearchBlocks(g: Geometry, ok: Outcome, s: Fs, blocks: seq<nat>, name: Path): (r: (Fs, Option<nat>))
    requires Ready(g, s)
    ensures Ready(g, r.0)
    decreases |blocks|
  {
    if blocks == [] then (s, None) else
    var (t, d) := ReadBlock(g, ok, s, blocks[0]);
    ReadSize(g, ok, s, blocks[0]);
    var hit := if d.Some? then ScanEntries(g.blockSize, d.value, 0, name) else None;
    if hit.Some? then (t, hit) else SearchBlocks(g, ok, t, blocks[1..], name)
  }

  function EnterDirectory(g: Geometry, ok: Outcome, s: Fs, cur: nat, name: Path): (r: (Fs, Option<nat>))
    requires Ready(g, s)
    ensures Ready(g, r.0)
  {
    ReadInodeReady(g, ok, s, cur);
    var (t, x) := ReadInode(g, ok, s, cur);
    if x.None? || !IsDirectory(x.value) then (t, None) else
    var u := t.(clock := t.clock + 1);
    if !ok(t.clock) || DirectoryBlocks(x.value).None? then (u, None)
    else SearchBlocks(g, ok, u, DirectoryBlocks(x.value).value, name)
  }

  function WalkNames(g: Geometry, ok: Outcome, s: Fs, cur: nat, names: seq<Path>): (r: (Fs, Option<nat>))
    requires Ready(g, s)
    ensures Ready(g, r.0)
    decreases |names|
  {
    if names == [] then (s, Some(cur)) else
    var (t, next) := EnterDirectory(g, ok, s, cur, names[0]);
    if next.None? then (t, None) else WalkNames(g, ok, t, next.value, names[1..])
  }

  lemma ReadInodeReady(g: Geometry, ok: Outcome, s: Fs, i: nat)
    requires Ready(g, s)
    ensures Ready(g, ReadInode(g, ok, s, i).0)
  {
    hide Locate, ReadBlock, TablesApart, TableBlocks, Mounted, EvenSlots, DiskBlock;
    var p := Locate(g, i);
    if p.Some? && ok(s.clock) {
      ReadSize(g, ok, s.(clock := s.clock + 1), p.value.block);
    }
  }

  // ----- the walk is the lookup

  /** From now on every device operation and every allocation succeeds. */
  ghost predicate AllSucceed(ok: Outcome, now: nat) {
    forall n :: n >= now ==> ok(n)
  }

  lemma {:induction false} SameViewsSameLookUp(g: Geometry, s: Fs, t: Fs, blocks: seq<nat>, name: Path)
    requires Ready(g, s) && Ready(g, t) && SameViews(g, s, t)
    ensures LookUp(g, t, blocks, name) == LookUp(g, s, blocks, name)
    decreases |blocks|
  {
    hide ScanEntries, View, Mounted, EvenSlots, TablesApart, TableBlocks, DiskBlock;
    if blocks == [] {
    } else {
      assert blocks[0] < g.blockCount ==> View(g, t, blocks[0]) == View(g, s, blocks[0]);
      SameViewsSameLookUp(g, s, t, blocks[1..], name);
    }
  }

  lemma {:induction false} SameViewsSameResolve(g: Geometry, s: Fs, t: Fs, cur: nat, names: seq<Path>)
    requires Ready(g, s) && Ready(g, t) && SameViews(g, s, t)
    ensures Resolve(g, t, cur, names) == Resolve(g, s, cur, names)
    decreases |names|
  {
    hide LookUp, InodeAt, IsDirectory, DirectoryBlocks, Ready, SameViews;
    if names == [] {
    } else {
      SameViewsSameInode(g, s, t, cur);
      var x := InodeAt(g, s, cur);
      if x.Some? && DirectoryBlocks(x.value).Some? {
        SameViewsSameLookUp(g, s, t, DirectoryBlocks(x.value).value, names[0]);
      }
      var next := Enter(g, s, cur, names[0]);
      if next.Some? {
        SameViewsSameResolve(g, s, t, next.value, names[1..]);
      }
    }
  }

  lemma Together(g: Geometry, s: Fs, t: Fs, u: Fs)
    requires Ready(g, s) && Ready(g, t) && Ready(g, u) && SameViews(g, s, t) && SameViews(g, t, u)
    ensures SameViews(g, s, u)
  {
    hide View, Mounted, DiskBlock, EvenSlots, TablesApart, TableBlocks;
    forall b: nat | b < g.blockCount
      ensures View(g, u, b) == View(g, s, b)
    {
      assert View(g, t, b) == View(g, s, b);
    }
  }

  /** Searching shows the same blocks afterwards; with every read succeeding it finds the
      first match. */
  lemma {:induction false} SearchIsLookUp(g: Geometry, ok: Outcome, s: Fs, blocks: seq<nat>, name: Path)
    requires Ready(g, s)
    ensures var (t, hit) := SearchBlocks(g, ok, s, blocks, name);
            && SameViews(g, s, t) && (Settled(g, s) ==> Settled(g, t)) && t.clock >= s.clock
            && (AllSucceed(ok, s.clock) ==> hit == LookUp(g, s, blocks, name))
    decreases |blocks|
  {
    hide ScanEntries, View, Mounted, EvenSlots, TablesApart, TableBlocks, DiskBlock, Settled, ReadBlock, SameViews;
    if blocks == [] {
      SameAsItself(g, s);
    } else {
      var (t, d) := ReadBlock(g, ok, s, blocks[0]);
      ReadSize(g, ok, s, blocks[0]);
      ReadShows(g, ok, s, blocks[0]);
      if AllSucceed(ok, s.clock) {
        EverythingOk(ok, s.clock, s.clock, ReadOps(s, blocks[0]));
        ReadSucceedsIff(g, ok, s, blocks[0]);
      }
      SearchIsLookUp(g, ok, t, blocks[1..], name);
      SameViewsSameLookUp(g, s, t, blocks[1..], name);
      Together(g, s, t, SearchBlocks(g, ok, t, blocks[1..], name).0);
    }
  }

  lemma SameAsItself(g: Geometry, s: Fs)
    requires Ready(g, s)
    ensures SameViews(g, s, s)
  {
  }

  lemma EverythingOk(ok: Outcome, now: nat, from: nat, n: nat)
    requires AllSucceed(ok, now) && from >= now
    ensures AllOk(ok, from, n)
  {
  }

  lemma ReadInodeSucceeds(g: Geometry, ok: Outcome, s: Fs, i: nat)
    requires Ready(g, s) && AllSucceed(ok, s.clock)
    ensures ReadInode(g, ok, s, i).1.Some? <==> InodeAt(g, s, i).Some?
  {
    hide Locate, Mounted, EvenSlots, TablesApart, TableBlocks, DiskBlock, View, ReadInode, InodeIn, AllSucceed, AllOk;
    LocateIff(g, i);
    ReadInodeSucceedsIff(g, ok, s, i);
    if Locate(g, i).Some? {
      EverythingOk(ok, s.clock, s.clock, 1 + ReadOps(s, Locate(g, i).value.block));
    }
  }

  lemma EnterIsLookUp(g: Geometry, ok: Outcome, s: Fs, cur: nat, name: Path)
    requires Ready(g, s)
    ensures var (t, next) := EnterDirectory(g, ok, s, cur, name);
            && SameViews(g, s, t) && (Settled(g, s) ==> Settled(g, t)) && t.clock >= s.clock
            && (AllSucceed(ok, s.clock) ==> next == Enter(g, s, cur, name))
  {
    hide InodeAt, IsDirectory, DirectoryBlocks, LookUp, SearchBlocks, ReadInode, View, SameViews, Settled,
         Mounted, EvenSlots, TablesApart, TableBlocks, DiskBlock;
    ReadInodeReady(g, ok, s, cur);
    ReadInodeShows(g, ok, s, cur);
    if AllSucceed(ok, s.clock) {
      ReadInodeSucceeds(g, ok, s, cur);
    }
    var (t, x) := ReadInode(g, ok, s, cur);
    ClockShows(g, t);
    var u := t.(clock := t.clock + 1);
    Together(g, s, t, u);
    if x.Some? && DirectoryBlocks(x.value).Some? {
      var blocks := DirectoryBlocks(x.value).value;
      SearchIsLookUp(g, ok, u, blocks, name);
      SameViewsSameLookUp(g, s, u, blocks, name);
      Together(g, s, u, SearchBlocks(g, ok, u, blocks, name).0);
    }
  }

  /** Walking a path changes nothing the volume shows, whatever fails; with everything
      succeeding from its start on it is the fold of first-match lookups. */
  lemma {:induction false} WalkIsResolve(g: Geometry, ok: Outcome, s: Fs, cur: nat, names: seq<Path>)
    requires Ready(g, s)
    ensures var (t, found) := WalkNames(g, ok, s, cur, names);
            && SameViews(g, s, t) && (Settled(g, s) ==> Settled(g, t)) && t.clock >= s.clock
            && (AllSucceed(ok, s.clock) ==> found == Resolve(g, s, cur, names))
    decreases |names|
  {
    hide EnterDirectory, Enter, Ready, Settled, SameViews;
    if names == [] {
      SameAsItself(g, s);
    } else {
      EnterIsLookUp(g, ok, s, cur, names[0]);
      var (t, next) := EnterDirectory(g, ok, s, cur, names[0]);
      if next.Some? {
        WalkIsResolve(g, ok, t, next.value, names[1..]);
        SameViewsSameResolve(g, s, t, next.value, names[1..]);
        Together(g, s, t, WalkNames(g, ok, t, next.value, names[1..]).0);
      }
    }
  }

  // ----- when something fails

  /** The state after reading the first `k` blocks, whether or not those reads succeeded. */
  function After(g: Geometry, ok: Outcome, s: Fs, blocks: seq<nat>, k: nat): (t: Fs)
    requires Ready(g, s) && k <= |blocks|
    ensures Ready(g, t) && SameViews(g, s, t)
    decreases k
  {
    if k == 0 then s else
    ReadShows(g, ok, s, blocks[0]);
    var t := ReadBlock(g, ok, s, blocks[0]).0;
    var u := After(g, ok, t, blocks[1..], k - 1);
    Together(g, s, t, u);
    u
  }

  /** Block `k` can be read after the ones before it, and one of its entries carries the name. */
  ghost predicate HitAt(g: Geometry, ok: Outcome, s: Fs, blocks: seq<nat>, name: Path, k: nat)
    requires Ready(g, s) && k < |blocks|
  {
    var t := After(g, ok, s, blocks, k);
    && blocks[k] < g.blockCount && AllOk(ok, t.clock, ReadOps(t, blocks[k]))
    && ScanEntries(g.blockSize, View(g, s, blocks[k]), 0, name).Some?
  }

  /** The search skips the blocks it cannot read and gives the first match of the others: some
      block hits if and only if it finds something, and that is the match in the first such. */
  lemma {:induction false} SearchSkips(g: Geometry, ok: Outcome, s: Fs, blocks: seq<nat>, name: Path) returns (k: nat)
    requires Ready(g, s)
    ensures k <= |blocks| && (forall j: nat :: j < k ==> !HitAt(g, ok, s, blocks, name, j))
    ensures k == |blocks| ==> SearchBlocks(g, ok, s, blocks, name).1 == None
    ensures k < |blocks| ==>
              HitAt(g, ok, s, blocks, name, k)
              && SearchBlocks(g, ok, s, blocks, name).1 == ScanEntries(g.blockSize, View(g, s, blocks[k]), 0, name)
    decreases |blocks|
  {
    hide ScanEntries, View, Mounted, EvenSlots, TablesApart, TableBlocks, DiskBlock, ReadBlock, AllOk, ReadOps;
    if blocks == [] {
      k := 0;
    } else {
      var b := blocks[0];
      ReadShows(g, ok, s, b);
      ReadSize(g, ok, s, b);
      ReadSucceedsIff(g, ok, s, b);
      var (t, d) := ReadBlock(g, ok, s, b);
      assert After(g, ok, s, blocks, 0) == s;
      if d.Some? && ScanEntries(g.blockSize, d.value, 0, name).Some? {
        k := 0;
      } else {
        var j := SearchSkips(g, ok, t, blocks[1..], name);
        k := j + 1;
        forall i: nat | i < |blocks| - 1
          ensures HitAt(g, ok, s, blocks, name, i + 1) <==> HitAt(g, ok, t, blocks[1..], name, i)
        {
          LaterHit(g, ok, s, blocks, name, i);
        }
        forall i: nat | i < k
          ensures !HitAt(g, ok, s, blocks, name, i)
        {
          if i > 0 {
            assert !HitAt(g, ok, t, blocks[1..], name, i - 1);
          }
        }
        if j < |blocks| - 1 && blocks[k] < g.blockCount {
          assert View(g, t, blocks[k]) == View(g, s, blocks[k]);
        }
      }
    }
  }

  lemma LaterHit(g: Geometry, ok: Outcome, s: Fs, blocks: seq<nat>, name: Path, i: nat)
    requires Ready(g, s) && i + 1 < |blocks|
    ensures Ready(g, ReadBlock(g, ok, s, blocks[0]).0)
    ensures HitAt(g, ok, s, blocks, name, i + 1) <==> HitAt(g, ok, ReadBlock(g, ok, s, blocks[0]).0, blocks[1..], name, i)
  {
    hide ScanEntries, View, Mounted, EvenSlots, TablesApart, TableBlocks, DiskBlock, ReadBlock, AllOk, ReadOps;
    ReadShows(g, ok, s, blocks[0]);
    var t := ReadBlock(g, ok, s, blocks[0]).0;
    assert After(g, ok, s, blocks, i + 1) == After(g, ok, t, blocks[1..], i);
    if blocks[i + 1] < g.blockCount {
      assert View(g, t, blocks[i + 1]) == View(g, s, blocks[i + 1]);
    }
  }

  /** A component is entered only when its directory's inode can be read and the allocations for
      it and for the directory block succeed. */
  lemma EnterNeeds(g: Geometry, ok: Outcome, s: Fs, cur: nat, name: Path)
    requires Ready(g, s) && EnterDirectory(g, ok, s, cur, name).1.Some?
    ensures Stored(g, cur) && AllOk(ok, s.clock, 2 + ReadOps(s, Locate(g, cur).value.block))
  {
    hide Mounted, EvenSlots, TablesApart, TableBlocks, DiskBlock, ReadBlock, InodeIn, SearchBlocks, IsDirectory,
         DirectoryBlocks, Locate, ReadOps;
    LocateIff(g, cur);
    ReadInodeSucceedsIff(g, ok, s, cur);
    var b := Locate(g, cur).value.block;
    ReadSucceedsIff(g, ok, s.(clock := s.clock + 1), b);
    SameOps(s, b);
    ThenLast(ok, s.clock, 1 + ReadOps(s, b));
  }

  /** `find_inode_by_path`. */
  function FindInode(g: Geometry, ok: Outcome, s: Fs, path: Path): (Fs, Option<nat>)
    requires Ready(g, s)
  {
    WalkNames(g, ok, s, ROOT, Components(path))
  }

  /** Slashes in front, between and behind never change what is found. */
  lemma SlashesDoNotMatter(g: Geometry, ok: Outcome, s: Fs, j: nat, a: Path, k: nat, b: Path, l: nat)
    requires Ready(g, s) && k > 0
    ensures FindInode(g, ok, s, Slashes(j) + (a + Slashes(k) + b + Slashes(l))) == FindInode(g, ok, s, a + [SLASH] + b)
  {
    hide Ready, WalkNames, Components;
    var p := a + Slashes(k) + b;
    LeadingSlashes(j, p + Slashes(l));
    TrailingSlashes(p, l);
    RepeatedSlashes(a, k, b);
    ComponentsSplit(a, b);
  }

  /** A path is what its directory part leads to, and its last part looked up from there. */
  lemma {:induction false} ResolveSplits(g: Geometry, s: Fs, cur: nat, xs: seq<Path>, ys: seq<Path>)
    requires Ready(g, s)
    ensures Resolve(g, s, cur, xs + ys)
            == match Resolve(g, s, cur, xs) case None => None case Some(mid) => Resolve(g, s, mid, ys)
    decreases |xs|
  {
    hide Ready, Enter;
    if xs == [] {
      assert xs + ys == ys;
    } else {
      assert (xs + ys)[1..] == xs[1..] + ys;
      var next := Enter(g, s, cur, xs[0]);
      if next.Some? {
        ResolveSplits(g, s, next.value, xs[1..], ys);
      }
    }
  }
}

/** Directory blocks as they are written: records, one after the other. */
module DirectoryLayout {
  import opened Options
  import opened BlockCache
  import opened CacheLaws
  import opened InodeTable
  import opened Paths
  import opened Directories

  /** `slack` is what the record has behind the name: padding to a multiple of four, the
      space of deleted neighbours, or the rest of the block behind its last entry. */
  datatype Entry = Entry(inode: nat, kind: byte, name: Path, slack: Bytes)

  function Size(e: Entry): nat {
    8 + |e.name| + |e.slack|
  }

  predicate Proper(e: Entry) {
    e.inode < UINT32 && |e.name| <= NAME_MAX && Size(e) < 65536
  }

  function Word16(n: nat): (b: Bytes)
    requires n < 65536
    ensures |b| == 2
  {
    [n % 256, n / 256]
  }

  function Word32(n: nat): (b: Bytes)
    requires n < UINT32
    ensures |b| == 4
  {
    Word16(n % 65536) + Word16(n / 65536)
  }

  /** An `ext4_dir_entry_t` with its name and the slack its `rec_len` covers. */
  function Encode(e: Entry): (b: Bytes)
    requires Proper(e)
    ensures |b| == Size(e)
  {
    Word32(e.inode) + Word16(Size(e)) + [|e.name|, e.kind] + e.name + e.slack
  }

  function EncodeAll(es: seq<Entry>): Bytes
    requires forall i :: 0 <= i < |es| ==> Proper(es[i])
  {
    if es == [] then [] else Encode(es[0]) + EncodeAll(es[1..])
  }

  /** The inode of the first live entry with that name. */
  function FirstNamed(es: seq<Entry>, name: Path): Option<nat> {
    if es == [] then None
    else if es[0].inode != 0 && es[0].name == name then Some(es[0].inode)
    else FirstNamed(es[1..], name)
  }

  lemma Field16(d: Bytes, off: nat, n: nat)
    requires n < 65536 && off + 2 <= |d| && d[off..off + 2] == Word16(n)
    ensures U16(d, off) == n
  {
    assert d[off] == d[off..off + 2][0] && d[off + 1] == d[off..off + 2][1];
  }

  lemma Field32(d: Bytes, off: nat, n: nat)
    requires n < UINT32 && off + 4 <= |d| && d[off..off + 4] == Word32(n)
    ensures U32(d, off) == n
  {
    hide U16, Word16;
    var w := d[off..off + 4];
    assert d[off..off + 2] == w[..2] == Word16(n % 65536);
    assert d[off + 2..off + 4] == w[2..] == Word16(n / 65536);
    Field16(d, off, n % 65536);
    Field16(d, off + 2, n / 65536);
  }

  lemma SubSlice(d: Bytes, from: nat, to: nat, i: nat, j: nat)
    requires from + i <= from + j <= to <= |d|
    ensures d[from..to][i..j] == d[from + i..from + j]
  {
    var x, y := d[from..to][i..j], d[from + i..from + j];
    assert |x| == |y|;
    assert forall k :: 0 <= k < |x| ==> x[k] == d[from + i + k] == y[k];
  }

  lemma Parts(e: Entry)
    requires Proper(e)
    ensures var b := Encode(e);
            && b[0..4] == Word32(e.inode) && b[4..6] == Word16(Size(e)) && b[6] == |e.name|
            && b[8..8 + |e.name|] == e.name
  {
    hide Word16, Word32;
  }

  /** Every field is read back from where it was put. */
  lemma EntryReadsBack(d: Bytes, off: nat, e: Entry)
    requires Proper(e) && off + Size(e) <= |d| && d[off..off + Size(e)] == Encode(e)
    ensures U32(d, off) == e.inode && U16(d, off + 4) == Size(e) && At(d, off + 6) == |e.name|
    ensures forall name: Path :: |name| == |e.name| ==> (NameIs(d, off + 8, name) <==> name == e.name)
  {
    hide U16, U32, Word16, Word32, Encode;
    var to := off + Size(e);
    Parts(e);
    SubSlice(d, off, to, 0, 4);
    SubSlice(d, off, to, 4, 6);
    SubSlice(d, off, to, 8, 8 + |e.name|);
    Field32(d, off, e.inode);
    Field16(d, off + 4, Size(e));
    assert d[off + 6] == d[off..to][6];
    forall i | 0 <= i < |e.name|
      ensures At(d, off + 8 + i) == e.name[i]
    {
      assert d[off + 8 + i] == d[off + 8..off + 8 + |e.name|][i];
    }
  }

  lemma FirstMatches(d: Bytes, off: nat, e: Entry, name: Path)
    requires Proper(e) && off + Size(e) <= |d| && d[off..off + Size(e)] == Encode(e)
    ensures Matches(d, off, name) <==> e.inode != 0 && e.name == name
    ensures U32(d, off) == e.inode && U16(d, off + 4) == Size(e)
  {
    hide U16, U32, Encode, At, NameIs;
    EntryReadsBack(d, off, e);
  }

  /** The first entry of a sequence of records, and what follows it. */
  lemma FirstPacked(d: Bytes, off: nat, es: seq<Entry>)
    requires es != [] && forall i :: 0 <= i < |es| ==> Proper(es[i])
    requires off + |EncodeAll(es)| <= |d| && d[off..off + |EncodeAll(es)|] == EncodeAll(es)
    ensures var next := off + Size(es[0]);
            && next + |EncodeAll(es[1..])| == off + |EncodeAll(es)|
            && d[off..next] == Encode(es[0]) && d[next..off + |EncodeAll(es)|] == EncodeAll(es[1..])
  {
    hide Encode;
    var n, all := Size(es[0]), EncodeAll(es);
    assert all[0..n] == Encode(es[0]) && all[n..|all|] == EncodeAll(es[1..]);
    hide EncodeAll;
    SubSlice(d, off, off + |all|, 0, n);
    SubSlice(d, off, off + |all|, n, |all|);
  }

  /** Scanning a block of records, with whatever slack they carry, finds the first live entry with the name. */
  lemma {:induction false} ScanFindsWritten(size: nat, d: Bytes, off: nat, es: seq<Entry>, name: Path)
    requires forall i :: 0 <= i < |es| ==> Proper(es[i])
    requires var end := off + |EncodeAll(es)|;
             && end <= |d| && end <= size && d[off..end] == EncodeAll(es)
             && (end == size || U16(d, end + 4) == 0)
    ensures ScanEntries(size, d, off, name) == FirstNamed(es, name)
    decreases |es|
  {
    hide U16, U32, Encode, Matches;
    if es == [] {
      assert EncodeAll(es) == [];
    } else {
      hide EncodeAll;
      FirstPacked(d, off, es);
      FirstMatches(d, off, es[0], name);
      ScanFindsWritten(size, d, off + Size(es[0]), es[1..], name);
    }
  }

  // ----- extents inside an inode

  datatype Extent = Extent(logical: nat, length: nat, start: nat)

  predicate Storable(x: Extent) {
    x.logical < UINT32 && x.length < 65536 && x.start < UINT32 * 65536
  }

  /** An `ext4_extent_t`: logical block, length, upper and lower half of the start. */
  function EncodeExtent(x: Extent): (b: Bytes)
    requires Storable(x)
    ensures |b| == 12
  {
    Word32(x.logical) + Word16(x.length) + Word16(x.start / UINT32) + Word32(x.start % UINT32)
  }

  /** The blocks of the extents, in order. */
  function AllBlocks(xs: seq<Extent>): seq<nat> {
    if xs == [] then [] else Range(xs[0].start, xs[0].length) + AllBlocks(xs[1..])
  }

  /** Extent `k` of inode `d` was stored as `x`. */
  predicate Stores(d: Bytes, k: nat, x: Extent) {
    && Storable(x) && 64 + 12 * k <= |d| && d[52 + 12 * k..64 + 12 * k] == EncodeExtent(x)
  }

  lemma ExtentReadsBack(d: Bytes, k: nat, x: Extent)
    requires Stores(d, k, x)
    ensures ExtentStart(d, k) == x.start && ExtentLength(d, k) == x.length
  {
    hide U16, U32, Word16, Word32;
    var at := 52 + 12 * k;
    var b := EncodeExtent(x);
    assert b[4..6] == Word16(x.length) && b[6..8] == Word16(x.start / UINT32) && b[8..12] == Word32(x.start % UINT32);
    hide EncodeExtent;
    SubSlice(d, at, at + 12, 4, 6);
    SubSlice(d, at, at + 12, 6, 8);
    SubSlice(d, at, at + 12, 8, 12);
    Field16(d, at + 4, x.length);
    Field16(d, at + 6, x.start / UINT32);
    Field32(d, at + 8, x.start % UINT32);
  }

  lemma {:induction false} ExtentsReadBack(d: Bytes, xs: seq<Extent>, k: nat)
    requires k <= |xs| && forall i :: 0 <= i < |xs| ==> Stores(d, i, xs[i])
    ensures ExtentBlocks(d, k, |xs|) == AllBlocks(xs[k..])
    decreases |xs| - k
  {
    hide ExtentStart, ExtentLength, Stores;
    if k == |xs| {
    } else {
      assert Stores(d, k, xs[k]);
      ExtentReadsBack(d, k, xs[k]);
      ExtentsReadBack(d, xs, k + 1);
      assert xs[k..][1..] == xs[k + 1..];
    }
  }

  /** A directory whose inode stores a leaf extent header and these extents is searched in
      exactly their blocks. */
  lemma StoredExtentsAreSearched(d: Bytes, xs: seq<Extent>)
    requires UsesExtents(d) && |xs| < 65536 && |d| >= 52
    requires d[40..42] == Word16(EXTENT_MAGIC) && d[42..44] == Word16(|xs|) && d[46..48] == Word16(0)
    requires forall i :: 0 <= i < |xs| ==> Stores(d, i, xs[i])
    ensures DirectoryBlocks(d) == Some(AllBlocks(xs))
  {
    hide U16, Word16, Stores, ExtentBlocks;
    Field16(d, 40, EXTENT_MAGIC);
    Field16(d, 42, |xs|);
    Field16(d, 46, 0);
    ExtentsReadBack(d, xs, 0);
    assert xs[0..] == xs;
  }

  // ----- an inode as it is stored

  /** The mode and the flags of inode `d`. */
  predicate StoresKind(d: Bytes, mode: nat, flags: nat) {
    mode < 65536 && flags < UINT32 && |d| == INODE_BYTES && d[0..2] == Word16(mode) && d[32..36] == Word32(flags)
  }

  /** The file type in the upper four bits of the mode is 4. */
  predicate DirectoryMode(mode: nat) {
    0x4000 <= mode < 0x5000
  }

  /** Flag 0x80000, which is bit 19. */
  predicate ExtentFlag(flags: nat) {
    flags % 0x100000 >= 0x80000
  }

  lemma StoredKind(d: Bytes, mode: nat, flags: nat)
    requires StoresKind(d, mode, flags)
    ensures IsDirectory(d) <==> DirectoryMode(mode)
    ensures UsesExtents(d) <==> ExtentFlag(flags)
  {
    hide U16, U32, Word16, Word32;
    Field16(d, 0, mode);
    Field32(d, 32, flags);
  }

  /** The block words of inode `d`. */
  predicate StoresWords(d: Bytes, words: seq<nat>) {
    |words| == 12 && |d| == INODE_BYTES && forall k :: 0 <= k < 12 ==> StoresWord(d, k, words[k])
  }

  predicate StoresWord(d: Bytes, k: nat, word: nat) {
    word < UINT32 && 44 + 4 * k <= |d| && d[40 + 4 * k..44 + 4 * k] == Word32(word)
  }

  /** The words that are not 0, in order. */
  function NonZero(words: seq<nat>): seq<nat> {
    if words == [] then [] else (if words[0] == 0 then [] else [words[0]]) + NonZero(words[1..])
  }

  lemma {:induction false} DirectReadBack(d: Bytes, words: seq<nat>, k: nat)
    requires StoresWords(d, words) && k <= 12
    ensures DirectBlocks(d, k) == NonZero(words[k..])
    decreases 12 - k
  {
    hide U32, Word32;
    if k == 12 {
    } else {
      assert StoresWord(d, k, words[k]);
      Field32(d, 40 + 4 * k, words[k]);
      DirectReadBack(d, words, k + 1);
      assert words[k..][1..] == words[k + 1..];
    }
  }

  /** Without the extent flag a directory is searched in exactly the non-zero ones of the twelve
      stored direct blocks, in their order. */
  lemma StoredDirectBlocksAreSearched(d: Bytes, mode: nat, flags: nat, words: seq<nat>)
    requires StoresKind(d, mode, flags) && StoresWords(d, words) && !ExtentFlag(flags)
    ensures DirectoryBlocks(d) == Some(NonZero(words))
  {
    hide StoresKind, StoresWords, DirectBlocks, UsesExtents;
    StoredKind(d, mode, flags);
    DirectReadBack(d, words, 0);
    assert words[0..] == words;
  }

  /** With the extent flag, a wrong magic number refuses the directory and an extent tree of any
      depth but 0 is not searched at all. */
  lemma StoredHeaderDecides(d: Bytes, mode: nat, flags: nat, magic: nat, depth: nat)
    requires StoresKind(d, mode, flags) && ExtentFlag(flags) && magic < 65536 && depth < 65536
    requires d[40..42] == Word16(magic) && d[46..48] == Word16(depth)
    ensures DirectoryBlocks(d).None? <==> magic != 0xF30A
    ensures magic == 0xF30A && depth != 0 ==> DirectoryBlocks(d) == Some([])
  {
    StoredKind(d, mode, flags);
    Field16(d, 40, magic);
    Field16(d, 46, depth);
    hide U16, UsesExtents, ExtentBlocks, DirectBlocks, Word16, ExtentFlag, Word32;
  }

  /** A component is looked up exactly in inodes of directory type. Whatever fails, any other
      inode ends the walk; with everything succeeding a directory without extents is searched in
      its direct blocks. */
  lemma EntersDirectBlocks(g: Geometry, ok: Outcome, s: Fs, cur: nat, name: Path, d: Bytes,
                           mode: nat, flags: nat, words: seq<nat>)
    requires Ready(g, s) && InodeAt(g, s, cur) == Some(d) && StoresKind(d, mode, flags)
    requires StoresWords(d, words) && !ExtentFlag(flags)
    ensures !DirectoryMode(mode) ==> EnterDirectory(g, ok, s, cur, name).1 == None
    ensures DirectoryMode(mode) && AllSucceed(ok, s.clock) ==>
              EnterDirectory(g, ok, s, cur, name).1 == LookUp(g, s, NonZero(words), name)
    ensures Enter(g, s, cur, name) == if DirectoryMode(mode) then LookUp(g, s, NonZero(words), name) else None
  {
    hide Ready, InodeAt, StoresKind, StoresWords, DirectoryBlocks, IsDirectory, LookUp, EnterDirectory;
    StoredDirectBlocksAreSearched(d, mode, flags, words);
    StoredKind(d, mode, flags);
    EnterIsLookUp(g, ok, s, cur, name);
    NoDirectory(g, ok, s, cur, name, d);
  }

  lemma NoDirectory(g: Geometry, ok: Outcome, s: Fs, cur: nat, name: Path, d: Bytes)
    requires Ready(g, s) && InodeAt(g, s, cur) == Some(d)
    ensures !IsDirectory(d) ==> EnterDirectory(g, ok, s, cur, name).1 == None
  {
    ReadInodeShows(g, ok, s, cur);
    hide Ready, InodeAt, ReadInode, IsDirectory, DirectoryBlocks, SearchBlocks, SameViews, Settled;
  }

  /** The same for a directory whose extents are stored in its inode. */
  lemma EntersExtents(g: Geometry, ok: Outcome, s: Fs, cur: nat, name: Path, d: Bytes,
                      mode: nat, flags: nat, xs: seq<Extent>)
    requires Ready(g, s) && InodeAt(g, s, cur) == Some(d) && StoresKind(d, mode, flags) && ExtentFlag(flags)
    requires |xs| < 65536 && d[40..42] == Word16(EXTENT_MAGIC) && d[42..44] == Word16(|xs|) && d[46..48] == Word16(0)
    requires forall i :: 0 <= i < |xs| ==> Stores(d, i, xs[i])
    ensures !DirectoryMode(mode) ==> EnterDirectory(g, ok, s, cur, name).1 == None
    ensures DirectoryMode(mode) && AllSucceed(ok, s.clock) ==>
              EnterDirectory(g, ok, s, cur, name).1 == LookUp(g, s, AllBlocks(xs), name)
    ensures Enter(g, s, cur, name) == if DirectoryMode(mode) then LookUp(g, s, AllBlocks(xs), name) else None
  {
    hide Ready, InodeAt, DirectoryBlocks, IsDirectory, UsesExtents, LookUp, EnterDirectory, Stores, Word16, Word32;
    StoredKind(d, mode, flags);
    StoredExtentsAreSearched(d, xs);
    EnterIsLookUp(g, ok, s, cur, name);
    NoDirectory(g, ok, s, cur, name, d);
  }

  // ----- from written entries to paths

  /** Block `b` of the volume holds these records. */
  ghost predicate HoldsEntries(g: Geometry, s: Fs, b: nat, es: seq<Entry>)
    requires Ready(g, s)
  {
    && b < g.blockCount && (forall i :: 0 <= i < |es| ==> Proper(es[i])) && |EncodeAll(es)| <= g.blockSize
    && View(g, s, b)[..|EncodeAll(es)|] == EncodeAll(es)
    && (|EncodeAll(es)| == g.blockSize || U16(View(g, s, b), |EncodeAll(es)| + 4) == 0)
  }

  function Concat(ess: seq<seq<Entry>>): seq<Entry> {
    if ess == [] then [] else ess[0] + Concat(ess[1..])
  }

  lemma {:induction false} FirstNamedOf(xs: seq<Entry>, ys: seq<Entry>, name: Path)
    ensures FirstNamed(xs + ys, name) == if FirstNamed(xs, name).Some? then FirstNamed(xs, name) else FirstNamed(ys, name)
  {
    if xs == [] {
      assert xs + ys == ys;
    } else {
      assert (xs + ys)[1..] == xs[1..] + ys;
      FirstNamedOf(xs[1..], ys, name);
    }
  }

  lemma ScanOfHeld(g: Geometry, s: Fs, b: nat, es: seq<Entry>, name: Path)
    requires Ready(g, s) && HoldsEntries(g, s, b, es)
    ensures b < g.blockCount && ScanEntries(g.blockSize, View(g, s, b), 0, name) == FirstNamed(es, name)
  {
    hide U16, FirstNamed, ScanEntries, TablesApart, TableBlocks, EvenSlots, DiskBlock;
    var d := View(g, s, b);
    hide View;
    assert d[0..|EncodeAll(es)|] == d[..|EncodeAll(es)|];
    ScanFindsWritten(g.blockSize, d, 0, es, name);
  }

  /** Looking a name up in blocks of written entries finds the first live entry of that name over
      all of them, and nothing when there is none. */
  lemma {:induction false} LookUpFindsWritten(g: Geometry, s: Fs, blocks: seq<nat>, ess: seq<seq<Entry>>, name: Path)
    requires Ready(g, s) && |ess| == |blocks| && forall k :: 0 <= k < |blocks| ==> HoldsEntries(g, s, blocks[k], ess[k])
    ensures LookUp(g, s, blocks, name) == FirstNamed(Concat(ess), name)
    decreases |blocks|
  {
    hide View, EncodeAll, U16, FirstNamed, ScanEntries, HoldsEntries, TablesApart, TableBlocks, EvenSlots,
         DiskBlock, Mounted;
    if blocks == [] {
      assert Concat(ess) == [];
      assert FirstNamed([], name) == None by {
        NobodyNamed(name);
      }
    } else {
      ScanOfHeld(g, s, blocks[0], ess[0], name);
      LookUpFindsWritten(g, s, blocks[1..], ess[1..], name);
      FirstNamedOf(ess[0], Concat(ess[1..]), name);
    }
  }

  lemma NobodyNamed(name: Path)
    ensures FirstNamed([], name) == None
  {
  }

  /** Slashes alone name inode 2, and nothing is read for them. */
  lemma RootIsTwo(g: Geometry, ok: Outcome, s: Fs, k: nat)
    requires Ready(g, s)
    ensures FindInode(g, ok, s, seq(k, _ => 47)) == (s, Some(2))
  {
    assert seq(k, _ => 47) == Slashes(k) + [];
    LeadingSlashes(k, []);
    hide Ready;
  }

  /** A further name is looked up in what the path before it leads to: with the root this says
      what every path means. */
  lemma PathExtends(g: Geometry, ok: Outcome, s: Fs, path: Path, name: Path)
    requires Ready(g, s) && AllSucceed(ok, s.clock) && IsName(name)
    ensures FindInode(g, ok, s, path + [47] + name).1
            == match FindInode(g, ok, s, path).1 case None => None case Some(dir) => Enter(g, s, dir, name)
  {
    hide Ready, Enter, WalkNames, Components, IsName;
    ComponentsSplit(path, name);
    OneName(name);
    var xs := Components(path);
    WalkIsResolve(g, ok, s, ROOT, xs);
    WalkIsResolve(g, ok, s, ROOT, xs + [name]);
    ResolveSplits(g, s, ROOT, xs, [name]);
    var mid := Resolve(g, s, ROOT, xs);
    if mid.Some? {
      ResolveOne(g, s, mid.value, name);
    }
  }

  lemma ResolveOne(g: Geometry, s: Fs, cur: nat, name: Path)
    requires Ready(g, s)
    ensures Resolve(g, s, cur, [name]) == Enter(g, s, cur, name)
  {
    hide Ready, Enter;
    assert [name][1..] == [];
  }
}
