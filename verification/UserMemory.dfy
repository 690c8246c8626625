/** When a 4 KiB map takes effect, and when it can be read back. */
module MapPremises {
  import opened Options
  import opened PageTables
  import opened VmState
  import opened MappingLaws
  import opened VmFlags
  import opened BulkMapping

  /** Writing into a frame that is no table changes no translation. */
  lemma DataWrite(s: Vm, b: nat, i: Index, w: nat, r: nat, p: Path)
    requires Inv(s) && b !in s.own && IsRoot(s, r)
    ensures Walk(Store(s.ram, b, i, w), r, p) == Walk(s.ram, r, p)
  {
    hide Present, Huge, Addr;
    var ram' := Store(s.ram, b, i, w);
    assert forall g: nat, j: Index :: g != b ==> Load(ram', g, j) == Load(s.ram, g, j);
  }

  /** Under a 2 MiB leaf the map reports success, but its word lands in the mapped memory
      and no translation changes. */
  lemma HugeLeafSwallows(s: Vm, virt: nat, phys: nat, hw: nat)
    requires Inv(s) && PathOf(virt).i4 < 256 && virt != 0 && phys != 0 && !Huge(hw)
    requires var l := Walk(s.ram, s.cur, PathOf(virt)); l.Leaf? && l.size == PAGE_2M && l.base != 0 && l.base !in s.own
    ensures var (s', ok) := MapWord(s, s.cur, virt, phys, hw);
            && ok && SameWalks(s, s') && s'.own == s.own && s'.free == s.free
            && Load(s'.ram, Walk(s.ram, s.cur, PathOf(virt)).base, PathOf(virt).i1) == Entry(Addr(phys), hw)
  {
    var p := PathOf(virt);
    var b := Walk(s.ram, s.cur, p).base;
    MapSmallSteps(s, s.cur, virt, phys, hw);
    var s' := MapWord(s, s.cur, virt, phys, hw).0;
    assert s' == WriteWord(s, b, p.i1, Entry(Addr(phys), hw));
    forall r: nat, q: Path | IsRoot(s, r)
      ensures Walk(s'.ram, r, q) == Walk(s.ram, r, q)
    {
      DataWrite(s, b, p.i1, Entry(Addr(phys), hw), r, q);
    }
  }

  /** The leaf at `p` is of mapped memory, and so is whatever a descent through it as if it
      were a page directory leads to. */
  ghost predicate LeadsToData(s: Vm, l: Leaf, p: Path) {
    && l.Leaf? && l.base != 0 && l.base !in s.own
    && (l.size == PAGE_1G ==> var w := Load(s.ram, l.base, p.i2); Present(w) ==> Addr(w) !in s.own)
  }

  /** Under a 1 GiB leaf, too, the words land in the mapped memory and the leaf stays. */
  lemma GiantLeafSwallows(s: Vm, virt: nat, phys: nat, hw: nat)
    requires Inv(s) && PathOf(virt).i4 < 256 && virt != 0 && phys != 0 && !Huge(hw)
    requires var l := Walk(s.ram, s.cur, PathOf(virt)); LeadsToData(s, l, PathOf(virt)) && l.size == PAGE_1G
    ensures Walk(MapWord(s, s.cur, virt, phys, hw).0.ram, s.cur, PathOf(virt)) == Walk(s.ram, s.cur, PathOf(virt))
  {
    var p := PathOf(virt);
    var user := virt < TOP_BIT;
    var b := Walk(s.ram, s.cur, p).base;
    MapSmallSteps(s, s.cur, virt, phys, hw);
    var t3 := Addr(Load(s.ram, s.cur, p.i4));
    assert s.own[t3] == Owned(3, s.cur, s.cur, p.i4);
    assert Reach2(s, s.cur, p, user) == (s, b);
    var (s1, t1) := EnsureTable(s, b, p.i2, user);
    assert Reach1(s, s.cur, p, user) == (s1, t1);
    EnsureInData(s, b, p.i2, user);
    var s' := MapWord(s, s.cur, virt, phys, hw).0;
    assert forall g: nat, j: Index :: g in s.own ==> Load(s'.ram, g, j) == Load(s.ram, g, j);
  }

  lemma EnsureInData(s: Vm, b: nat, i: Index, user: bool)
    requires Inv(s) && b !in s.own && (Present(Load(s.ram, b, i)) ==> Addr(Load(s.ram, b, i)) !in s.own)
    ensures var (s1, t1) := EnsureTable(s, b, i, user);
            && (t1 != 0 ==> t1 !in s.own)
            && forall g: nat, j: Index :: g in s.own ==> Load(s1.ram, g, j) == Load(s.ram, g, j)
  {
    hide Present, Huge, Addr, Closed;
  }

  /** A successful 4 KiB map installs its leaf if and only if the page was not already under
      a huge leaf, of either size; under a 2 MiB leaf it always reports success. */
  lemma MapTakesEffect(s: Vm, virt: nat, phys: nat, hw: nat)
    requires Inv(s) && PathOf(virt).i4 < 256 && virt != 0 && phys != 0 && Present(hw) && !Huge(hw)
    requires var l := Walk(s.ram, s.cur, PathOf(virt)); l.Leaf? && l.size != PAGE_4K ==> LeadsToData(s, l, PathOf(virt))
    ensures var (s', ok) := MapWord(s, s.cur, virt, phys, hw);
            var l := Walk(s.ram, s.cur, PathOf(virt));
            && (ok ==> (Walk(s'.ram, s.cur, PathOf(virt)) == LeafFor(phys, hw, PAGE_4K)
                        <==> !(l.Leaf? && l.size != PAGE_4K)))
            && (l.Leaf? && l.size == PAGE_2M ==> ok)
  {
    LeafSizes(s.ram, s.cur, PathOf(virt));
    hide MapWord, Walk, PathOf;
    var l := Walk(s.ram, s.cur, PathOf(virt));
    if l.Leaf? && l.size == PAGE_2M {
      HugeLeafSwallows(s, virt, phys, hw);
    } else if l.Leaf? && l.size == PAGE_1G {
      GiantLeafSwallows(s, virt, phys, hw);
    } else {
      MapSmall(s, s.cur, virt, phys, hw);
    }
  }

  lemma LeafSizes(ram: Ram, r: nat, p: Path)
    ensures var l := Walk(ram, r, p); l.Leaf? ==> l.size == PAGE_4K || l.size == PAGE_2M || l.size == PAGE_1G
  {
  }

  /** The physical address read back after a successful 4 KiB map is the one mapped if and
      only if no no-execute bit was stored: the address mask keeps bit 63. */
  lemma ReadBack(s: Vm, virt: nat, phys: nat, flags: bv64, nx: bool)
    requires Inv(s) && PathOf(virt).i4 < 256 && phys < TOP_BIT && !Has(flags, HUGE)
    requires var l := Walk(s.ram, s.cur, PathOf(virt)); l.Leaf? ==> l.size == PAGE_4K
    requires MapPage(s, virt, phys, flags, nx).1
    ensures Translate(MapPage(s, virt, phys, flags, nx).0.ram, s.cur, virt) == Some(Addr(phys) + virt % PAGE_4K)
            <==> !(Has(flags, NO_EXECUTE) && nx)
  {
    hide MapWord, Walk, PathOf, Has, HwFlags;
    HwFlagsMean(flags, nx);
    MapSmall(s, s.cur, virt, phys, HwFlags(flags, nx));
  }
}

/** `vmm_allocate` and `vmm_free` on user areas. */
module UserMemory {
  import opened Options
  import opened PageTables
  import opened VmState
  import opened MappingLaws
  import SpaceLaws
  import opened PageBlocks
  import opened VmFlags
  import opened BulkMapping

  datatype Area = Area(base: nat, size: nat, used: bool, flags: bv64)

  /** `vmm_get_physical_address`: the direct map above `hhdm`, the walk below, 0 for nothing. */
  function VirtToPhys(s: Vm, hhdm: nat, va: nat): nat {
    if va >= hhdm then va - hhdm
    else match Translate(s.ram, s.cur, va) case None => 0 case Some(p) => p
  }

  /** `phys_to_virt`: the direct map, and null for null. */
  function PhysToVirt(hhdm: nat, phys: nat): nat {
    if phys == 0 then 0 else hhdm + phys
  }

  /** The direct map reads back: every physical address but 0 is what its own address in the
      direct map converts to, and every address above `hhdm` is the one its conversion maps to.
      For 0 that holds if and only if the walk of address 0 gives nothing or frame 0. */
  lemma DirectMapReadsBack(s: Vm, hhdm: nat, phys: nat, va: nat)
    requires hhdm > 0
    ensures phys != 0 ==> VirtToPhys(s, hhdm, PhysToVirt(hhdm, phys)) == phys
    ensures va > hhdm ==> PhysToVirt(hhdm, VirtToPhys(s, hhdm, va)) == va
    ensures VirtToPhys(s, hhdm, PhysToVirt(hhdm, 0)) == 0
            <==> Translate(s.ram, s.cur, 0) == None || Translate(s.ram, s.cur, 0) == Some(0)
  {
    hide Translate;
  }

  /** Below `hhdm` a non-zero answer is the translation, and 0 stands for none, and for frame 0. */
  lemma WalkedAddress(s: Vm, hhdm: nat, va: nat)
    requires va < hhdm
    ensures forall phys: nat :: phys != 0 ==> (VirtToPhys(s, hhdm, va) == phys <==> Translate(s.ram, s.cur, va) == Some(phys))
  {
    hide Translate;
  }

  /** Pages in a request, rounded up in 64-bit arithmetic. */
  function PageCount(size: nat): nat {
    (size + PAGE_4K - 1) % WORD / PAGE_4K
  }

  /** The pages cover the request exactly when rounding it up does not wrap, and then with less
      than one page to spare; when it wraps there are none. */
  lemma PageCountCovers(size: nat)
    requires size < WORD
    ensures PageCount(size) * PAGE_4K >= size <==> size + PAGE_4K - 1 < WORD
    ensures PageCount(size) * PAGE_4K < size + PAGE_4K
    ensures size + PAGE_4K - 1 >= WORD ==> PageCount(size) == 0
  {
    var up := size + PAGE_4K - 1;
    if up < WORD {
      assert up % WORD == up;
      assert up / PAGE_4K * PAGE_4K + up % PAGE_4K == up;
    } else {
      assert up % WORD == up - WORD < PAGE_4K;
    }
  }

  /** The first free area that is large enough. */
  function FindArea(areas: seq<Area>, size: nat): (r: Option<nat>)
    ensures r.Some? ==> r.value < |areas| && !areas[r.value].used && areas[r.value].size >= size
    ensures r.Some? ==> forall j :: 0 <= j < r.value ==> areas[j].used || areas[j].size < size
    ensures r.None? ==> forall j :: 0 <= j < |areas| ==> areas[j].used || areas[j].size < size
  {
    if areas == [] then None
    else if !areas[0].used && areas[0].size >= size then Some(0)
    else match FindArea(areas[1..], size) case None => None case Some(i) => Some(i + 1)
  }

  /** Takes, maps and clears one frame per page until `n` pages are mapped or one fails; the
      second component lists the frames now mapped. A frame that could not be mapped goes
      straight back. */
  ghost function FillRun(s: Vm, base: nat, n: nat, hw: nat): (r: (Vm, seq<nat>))
    ensures |r.1| <= n
  {
    if n == 0 then (s, []) else
    var (m, frames) := FillRun(s, base, n - 1, hw);
    if |frames| < n - 1 then (m, frames) else
    var (m1, f) := TakeFrame(m);
    if f == 0 then (m1, frames) else
    var (m2, ok) := MapWord(m1, m1.cur, base + (n - 1) * PAGE_4K, f, hw);
    if !ok then (GiveFrame(m2, f), frames)
    else (m2.(ram := Clear(m2.ram, f)), frames + [f])
  }

  /** Unmaps and gives back the first `n` pages; the cleanup of a failed allocation. */
  function CleanupRun(s: Vm, hhdm: nat, base: nat, n: nat): Vm {
    if n == 0 then s else
    var m := CleanupRun(s, hhdm, base, n - 1);
    var va := base + (n - 1) * PAGE_4K;
    GiveFrame(Unmap(m, va).0, VirtToPhys(m, hhdm, va))
  }

  /** Unmaps and gives back those of the first `n` pages that are mapped. */
  function FreeRun(s: Vm, hhdm: nat, base: nat, n: nat): Vm {
    if n == 0 then s else
    var m := FreeRun(s, hhdm, base, n - 1);
    var va := base + (n - 1) * PAGE_4K;
    var phys := VirtToPhys(m, hhdm, va);
    if phys == 0 then m else GiveFrame(Unmap(m, va).0, phys)
  }

  /** `vmm_allocate` for a user request: the new state, the areas and the address, 0 on failure. */
  ghost function Allocate(s: Vm, areas: seq<Area>, hhdm: nat, size: nat, flags: bv64, nx: bool): (Vm, seq<Area>, nat) {
    if size == 0 then (s, areas, 0) else
    var n := PageCount(size);
    match FindArea(areas, n * PAGE_4K)
    case None => (s, areas, 0)
    case Some(i) =>
      var area := areas[i];
      var (m, frames) := FillRun(s, area.base, n, HwFlags(Or(flags, area.flags), nx));
      if |frames| < n then (CleanupRun(m, hhdm, area.base, |frames|), areas, 0)
      else (m, areas[i := area.(used := true)], area.base)
  }

  /** The first area with the given base is free again. */
  function ReleaseArea(areas: seq<Area>, base: nat): (r: seq<Area>)
    ensures |r| == |areas|
  {
    if areas == [] then []
    else if areas[0].base == base then areas[0 := areas[0].(used := false)]
    else [areas[0]] + ReleaseArea(areas[1..], base)
  }

  /** `vmm_free` of a user address. */
  function Free(s: Vm, areas: seq<Area>, hhdm: nat, addr: nat, size: nat): (Vm, seq<Area>) {
    if addr == 0 || size == 0 then (s, areas) else
    (FreeRun(s, hhdm, addr, PageCount(size)), ReleaseArea(areas, addr))
  }

  // ----- frames held

  /** From `s` to `s'`, tables of the current space and the data frames `data` were taken,
      and nothing else. */
  ghost predicate Holds(s: Vm, s': Vm, data: set<nat>) {
    && s'.managed == s.managed && s'.cur == s.cur
    && (forall f :: f in s.own ==> f in s'.own && s'.own[f] == s.own[f])
    && (forall f :: f in s'.own && f !in s.own ==>
          f in s.free && s'.own[f].Owned? && s'.own[f].root == s.cur && s'.own[f].level < 4)
    && (forall f :: f in data ==> f in s.free && f !in s'.own)
    && (forall f :: f in s'.free <==> f in s.free && f !in data && !(f in s'.own && f !in s.own))
  }

  /** The leaves of these frames, all with the same attribute bits. */
  function Leaves(frames: seq<nat>, bits: nat): (ls: seq<Leaf>)
    ensures |ls| == |frames|
  {
    seq(|frames|, i requires 0 <= i < |frames| => Leaf(frames[i], PAGE_4K, bits))
  }

  function Elements(frames: seq<nat>): set<nat> { set f | f in frames }

  lemma TakeKeeps(s: Vm)
    requires Inv(s) && s.free != {}
    ensures var (s', f) := TakeFrame(s); Inv(s') && f != 0 && f % PAGE_4K == 0 && f in s.free && f !in s.own
  {
    var (s', f) := TakeFrame(s);
    assert s'.ram == s.ram && s'.own == s.own;
  }

  lemma GiveKeeps(s: Vm, f: nat)
    requires Inv(s) && f !in s.own && f != 0 && f % PAGE_4K == 0
    ensures Inv(GiveFrame(s, f))
  {
    var s' := GiveFrame(s, f);
    assert s'.ram == s.ram && s'.own == s.own;
  }

  /** Clearing a frame that is no table changes no translation. */
  lemma ClearKeeps(s: Vm, f: nat)
    requires Inv(s) && f !in s.own
    ensures var s' := s.(ram := Clear(s.ram, f)); Inv(s') && SameWalks(s, s')
  {
    hide Present, Huge, Addr;
    var s' := s.(ram := Clear(s.ram, f));
    assert forall g: nat, j: Index :: g != f ==> Load(s'.ram, g, j) == Load(s.ram, g, j);
  }

  /** Taking, giving or clearing a frame that is no table loses no table. */
  lemma DataKeepsLeakFree(s: Vm, s': Vm, f: nat)
    requires LeakFree(s) && Inv(s) && f !in s.own && s'.own == s.own && (s'.ram == s.ram || s'.ram == Clear(s.ram, f))
    ensures LeakFree(s')
  {
    hide Present, Huge, Addr;
    assert forall g: nat, j: Index :: g != f ==> Load(s'.ram, g, j) == Load(s.ram, g, j);
    forall g | g in s'.own && s'.own[g].Owned? && s'.own[g].level < 4
      ensures Linked(s', g)
    {
      assert Linked(s, g);
    }
  }

  lemma SameWalksKeepWindow(s: Vm, m: Vm, m': Vm, v0: nat, leaves: seq<Leaf>, c: int, d: int)
    requires Window(s, m, v0, leaves, 0, 0, c, d) && Inv(m') && SameWalks(m, m') && m'.cur == m.cur && m'.own == m.own
    ensures Window(s, m', v0, leaves, 0, 0, c, d)
  {
    hide Walk, PathOf, Closed, FramesOk;
    forall r, n: nat | IsRoot(s, r) && n < LOWER_PAGES
      ensures WindowAt(s, m', v0, leaves, 0, 0, c, d, r, n)
    {
      assert WindowAt(s, m, v0, leaves, 0, 0, c, d, r, n);
    }
    forall r: nat, p: Path | IsRoot(s, r) && p.i4 >= 256
      ensures Walk(m'.ram, r, p) == Walk(s.ram, r, p)
    {
      assert Walk(m.ram, r, p) == Walk(s.ram, r, p);
    }
  }

  lemma WindowMoreLeaves(s: Vm, m: Vm, v0: nat, leaves: seq<Leaf>, leaves': seq<Leaf>, d: int)
    requires Window(s, m, v0, leaves, 0, 0, 0, d) && leaves <= leaves'
    ensures Window(s, m, v0, leaves', 0, 0, 0, d)
  {
    hide Walk, PathOf, Inv;
    forall r, n: nat | IsRoot(s, r) && n < LOWER_PAGES
      ensures WindowAt(s, m, v0, leaves', 0, 0, 0, d, r, n)
    {
      assert WindowAt(s, m, v0, leaves, 0, 0, 0, d, r, n);
    }
  }

  /** `m` is `s` with one private frame mapped at each page from `v0` on. */
  ghost predicate Filled(s: Vm, m: Vm, v0: nat, frames: seq<nat>, bits: nat) {
    && Inv(m) && Window(s, m, v0, Leaves(frames, bits), 0, 0, 0, |frames|)
    && Holds(s, m, Elements(frames)) && SpaceLaws.Distinct(frames)
  }

  lemma HoldsMapped(s: Vm, m: Vm, m1: Vm, m2: Vm, frames: seq<nat>, f: nat)
    requires Holds(s, m, Elements(frames)) && f in m.free && f !in m.own && m1 == m.(free := m.free - {f})
    requires Grows(m1, m2, s.cur) && m1.cur == s.cur
    ensures Holds(s, m2, Elements(frames + [f]))
    ensures f !in m2.own && f !in frames
  {
    forall g
      ensures g in Elements(frames + [f]) <==> g in Elements(frames) || g == f
    {
    }
  }

  lemma HoldsAnyRam(s: Vm, m: Vm, ram: Ram, data: set<nat>)
    requires Holds(s, m, data)
    ensures Holds(s, m.(ram := ram), data)
  {
  }

  lemma HoldsGiven(s: Vm, m: Vm, data: set<nat>, f: nat)
    requires Holds(s, m, data) && f in data && s.free <= s.managed
    ensures Holds(s, GiveFrame(m, f), data - {f})
  {
  }

  ghost predicate AtMostOne(free: set<nat>) {
    forall x, y :: x in free && y in free ==> x == y
  }

  lemma WindowState(s: Vm, m: Vm, v0: nat, leaves: seq<Leaf>, c: int, d: int)
    requires Window(s, m, v0, leaves, 0, 0, c, d)
    ensures Inv(m) && m.cur == s.cur
  {
  }

  lemma FillStep(s: Vm, m: Vm, v0: nat, va: nat, frames: seq<nat>, hw: nat)
    requires Inv(s) && Filled(s, m, v0, frames, Bits(hw)) && Vacant(s, v0, |frames| + 1) && m.free != {}
    requires va / PAGE_4K == v0 + |frames| && va != 0
    requires Present(hw) && !Huge(hw) && !NoExecute(hw)
    ensures var (m1, f) := TakeFrame(m);
            var (m2, ok) := MapWord(m1, m1.cur, va, f, hw);
            && f != 0
            && (ok ==> Filled(s, m2.(ram := Clear(m2.ram, f)), v0, frames + [f], Bits(hw)))
            && (!ok ==> Filled(s, GiveFrame(m2, f), v0, frames, Bits(hw)) && AtMostOne(GiveFrame(m2, f).free))
            && (LeakFree(m) ==> LeakFree(if ok then m2.(ram := Clear(m2.ram, f)) else GiveFrame(m2, f)))
  {
    assert m.cur == s.cur && s.free <= s.managed;
    hide MapWord, Walk, PathOf, LeakFree, Window, Present, Huge, NoExecute, Inv, Holds, Vacant, SpaceLaws.Distinct;
    var (m1, f) := TakeFrame(m);
    TakeKeeps(m);
    var ls, ls' := Leaves(frames, Bits(hw)), Leaves(frames + [f], Bits(hw));
    assert SameWalks(m, m1);
    SameWalksKeepWindow(s, m, m1, v0, ls, 0, |frames|);
    WindowMoreLeaves(s, m1, v0, ls, ls', |frames|);
    FrameStored(f, hw);
    ExtendSmall(s, m1, v0, ls', 0, 0, |frames|, va, f, hw);
    var (m2, ok) := MapWord(m1, m1.cur, va, f, hw);
    WindowState(s, m2, v0, ls', 0, if ok then |frames| + 1 else |frames|);
    HoldsMapped(s, m, m1, m2, frames, f);
    if LeakFree(m) {
      DataKeepsLeakFree(m, m1, f);
      DataKeepsLeakFree(m2, if ok then m2.(ram := Clear(m2.ram, f)) else GiveFrame(m2, f), f);
    }
    if ok {
      FillCleared(s, m2, v0, frames, f, Bits(hw));
    } else {
      FillReturned(s, m2, v0, frames, f, Bits(hw));
    }
  }

  lemma FillCleared(s: Vm, m: Vm, v0: nat, frames: seq<nat>, f: nat, bits: nat)
    requires Window(s, m, v0, Leaves(frames + [f], bits), 0, 0, 0, |frames| + 1)
    requires Holds(s, m, Elements(frames + [f])) && SpaceLaws.Distinct(frames) && f !in frames && f !in m.own
    ensures Filled(s, m.(ram := Clear(m.ram, f)), v0, frames + [f], bits)
  {
    hide Window, Holds, Inv;
    WindowState(s, m, v0, Leaves(frames + [f], bits), 0, |frames| + 1);
    ClearKeeps(m, f);
    SameWalksKeepWindow(s, m, m.(ram := Clear(m.ram, f)), v0, Leaves(frames + [f], bits), 0, |frames| + 1);
    HoldsAnyRam(s, m, Clear(m.ram, f), Elements(frames + [f]));
  }

  lemma FillReturned(s: Vm, m: Vm, v0: nat, frames: seq<nat>, f: nat, bits: nat)
    requires Window(s, m, v0, Leaves(frames + [f], bits), 0, 0, 0, |frames|) && s.free <= s.managed
    requires Holds(s, m, Elements(frames + [f])) && SpaceLaws.Distinct(frames) && f !in frames && f !in m.own
    requires f != 0 && f % PAGE_4K == 0
    ensures Filled(s, GiveFrame(m, f), v0, frames, bits)
  {
    hide Window, Holds, Inv, Walk;
    var ls, ls' := Leaves(frames, bits), Leaves(frames + [f], bits);
    WindowState(s, m, v0, ls', 0, |frames|);
    GiveKeeps(m, f);
    assert SameWalks(m, GiveFrame(m, f));
    SameWalksKeepWindow(s, m, GiveFrame(m, f), v0, ls', 0, |frames|);
    FewerLeaves(s, GiveFrame(m, f), v0, ls', ls, |frames|);
    HoldsGiven(s, m, Elements(frames + [f]), f);
    assert Elements(frames + [f]) - {f} == Elements(frames);
  }

  lemma FrameStored(f: nat, hw: nat)
    requires f % PAGE_4K == 0 && !NoExecute(hw)
    ensures Stored(f, hw) == f
  {
  }

  lemma FewerLeaves(s: Vm, m: Vm, v0: nat, leaves: seq<Leaf>, leaves': seq<Leaf>, d: int)
    requires Window(s, m, v0, leaves, 0, 0, 0, d) && leaves' <= leaves && d <= |leaves'|
    ensures Window(s, m, v0, leaves', 0, 0, 0, d)
  {
    hide Walk, PathOf, Inv;
    forall r, n: nat | IsRoot(s, r) && n < LOWER_PAGES
      ensures WindowAt(s, m, v0, leaves', 0, 0, 0, d, r, n)
    {
      assert WindowAt(s, m, v0, leaves, 0, 0, 0, d, r, n);
    }
  }

  lemma FewerVacant(s: Vm, v0: nat, n: nat, k: nat)
    requires Vacant(s, v0, n) && k <= n
    ensures Vacant(s, v0, k)
  {
    hide Walk;
  }

  /** Filling a vacant range maps a private, freshly cleared frame at each page; it stops
      early only when at most one free frame is left. */
  lemma {:induction false} FillRunFills(s: Vm, base: nat, n: nat, hw: nat)
    requires Inv(s) && Vacant(s, base / PAGE_4K, n) && base != 0
    requires Present(hw) && !Huge(hw) && !NoExecute(hw)
    ensures var (m, frames) := FillRun(s, base, n, hw);
            && Filled(s, m, base / PAGE_4K, frames, Bits(hw))
            && (|frames| < n ==> AtMostOne(m.free))
            && (LeakFree(s) ==> LeakFree(m))
  {
    hide LeakFree, MapWord, Walk, PathOf, Inv, WindowAt, Present, Huge, NoExecute, Vacant;
    var v0 := base / PAGE_4K;
    if n == 0 {
      EmptyWindow(s, v0, []);
      assert Leaves([], Bits(hw)) == [];
    } else {
      FewerVacant(s, v0, n, n - 1);
      FillRunFills(s, base, n - 1, hw);
      var (m, frames) := FillRun(s, base, n - 1, hw);
      if |frames| == n - 1 {
        PageStep(base, n - 1);
        if m.free != {} {
          FillStep(s, m, v0, base + (n - 1) * PAGE_4K, frames, hw);
        }
      }
    }
  }

  // ----- how many frames it takes

  /** Making sure of a table takes at most one frame, and none when it fails. */
  lemma EnsureTakes(s: Vm, t: nat, i: Index, user: bool)
    requires 0 !in s.free
    ensures var (s', c) := EnsureTable(s, t, i, user);
            && |s'.free| >= |s.free| - 1 && s'.free <= s.free && (c == 0 ==> s'.free == s.free)
            && s'.managed == s.managed
  {
  }

  /** A map takes at most three frames, and at most two when it fails for want of one. */
  lemma MapTakes(s: Vm, root: nat, virt: nat, phys: nat, hw: nat)
    requires 0 !in s.free && !LargeStep(virt, phys, hw)
    ensures var (s', ok) := MapWord(s, root, virt, phys, hw);
            && |s'.free| >= |s.free| - 3 && s'.free <= s.free && (!ok ==> |s'.free| >= |s.free| - 2)
            && s'.managed == s.managed
  {
    if root != 0 && virt != 0 && phys != 0 {
      var p, user := PathOf(virt), virt < TOP_BIT;
      MapSmallSteps(s, root, virt, phys, hw);
      hide MapWord, PathOf, EnsureTable;
      EnsureTakes(s, root, p.i4, user);
      var (s3, t3) := EnsureTable(s, root, p.i4, user);
      if t3 != 0 {
        EnsureTakes(s3, t3, p.i3, user);
        var (s2, t2) := EnsureTable(s3, t3, p.i3, user);
        if t2 != 0 {
          EnsureTakes(s2, t2, p.i2, user);
        }
      }
    }
  }

  lemma SmallSet(free: set<nat>)
    requires AtMostOne(free)
    ensures |free| <= 1
  {
    if x :| x in free {
      assert free == {x};
    }
  }

  lemma FillStepTakes(m: Vm, va: nat, hw: nat)
    requires 0 !in m.free && m.free <= m.managed && m.free != {} && !Huge(hw)
    ensures var (m1, f) := TakeFrame(m);
            var (m2, ok) := MapWord(m1, m1.cur, va, f, hw);
            && |m2.free| >= |m.free| - 4
            && (!ok ==> |GiveFrame(m2, f).free| >= |m.free| - 2)
  {
    var (m1, f) := TakeFrame(m);
    hide Huge;
    MapTakes(m1, m1.cur, va, f, hw);
    hide MapWord;
  }

  /** With four free frames per page, filling does not stop early. */
  lemma {:induction false} EnoughFrames(s: Vm, base: nat, n: nat, hw: nat)
    requires Inv(s) && Vacant(s, base / PAGE_4K, n) && base != 0
    requires Present(hw) && !Huge(hw) && !NoExecute(hw)
    ensures var (m, frames) := FillRun(s, base, n, hw);
            && (|frames| == n ==> |m.free| >= |s.free| - 4 * n)
            && (|s.free| >= 4 * n ==> |frames| == n)
  {
    hide MapWord, Walk, PathOf, Inv, Filled, Present, Huge, NoExecute, Vacant, LeakFree, AtMostOne;
    var v0 := base / PAGE_4K;
    if n > 0 {
      FewerVacant(s, v0, n, n - 1);
      EnoughFrames(s, base, n - 1, hw);
      FillRunFills(s, base, n - 1, hw);
      var (m, frames) := FillRun(s, base, n - 1, hw);
      if |frames| == n - 1 && m.free != {} {
        var va := base + (n - 1) * PAGE_4K;
        PageStep(base, n - 1);
        FillStep(s, m, v0, va, frames, hw);
        FilledFrames(s, m, v0, frames, Bits(hw));
        FillStepTakes(m, va, hw);
        var (m1, f) := TakeFrame(m);
        var (m2, ok) := MapWord(m1, m1.cur, va, f, hw);
        if !ok {
          SmallSet(GiveFrame(m2, f).free);
        }
      }
    }
  }

  lemma FilledFrames(s: Vm, m: Vm, v0: nat, frames: seq<nat>, bits: nat)
    requires Filled(s, m, v0, frames, bits)
    ensures 0 !in m.free && m.free <= m.managed
  {
  }

  lemma {:induction false} DistinctCount(frames: seq<nat>)
    requires SpaceLaws.Distinct(frames)
    ensures |Elements(frames)| == |frames|
  {
    if frames != [] {
      var init, last := frames[..|frames| - 1], frames[|frames| - 1];
      DistinctCount(init);
      assert last !in init;
      assert Elements(frames) == Elements(init) + {last};
    }
  }

  lemma EveryFrameWasFree(s: Vm, m: Vm, v0: nat, frames: seq<nat>, bits: nat)
    requires Filled(s, m, v0, frames, bits)
    ensures |s.free| >= |frames|
  {
    hide Inv, Window, SpaceLaws.Distinct;
    DistinctCount(frames);
    assert Elements(frames) <= s.free;
    Subset(Elements(frames), s.free);
  }

  lemma {:induction false} Subset(a: set<nat>, b: set<nat>)
    requires a <= b
    ensures |a| <= |b|
  {
    if x :| x in a {
      Subset(a - {x}, b - {x});
    }
  }

  // ----- giving back

  /** `m` still has the frames from index `j` on mapped and held. */
  ghost predicate Draining(s: Vm, m: Vm, v0: nat, frames: seq<nat>, j: nat, bits: nat) {
    && j <= |frames|
    && Inv(m) && Window(s, m, v0, Leaves(frames, bits), 0, 0, j, |frames|)
    && Holds(s, m, Elements(frames[j..])) && SpaceLaws.Distinct(frames)
  }

  lemma TranslatesTo(s: Vm, m: Vm, v0: nat, frames: seq<nat>, j: nat, hhdm: nat, va: nat, bits: nat)
    requires Draining(s, m, v0, frames, j, bits) && j < |frames| && Inv(s) && v0 + |frames| <= LOWER_PAGES
    requires va / PAGE_4K == v0 + j && va % PAGE_4K == 0 && va < hhdm
    ensures VirtToPhys(m, hhdm, va) == frames[j] && frames[j] != 0
  {
    hide Walk, PathOf, Closed;
    PageOf(va, v0 + j);
    assert WindowAt(s, m, v0, Leaves(frames, bits), 0, 0, j, |frames|, s.cur, v0 + j);
    assert frames[j] in Elements(frames[j..]);
  }

  lemma DrainedFrameOk(s: Vm, m: Vm, frames: seq<nat>, j: nat)
    requires Inv(s) && j < |frames| && Holds(s, m, Elements(frames[j..]))
    ensures var f := frames[j]; f != 0 && f % PAGE_4K == 0 && f !in m.own && s.free <= s.managed
  {
    hide Closed;
    assert frames[j] in Elements(frames[j..]);
  }

  lemma DrainStep(s: Vm, m: Vm, v0: nat, frames: seq<nat>, j: nat, hhdm: nat, va: nat, bits: nat)
    requires Inv(s) && Draining(s, m, v0, frames, j, bits) && j < |frames| && Vacant(s, v0, |frames|)
    requires va / PAGE_4K == v0 + j && va % PAGE_4K == 0 && va < hhdm && va != 0
    ensures var phys := VirtToPhys(m, hhdm, va);
            && phys != 0 && Draining(s, GiveFrame(Unmap(m, va).0, phys), v0, frames, j + 1, bits)
            && (LeakFree(m) ==> LeakFree(GiveFrame(Unmap(m, va).0, phys)))
  {
    TranslatesTo(s, m, v0, frames, j, hhdm, va, bits);
    var f := frames[j];
    DrainedFrameOk(s, m, frames, j);
    hide Walk, PathOf, Unmap, LeakFree, Window, Inv, VirtToPhys, Holds, Vacant, SpaceLaws.Distinct, Elements;
    TailElements(frames, j);
    ShrinkSmall(s, m, v0, Leaves(frames, bits), 0, j, |frames|, va);
    var m1 := Unmap(m, va).0;
    WindowState(s, m1, v0, Leaves(frames, bits), j + 1, |frames|);
    HoldsAnyRam(s, m, m1.ram, Elements(frames[j..]));
    HoldsGiven(s, m1, Elements(frames[j..]), f);
    GiveKeeps(m1, f);
    var m2 := GiveFrame(m1, f);
    if LeakFree(m) {
      DataKeepsLeakFree(m1, m2, f);
    }
    assert SameWalks(m1, m2);
    SameWalksKeepWindow(s, m1, m2, v0, Leaves(frames, bits), j + 1, |frames|);
  }

  lemma TailElements(frames: seq<nat>, j: nat)
    requires j < |frames| && SpaceLaws.Distinct(frames)
    ensures frames[j] in Elements(frames[j..]) && Elements(frames[j..]) - {frames[j]} == Elements(frames[j + 1..])
  {
    assert frames[j..] == [frames[j]] + frames[j + 1..];
    assert frames[j] !in frames[j + 1..];
  }

  lemma {:induction false} CleanupDrains(s: Vm, m: Vm, frames: seq<nat>, hhdm: nat, base: nat, n: nat, bits: nat)
    requires Inv(s) && Filled(s, m, base / PAGE_4K, frames, bits) && n <= |frames| && Vacant(s, base / PAGE_4K, |frames|)
    requires base % PAGE_4K == 0 && base != 0 && base + |frames| * PAGE_4K <= hhdm
    ensures Draining(s, CleanupRun(m, hhdm, base, n), base / PAGE_4K, frames, n, bits)
    ensures FreeRun(m, hhdm, base, n) == CleanupRun(m, hhdm, base, n)
    ensures LeakFree(m) ==> LeakFree(CleanupRun(m, hhdm, base, n))
  {
    hide Walk, PathOf, Inv, LeakFree, Window, Holds, VirtToPhys, Unmap, Vacant;
    if n == 0 {
      assert frames[0..] == frames;
    } else {
      CleanupDrains(s, m, frames, hhdm, base, n - 1, bits);
      PageStep(base, n - 1);
      DrainStep(s, CleanupRun(m, hhdm, base, n - 1), base / PAGE_4K, frames, n - 1, hhdm, base + (n - 1) * PAGE_4K, bits);
    }
  }

  /** Everything given back: only page tables of the current space stay taken. */
  lemma Drained(s: Vm, m: Vm, v0: nat, frames: seq<nat>, bits: nat)
    requires Draining(s, m, v0, frames, |frames|, bits)
    ensures Inv(m) && Grows(s, m, s.cur) && Untouched(s, m)
  {
    hide Inv, LeakFree, WindowAt, Untouched;
    WindowUntouched(s, m, v0, Leaves(frames, bits), 0, |frames|);
    assert frames[|frames|..] == [];
    assert m.free == s.free - (m.own.Keys - s.own.Keys);
  }

  // ----- freeing any range

  ghost function PageLeaf(s: Vm, base: nat, k: nat): Leaf {
    Walk(s.ram, s.cur, PathOf(base + k * PAGE_4K))
  }

  /** The page is unmapped or maps a data frame. */
  ghost predicate DataOrHole(s: Vm, base: nat, k: nat) {
    var l := PageLeaf(s, base, k);
    l.Leaf? ==> l.size == PAGE_4K && l.base !in s.own && l.base != 0 && l.base % PAGE_4K == 0
  }

  ghost predicate InRun(q: Path, base: nat, n: nat) {
    exists k: nat :: k < n && q == PathOf(base + k * PAGE_4K)
  }

  ghost predicate FrameIn(s: Vm, base: nat, n: nat, f: nat) {
    exists k: nat :: k < n && PageLeaf(s, base, k).Leaf? && PageLeaf(s, base, k).base == f
  }

  /** In `s'` the first `n` pages are unmapped and the frames they mapped are free; nothing else
      has changed. */
  ghost predicate Freed(s: Vm, s': Vm, base: nat, n: nat) {
    && Inv(s') && s'.own == s.own && s'.cur == s.cur && s'.managed == s.managed
    && (forall r: nat, q: Path {:trigger Walk(s'.ram, r, q)} :: IsRoot(s, r) ==>
          Walk(s'.ram, r, q) == if r == s.cur && InRun(q, base, n) then Unmapped else Walk(s.ram, r, q))
    && (forall f :: f in s'.free <==> f in s.free || (f in s.managed && FrameIn(s, base, n, f)))
  }

  lemma InRunNext(q: Path, base: nat, n: nat)
    ensures InRun(q, base, n + 1) <==> InRun(q, base, n) || q == PathOf(base + n * PAGE_4K)
  {
    hide PathOf;
    if InRun(q, base, n + 1) {
      var k: nat :| k < n + 1 && q == PathOf(base + k * PAGE_4K);
      assert k == n || InRun(q, base, n);
    }
  }

  lemma FrameInNext(s: Vm, base: nat, n: nat, f: nat)
    ensures FrameIn(s, base, n + 1, f) <==> FrameIn(s, base, n, f) || (PageLeaf(s, base, n).Leaf? && PageLeaf(s, base, n).base == f)
  {
    hide PageLeaf;
    if FrameIn(s, base, n + 1, f) {
      var k: nat :| k < n + 1 && PageLeaf(s, base, k).Leaf? && PageLeaf(s, base, k).base == f;
      assert k == n || FrameIn(s, base, n, f);
    }
  }

  /** Later pages of a run are not among the earlier ones. */
  lemma NotYet(base: nat, n: nat)
    requires base + n * PAGE_4K < LOWER_HALF
    ensures !InRun(PathOf(base + n * PAGE_4K), base, n)
  {
    hide PathOf;
    forall k: nat | k < n
      ensures PathOf(base + k * PAGE_4K) != PathOf(base + n * PAGE_4K)
    {
      PageStep(base, k);
      PageStep(base, n);
      PathIsPage(base + k * PAGE_4K, base + n * PAGE_4K);
    }
  }

  lemma FreeStep(s: Vm, m: Vm, hhdm: nat, base: nat, n: nat)
    requires Inv(s) && Freed(s, m, base, n) && DataOrHole(s, base, n)
    requires base % PAGE_4K == 0 && base != 0 && base + n * PAGE_4K < LOWER_HALF && base + n * PAGE_4K < hhdm
    ensures var va := base + n * PAGE_4K;
            var phys := VirtToPhys(m, hhdm, va);
            Freed(s, if phys == 0 then m else GiveFrame(Unmap(m, va).0, phys), base, n + 1)
  {
    var va := base + n * PAGE_4K;
    NotYet(base, n);
    assert Walk(m.ram, m.cur, PathOf(va)) == PageLeaf(s, base, n);
    PathIsPage(va, va);
    var l := PageLeaf(s, base, n);
    assert va % PAGE_4K == 0;
    assert VirtToPhys(m, hhdm, va) == if l.Leaf? then l.base else 0;
    hide PathOf, Walk, Unmap, VirtToPhys, PageLeaf, InRun, FrameIn, Closed, FramesOk, LeakFree;
    if l.Leaf? {
      UnmapRemoves(m, va);
      var m1 := Unmap(m, va).0;
      GiveKeeps(m1, l.base);
      FreedOne(s, m, GiveFrame(m1, l.base), base, n, l);
    } else {
      FreedNone(s, m, base, n);
    }
  }

  lemma FreedNone(s: Vm, m: Vm, base: nat, n: nat)
    requires Freed(s, m, base, n) && PageLeaf(s, base, n) == Unmapped && Inv(s)
    ensures Freed(s, m, base, n + 1)
  {
    hide PathOf, Walk, InRun, FrameIn, Closed, FramesOk;
    forall r: nat, q: Path | IsRoot(s, r)
      ensures Walk(m.ram, r, q) == if r == s.cur && InRun(q, base, n + 1) then Unmapped else Walk(s.ram, r, q)
    {
      InRunNext(q, base, n);
    }
    forall f
      ensures f in m.free <==> f in s.free || (f in s.managed && FrameIn(s, base, n + 1, f))
    {
      FrameInNext(s, base, n, f);
    }
  }

  lemma FreedOne(s: Vm, m: Vm, m': Vm, base: nat, n: nat, l: Leaf)
    requires Freed(s, m, base, n) && PageLeaf(s, base, n) == l && l.Leaf? && Inv(m') && Inv(s)
    requires Updates(m, m', m.cur, PathOf(base + n * PAGE_4K), PAGE_4K, Unmapped)
    requires m' == m.(ram := m'.ram, free := m'.free)
             && m'.free == if l.base in m.managed then m.free + {l.base} else m.free
    ensures Freed(s, m', base, n + 1)
  {
    hide PathOf, Walk, InRun, FrameIn, Closed, FramesOk, PageLeaf;
    forall r: nat, q: Path | IsRoot(s, r)
      ensures Walk(m'.ram, r, q) == if r == s.cur && InRun(q, base, n + 1) then Unmapped else Walk(s.ram, r, q)
    {
      InRunNext(q, base, n);
      assert SameGranule(PathOf(base + n * PAGE_4K), q, PAGE_4K) <==> q == PathOf(base + n * PAGE_4K);
      assert Walk(m.ram, r, q) == if r == s.cur && InRun(q, base, n) then Unmapped else Walk(s.ram, r, q);
    }
    forall f
      ensures f in m'.free <==> f in s.free || (f in s.managed && FrameIn(s, base, n + 1, f))
    {
      FrameInNext(s, base, n, f);
    }
  }

  /** Freeing any range of data pages and holes, in any order: exactly its pages are unmapped and
      exactly the managed frames they mapped are given back. */
  lemma {:induction false} FreeRunFrees(s: Vm, hhdm: nat, base: nat, n: nat)
    requires Inv(s) && forall k: nat :: k < n ==> DataOrHole(s, base, k)
    requires base % PAGE_4K == 0 && base != 0 && base + n * PAGE_4K <= LOWER_HALF && base + n * PAGE_4K <= hhdm
    ensures Freed(s, FreeRun(s, hhdm, base, n), base, n)
  {
    hide Inv, VirtToPhys, Unmap, DataOrHole, Freed;
    if n == 0 {
      NothingFreed(s, base);
    } else {
      FreeRunFrees(s, hhdm, base, n - 1);
      assert DataOrHole(s, base, n - 1);
      FreeStep(s, FreeRun(s, hhdm, base, n - 1), hhdm, base, n - 1);
    }
  }

  lemma NothingFreed(s: Vm, base: nat)
    requires Inv(s)
    ensures Freed(s, s, base, 0)
  {
    hide PathOf, Walk, Closed, FramesOk;
  }

  // ----- whole calls

  /** The area lies in the lower half below the direct map, away from page zero, carries no
      huge or no-execute flag, and its pages are unmapped. */
  ghost predicate AreaReady(s: Vm, hhdm: nat, a: Area) {
    && a.base % PAGE_4K == 0 && a.base != 0 && a.base + a.size <= hhdm && a.base + a.size <= LOWER_HALF
    && !Has(a.flags, HUGE) && !Has(a.flags, NO_EXECUTE)
    && (forall k: nat :: a.base / PAGE_4K <= k && k * PAGE_4K < a.base + a.size ==>
          Walk(s.ram, s.cur, PathOf(k * PAGE_4K)) == Unmapped)
  }

  lemma ReadyVacant(s: Vm, hhdm: nat, a: Area, n: nat)
    requires AreaReady(s, hhdm, a) && n * PAGE_4K <= a.size
    ensures Vacant(s, a.base / PAGE_4K, n) && a.base + n * PAGE_4K <= hhdm
  {
    hide Walk, PathOf, Has;
    var v0 := a.base / PAGE_4K;
    forall k: nat | v0 <= k < v0 + n
      ensures Walk(s.ram, s.cur, PathOf(k * PAGE_4K)) == Unmapped
    {
      assert k * PAGE_4K < a.base + a.size;
    }
  }

  /** The attribute bits of the pages of an area: what the caller and the area ask for. */
  function AreaBits(flags: bv64, a: Area, nx: bool): nat {
    Bits(HwFlags(Or(flags, a.flags), nx))
  }

  lemma FillArea(s: Vm, hhdm: nat, a: Area, n: nat, flags: bv64, nx: bool)
    requires Inv(s) && AreaReady(s, hhdm, a) && n * PAGE_4K <= a.size
    requires !Has(flags, HUGE) && !Has(flags, NO_EXECUTE)
    ensures var (m, frames) := FillRun(s, a.base, n, HwFlags(Or(flags, a.flags), nx));
            && Filled(s, m, a.base / PAGE_4K, frames, AreaBits(flags, a, nx)) && Vacant(s, a.base / PAGE_4K, n)
            && a.base + n * PAGE_4K <= hhdm && a.base % PAGE_4K == 0 && a.base != 0
            && (|frames| < n ==> AtMostOne(m.free) && |s.free| < 4 * n)
            && (LeakFree(s) ==> LeakFree(m))
  {
    hide Walk, MapWord, PathOf, LeakFree, Has, HwFlags, Or, Inv, Window, Present, Huge, NoExecute;
    ReadyVacant(s, hhdm, a, n);
    OrFlags(flags, a.flags);
    HwFlagsMean(Or(flags, a.flags), nx);
    FillRunFills(s, a.base, n, HwFlags(Or(flags, a.flags), nx));
    EnoughFrames(s, a.base, n, HwFlags(Or(flags, a.flags), nx));
  }

  /** Emptying a filled area. */
  lemma EmptyArea(s: Vm, m: Vm, hhdm: nat, base: nat, n: nat, frames: seq<nat>, bits: nat)
    requires Inv(s) && Filled(s, m, base / PAGE_4K, frames, bits) && |frames| <= n && Vacant(s, base / PAGE_4K, n)
    requires base % PAGE_4K == 0 && base != 0 && base + n * PAGE_4K <= hhdm
    ensures var s' := CleanupRun(m, hhdm, base, |frames|);
            && Inv(s') && Untouched(s, s') && Grows(s, s', s.cur) && FreeRun(m, hhdm, base, |frames|) == s'
            && (LeakFree(m) ==> LeakFree(s'))
  {
    hide Walk, MapWord, PathOf, LeakFree, Inv, Filled, Draining, Untouched, Grows, VirtToPhys, Vacant;
    FewerVacant(s, base / PAGE_4K, n, |frames|);
    CleanupDrains(s, m, frames, hhdm, base, |frames|, bits);
    Drained(s, CleanupRun(m, hhdm, base, |frames|), base / PAGE_4K, frames, bits);
  }

  /** A failed allocation leaves every translation and every area as it was and gives back
      every data frame: only page-table frames stay taken. */
  lemma AllocateFails(s: Vm, areas: seq<Area>, hhdm: nat, size: nat, flags: bv64, nx: bool)
    requires Inv(s) && forall a :: a in areas && !a.used ==> AreaReady(s, hhdm, a)
    requires !Has(flags, HUGE) && !Has(flags, NO_EXECUTE)
    requires Allocate(s, areas, hhdm, size, flags, nx).2 == 0
    ensures var (s', areas', _) := Allocate(s, areas, hhdm, size, flags, nx);
            && Inv(s') && Untouched(s, s') && Grows(s, s', s.cur) && areas' == areas
            && (LeakFree(s) ==> LeakFree(s'))
  {
    assert Untouched(s, s) && Grows(s, s, s.cur);
    hide LeakFree, Has, HwFlags, Or, Inv, Filled, Untouched, Grows, Vacant, PageCount, FindArea, AreaReady,
         FillRun, CleanupRun, FreeRun;
    var n := PageCount(size);
    var found := FindArea(areas, n * PAGE_4K);
    if size != 0 && found.Some? {
      var area := areas[found.value];
      FillArea(s, hhdm, area, n, flags, nx);
      var (m, frames) := FillRun(s, area.base, n, HwFlags(Or(flags, area.flags), nx));
      EmptyArea(s, m, hhdm, area.base, n, frames, AreaBits(flags, area, nx));
    }
  }

  /** An allocation fails only when the size is zero, no area fits, or there are fewer than
      four free frames per page: one for the data and one for each level of tables. */
  lemma AllocateFailsWhen(s: Vm, areas: seq<Area>, hhdm: nat, size: nat, flags: bv64, nx: bool)
    requires Inv(s) && forall a :: a in areas && !a.used ==> AreaReady(s, hhdm, a)
    requires !Has(flags, HUGE) && !Has(flags, NO_EXECUTE)
    requires Allocate(s, areas, hhdm, size, flags, nx).2 == 0
    ensures var n := PageCount(size);
            size == 0 || FindArea(areas, n * PAGE_4K).None? || |s.free| < 4 * n
  {
    hide Has, HwFlags, Or, Inv, Filled, Vacant, PageCount, FindArea, AreaReady, FillRun, CleanupRun, LeakFree;
    var n := PageCount(size);
    var found := FindArea(areas, n * PAGE_4K);
    if size != 0 && found.Some? {
      FillArea(s, hhdm, areas[found.value], n, flags, nx);
      AreaBase(s, hhdm, areas[found.value]);
    }
  }

  lemma AreaBase(s: Vm, hhdm: nat, a: Area)
    requires AreaReady(s, hhdm, a)
    ensures a.base != 0
  {
  }

  /** A successful allocation maps private frames that were free, one per page of the first
      area that fits, and changes nothing else. */
  lemma AllocateSucceeds(s: Vm, areas: seq<Area>, hhdm: nat, size: nat, flags: bv64, nx: bool)
    requires Inv(s) && forall a :: a in areas && !a.used ==> AreaReady(s, hhdm, a)
    requires !Has(flags, HUGE) && !Has(flags, NO_EXECUTE)
    requires Allocate(s, areas, hhdm, size, flags, nx).2 != 0
    ensures var (s', areas', base) := Allocate(s, areas, hhdm, size, flags, nx);
            var n := PageCount(size);
            var found := FindArea(areas, n * PAGE_4K);
            && found.Some? && base == areas[found.value].base
            && areas' == areas[found.value := areas[found.value].(used := true)]
            && (LeakFree(s) ==> LeakFree(s')) && |s.free| >= n
            && exists frames :: |frames| == n && Filled(s, s', base / PAGE_4K, frames, AreaBits(flags, areas[found.value], nx))
  {
    hide LeakFree, Has, HwFlags, Or, Inv, Filled, Vacant, PageCount, FindArea, AreaReady, FillRun, CleanupRun;
    var n := PageCount(size);
    var found := FindArea(areas, n * PAGE_4K);
    if size != 0 && found.Some? {
      FillArea(s, hhdm, areas[found.value], n, flags, nx);
      var (m, frames) := FillRun(s, areas[found.value].base, n, HwFlags(Or(flags, areas[found.value].flags), nx));
      if |frames| == n {
        EveryFrameWasFree(s, m, areas[found.value].base / PAGE_4K, frames, AreaBits(flags, areas[found.value], nx));
      }
    }
  }

  /** Bases of distinct areas differ. */
  predicate DistinctBases(areas: seq<Area>) {
    forall i, j :: 0 <= i < j < |areas| ==> areas[i].base != areas[j].base
  }

  lemma {:induction false} ReleaseUndoes(areas: seq<Area>, i: nat)
    requires DistinctBases(areas) && i < |areas| && !areas[i].used
    ensures ReleaseArea(areas[i := areas[i].(used := true)], areas[i].base) == areas
  {
    var marked := areas[i := areas[i].(used := true)];
    if i == 0 {
    } else {
      assert marked[1..] == areas[1..][i - 1 := areas[1..][i - 1].(used := true)];
      ReleaseUndoes(areas[1..], i - 1);
    }
  }

  /** An address that is no area's base changes no area. */
  lemma {:induction false} ReleaseNothing(areas: seq<Area>, base: nat)
    requires forall i :: 0 <= i < |areas| ==> areas[i].base != base
    ensures ReleaseArea(areas, base) == areas
  {
    if areas == [] {
    } else {
      ReleaseNothing(areas[1..], base);
    }
  }

  /** Allocating and then freeing the same size unmaps the range, gives back exactly the
      data frames and frees the area: only page tables stay taken. */
  lemma AllocateThenFree(s: Vm, areas: seq<Area>, hhdm: nat, size: nat, flags: bv64, nx: bool)
    requires Inv(s) && DistinctBases(areas) && forall a :: a in areas && !a.used ==> AreaReady(s, hhdm, a)
    requires !Has(flags, HUGE) && !Has(flags, NO_EXECUTE)
    requires Allocate(s, areas, hhdm, size, flags, nx).2 != 0
    ensures var (m, areas', base) := Allocate(s, areas, hhdm, size, flags, nx);
            var (s', areas'') := Free(m, areas', hhdm, base, size);
            && Inv(s') && Untouched(s, s') && Grows(s, s', s.cur) && areas'' == areas
            && (LeakFree(s) ==> LeakFree(s'))
  {
    hide LeakFree, Has, HwFlags, Or, Inv, Filled, Untouched, Grows, Vacant, PageCount, FindArea, AreaReady,
         FillRun, CleanupRun, FreeRun,
         DistinctBases, ReleaseArea;
    var n := PageCount(size);
    var found := FindArea(areas, n * PAGE_4K);
    if size != 0 && found.Some? {
      var area := areas[found.value];
      FillArea(s, hhdm, area, n, flags, nx);
      var (m, frames) := FillRun(s, area.base, n, HwFlags(Or(flags, area.flags), nx));
      EmptyArea(s, m, hhdm, area.base, n, frames, AreaBits(flags, area, nx));
      ReleaseUndoes(areas, found.value);
    }
  }
}
