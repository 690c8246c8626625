/** The pages `vmm_allocate` hands out: cleared, and with the rights of the request and of its
    area together. */
module UserRights {
  import opened PageTables
  import opened VmState
  import opened MappingLaws
  import opened PageBlocks
  import opened VmFlags
  import opened BulkMapping
  import opened UserMemory
  import opened AccessRights

  // ----- contents

  /** Frames that are no tables afterwards hold what they held. */
  ghost predicate KeepsData(s: Vm, s': Vm) {
    forall f: nat, j: Index {:trigger Load(s'.ram, f, j)} :: f !in s'.own ==> Load(s'.ram, f, j) == Load(s.ram, f, j)
  }

  lemma KeepsTrans(s: Vm, m: Vm, s': Vm)
    requires KeepsData(s, m) && KeepsData(m, s') && forall f :: f in m.own ==> f in s'.own
    ensures KeepsData(s, s')
  {
    hide Load;
  }

  lemma EnsureKeepsData(s: Vm, t: nat, i: Index, user: bool)
    requires t in s.own
    ensures KeepsData(s, EnsureTable(s, t, i, user).0)
    ensures forall f :: f in s.own ==> f in EnsureTable(s, t, i, user).0.own
  {
    hide Present, Addr;
  }

  lemma WriteKeepsData(s: Vm, t: nat, i: Index, w: nat)
    requires t in s.own
    ensures KeepsData(s, WriteWord(s, t, i, w))
  {
    WordWritten(s, t, i, w);
    hide Load, Store;
  }

  lemma Reach2KeepsData(s: Vm, r: nat, p: Path, user: bool)
    requires Inv(s) && IsRoot(s, r) && p.i4 < 256
    ensures KeepsData(s, Reach2(s, r, p, user).0)
    ensures forall f :: f in s.own ==> f in Reach2(s, r, p, user).0.own
  {
    EnsureKeepsData(s, r, p.i4, user);
    Reach3Keeps(s, r, p, user);
    hide EnsureTable, Walk, Present, Huge, Addr, Load, LeakFree, KeepsData;
    var (s3, t3) := EnsureTable(s, r, p.i4, user);
    if t3 != 0 {
      ChildOf(s3, r, p, t3);
      EnsureKeepsData(s3, t3, p.i3, user);
      KeepsTrans(s, s3, EnsureTable(s3, t3, p.i3, user).0);
    }
  }

  /** A 4 KiB map without a huge leaf on its path writes into tables only. */
  lemma MapKeepsData(s: Vm, root: nat, virt: nat, phys: nat, hw: nat)
    requires Inv(s) && IsRoot(s, root) && PathOf(virt).i4 < 256 && !LargeStep(virt, phys, hw)
    requires var l := Walk(s.ram, root, PathOf(virt)); l.Leaf? ==> l.size == PAGE_4K
    ensures KeepsData(s, MapWord(s, root, virt, phys, hw).0)
  {
    if virt != 0 && phys != 0 {
      var p, user := PathOf(virt), virt < TOP_BIT;
      MapSmallSteps(s, root, virt, phys, hw);
      SmallKeepsData(s, root, p, user, Entry(Addr(phys), hw));
    }
  }

  lemma SmallKeepsData(s: Vm, root: nat, p: Path, user: bool, w: nat)
    requires Inv(s) && IsRoot(s, root) && p.i4 < 256
    requires Walk(s.ram, root, p).Leaf? ==> Walk(s.ram, root, p).size == PAGE_4K
    ensures var (s1, t1) := Reach1(s, root, p, user);
            KeepsData(s, s1) && (t1 != 0 ==> KeepsData(s, WriteWord(s1, t1, p.i1, w)))
  {
    hide Walk, Present, Huge, Load, Addr, LeakFree, Holds2, Holds1, Reach2, EnsureTable, KeepsData, Closed, FramesOk;
    Reach2KeepsData(s, root, p, user);
    Reach2Keeps(s, root, p, user);
    var (s2, t2) := Reach2(s, root, p, user);
    if t2 != 0 {
      GrandchildOf(s2, root, p, EnsureTable(s, root, p.i4, user).1, t2);
      EnsureKeepsData(s2, t2, p.i2, user);
      Reach1Keeps(s, root, p, user);
      var (s1, t1) := EnsureTable(s2, t2, p.i2, user);
      KeepsTrans(s, s2, s1);
      if t1 != 0 {
        LastOf(s1, root, p, EnsureTable(s, root, p.i4, user).1, t2, t1);
        WriteKeepsData(s1, t1, p.i1, w);
        KeepsTrans(s, s1, WriteWord(s1, t1, p.i1, w));
      }
    }
  }

  /** Every word of the frame is 0. */
  ghost predicate IsClear(s: Vm, f: nat) {
    forall j: Index :: Load(s.ram, f, j) == 0
  }

  ghost predicate AllClear(s: Vm, frames: seq<nat>) {
    forall i :: 0 <= i < |frames| ==> IsClear(s, frames[i])
  }

  // ----- filling

  /** The next page behind a filled range is unmapped. */
  lemma NextVacant(s: Vm, m: Vm, v0: nat, va: nat, frames: seq<nat>, bits: nat)
    requires Filled(s, m, v0, frames, bits) && Vacant(s, v0, |frames| + 1) && va / PAGE_4K == v0 + |frames| && Inv(s)
    ensures Walk(m.ram, m.cur, PathOf(va)) == Unmapped && va < LOWER_HALF && PathOf(va).i4 < 256 && m.cur == s.cur
  {
    hide Walk, PathOf, Closed, FramesOk;
    PageOf(va, v0 + |frames|);
    assert WindowAt(s, m, v0, Leaves(frames, bits), 0, 0, 0, |frames|, s.cur, v0 + |frames|);
  }

  ghost predicate Ready(m: Vm, frames: seq<nat>) {
    Opened(m) && AllClear(m, frames)
  }

  /** One turn of the filling loop keeps the links open and the frames mapped so far clear. */
  lemma FillTurn(s: Vm, m: Vm, v0: nat, va: nat, frames: seq<nat>, hw: nat)
    requires Inv(s) && Filled(s, m, v0, frames, Bits(hw)) && Vacant(s, v0, |frames| + 1) && m.free != {}
    requires va / PAGE_4K == v0 + |frames| && va != 0 && Present(hw) && !Huge(hw) && !NoExecute(hw) && Ready(m, frames)
    ensures var (m1, f) := TakeFrame(m);
            var (m2, ok) := MapWord(m1, m1.cur, va, f, hw);
            && f != 0 && (ok ==> Ready(m2.(ram := Clear(m2.ram, f)), frames + [f]))
            && (!ok ==> Ready(GiveFrame(m2, f), frames))
  {
    NextVacant(s, m, v0, va, frames, Bits(hw));
    FilledInv(s, m, v0, frames, Bits(hw));
    TakeKeeps(m);
    FillStep(s, m, v0, va, frames, hw);
    hide Walk, PathOf, Present, NoExecute, LeakFree, Vacant, Filled, MapWord, LinksOpen, Closed, FramesOk;
    var (m1, f) := TakeFrame(m);
    TakenOpens(m);
    MapOpens(m1, m1.cur, va, f, hw);
    MapKeepsData(m1, m1.cur, va, f, hw);
    var (m2, ok) := MapWord(m1, m1.cur, va, f, hw);
    if ok {
      ClearedReady(s, m1, m2, v0, frames, f, Bits(hw));
    } else {
      ReturnedReady(s, m1, m2, v0, frames, f, Bits(hw));
    }
  }

  lemma FilledInv(s: Vm, m: Vm, v0: nat, frames: seq<nat>, bits: nat)
    requires Filled(s, m, v0, frames, bits)
    ensures Inv(m) && forall f :: f in frames ==> f !in m.own
  {
    hide Inv, Window;
    forall f | f in frames
      ensures f !in m.own
    {
      assert f in Elements(frames);
    }
  }

  lemma TakenOpens(m: Vm)
    requires Opened(m) && m.free != {}
    ensures Opened(TakeFrame(m).0)
  {
    SameTablesOpen(m, TakeFrame(m).0);
  }

  /** Open links depend on the tables only. */
  lemma SameTablesOpen(m: Vm, m': Vm)
    requires Opened(m) && m'.own == m.own && m'.managed == m.managed
    requires forall f: nat, j: Index :: f in m.own ==> Load(m'.ram, f, j) == Load(m.ram, f, j)
    ensures Opened(m')
  {
    hide Present, Huge, Load, OpenLink;
    forall f: nat, i: Index | LinkPoint(m', f, i) && Links(m'.own[f].level, Load(m'.ram, f, i))
      ensures OpenLink(Load(m'.ram, f, i))
    {
      assert LinkPoint(m, f, i);
      assert Load(m'.ram, f, i) == Load(m.ram, f, i);
    }
  }

  lemma ClearedReady(s: Vm, m1: Vm, m2: Vm, v0: nat, frames: seq<nat>, f: nat, bits: nat)
    requires AllClear(m1, frames) && KeepsData(m1, m2) && Opened(m2)
    requires Filled(s, m2.(ram := Clear(m2.ram, f)), v0, frames + [f], bits)
    ensures Ready(m2.(ram := Clear(m2.ram, f)), frames + [f])
  {
    var m3 := m2.(ram := Clear(m2.ram, f));
    FilledInv(s, m3, v0, frames + [f], bits);
    assert f in frames + [f];
    assert forall g: nat, j: Index :: Load(m3.ram, g, j) == if g == f then 0 else Load(m2.ram, g, j);
    hide Load, Clear, Filled, Opened;
    SameTablesOpen(m2, m3);
    forall i | 0 <= i < |frames + [f]|
      ensures IsClear(m3, (frames + [f])[i])
    {
      var g := (frames + [f])[i];
      if i < |frames| {
        assert g in frames + [f];
        assert IsClear(m1, frames[i]);
      }
    }
  }

  lemma ReturnedReady(s: Vm, m1: Vm, m2: Vm, v0: nat, frames: seq<nat>, f: nat, bits: nat)
    requires AllClear(m1, frames) && KeepsData(m1, m2) && Opened(m2)
    requires Filled(s, GiveFrame(m2, f), v0, frames, bits)
    ensures Ready(GiveFrame(m2, f), frames)
  {
    var m3 := GiveFrame(m2, f);
    FilledInv(s, m3, v0, frames, bits);
    assert m3.ram == m2.ram && m3.own == m2.own;
    hide Load, Filled, Opened;
    SameTablesOpen(m2, m3);
    forall i | 0 <= i < |frames|
      ensures IsClear(m3, frames[i])
    {
      assert frames[i] in frames;
      assert IsClear(m1, frames[i]);
    }
  }

  /** Filling leaves every frame it maps cleared, and the links open. */
  lemma {:induction false} FillRunClears(s: Vm, base: nat, n: nat, hw: nat)
    requires Inv(s) && Vacant(s, base / PAGE_4K, n) && base != 0 && Opened(s)
    requires Present(hw) && !Huge(hw) && !NoExecute(hw)
    ensures var (m, frames) := FillRun(s, base, n, hw); Ready(m, frames)
  {
    hide LeakFree, MapWord, Walk, PathOf, Inv, WindowAt, Present, Huge, NoExecute, Vacant, Filled, Ready;
    if n == 0 {
      NothingReady(s);
    } else {
      FewerVacant(s, base / PAGE_4K, n, n - 1);
      FillRunClears(s, base, n - 1, hw);
      FillRunFills(s, base, n - 1, hw);
      var (m, frames) := FillRun(s, base, n - 1, hw);
      if |frames| == n - 1 {
        if m.free == {} {
          NoFrame(m);
        } else {
          PageStep(base, n - 1);
          FillTurn(s, m, base / PAGE_4K, base + (n - 1) * PAGE_4K, frames, hw);
        }
      }
    }
  }

  lemma NothingReady(s: Vm)
    requires Opened(s)
    ensures Ready(s, [])
  {
  }

  lemma NoFrame(m: Vm)
    requires m.free == {}
    ensures TakeFrame(m) == (m, 0)
  {
  }

  // ----- a whole allocation

  /** Page `k` from `base` on is mapped to a cleared frame, with the rights asked for. */
  ghost predicate PageGiven(s: Vm, base: nat, k: nat, asked: bv64, nx: bool) {
    var p := PathOf((base / PAGE_4K + k) * PAGE_4K);
    var l := Walk(s.ram, s.cur, p);
    && l.Leaf? && IsClear(s, l.base) && AsAsked(l, asked, nx)
    && AccessAt(s.ram, s.cur, p) == Access.Access(Has(asked, 0x2), Has(asked, 0x4), true)
  }

  /** The bits of a page allow what the caller or its area asks for. */
  lemma AreaLeafAsAsked(f: nat, flags: bv64, a: Area, nx: bool)
    requires f % PAGE_4K == 0 && f < TOP_BIT && !Has(flags, NO_EXECUTE) && !Has(a.flags, NO_EXECUTE)
    ensures AsAsked(Leaf(f, PAGE_4K, AreaBits(flags, a, nx)), Or(flags, a.flags), nx)
    ensures LeafAccess(Leaf(f, PAGE_4K, AreaBits(flags, a, nx)))
            == Access.Access(Has(Or(flags, a.flags), 0x2), Has(Or(flags, a.flags), 0x4), true)
  {
    hide HwFlags, AsAsked, LeafAccess, Has, Or, Bits, Stored;
    var both := Or(flags, a.flags);
    OrFlags(flags, a.flags);
    HwFlagsMean(both, nx);
    WrittenAsAsked(f, both, nx, PAGE_4K);
    FrameStored(f, HwFlags(both, nx));
    AskedAccess(Leaf(f, PAGE_4K, AreaBits(flags, a, nx)), both, nx);
  }

  /** After a successful allocation every page of it is mapped to a cleared frame, and the rights
      combined over all levels are those the request and the area ask for together. */
  lemma AllocateGivesRights(s: Vm, areas: seq<Area>, hhdm: nat, size: nat, flags: bv64, nx: bool, k: nat)
    requires Inv(s) && Opened(s) && forall a :: a in areas && !a.used ==> AreaReady(s, hhdm, a)
    requires !Has(flags, HUGE) && !Has(flags, NO_EXECUTE) && k < PageCount(size)
    requires Allocate(s, areas, hhdm, size, flags, nx).2 != 0
    ensures var (s', _, base) := Allocate(s, areas, hhdm, size, flags, nx);
            var found := FindArea(areas, PageCount(size) * PAGE_4K);
            found.Some? && PageGiven(s', base, k, Or(flags, areas[found.value].flags), nx)
  {
    hide LeakFree, Has, HwFlags, Inv, Vacant, PageCount, FindArea, AreaReady, FillRun, CleanupRun, Filled,
         PageGiven, Opened, AreaBits;
    var n := PageCount(size);
    var found := FindArea(areas, n * PAGE_4K);
    if size != 0 && found.Some? {
      var a := areas[found.value];
      FillArea(s, hhdm, a, n, flags, nx);
      ClearedArea(s, hhdm, a, n, flags, nx);
      var (m, frames) := FillRun(s, a.base, n, HwFlags(Or(flags, a.flags), nx));
      if |frames| == n {
        PageAsAsked(s, m, a, frames, flags, nx, k);
      }
    }
  }

  lemma ClearedArea(s: Vm, hhdm: nat, a: Area, n: nat, flags: bv64, nx: bool)
    requires Inv(s) && AreaReady(s, hhdm, a) && n * PAGE_4K <= a.size && Opened(s)
    requires !Has(flags, HUGE) && !Has(flags, NO_EXECUTE)
    ensures var (m, frames) := FillRun(s, a.base, n, HwFlags(Or(flags, a.flags), nx));
            Ready(m, frames) && !Has(a.flags, NO_EXECUTE)
  {
    hide Walk, MapWord, PathOf, LeakFree, Has, HwFlags, Or, Inv, Window, Present, Huge, NoExecute, Ready, Opened;
    ReadyVacant(s, hhdm, a, n);
    OrFlags(flags, a.flags);
    HwFlagsMean(Or(flags, a.flags), nx);
    FillRunClears(s, a.base, n, HwFlags(Or(flags, a.flags), nx));
  }

  lemma PageAsAsked(s: Vm, m: Vm, a: Area, frames: seq<nat>, flags: bv64, nx: bool, k: nat)
    requires Inv(s) && k < |frames| && Ready(m, frames) && Vacant(s, a.base / PAGE_4K, |frames|)
    requires Filled(s, m, a.base / PAGE_4K, frames, AreaBits(flags, a, nx))
    requires !Has(flags, NO_EXECUTE) && !Has(a.flags, NO_EXECUTE)
    ensures PageGiven(m, a.base, k, Or(flags, a.flags), nx)
  {
    hide Walk, PathOf, Closed, AccessAt, LeafAccess, AsAsked, AreaBits, IsClear, Has;
    var f, n := frames[k], a.base / PAGE_4K + k;
    assert f in Elements(frames);
    assert WindowAt(s, m, a.base / PAGE_4K, Leaves(frames, AreaBits(flags, a, nx)), 0, 0, 0, |frames|, s.cur, n);
    PathIsPage(n * PAGE_4K, n * PAGE_4K);
    AreaLeafAsAsked(f, flags, a, nx);
    LeafDecides(m, s.cur, PathOf(n * PAGE_4K));
  }
}
