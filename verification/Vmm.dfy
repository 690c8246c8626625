/** The allocator's bitmap seen as the set of frames it would hand out. */
module FrameSets {
  import opened Options
  import opened PageTables
  import Runs = PageRuns
  import opened VmState

  ghost function FrameOf(start: nat, i: nat): nat { start + i * PAGE_4K }

  ghost function FreeSet(start: nat, bits: seq<bool>): set<nat> {
    set i | 0 <= i < |bits| && !bits[i] :: FrameOf(start, i)
  }

  ghost function ManagedSet(start: nat, n: nat): set<nat> {
    set i | 0 <= i < n :: FrameOf(start, i)
  }

  lemma FreeSetHas(start: nat, bits: seq<bool>, i: nat)
    requires i < |bits|
    ensures FrameOf(start, i) in FreeSet(start, bits) <==> !bits[i]
  {
    if FrameOf(start, i) in FreeSet(start, bits) {
      var j :| 0 <= j < |bits| && !bits[j] && FrameOf(start, j) == FrameOf(start, i);
      assert j == i;
    }
  }

  /** Marking one page used, or free, removes or adds exactly its frame. */
  lemma FreeSetUpdate(start: nat, bits: seq<bool>, i: nat)
    requires i < |bits|
    ensures FreeSet(start, bits[i := true]) == FreeSet(start, bits) - {FrameOf(start, i)}
    ensures FreeSet(start, bits[i := false]) == FreeSet(start, bits) + {FrameOf(start, i)}
  {
    forall f
      ensures f in FreeSet(start, bits[i := true]) <==> f in FreeSet(start, bits) && f != FrameOf(start, i)
      ensures f in FreeSet(start, bits[i := false]) <==> f in FreeSet(start, bits) || f == FrameOf(start, i)
    {
      if f in FreeSet(start, bits) {
        var j :| 0 <= j < |bits| && !bits[j] && FrameOf(start, j) == f;
        FreeSetHas(start, bits[i := true], j);
        FreeSetHas(start, bits[i := false], j);
      }
      if f in FreeSet(start, bits[i := true]) {
        var j :| 0 <= j < |bits| && !bits[i := true][j] && FrameOf(start, j) == f;
        FreeSetHas(start, bits, j);
      }
      if f in FreeSet(start, bits[i := false]) {
        var j :| 0 <= j < |bits| && !bits[i := false][j] && FrameOf(start, j) == f;
        FreeSetHas(start, bits, j);
      }
      FreeSetHas(start, bits[i := false], i);
      FreeSetHas(start, bits[i := true], i);
    }
  }

  /** The first free page is the lowest free frame. */
  lemma FirstIsLowest(start: nat, bits: seq<bool>)
    ensures Runs.FirstRun(bits, 1).None? ==> FreeSet(start, bits) == {}
    ensures Runs.FirstRun(bits, 1).Some? ==>
              var i := Runs.FirstRun(bits, 1).value;
              && i < |bits| && FreeSet(start, bits) != {} && Lowest(FreeSet(start, bits)) == FrameOf(start, i)
              && Runs.Mark(bits, i, 1, true) == bits[i := true]
  {
    match Runs.FirstRun(bits, 1)
    case None =>
      forall j | 0 <= j < |bits|
        ensures bits[j]
      {
        assert Runs.RunAt(bits, j, 1) <==> !bits[j];
      }
    case Some(i) =>
      assert !bits[i];
      FreeSetHas(start, bits, i);
      var low := Lowest(FreeSet(start, bits));
      var j :| 0 <= j < |bits| && !bits[j] && FrameOf(start, j) == low;
      assert Runs.RunAt(bits, j, 1);
      assert i <= j;
  }

  /** With a page-aligned start, the pages accepted back are the managed frames. */
  lemma AcceptsManaged(start: nat, bits: seq<bool>, page: nat)
    requires start % PAGE_4K == 0
    ensures Runs.Accepts(start, bits, page) <==> page in ManagedSet(start, |bits|)
    ensures Runs.Accepts(start, bits, page) ==>
              (page - start) / PAGE_4K < |bits| && FrameOf(start, (page - start) / PAGE_4K) == page
  {
    if Runs.Accepts(start, bits, page) {
      var i := (page - start) / PAGE_4K;
      assert FrameOf(start, i) == page;
    }
    if page in ManagedSet(start, |bits|) {
      var i :| 0 <= i < |bits| && FrameOf(start, i) == page;
      assert page % PAGE_4K == 0;
    }
  }
}

/** The virtual memory manager, updating page tables in place. */
module VirtualMemory {
  import opened Options
  import opened PageTables
  import opened VmState
  import opened VmFlags
  import opened BulkMapping
  import opened UserMemory
  import opened FrameSets
  import Runs = PageRuns
  import opened PhysicalMemory

  class Vmm {
    const pmm: Pmm
    const hhdm: nat
    const nx: bool
    var ram: Ram
    var current: nat
    var userAreas: seq<Area>
    /** Bookkeeping only: what each table frame is used as. */
    ghost var own: map<nat, Tbl>

    ghost predicate Valid()
      reads this, pmm, pmm.bitmap
    {
      pmm.Valid() && pmm.kernelStart % PAGE_4K == 0
    }

    ghost function State(): Vm
      requires Valid()
      reads this, pmm, pmm.bitmap
    {
      Vm(ManagedSet(pmm.kernelStart, pmm.maxPages), FreeSet(pmm.kernelStart, pmm.Bits()), ram, current, own)
    }

    constructor (pmm: Pmm, hhdm: nat, nx: bool, ram: Ram, root: nat, areas: seq<Area>, ghost own: map<nat, Tbl>)
      requires pmm.Valid() && pmm.kernelStart % PAGE_4K == 0
      ensures Valid() && this.pmm == pmm && this.hhdm == hhdm && this.nx == nx && userAreas == areas
      ensures State() == Vm(ManagedSet(pmm.kernelStart, pmm.maxPages), FreeSet(pmm.kernelStart, pmm.Bits()), ram, root, own)
    {
      this.pmm, this.hhdm, this.nx, this.ram, this.current, this.userAreas := pmm, hhdm, nx, ram, root, areas;
      this.own := own;
    }

    method AllocFrame() returns (f: nat)
      requires Valid()
      modifies pmm, pmm.bitmap
      ensures Valid() && (State(), f) == TakeFrame(old(State()))
    {
      ghost var bits := pmm.Bits();
      FirstIsLowest(pmm.kernelStart, bits);
      f := pmm.AllocPage();
      if f != 0 {
        FreeSetUpdate(pmm.kernelStart, bits, Runs.FirstRun(bits, 1).value);
      }
    }

    method FreeFrame(page: nat)
      requires Valid()
      modifies pmm.bitmap
      ensures Valid() && State() == GiveFrame(old(State()), page)
    {
      ghost var bits := pmm.Bits();
      AcceptsManaged(pmm.kernelStart, bits, page);
      pmm.FreePage(page);
      if Runs.Accepts(pmm.kernelStart, bits, page) {
        FreeSetUpdate(pmm.kernelStart, bits, (page - pmm.kernelStart) / PAGE_4K);
      }
    }

    method CreatePageTable() returns (f: nat)
      requires Valid()
      modifies this`ram, pmm, pmm.bitmap
      ensures Valid() && (State(), f) == NewTable(old(State()))
    {
      f := AllocFrame();
      if f == 0 {
        return;
      }
      ram := Clear(ram, f);
    }

    method WriteEntry(t: nat, i: Index, w: nat)
      requires Valid()
      modifies this`ram
      ensures Valid() && State() == WriteWord(old(State()), t, i, w)
    {
      ram := Store(ram, t, i, w);
    }

    /** One level of the descent: use the table that is there, or create and link one. */
    method EnsureTableAt(t: nat, i: Index, user: bool) returns (c: nat)
      requires Valid()
      modifies this`ram, this`own, pmm, pmm.bitmap
      ensures Valid() && (State(), c) == EnsureTable(old(State()), t, i, user)
    {
      var w := Load(ram, t, i);
      if !Present(w) {
        c := CreatePageTable();
        if c == 0 {
          return;
        }
        ghost var kind := Child(own, t, i);
        WriteEntry(t, i, LinkWord(c, user));
        own := own[c := kind];
      } else {
        c := Addr(w);
      }
    }

    method MapPageInternal(root: nat, virt: nat, phys: nat, hw: nat) returns (ok: bool)
      requires Valid()
      modifies this`ram, this`own, pmm, pmm.bitmap
      ensures Valid() && (State(), ok) == MapWord(old(State()), root, virt, phys, hw)
    {
      hide PathOf, Addr, Present, Huge, Entry, EnsureTable, WriteWord;
      if root == 0 || virt == 0 || phys == 0 {
        return false;
      }
      var page, frame, p, user := Addr(virt), Addr(phys), PathOf(virt), virt < TOP_BIT;
      var t3 := EnsureTableAt(root, p.i4, user);
      if t3 == 0 {
        return false;
      }
      if Huge(hw) && page % PAGE_1G == 0 && frame % PAGE_1G == 0 {
        WriteEntry(t3, p.i3, Entry(frame, hw));
        return true;
      }
      var t2 := EnsureTableAt(t3, p.i3, user);
      if t2 == 0 {
        return false;
      }
      if Huge(hw) && page % PAGE_2M == 0 && frame % PAGE_2M == 0 {
        WriteEntry(t2, p.i2, Entry(frame, hw));
        return true;
      }
      var t1 := EnsureTableAt(t2, p.i2, user);
      if t1 == 0 {
        return false;
      }
      WriteEntry(t1, p.i1, Entry(frame, hw));
      return true;
    }

    method MapOne(virt: nat, phys: nat, flags: bv64) returns (ok: bool)
      requires Valid()
      modifies this`ram, this`own, pmm, pmm.bitmap
      ensures Valid() && (State(), ok) == MapPage(old(State()), virt, phys, flags, nx)
    {
      hide HwFlags;
      if virt == 0 {
        return false;
      }
      if phys == 0 {
        return false;
      }
      ok := MapPageInternal(current, virt, phys, HwFlags(flags, nx));
    }

    method UnmapPage(virt: nat) returns (ok: bool)
      requires Valid()
      modifies this`ram
      ensures Valid() && (State(), ok) == Unmap(old(State()), virt)
    {
      hide PathOf, Addr, Present, Huge;
      if virt == 0 || current == 0 {
        return false;
      }
      var p := PathOf(virt);
      var e4 := Load(ram, current, p.i4);
      if !Present(e4) {
        return false;
      }
      var t3 := Addr(e4);
      var e3 := Load(ram, t3, p.i3);
      if t3 == 0 || !Present(e3) {
        return false;
      }
      if Huge(e3) {
        WriteEntry(t3, p.i3, 0);
        return true;
      }
      var t2 := Addr(e3);
      var e2 := Load(ram, t2, p.i2);
      if t2 == 0 || !Present(e2) {
        return false;
      }
      if Huge(e2) {
        WriteEntry(t2, p.i2, 0);
        return true;
      }
      var t1 := Addr(e2);
      if t1 == 0 || !Present(Load(ram, t1, p.i1)) {
        return false;
      }
      WriteEntry(t1, p.i1, 0);
      return true;
    }

    method UnmapRange(virt: nat, n: nat, size: nat)
      requires Valid()
      modifies this`ram
      ensures Valid() && State() == UnmapRun(old(State()), virt, n, size)
    {
      hide Unmap;
      for j := 0 to n
        invariant Valid() && State() == UnmapRun(old(State()), virt, j, size)
      {
        var _ := UnmapPage(virt + j * size);
      }
    }

    /** The mapping loop shared by the three branches of `vmm_map_pages`; stops at the first
        failure and returns how many blocks were mapped. */
    method MapRange(virt: nat, phys: nat, n: nat, size: nat, flags: bv64) returns (k: nat)
      requires Valid()
      modifies this`ram, this`own, pmm, pmm.bitmap
      ensures Valid() && (State(), k) == MapRun(old(State()), virt, phys, n, size, HwFlags(flags, nx))
    {
      hide MapWord, HwFlags;
      ghost var hw := HwFlags(flags, nx);
      k := 0;
      while k < n
        invariant k <= n && Valid()
        invariant (State(), k) == MapRun(old(State()), virt, phys, k, size, hw)
      {
        var ok := MapOne(virt + k * size, phys + k * size, flags);
        if !ok {
          MapRunStops(old(State()), virt, phys, k, n, size, hw);
          return;
        }
        k := k + 1;
      }
    }

    method MapMany(virt: nat, phys: nat, count: nat, flags: bv64) returns (ok: bool)
      requires Valid()
      modifies this`ram, this`own, pmm, pmm.bitmap
      ensures Valid() && (State(), ok) == MapPages(old(State()), virt, phys, count, flags, nx)
    {
      hide MapRun, UnmapRun, HwFlags, MapWord;
      if Has(flags, HUGE) && virt % PAGE_2M == 0 && phys % PAGE_2M == 0 && count >= 512 {
        var h, rest := count / 512, count % 512;
        var k := MapRange(virt, phys, h, PAGE_2M, flags);
        if k < h {
          UnmapRange(virt, k, PAGE_2M);
          return false;
        }
        var v, p := virt + h * PAGE_2M, phys + h * PAGE_2M;
        k := MapRange(v, p, rest, PAGE_4K, flags & !HUGE);
        if k < rest {
          UnmapRange(v, k, PAGE_4K);
          UnmapRange(virt, h, PAGE_2M);
          return false;
        }
        return true;
      }
      var k := MapRange(virt, phys, count, PAGE_4K, flags & !HUGE);
      if k < count {
        UnmapRange(virt, k, PAGE_4K);
        return false;
      }
      return true;
    }

    method GetPhysicalAddress(va: nat) returns (phys: nat)
      requires Valid()
      ensures phys == VirtToPhys(State(), hhdm, va)
    {
      hide PathOf, Addr, Present, Huge;
      if va >= hhdm {
        return va - hhdm;
      }
      var p := PathOf(va);
      var e4 := Load(ram, current, p.i4);
      if current == 0 || !Present(e4) {
        return 0;
      }
      var t3 := Addr(e4);
      var e3 := Load(ram, t3, p.i3);
      if t3 == 0 || !Present(e3) {
        return 0;
      }
      if Huge(e3) {
        return Addr(e3) + va % PAGE_1G;
      }
      var t2 := Addr(e3);
      var e2 := Load(ram, t2, p.i2);
      if t2 == 0 || !Present(e2) {
        return 0;
      }
      if Huge(e2) {
        return Addr(e2) + va % PAGE_2M;
      }
      var t1 := Addr(e2);
      var e1 := Load(ram, t1, p.i1);
      if t1 == 0 || !Present(e1) {
        return 0;
      }
      return Addr(e1) + va % PAGE_4K;
    }

    /** Says exactly whether the walk finds a leaf, or the address is in the direct map. */
    method IsMappedAt(va: nat) returns (mapped: bool)
      requires Valid()
      ensures mapped <==> va >= hhdm || Translate(State().ram, current, va).Some?
    {
      hide PathOf, Addr, Present, Huge;
      if va >= hhdm {
        return true;
      }
      var p := PathOf(va);
      var e4 := Load(ram, current, p.i4);
      if current == 0 || !Present(e4) {
        return false;
      }
      var t3 := Addr(e4);
      var e3 := Load(ram, t3, p.i3);
      if t3 == 0 || !Present(e3) {
        return false;
      }
      if Huge(e3) {
        return true;
      }
      var t2 := Addr(e3);
      var e2 := Load(ram, t2, p.i2);
      if t2 == 0 || !Present(e2) {
        return false;
      }
      if Huge(e2) {
        return true;
      }
      var t1 := Addr(e2);
      return t1 != 0 && Present(Load(ram, t1, p.i1));
    }

    method CreateAddressSpace() returns (root: nat)
      requires Valid()
      modifies this`ram, this`own, pmm, pmm.bitmap
      ensures Valid() && (State(), root) == CreateSpace(old(State()))
    {
      root := CreatePageTable();
      if root == 0 {
        return;
      }
      ghost var cleared := ram;
      ghost var pm := pmm.Bits();
      assert CopiedTo(cleared, current, 256) == ZeroPage() == cleared[root];
      for i := 256 to 512
        invariant Valid() && pmm.Bits() == pm && own == old(own)
        invariant ram == cleared[root := CopiedTo(cleared, current, i)]
      {
        var j: Index := i;
        assert Load(ram, current, j) == Load(cleared, current, j);
        ram := Store(ram, root, j, Load(ram, current, j));
        assert ram[root] == CopiedTo(cleared, current, i + 1);
      }
      assert CopiedTo(cleared, current, 512) == HigherHalf(cleared, current);
      own := own[root := Owned(4, root, 0, 0)];
    }

    method SwitchAddressSpace(root: nat)
      requires Valid()
      modifies this`current
      ensures Valid() && State() == Switch(old(State()), root)
    {
      if root == 0 || root == current {
        return;
      }
      current := root;
    }

    /** Frees the page tables below a page directory; `freed` is what `s` has given back. */
    method FreePageTables(pd: nat, ghost s: Vm, ghost freed: seq<nat>)
      requires Valid() && State() == GiveAll(s, freed)
      modifies pmm.bitmap
      ensures Valid() && State() == GiveAll(s, freed + PtFrames(ram, pd, 512))
    {
      hide Present, Huge, Addr, Load, GiveFrame, GiveAll;
      ghost var done := freed;
      assert freed + [] == freed;
      for i2 := 0 to 512
        invariant Valid() && State() == GiveAll(s, done) && done == freed + PtFrames(ram, pd, i2)
      {
        var w := Load(ram, pd, i2);
        if Links(2, w) {
          GiveOneMore(s, done, Addr(w));
          FreeFrame(Addr(w));
          done := done + [Addr(w)];
          assert done == freed + PtFrames(ram, pd, i2 + 1);
        }
      }
    }

    /** Frees the page directories below a page-directory-pointer table, each after its tables. */
    method FreePageDirectories(pdpt: nat, ghost s: Vm, ghost freed: seq<nat>)
      requires Valid() && State() == GiveAll(s, freed)
      modifies pmm.bitmap
      ensures Valid() && State() == GiveAll(s, freed + PdFrames(ram, pdpt, 512))
    {
      hide Present, Huge, Addr, Load, GiveFrame, GiveAll, PtFrames;
      ghost var done := freed;
      assert freed + [] == freed;
      for i3 := 0 to 512
        invariant Valid() && State() == GiveAll(s, done) && done == freed + PdFrames(ram, pdpt, i3)
      {
        var w := Load(ram, pdpt, i3);
        if Links(3, w) {
          var pd := Addr(w);
          FreePageTables(pd, s, done);
          done := done + PtFrames(ram, pd, 512);
          GiveOneMore(s, done, pd);
          FreeFrame(pd);
          done := done + [pd];
          assert done == freed + PdFrames(ram, pdpt, i3 + 1);
        }
      }
    }

    /** Frees the tables of a space's lower half bottom-up, then its top table; `freed` lists
        the frames in the order they were given back. */
    method DeleteAddressSpace(root: nat) returns (ghost freed: seq<nat>)
      requires Valid()
      modifies this`own, pmm.bitmap
      ensures Valid() && State() == DeleteSpace(old(State()), root)
      ensures root != 0 && root != current ==> freed == SpaceFrames(ram, root)
    {
      freed := [];
      if root == 0 || root == current {
        return;
      }
      ghost var s := State();
      assert GiveAll(s, []) == s;
      hide Present, Huge, Addr, Load, GiveFrame, PdFrames;
      for i4 := 0 to 256
        invariant Valid() && State() == GiveAll(s, freed) && freed == PdptFrames(ram, root, i4)
      {
        var w := Load(ram, root, i4);
        if Links(4, w) {
          var pdpt := Addr(w);
          FreePageDirectories(pdpt, s, freed);
          freed := freed + PdFrames(ram, pdpt, 512);
          GiveOneMore(s, freed, pdpt);
          FreeFrame(pdpt);
          freed := freed + [pdpt];
          assert freed == PdptFrames(ram, root, i4 + 1);
        }
      }
      GiveOneMore(s, freed, root);
      FreeFrame(root);
      freed := freed + [root];
      own := map f | f in own && !(own[f].Owned? && own[f].root == root) :: own[f];
    }

    /** Unmaps and gives back the first `n` pages of a half-built allocation. */
    method Cleanup(base: nat, n: nat)
      requires Valid()
      modifies this`ram, pmm.bitmap
      ensures Valid() && State() == CleanupRun(old(State()), hhdm, base, n)
    {
      hide Unmap, VirtToPhys, GiveFrame, TakeFrame;
      for j := 0 to n
        invariant Valid() && State() == CleanupRun(old(State()), hhdm, base, j)
      {
        var va := base + j * PAGE_4K;
        var phys := GetPhysicalAddress(va);
        var _ := UnmapPage(va);
        FreeFrame(phys);
      }
    }

    /** Takes, maps and clears frames for `n` pages; stops at the first failure with the count
        of pages that stay mapped. */
    method Fill(base: nat, n: nat, flags: bv64) returns (k: nat, ghost frames: seq<nat>)
      requires Valid()
      modifies this`ram, this`own, pmm, pmm.bitmap
      ensures Valid() && k == |frames| && (State(), frames) == FillRun(old(State()), base, n, HwFlags(flags, nx))
    {
      hide MapWord, HwFlags, GiveFrame;
      ghost var s, hw := State(), HwFlags(flags, nx);
      k, frames := 0, [];
      while k < n
        invariant k <= n && Valid() && k == |frames|
        invariant (State(), frames) == FillRun(s, base, k, hw)
      {
        var f := AllocFrame();
        if f == 0 {
          FillRunStops(s, base, k, n, hw);
          return;
        }
        var ok := MapOne(base + k * PAGE_4K, f, flags);
        if !ok {
          FreeFrame(f);
          FillRunStops(s, base, k, n, hw);
          return;
        }
        ram := Clear(ram, f);
        k, frames := k + 1, frames + [f];
      }
    }

    /** Allocates user memory; 0 on failure. */
    method AllocateUser(size: nat, flags: bv64) returns (addr: nat)
      requires Valid()
      modifies this`ram, this`own, this`userAreas, pmm, pmm.bitmap
      ensures Valid() && (State(), userAreas, addr) == Allocate(old(State()), old(userAreas), hhdm, size, flags, nx)
    {
      hide FillRun, CleanupRun, HwFlags, Or, PageCount, FindArea;
      if size == 0 {
        return 0;
      }
      var pages := PageCount(size);
      var found := FindFreeArea(pages * PAGE_4K);
      if found.None? {
        return 0;
      }
      var i := found.value;
      var area := userAreas[i];
      userAreas := userAreas[i := area.(used := true)];
      var k, frames := Fill(area.base, pages, Or(flags, area.flags));
      if k < pages {
        Cleanup(area.base, k);
        userAreas := userAreas[i := userAreas[i].(used := false)];
        assert userAreas == old(userAreas);
        return 0;
      }
      return area.base;
    }

    method FindFreeArea(size: nat) returns (found: Option<nat>)
      requires Valid()
      ensures found == FindArea(userAreas, size)
    {
      var i := 0;
      while i < |userAreas|
        invariant i <= |userAreas|
        invariant forall j :: 0 <= j < i ==> userAreas[j].used || userAreas[j].size < size
      {
        if !userAreas[i].used && userAreas[i].size >= size {
          return Some(i);
        }
        i := i + 1;
      }
      return None;
    }

    /** Frees user memory: the pages that are mapped, then the area that starts there. */
    method FreeUser(addr: nat, size: nat)
      requires Valid()
      modifies this`ram, this`userAreas, pmm.bitmap
      ensures Valid() && (State(), userAreas) == Free(old(State()), old(userAreas), hhdm, addr, size)
    {
      hide Unmap, VirtToPhys, GiveFrame, TakeFrame, PageCount;
      if addr == 0 || size == 0 {
        return;
      }
      var pages := PageCount(size);
      for i := 0 to pages
        invariant Valid() && State() == FreeRun(old(State()), hhdm, addr, i) && userAreas == old(userAreas)
      {
        var va := addr + i * PAGE_4K;
        var phys := GetPhysicalAddress(va);
        if phys != 0 {
          var _ := UnmapPage(va);
          FreeFrame(phys);
        }
      }
      ReleaseAreaAt(addr);
    }

    method ReleaseAreaAt(addr: nat)
      modifies this`userAreas
      ensures userAreas == ReleaseArea(old(userAreas), addr)
    {
      hide ReleaseArea;
      var i := 0;
      while i < |userAreas|
        invariant i <= |userAreas| && userAreas == old(userAreas)
        invariant forall j :: 0 <= j < i ==> userAreas[j].base != addr
      {
        if userAreas[i].base == addr {
          ReleasesFirst(userAreas, addr, i);
          userAreas := userAreas[i := userAreas[i].(used := false)];
          return;
        }
        i := i + 1;
      }
      ReleasesNone(userAreas, addr);
    }
  }

  lemma {:induction false} ReleasesFirst(areas: seq<Area>, addr: nat, i: nat)
    requires i < |areas| && areas[i].base == addr && forall j :: 0 <= j < i ==> areas[j].base != addr
    ensures ReleaseArea(areas, addr) == areas[i := areas[i].(used := false)]
  {
    if i > 0 {
      ReleasesFirst(areas[1..], addr, i - 1);
    }
  }

  lemma {:induction false} ReleasesNone(areas: seq<Area>, addr: nat)
    requires forall j :: 0 <= j < |areas| ==> areas[j].base != addr
    ensures ReleaseArea(areas, addr) == areas
  {
    if areas != [] {
      ReleasesNone(areas[1..], addr);
    }
  }

  ghost function GiveAll(s: Vm, frames: seq<nat>): Vm {
    s.(free := s.free + set f | f in frames && f in s.managed)
  }

  lemma GiveOneMore(s: Vm, frames: seq<nat>, f: nat)
    ensures GiveAll(s, frames + [f]) == GiveFrame(GiveAll(s, frames), f)
  {
    var xs, ys := GiveAll(s, frames + [f]).free, GiveFrame(GiveAll(s, frames), f).free;
    assert forall g :: g in xs <==> g in ys;
  }

  lemma {:induction false} FillRunStops(s: Vm, base: nat, k: nat, n: nat, hw: nat)
    requires k < n && |FillRun(s, base, k + 1, hw).1| == k
    ensures FillRun(s, base, n, hw) == FillRun(s, base, k + 1, hw)
  {
    hide MapWord, TakeFrame, GiveFrame;
    if k + 1 < n {
      FillRunStops(s, base, k, n - 1, hw);
    }
  }

  lemma {:induction false} MapRunStops(s: Vm, virt: nat, phys: nat, k: nat, n: nat, size: nat, hw: nat)
    requires k < n && MapRun(s, virt, phys, k + 1, size, hw).1 == k
    ensures MapRun(s, virt, phys, n, size, hw) == MapRun(s, virt, phys, k + 1, size, hw)
  {
    hide MapWord;
    if k + 1 < n {
      MapRunStops(s, virt, phys, k, n - 1, size, hw);
    }
  }

  /** A cleared page after entries 256 to `n` were copied from the table `root`. */
  function CopiedTo(ram: Ram, root: nat, n: nat): (p: Page)
    requires 256 <= n <= 512
  {
    seq(512, j requires 0 <= j < 512 => if 256 <= j < n then Load(ram, root, j) else 0)
  }
}
