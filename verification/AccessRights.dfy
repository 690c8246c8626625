/** What the processor lets a program do at an address: an access must be allowed by the words of
    all levels, and what callers ask for is what comes out. */
module AccessRights {
  import opened PageTables
  import opened VmState
  import opened MappingLaws
  import opened SpaceLaws
  import opened PageBlocks
  import opened VmFlags
  import opened BulkMapping
  import FlatRefinement

  datatype Access = NoAccess | Access(write: bool, user: bool, execute: bool)

  const FULL: Access := Access.Access(true, true, true)

  /** What is left of `a` below a table word. */
  function Narrow(a: Access, w: nat): Access {
    if a.NoAccess? then NoAccess else Access.Access(a.write && Writable(w), a.user && User(w), a.execute && !NoExecute(w))
  }

  /** The rights combined over the levels of the walk. */
  function AccessAt(ram: Ram, root: nat, p: Path): Access {
    var e4 := Load(ram, root, p.i4);
    if root == 0 || !Present(e4) then NoAccess else
    var t3 := Addr(e4);
    var e3 := Load(ram, t3, p.i3);
    if t3 == 0 || !Present(e3) then NoAccess
    else if Huge(e3) then Narrow(Narrow(FULL, e4), e3) else
    var t2 := Addr(e3);
    var e2 := Load(ram, t2, p.i2);
    if t2 == 0 || !Present(e2) then NoAccess
    else if Huge(e2) then Narrow(Narrow(Narrow(FULL, e4), e3), e2) else
    var t1 := Addr(e2);
    var e1 := Load(ram, t1, p.i1);
    if t1 == 0 || !Present(e1) then NoAccess
    else Narrow(Narrow(Narrow(Narrow(FULL, e4), e3), e2), e1)
  }

  /** What a leaf allows by itself. */
  function LeafAccess(l: Leaf): Access {
    match l
    case Unmapped => NoAccess
    case Leaf(base, _, bits) => Access.Access(Writable(bits), User(bits), !NoExecute(base))
  }

  // ----- links that take nothing away

  ghost predicate OpenLink(w: nat) {
    Writable(w) && User(w) && !NoExecute(w)
  }

  /** Every link of a lower half allows everything. */
  ghost predicate LinksOpen(s: Vm) {
    forall f: nat, i: Index {:trigger Load(s.ram, f, i)} ::
      LinkPoint(s, f, i) && Links(s.own[f].level, Load(s.ram, f, i)) ==> OpenLink(Load(s.ram, f, i))
  }

  /** Physical addresses do not reach bit 63. */
  ghost predicate LowFrames(s: Vm) {
    forall f :: f in s.managed ==> f < TOP_BIT
  }

  lemma LinkWordOpen(f: nat)
    requires f % PAGE_4K == 0 && f < TOP_BIT
    ensures OpenLink(LinkWord(f, true))
  {
    var q := f / PAGE_4K;
    Bit1(1, true, 1 + 1024 * q);
    Bit2(3, true, 512 * q);
  }

  lemma EnsureOpens(s: Vm, t: nat, i: Index)
    requires Inv(s) && LinkPoint(s, t, i) && LinksOpen(s) && LowFrames(s)
    ensures LinksOpen(EnsureTable(s, t, i, true).0) && LowFrames(EnsureTable(s, t, i, true).0)
  {
    if !Present(Load(s.ram, t, i)) && s.free != {} {
      var f := TakeFrame(s).1;
      var w := LinkWord(f, true);
      LinkWordOpen(f);
      assert EnsureTable(s, t, i, true) == (Link(s, t, i, f, w), f);
      assert !Present(0);
      LinkWrites(s, t, i, f, w);
      hide Present, Huge, Addr, Load, Store, Clear, OpenLink, Closed, LinkWord;
      var s' := Link(s, t, i, f, w);
      assert forall g :: g in s.own ==> s'.own[g] == s.own[g];
    }
  }

  lemma WriteOpens(s: Vm, t: nat, i: Index, w: nat)
    requires LinksOpen(s) && t in s.own && (s.own[t].level == 1 || !Links(s.own[t].level, w))
    ensures LinksOpen(WriteWord(s, t, i, w))
  {
    WordWritten(s, t, i, w);
    hide Present, Huge, Load, Store, OpenLink;
  }

  ghost predicate Opened(s: Vm) { LinksOpen(s) && LowFrames(s) }

  lemma Reach2Opens(s: Vm, r: nat, p: Path)
    requires Inv(s) && IsRoot(s, r) && p.i4 < 256 && Opened(s)
    requires Walk(s.ram, r, p).Leaf? ==> Walk(s.ram, r, p).size != PAGE_1G
    ensures Opened(Reach2(s, r, p, true).0)
  {
    hide LinksOpen, LowFrames, Walk, Present, Huge, Addr, Load, LeakFree;
    EnsureOpens(s, r, p.i4);
    Reach3Keeps(s, r, p, true);
    var (s3, t3) := EnsureTable(s, r, p.i4, true);
    if t3 != 0 {
      ChildOf(s3, r, p, t3);
      EnsureOpens(s3, t3, p.i3);
    }
  }

  lemma ChildOf(s: Vm, r: nat, p: Path, t3: nat)
    requires Inv(s) && IsRoot(s, r) && p.i4 < 256 && Holds3(s, r, p, t3)
    ensures t3 in s.own && s.own[t3] == Owned(3, r, r, p.i4)
  {
  }

  lemma GrandchildOf(s: Vm, r: nat, p: Path, t3: nat, t2: nat)
    requires Inv(s) && IsRoot(s, r) && p.i4 < 256 && Holds2(s, r, p, t3, t2)
    ensures t2 in s.own && s.own[t2] == Owned(2, r, t3, p.i3)
  {
    ChildOf(s, r, p, t3);
  }

  lemma LastOf(s: Vm, r: nat, p: Path, t3: nat, t2: nat, t1: nat)
    requires Inv(s) && IsRoot(s, r) && p.i4 < 256 && Holds1(s, r, p, t3, t2, t1)
    ensures t1 in s.own && s.own[t1] == Owned(1, r, t2, p.i2)
  {
    GrandchildOf(s, r, p, t3, t2);
  }

  lemma Reach1Opens(s: Vm, r: nat, p: Path)
    requires Inv(s) && IsRoot(s, r) && p.i4 < 256 && Opened(s)
    requires Walk(s.ram, r, p).Leaf? ==> Walk(s.ram, r, p).size == PAGE_4K
    ensures Opened(Reach1(s, r, p, true).0)
  {
    hide LinksOpen, LowFrames, Walk, Present, Huge, Addr, Load, LeakFree, Holds2;
    Reach2Opens(s, r, p);
    Reach2Keeps(s, r, p, true);
    var (s2, t2) := Reach2(s, r, p, true);
    if t2 != 0 {
      GrandchildOf(s2, r, p, EnsureTable(s, r, p.i4, true).1, t2);
      EnsureOpens(s2, t2, p.i2);
    }
  }

  /** The path is clear for a map: no huge leaf on the way to a 4 KiB slot, and no 1 GiB leaf on
      the way to a 2 MiB slot. */
  ghost predicate ClearPath(s: Vm, root: nat, virt: nat, phys: nat, hw: nat) {
    var l := Walk(s.ram, root, PathOf(virt));
    if GiantMap(virt, phys, hw) then true
    else if LargeStep(virt, phys, hw) then l.Leaf? ==> l.size != PAGE_1G
    else l.Leaf? ==> l.size == PAGE_4K
  }

  /** The size of the leaf a map lays. */
  function MapSize(virt: nat, phys: nat, hw: nat): nat {
    if GiantMap(virt, phys, hw) then PAGE_1G else if LargeStep(virt, phys, hw) then PAGE_2M else PAGE_4K
  }

  /** A lower-half map leaves the links open. */
  lemma MapOpens(s: Vm, root: nat, virt: nat, phys: nat, hw: nat)
    requires Inv(s) && IsRoot(s, root) && virt < LOWER_HALF && PathOf(virt).i4 < 256
    requires Present(hw) && ClearPath(s, root, virt, phys, hw) && Opened(s)
    ensures Opened(MapWord(s, root, virt, phys, hw).0)
  {
    if virt != 0 && phys != 0 {
      var p := PathOf(virt);
      FlatRefinement.NoGiant(virt, phys, hw);
      if GiantMap(virt, phys, hw) {
        MapGiantSteps(s, root, virt, phys, hw);
        GiantOpens(s, root, p, phys, hw);
      } else if LargeStep(virt, phys, hw) {
        MapLargeSteps(s, root, virt, phys, hw);
        LargeOpens(s, root, p, phys, hw);
      } else {
        MapSmallSteps(s, root, virt, phys, hw);
        SmallOpens(s, root, p, phys, hw);
      }
    }
  }

  lemma SmallOpens(s: Vm, root: nat, p: Path, phys: nat, hw: nat)
    requires Inv(s) && IsRoot(s, root) && p.i4 < 256 && Opened(s)
    requires Walk(s.ram, root, p).Leaf? ==> Walk(s.ram, root, p).size == PAGE_4K
    ensures var (s1, t1) := Reach1(s, root, p, true);
            t1 == 0 || Opened(WriteWord(s1, t1, p.i1, Entry(Addr(phys), hw)))
    ensures Opened(Reach1(s, root, p, true).0)
  {
    hide LinksOpen, Walk, Present, Huge, Load, LeakFree, Holds1, Reach1, Reach2;
    Reach1Opens(s, root, p);
    Reach1Keeps(s, root, p, true);
    var (s1, t1) := Reach1(s, root, p, true);
    if t1 != 0 {
      LastOf(s1, root, p, EnsureTable(s, root, p.i4, true).1, Reach2(s, root, p, true).1, t1);
      WriteOpens(s1, t1, p.i1, Entry(Addr(phys), hw));
    }
  }

  lemma LargeOpens(s: Vm, root: nat, p: Path, phys: nat, hw: nat)
    requires Inv(s) && IsRoot(s, root) && p.i4 < 256 && Opened(s) && Huge(hw) && Present(hw)
    requires Walk(s.ram, root, p).Leaf? ==> Walk(s.ram, root, p).size != PAGE_1G
    ensures var (s2, t2) := Reach2(s, root, p, true);
            t2 == 0 || Opened(WriteWord(s2, t2, p.i2, Entry(Addr(phys), hw)))
    ensures Opened(Reach2(s, root, p, true).0)
  {
    EntryLeaf(phys, hw, PAGE_2M);
    hide LinksOpen, Walk, Present, Huge, Load, LeakFree, Holds2, Reach2, Entry;
    Reach2Opens(s, root, p);
    Reach2Keeps(s, root, p, true);
    var (s2, t2) := Reach2(s, root, p, true);
    if t2 != 0 {
      GrandchildOf(s2, root, p, EnsureTable(s, root, p.i4, true).1, t2);
      WriteOpens(s2, t2, p.i2, Entry(Addr(phys), hw));
    }
  }

  lemma GiantOpens(s: Vm, root: nat, p: Path, phys: nat, hw: nat)
    requires Inv(s) && IsRoot(s, root) && p.i4 < 256 && Opened(s) && Huge(hw) && Present(hw)
    ensures var (s3, t3) := EnsureTable(s, root, p.i4, true);
            t3 == 0 || Opened(WriteWord(s3, t3, p.i3, Entry(Addr(phys), hw)))
    ensures Opened(EnsureTable(s, root, p.i4, true).0)
  {
    EntryLeaf(phys, hw, PAGE_1G);
    hide LinksOpen, Walk, Present, Huge, Load, LeakFree, Holds3, EnsureTable, Entry;
    EnsureOpens(s, root, p.i4);
    Reach3Keeps(s, root, p, true);
    var (s3, t3) := EnsureTable(s, root, p.i4, true);
    if t3 != 0 {
      ChildOf(s3, root, p, t3);
      WriteOpens(s3, t3, p.i3, Entry(Addr(phys), hw));
    }
  }

  lemma UnmapOpens(s: Vm, virt: nat)
    requires Inv(s) && PathOf(virt).i4 < 256 && Opened(s)
    ensures Opened(Unmap(s, virt).0)
  {
    var p := PathOf(virt);
    var s' := Unmap(s, virt).0;
    if Unmap(s, virt).1 {
      assert !Present(0);
      var t3 := Addr(Load(s.ram, s.cur, p.i4));
      var t2 := Addr(Load(s.ram, t3, p.i3));
      var t1 := Addr(Load(s.ram, t2, p.i2));
      ChildOf(s, s.cur, p, t3);
      if Huge(Load(s.ram, t3, p.i3)) {
        WriteOpens(s, t3, p.i3, 0);
      } else {
        GrandchildOf(s, s.cur, p, t3, t2);
        if Huge(Load(s.ram, t2, p.i2)) {
          WriteOpens(s, t2, p.i2, 0);
        } else {
          LastOf(s, s.cur, p, t3, t2, t1);
          WriteOpens(s, t1, p.i1, 0);
        }
      }
    }
  }

  lemma SpacesOpen(s: Vm, root: nat)
    requires Inv(s) && Opened(s)
    ensures Opened(CreateSpace(s).0) && Opened(Switch(s, root)) && Opened(DeleteSpace(s, root))
  {
    CreateOpens(s);
    DeleteOpens(s, root);
    assert forall f: nat, i: Index :: Load(Switch(s, root).ram, f, i) == Load(s.ram, f, i);
    hide Present, Huge, Load, OpenLink, CreateSpace, DeleteSpace;
  }

  lemma DeleteOpens(s: Vm, root: nat)
    requires Opened(s)
    ensures Opened(DeleteSpace(s, root))
  {
    hide Present, Huge, Load, OpenLink, SpaceFrames;
    var s' := DeleteSpace(s, root);
    assert s'.ram == s.ram;
    forall f: nat, i: Index | LinkPoint(s', f, i) && Links(s'.own[f].level, Load(s'.ram, f, i))
      ensures OpenLink(Load(s'.ram, f, i))
    {
      assert LinkPoint(s, f, i);
      assert Load(s.ram, f, i) == Load(s'.ram, f, i);
    }
  }

  lemma CreateOpens(s: Vm)
    requires Inv(s) && Opened(s)
    ensures Opened(CreateSpace(s).0)
  {
    if s.free != {} {
      var f := TakeFrame(s).1;
      var s' := CreateSpace(s).0;
      assert !Present(0);
      assert f !in s.own;
      assert forall i: Index :: i < 256 ==> Load(s'.ram, f, i) == 0;
      assert forall g: nat, i: Index :: g != f ==> Load(s'.ram, g, i) == Load(s.ram, g, i);
      hide Present, Huge, Load, OpenLink, CreateSpace, HigherHalf, Closed;
      assert forall g :: g in s'.own ==> g == f || (g in s.own && s'.own[g] == s.own[g]);
    }
  }

  // ----- the words that link new tables

  /** Where nothing is linked, the word written links the new, cleared table: present, writable,
      executable as far as links go, and open to user programs exactly as asked. */
  lemma NewLink(s: Vm, t: nat, i: Index, user: bool)
    requires Inv(s) && !Present(Load(s.ram, t, i)) && s.free != {} && t !in s.free
    ensures var (s', c) := EnsureTable(s, t, i, user);
            var w := Load(s'.ram, t, i);
            && c in s.free && s'.free == s.free - {c} && Present(w) && Writable(w) && (User(w) <==> user) && !Huge(w) && Addr(w) == c
            && (forall j: Index :: Load(s'.ram, c, j) == 0)
            && (forall g: nat, j: Index :: g != c && (g != t || j != i) ==> Load(s'.ram, g, j) == Load(s.ram, g, j))
  {
    var f := TakeFrame(s).1;
    LinkWordOk(f, user);
    var q := f / PAGE_4K;
    Bit1(1, true, (if user then 1 else 0) + 1024 * q);
    Bit2(3, user, 512 * q);
    hide Present, Huge, Addr, Writable, User;
  }

  /** A map that has to link a new table in the top table opens it to user programs exactly when
      the address is below 2^63; the higher half stays to the kernel. */
  lemma NewTopLink(s: Vm, root: nat, virt: nat, phys: nat, hw: nat)
    requires Inv(s) && IsRoot(s, root) && virt != 0 && phys != 0
    requires !Present(Load(s.ram, root, PathOf(virt).i4)) && s.free != {}
    ensures var w := Load(MapWord(s, root, virt, phys, hw).0.ram, root, PathOf(virt).i4);
            Present(w) && Writable(w) && (User(w) <==> virt < 0x8000_0000_0000_0000)
  {
    hide PathOf, LargeStep, Closed, Present, Huge, Addr, Writable, User, Load, EnsureTable, Entry;
    var p, user := PathOf(virt), virt < TOP_BIT;
    NewLink(s, root, p.i4, user);
    var (s3, t3) := EnsureTable(s, root, p.i4, user);
    assert t3 != 0 && t3 != root;
    WordWritten(s3, t3, p.i3, Entry(Addr(phys), hw));
    BelowNew(s3, root, t3, p, user, Entry(Addr(phys), hw));
  }

  /** Below a cleared table everything is new as well. */
  lemma BelowNew(s: Vm, root: nat, t3: nat, p: Path, user: bool, w: nat)
    requires root !in s.free && t3 != root && t3 !in s.free && (forall f :: f in s.free ==> f != 0 && f % PAGE_4K == 0)
    requires forall j: Index :: Load(s.ram, t3, j) == 0
    ensures var (s2, t2) := EnsureTable(s, t3, p.i3, user);
            var (s1, t1) := EnsureTable(s2, t2, p.i2, user);
            && SameTable(s, s2, root)
            && (t2 != 0 ==> t2 != root && SameTable(s, WriteWord(s2, t2, p.i2, w), root) && SameTable(s, s1, root))
            && (t2 != 0 && t1 != 0 ==> SameTable(s, WriteWord(s1, t1, p.i1, w), root))
  {
    assert !Present(0);
    hide Present, Huge, Addr;
    NewBelow(s, root, t3, p.i3, user);
    var (s2, t2) := EnsureTable(s, t3, p.i3, user);
    if t2 != 0 {
      WordWritten(s2, t2, p.i2, w);
      NewBelow(s2, root, t2, p.i2, user);
      var (s1, t1) := EnsureTable(s2, t2, p.i2, user);
      WordWritten(s1, t1, p.i1, w);
    }
    hide EnsureTable, Load;
  }

  ghost predicate SameTable(s: Vm, s': Vm, t: nat) {
    forall j: Index :: Load(s'.ram, t, j) == Load(s.ram, t, j)
  }

  lemma NewBelow(s: Vm, root: nat, t: nat, i: Index, user: bool)
    requires root !in s.free && t != root && t !in s.free && (forall f :: f in s.free ==> f != 0 && f % PAGE_4K == 0)
    requires !Present(Load(s.ram, t, i))
    ensures var (s', c) := EnsureTable(s, t, i, user);
            && SameTable(s, s', root) && s'.free <= s.free
            && (c != 0 ==> c in s.free && c !in s'.free && c != root && forall j: Index :: Load(s'.ram, c, j) == 0)
  {
    hide Present, Huge, Addr;
  }

  // ----- the leaf decides

  lemma BitsTell(w: nat)
    ensures Writable(Bits(w)) == Writable(w) && User(Bits(w)) == User(w)
  {
    var q, low := w / PAGE_4K, Bits(w);
    assert w / 2 == 2048 * q + low / 2;
    EvenPlus(1024 * q, low / 2);
    assert w / 4 == 1024 * q + low / 4;
    EvenPlus(512 * q, low / 4);
  }

  lemma AddrKeepsNoExecute(w: nat)
    ensures NoExecute(Addr(w)) == NoExecute(w)
  {
    TopOfPages(w / PAGE_4K, w % PAGE_4K);
    TopOfPages(w / PAGE_4K, 0);
  }

  lemma TopOfPages(a: nat, low: nat)
    requires low < PAGE_4K
    ensures (a * PAGE_4K + low) / TOP_BIT == a / (TOP_BIT / PAGE_4K)
  {
    var k := TOP_BIT / PAGE_4K;
    var q, r := a / k, a % k;
    assert a * PAGE_4K + low == q * TOP_BIT + (r * PAGE_4K + low);
    QuotientOfTop(q, r * PAGE_4K + low);
  }

  lemma QuotientOfTop(q: nat, r: nat)
    requires r < TOP_BIT
    ensures (q * TOP_BIT + r) / TOP_BIT == q
  {
  }

  lemma OpenNarrows(w: nat)
    requires OpenLink(w)
    ensures Narrow(FULL, w) == FULL
  {
  }

  lemma LeafNarrows(w: nat, size: nat)
    ensures Narrow(FULL, w) == LeafAccess(Leaf(Addr(w), size, Bits(w)))
  {
    BitsTell(w);
    AddrKeepsNoExecute(w);
    hide Writable, User, NoExecute, Addr, Bits;
  }

  /** While the links of the lower half are open, the rights combined over all levels are those
      of the leaf. */
  lemma LeafDecides(s: Vm, r: nat, p: Path)
    requires Inv(s) && LinksOpen(s) && IsRoot(s, r) && p.i4 < 256
    ensures AccessAt(s.ram, r, p) == LeafAccess(Walk(s.ram, r, p))
  {
    hide Present, Huge, Addr, Load, OpenLink, Bits, Writable, User, NoExecute, Narrow, LeafAccess;
    var e4 := Load(s.ram, r, p.i4);
    NoLeafNoAccess();
    if Present(e4) {
      OpenNarrows(e4);
      var t3 := Addr(e4);
      var e3 := Load(s.ram, t3, p.i3);
      assert s.own[t3] == Owned(3, r, r, p.i4);
      LeafNarrows(e3, PAGE_1G);
      if Present(e3) && !Huge(e3) {
        OpenNarrows(e3);
        var t2 := Addr(e3);
        var e2 := Load(s.ram, t2, p.i2);
        assert s.own[t2] == Owned(2, r, t3, p.i3);
        LeafNarrows(e2, PAGE_2M);
        if Present(e2) && !Huge(e2) {
          OpenNarrows(e2);
          LeafNarrows(Load(s.ram, Addr(e2), p.i1), PAGE_4K);
        }
      }
    }
  }

  lemma NoLeafNoAccess()
    ensures LeafAccess(Unmapped) == NoAccess
  {
  }

  // ----- one map

  /** What the caller's flags ask for. */
  ghost predicate AsAsked(l: Leaf, flags: bv64, nx: bool) {
    && l.Leaf? && LeafAccess(l) == Access.Access(Has(flags, 0x2), Has(flags, 0x4), !(Has(flags, 0x8000_0000_0000_0000) && nx))
    && (WriteThrough(l.bits) <==> Has(flags, 0x8)) && (CacheDisabled(l.bits) <==> Has(flags, 0x10))
    && (Global(l.bits) <==> Has(flags, 0x100))
  }

  lemma WrittenAsAsked(phys: nat, flags: bv64, nx: bool, size: nat)
    requires phys < TOP_BIT
    ensures AsAsked(LeafFor(phys, HwFlags(flags, nx), size), flags, nx)
  {
    hide HwFlags, Has, Writable, User, WriteThrough, CacheDisabled, Global, Stored, NoExecute;
    var hw := HwFlags(flags, nx);
    HwFlagsMean(flags, nx);
    SameBits(hw);
    HwRightsAre(flags, nx, Bits(hw));
    StoredNoExecute(phys, hw);
    hide Bits;
  }

  lemma SameBits(w: nat)
    ensures Bits(Bits(w)) == Bits(w)
  {
  }

  lemma StoredNoExecute(phys: nat, hw: nat)
    requires phys < TOP_BIT
    ensures NoExecute(Stored(phys, hw)) == NoExecute(hw)
  {
    hide Addr;
    assert Addr(phys) < TOP_BIT by {
      AddrBelow(phys);
    }
    QuotientOfTop(0, Addr(phys));
    QuotientOfTop(1, Addr(phys));
  }

  lemma AddrBelow(phys: nat)
    ensures 0 <= Addr(phys) <= phys
  {
  }

  /** A successful map of a lower-half page: the rights combined over the four levels are exactly
      the ones asked for, every other page of every space keeps its rights, and the links stay
      open. */
  lemma MapGivesRights(s: Vm, virt: nat, phys: nat, flags: bv64, nx: bool)
    requires Inv(s) && Opened(s) && virt < LOWER_HALF && phys < TOP_BIT
    requires ClearPath(s, s.cur, virt, phys, HwFlags(flags, nx)) && MapPage(s, virt, phys, flags, nx).1
    ensures var s' := MapPage(s, virt, phys, flags, nx).0;
            var size := MapSize(virt, phys, HwFlags(flags, nx));
            && Inv(s') && Opened(s') && AsAsked(Walk(s'.ram, s.cur, PathOf(virt)), flags, nx)
            && AccessAt(s'.ram, s.cur, PathOf(virt))
               == Access.Access(Has(flags, 0x2), Has(flags, 0x4), !(Has(flags, 0x8000_0000_0000_0000) && nx))
            && forall r: nat, q: Path :: IsRoot(s, r) && q.i4 < 256 && !(r == s.cur && SameGranule(PathOf(virt), q, size)) ==>
                 AccessAt(s'.ram, r, q) == AccessAt(s.ram, r, q)
  {
    PathIsPage(virt, virt);
    HwFlagsMean(flags, nx);
    hide HwFlags, Walk, AccessAt, PathOf, LargeStep, GiantMap, MapSize, LinksOpen, LowFrames, AsAsked, LeafAccess,
         Closed, FramesOk, Present, Huge, LeakFree, MapWord;
    var hw := HwFlags(flags, nx);
    var p, size := PathOf(virt), MapSize(virt, phys, hw);
    MapOpens(s, s.cur, virt, phys, hw);
    MapUpdates(s, virt, phys, hw);
    WrittenAsAsked(phys, flags, nx, size);
    var s' := MapWord(s, s.cur, virt, phys, hw).0;
    assert Walk(s'.ram, s.cur, p) == LeafFor(phys, hw, size);
    LeafDecides(s', s.cur, p);
    AskedAccess(Walk(s'.ram, s.cur, p), flags, nx);
    forall r: nat, q: Path | IsRoot(s, r) && q.i4 < 256 && !(r == s.cur && SameGranule(p, q, size))
      ensures AccessAt(s'.ram, r, q) == AccessAt(s.ram, r, q)
    {
      LeafDecides(s, r, q);
      LeafDecides(s', r, q);
    }
  }

  lemma AskedAccess(l: Leaf, flags: bv64, nx: bool)
    requires AsAsked(l, flags, nx)
    ensures LeafAccess(l) == Access.Access(Has(flags, 0x2), Has(flags, 0x4), !(Has(flags, 0x8000_0000_0000_0000) && nx))
  {
  }

  lemma MapUpdates(s: Vm, virt: nat, phys: nat, hw: nat)
    requires Inv(s) && PathOf(virt).i4 < 256 && Present(hw) && ClearPath(s, s.cur, virt, phys, hw)
    requires MapWord(s, s.cur, virt, phys, hw).1
    ensures var s' := MapWord(s, s.cur, virt, phys, hw).0;
            var size := MapSize(virt, phys, hw);
            Inv(s') && Grows(s, s', s.cur) && Updates(s, s', s.cur, PathOf(virt), size, LeafFor(phys, hw, size))
  {
    FlatRefinement.NoGiant(virt, phys, hw);
    hide Walk, PathOf, LargeStep, GiantMap, Closed, FramesOk, Present, LeakFree, MapWord, TableOf, DirectoryOf, LeafFor;
    if GiantMap(virt, phys, hw) {
      MapGiant(s, s.cur, virt, phys, hw);
    } else if LargeStep(virt, phys, hw) {
      MapLarge(s, s.cur, virt, phys, hw);
    } else {
      MapSmall(s, s.cur, virt, phys, hw);
    }
  }

  // ----- bulk maps

  /** One more 4 KiB page behind a window leaves the links open. */
  lemma NextSmallOpens(s: Vm, m: Vm, v0: nat, leaves: seq<Leaf>, b: int, d: int, virt: nat, phys: nat, hw: nat)
    requires Inv(s) && Window(s, m, v0, leaves, 0, b, b, d) && d < |leaves| && Vacant(s, v0, |leaves|)
    requires virt / PAGE_4K == v0 + d && Present(hw) && !Huge(hw) && Opened(m)
    ensures Opened(MapWord(m, m.cur, virt, phys, hw).0)
  {
    hide Walk, MapWord, PathOf, Closed, FramesOk, LeakFree, Opened;
    PageOf(virt, v0 + d);
    assert WindowAt(s, m, v0, leaves, 0, b, b, d, s.cur, v0 + d);
    MapOpens(m, m.cur, virt, phys, hw);
  }

  lemma {:induction false} SmallRunOpens(s: Vm, m: Vm, v0: nat, leaves: seq<Leaf>, b: int, virt: nat, phys: nat,
                                         n: nat, hw: nat)
    requires Inv(s) && Window(s, m, v0, leaves, 0, b, b, b) && Vacant(s, v0, |leaves|)
    requires virt / PAGE_4K == v0 + b && Present(hw) && !Huge(hw) && SmallLeaves(leaves, b, phys, n, hw) && Opened(m)
    ensures Opened(MapRun(m, virt, phys, n, PAGE_4K, hw).0)
  {
    hide Walk, MapWord, PathOf, Inv, LeakFree, Stored, WindowAt, Opened, Present, Huge, Vacant;
    if n > 0 {
      SmallRunOpens(s, m, v0, leaves, b, virt, phys, n - 1, hw);
      SmallRun(s, m, v0, leaves, b, virt, phys, n - 1, hw);
      var (m', k) := MapRun(m, virt, phys, n - 1, PAGE_4K, hw);
      if k == n - 1 {
        PageStep(virt, k);
        NextSmallOpens(s, m', v0, leaves, b, b + k, virt + k * PAGE_4K, phys + k * PAGE_4K, hw);
      }
    }
  }

  /** And so does one more block of 2 MiB. */
  lemma NextLargeOpens(s: Vm, m: Vm, v0: nat, leaves: seq<Leaf>, b: int, virt: nat, phys: nat, hw: nat)
    requires Inv(s) && Window(s, m, v0, leaves, 0, b, b, b) && b < |leaves| && Vacant(s, v0, |leaves|)
    requires virt / PAGE_4K == v0 + b && virt % PAGE_2M == 0 && phys % PAGE_2M == 0 && Present(hw) && Huge(hw)
             && Opened(m)
    requires !(virt % PAGE_1G == 0 && phys % PAGE_1G == 0)
    ensures Opened(MapWord(m, m.cur, virt, phys, hw).0)
  {
    BlockAligned(virt);
    BlockAligned(phys);
    hide Walk, MapWord, PathOf, Closed, FramesOk, LeakFree, Opened;
    PageOf(virt, v0 + b);
    assert WindowAt(s, m, v0, leaves, 0, b, b, b, s.cur, v0 + b);
    MapOpens(m, m.cur, virt, phys, hw);
  }

  lemma {:induction false} LargeRunOpens(s: Vm, v0: nat, leaves: seq<Leaf>, virt: nat, phys: nat, n: nat, hw: nat)
    requires Inv(s) && Vacant(s, v0, |leaves|)
    requires virt / PAGE_4K == v0 && virt % PAGE_2M == 0 && phys % PAGE_2M == 0 && Present(hw) && Huge(hw)
    requires NoGiantStep(virt, phys, n) && LargeLeaves(leaves, phys, n, hw) && Opened(s)
    ensures Opened(MapRun(s, virt, phys, n, PAGE_2M, hw).0)
  {
    hide Walk, MapWord, PathOf, Inv, LeakFree, Stored, Window, Opened, Present, Huge, Vacant, Grows;
    if n > 0 {
      LargeRunOpens(s, v0, leaves, virt, phys, n - 1, hw);
      LargeRun(s, v0, leaves, virt, phys, n - 1, hw);
      var (m, k) := MapRun(s, virt, phys, n - 1, PAGE_2M, hw);
      if k == n - 1 {
        var v, p := virt + k * PAGE_2M, phys + k * PAGE_2M;
        BlockStep(virt, v, k);
        BlockStep(phys, p, k);
        assert !GiantStep(virt, phys, k);
        LargeLeavesBlock(leaves, phys, n, k, hw);
        NextLargeOpens(s, m, v0, leaves, 512 * k, v, p, hw);
      }
    }
  }

  lemma {:induction false} UnmapRunOpens(m: Vm, virt: nat, n: nat, size: nat)
    requires Inv(m) && Opened(m) && size > 0 && virt + n * size < LOWER_HALF + size && virt < LOWER_HALF
    ensures Inv(UnmapRun(m, virt, n, size)) && Opened(UnmapRun(m, virt, n, size))
  {
    hide Walk, PathOf, Inv, Opened, Unmap, LeakFree;
    if n > 0 {
      var va := virt + (n - 1) * size;
      assert va == virt + n * size - size;
      UnmapRunOpens(m, virt, n - 1, size);
      PathIsPage(va, va);
      UnmapRemoves(UnmapRun(m, virt, n - 1, size), va);
      UnmapOpens(UnmapRun(m, virt, n - 1, size), va);
    }
  }

  lemma SmallPagesOpen(s: Vm, virt: nat, phys: nat, count: nat, flags: bv64, nx: bool)
    requires Inv(s) && Vacant(s, virt / PAGE_4K, count) && Opened(s)
    ensures Opened(MapSmallPages(s, virt, phys, count, flags, nx).0)
  {
    hide MapWord, Walk, LeakFree, Has, HwFlags, Inv, WindowAt, NoExecute, BulkLeaves, SmallLeaves, Present, Huge,
         MapRun, UnmapRun, Grows, Opened;
    var hw := HwFlags(flags & !HUGE, nx);
    DropHuge(flags);
    HwFlagsMean(flags & !HUGE, nx);
    var v0, leaves := virt / PAGE_4K, BulkLeaves(phys, count, 0, HwFlags(flags, nx), hw);
    BulkLeavesOk(phys, count, 0, HwFlags(flags, nx), hw);
    EmptyWindow(s, v0, leaves);
    SmallRun(s, s, v0, leaves, 0, virt, phys, count, hw);
    SmallRunOpens(s, s, v0, leaves, 0, virt, phys, count, hw);
    var (m, k) := MapRun(s, virt, phys, count, PAGE_4K, hw);
    if k < count {
      WindowInv(s, m, v0, leaves, 0, k);
      UnmapRunOpens(m, virt, k, PAGE_4K);
    }
  }

  lemma HugePagesOpen(s: Vm, virt: nat, phys: nat, count: nat, flags: bv64, nx: bool)
    requires Inv(s) && Vacant(s, virt / PAGE_4K, count) && Opened(s)
    requires UsesHuge(virt, phys, count, flags) && NoGiantStep(virt, phys, count / 512)
    ensures Opened(MapPages(s, virt, phys, count, flags, nx).0)
  {
    hide MapWord, Walk, LeakFree, Has, HwFlags, Inv, WindowAt, NoExecute, BulkLeaves, SmallLeaves, LargeLeaves,
         Present, Huge, MapRun,
         UnmapRun, Grows, Opened, NoGiantStep;
    DropHuge(flags);
    var hwS, hwL := HwFlags(flags & !HUGE, nx), HwFlags(flags, nx);
    HwFlagsMean(flags & !HUGE, nx);
    HwFlagsMean(flags, nx);
    var h := count / 512;
    var v0, leaves := virt / PAGE_4K, BulkLeaves(phys, count, h, hwL, hwS);
    BulkLeavesOk(phys, count, h, hwL, hwS);
    LargeRun(s, v0, leaves, virt, phys, h, hwL);
    LargeRunOpens(s, v0, leaves, virt, phys, h, hwL);
    var (m, k) := MapRun(s, virt, phys, h, PAGE_2M, hwL);
    if k < h {
      WindowHolds(s, m, v0, leaves, 512 * k, 512 * k);
      UnmapRunOpens(m, virt, k, PAGE_2M);
    } else {
      TailOpens(s, m, virt, phys, count, h, leaves, hwL, hwS);
    }
  }

  lemma WindowHolds(s: Vm, m: Vm, v0: nat, leaves: seq<Leaf>, b: int, d: int)
    requires Window(s, m, v0, leaves, 0, b, b, d)
    ensures Inv(m)
  {
  }

  lemma TailOpens(s: Vm, m: Vm, virt: nat, phys: nat, count: nat, h: nat, leaves: seq<Leaf>, hwL: nat, hwS: nat)
    requires Inv(s) && Vacant(s, virt / PAGE_4K, count) && 512 * h <= count && Opened(m)
    requires virt % PAGE_2M == 0 && Present(hwS) && !Huge(hwS)
    requires leaves == BulkLeaves(phys, count, h, hwL, hwS)
    requires Window(s, m, virt / PAGE_4K, leaves, 0, 512 * h, 512 * h, 512 * h)
    ensures var v, p, rest := virt + h * PAGE_2M, phys + h * PAGE_2M, count - 512 * h;
            var (m', k') := MapRun(m, v, p, rest, PAGE_4K, hwS);
            Opened(m') && (k' < rest ==> Opened(UnmapRun(UnmapRun(m', v, k', PAGE_4K), virt, h, PAGE_2M)))
  {
    hide MapWord, Walk, Inv, LeakFree, WindowAt, BulkLeaves, LargeLeaves, SmallLeaves, Present, Huge, MapRun,
         UnmapRun, Opened;
    var v, p, rest := virt + h * PAGE_2M, phys + h * PAGE_2M, count - 512 * h;
    BulkLeavesOk(phys, count, h, hwL, hwS);
    BlockStep(virt, v, h);
    var v0 := virt / PAGE_4K;
    SmallRun(s, m, v0, leaves, 512 * h, v, p, rest, hwS);
    SmallRunOpens(s, m, v0, leaves, 512 * h, v, p, rest, hwS);
    var (m', k') := MapRun(m, v, p, rest, PAGE_4K, hwS);
    if k' < rest {
      WindowHolds(s, m', v0, leaves, 512 * h, 512 * h + k');
      UnmapRunOpens(m', v, k', PAGE_4K);
      UnmapRunOpens(UnmapRun(m', v, k', PAGE_4K), virt, h, PAGE_2M);
    }
  }

  /** A bulk map, rolled back or not, leaves the links open. */
  lemma BulkOpens(s: Vm, virt: nat, phys: nat, count: nat, flags: bv64, nx: bool)
    requires Inv(s) && Vacant(s, virt / PAGE_4K, count) && Opened(s)
    requires NoGiantStep(virt, phys, Blocks(virt, phys, count, flags))
    ensures Opened(MapPages(s, virt, phys, count, flags, nx).0)
  {
    hide HwFlags, LeakFree, Inv, Vacant, NoGiantStep, UsesHuge, MapSmallPages, Opened;
    if UsesHuge(virt, phys, count, flags) {
      HugePagesOpen(s, virt, phys, count, flags, nx);
    } else {
      SmallPagesOpen(s, virt, phys, count, flags, nx);
    }
  }

  /** The size of the leaf of page `k` of a bulk map: 2 MiB for the whole blocks, exactly when the
      caller asks for huge pages, both addresses are aligned and there are 512 pages or more. */
  function LeafSizeAsked(virt: nat, phys: nat, count: nat, flags: bv64, k: nat): nat {
    if Has(flags, 0x80) && virt % 0x20_0000 == 0 && phys % 0x20_0000 == 0 && count >= 512 && k < count / 512 * 512
    then 0x20_0000 else 0x1000
  }

  /** A successful bulk map: every page of the range has exactly the rights asked for, in a leaf of
      exactly the size asked for. */
  lemma BulkGivesRights(s: Vm, virt: nat, phys: nat, count: nat, flags: bv64, nx: bool, k: nat)
    requires Inv(s) && Vacant(s, virt / PAGE_4K, count) && Opened(s) && phys + count * PAGE_4K <= TOP_BIT && k < count
    requires NoGiantStep(virt, phys, Blocks(virt, phys, count, flags)) && MapPages(s, virt, phys, count, flags, nx).1
    ensures var s' := MapPages(s, virt, phys, count, flags, nx).0;
            var p := PathOf((virt / PAGE_4K + k) * PAGE_4K);
            && Inv(s') && Opened(s') && AsAsked(Walk(s'.ram, s.cur, p), flags, nx)
            && Walk(s'.ram, s.cur, p).size == LeafSizeAsked(virt, phys, count, flags, k)
            && AccessAt(s'.ram, s.cur, p)
               == Access.Access(Has(flags, 0x2), Has(flags, 0x4), !(Has(flags, 0x8000_0000_0000_0000) && nx))
  {
    hide HwFlags, LeakFree, Walk, PathOf, Closed, FramesOk, NoGiantStep, MapPages, Opened, AsAsked, AccessAt,
         LinksOpen, NoTablesUnder;
    MapPagesOutcome(s, virt, phys, count, flags, nx);
    BulkOpens(s, virt, phys, count, flags, nx);
    var s' := MapPages(s, virt, phys, count, flags, nx).0;
    var n, h := virt / PAGE_4K + k, Blocks(virt, phys, count, flags);
    var leaves := BulkLeaves(phys, count, h, HwFlags(flags, nx), HwFlags(flags & !HUGE, nx));
    assert WindowAt(s, s', virt / PAGE_4K, leaves, 0, 512 * h, 512 * h, count, s.cur, n);
    PathIsPage(n * PAGE_4K, n * PAGE_4K);
    BulkLeafAsAsked(virt, phys, count, flags, nx, k);
    OpenedLinks(s');
    LeafDecides(s', s.cur, PathOf(n * PAGE_4K));
    AskedAccess(leaves[k], flags, nx);
  }

  lemma OpenedLinks(s: Vm)
    requires Opened(s)
    ensures LinksOpen(s)
  {
  }

  lemma BulkLeafAsAsked(virt: nat, phys: nat, count: nat, flags: bv64, nx: bool, k: nat)
    requires phys + count * PAGE_4K <= TOP_BIT && k < count
    ensures var h := Blocks(virt, phys, count, flags);
            var l := BulkLeaves(phys, count, h, HwFlags(flags, nx), HwFlags(flags & !HUGE, nx))[k];
            AsAsked(l, flags, nx) && l.Leaf? && l.size == LeafSizeAsked(virt, phys, count, flags, k)
  {
    hide HwFlags, AsAsked, LeafAccess;
    var h := Blocks(virt, phys, count, flags);
    if k < 512 * h {
      WrittenAsAsked(phys + k / 512 * PAGE_2M, flags, nx, PAGE_2M);
    } else {
      WrittenAsAsked(phys + h * PAGE_2M + (k - 512 * h) * PAGE_4K, flags & !HUGE, nx, PAGE_4K);
      SmallAsked(LeafFor(phys + h * PAGE_2M + (k - 512 * h) * PAGE_4K, HwFlags(flags & !HUGE, nx), PAGE_4K), flags, nx);
    }
  }

  lemma SmallAsked(l: Leaf, flags: bv64, nx: bool)
    requires AsAsked(l, flags & !HUGE, nx)
    ensures AsAsked(l, flags, nx)
  {
  }

  // ----- runs

  /** Every operation of the flat refinement leaves the links open. */
  lemma StepOpens(s: Vm, flat: FlatRefinement.Flat, op: FlatRefinement.Op)
    requires FlatRefinement.Sound(s, flat) && FlatRefinement.Allowed(flat, op) && Opened(s)
    ensures Opened(FlatRefinement.Step(s, op).0)
  {
    hide Opened, Walk, PathOf, Closed, FramesOk, LargeStep, GiantMap, NoGiantStep, Blocks, MapWord, MapPages,
         Unmap, CreateSpace, DeleteSpace, Switch;
    match op {
      case MapPage(virt, phys, hw) =>
        FlatRefinement.PageWalk(s, flat, s.cur, virt);
        PathIsPage(virt, virt);
        MapOpens(s, s.cur, virt, phys, hw);
      case MapRange(virt, phys, count, flags, nx) =>
        FlatRefinement.FlatVacant(s, flat, virt / PAGE_4K, count);
        BulkOpens(s, virt, phys, count, flags, nx);
      case UnmapPage(virt) =>
        PathIsPage(virt, virt);
        UnmapOpens(s, virt);
      case NewSpace => SpacesOpen(s, 0);
      case SwitchTo(root) => SpacesOpen(s, root);
      case Delete(root) => SpacesOpen(s, root);
    }
  }

  /** On every lower-half page of every space the combined rights are those of the flat leaf. */
  ghost predicate RightsAgree(s: Vm, flat: FlatRefinement.Flat) {
    forall r, n: nat :: r in flat.spaces && n < LOWER_PAGES ==>
      AccessAt(s.ram, r, PathOf(n * PAGE_4K)) == LeafAccess(FlatRefinement.Lookup(flat.spaces[r], n))
  }

  /** Over every run the rights combined over all levels are, on every lower-half page of every
      space, those of the flat model's leaf. */
  lemma {:induction false} RunRights(s: Vm, flat: FlatRefinement.Flat, ops: seq<FlatRefinement.Op>)
    requires FlatRefinement.Sound(s, flat) && FlatRefinement.AllowedRun(s, flat, ops) && Opened(s)
    ensures Opened(FlatRefinement.Run(s, ops))
    ensures RightsAgree(FlatRefinement.Run(s, ops), FlatRefinement.FlatRun(s, flat, ops))
    decreases |ops|
  {
    hide FlatRefinement.Step, FlatRefinement.Allowed, FlatRefinement.FlatStep, FlatRefinement.Sound, Opened, RightsAgree;
    if ops == [] {
      FlatRights(s, flat);
    } else {
      StepOpens(s, flat, ops[0]);
      FlatRefinement.StepRefines(s, flat, ops[0]);
      var (s', res) := FlatRefinement.Step(s, ops[0]);
      RunRights(s', FlatRefinement.FlatStep(flat, ops[0], res), ops[1..]);
    }
  }

  lemma FlatRights(s: Vm, flat: FlatRefinement.Flat)
    requires FlatRefinement.Sound(s, flat) && Opened(s)
    ensures RightsAgree(s, flat)
  {
    hide AccessAt, LeafAccess, Walk, PathOf, LinksOpen, Closed, FramesOk;
    forall r, n: nat | r in flat.spaces && n < LOWER_PAGES
      ensures AccessAt(s.ram, r, PathOf(n * PAGE_4K)) == LeafAccess(FlatRefinement.Lookup(flat.spaces[r], n))
    {
      assert FlatRefinement.AgreesAt(s, flat, r, n);
      PathIsPage(n * PAGE_4K, n * PAGE_4K);
      LeafDecides(s, r, PathOf(n * PAGE_4K));
    }
  }
}
