/** The virtual memory manager's state as a value, and what each of its steps does to it. */
module VmState {
  import opened PageTables

  /** What a table frame is used as: a table of one address space's lower half, hanging off
      entry `idx` of the table `parent`, or a table of the higher half all spaces share.
      The top table of a space is owned at level 4 with itself as root. */
  datatype Tbl = Owned(level: int, root: nat, parent: nat, idx: nat) | Shared(level: int)

  /** `free` holds the frames the physical allocator would hand out, `managed` those it
      accepts back. `own` records what every table frame in use is for. */
  datatype Vm = Vm(managed: set<nat>, free: set<nat>, ram: Ram, cur: nat, own: map<nat, Tbl>)

  /** What a table reached through entry `i` of table `t` must be. */
  function Child(own: map<nat, Tbl>, t: nat, i: Index): Tbl {
    if t !in own then Shared(0) else
    match own[t]
    case Owned(level, root, _, _) =>
      if level == 4 && i >= 256 then Shared(3) else Owned(level - 1, root, t, i)
    case Shared(level) => Shared(level - 1)
  }

  ghost predicate IsRoot(s: Vm, r: nat) {
    r in s.own && s.own[r].Owned? && s.own[r].level == 4
  }

  /** Every table frame is a real frame the allocator will not hand out again. */
  ghost predicate FramesOk(s: Vm) {
    && (forall f :: f in s.own ==> f != 0 && f % PAGE_4K == 0 && f !in s.free && 1 <= s.own[f].level <= 4)
    && (forall f :: f in s.own && s.own[f].Owned? && s.own[f].level == 4 ==> s.own[f].root == f)
    && (forall f :: f in s.own && s.own[f].Shared? ==> s.own[f].level <= 3)
    && (forall f :: f in s.free ==> f != 0 && f % PAGE_4K == 0)
    && s.free <= s.managed
  }

  /** Following a link from a table leads to the table the bookkeeping says it leads to. */
  ghost predicate Closed(s: Vm) {
    forall f: nat, i: Index {:trigger Load(s.ram, f, i)} ::
      f in s.own && s.own[f].level >= 2 && Links(s.own[f].level, Load(s.ram, f, i)) ==>
        var c := Addr(Load(s.ram, f, i));
        c in s.own && s.own[c] == Child(s.own, f, i)
  }

  /** The ownership invariant. */
  ghost predicate Inv(s: Vm) {
    FramesOk(s) && Closed(s) && IsRoot(s, s.cur)
  }

  /** Table `f` is linked from where the bookkeeping says it hangs. */
  ghost predicate Linked(s: Vm, f: nat)
    requires f in s.own && s.own[f].Owned?
  {
    var t := s.own[f];
    && t.parent in s.own && s.own[t.parent].Owned?
    && s.own[t.parent].level == t.level + 1 && s.own[t.parent].root == t.root
    && t.idx < 512 && (t.level == 3 ==> t.idx < 256)
    && Links(t.level + 1, Load(s.ram, t.parent, t.idx))
    && Addr(Load(s.ram, t.parent, t.idx)) == f
  }

  /** No table of a lower half has lost the link to it. */
  ghost predicate LeakFree(s: Vm) {
    forall f :: f in s.own && s.own[f].Owned? && s.own[f].level < 4 ==> Linked(s, f)
  }

  // ----- steps

  lemma {:induction false} HasLowest(frames: set<nat>)
    requires frames != {}
    ensures exists m :: IsLowest(m, frames)
  {
    var y :| y in frames;
    if frames == {y} {
      assert IsLowest(y, frames);
    } else {
      var rest := frames - {y};
      HasLowest(rest);
      var m :| IsLowest(m, rest);
      assert frames == rest + {y};
      assert IsLowest(if m < y then m else y, frames);
    }
  }

  ghost predicate IsLowest(m: nat, frames: set<nat>) {
    m in frames && forall x :: x in frames ==> m <= x
  }

  ghost function Lowest(frames: set<nat>): (m: nat)
    requires frames != {}
    ensures m in frames && forall x :: x in frames ==> m <= x
  {
    HasLowest(frames);
    var m :| IsLowest(m, frames);
    m
  }

  /** Takes a frame from the allocator; 0 when there is none. */
  ghost function TakeFrame(s: Vm): (r: (Vm, nat))
    ensures s.free == {} ==> r == (s, 0)
    ensures s.free != {} ==> r.1 in s.free && r.0 == s.(free := s.free - {r.1})
  {
    if s.free == {} then (s, 0) else
    var f := Lowest(s.free);
    (s.(free := s.free - {f}), f)
  }

  /** Gives a frame back; the allocator ignores what it does not manage. */
  function GiveFrame(s: Vm, f: nat): Vm {
    if f in s.managed then s.(free := s.free + {f}) else s
  }

  function WriteWord(s: Vm, t: nat, i: Index, w: nat): Vm {
    s.(ram := Store(s.ram, t, i, w))
  }

  /** The word that links a new table: present and writable, and user in the lower half. */
  function LinkWord(f: nat, user: bool): nat {
    f + if user then 7 else 3
  }

  ghost function NewTable(s: Vm): (Vm, nat) {
    var (s1, f) := TakeFrame(s);
    if f == 0 then (s1, 0) else (s1.(ram := Clear(s1.ram, f)), f)
  }

  /** The table behind entry `i` of `t`, created and linked if the entry is not present;
      0 when no frame is left. */
  ghost function EnsureTable(s: Vm, t: nat, i: Index, user: bool): (Vm, nat) {
    var w := Load(s.ram, t, i);
    if Present(w) then (s, Addr(w)) else
    var (s1, f) := NewTable(s);
    if f == 0 then (s1, 0) else
    (WriteWord(s1, t, i, LinkWord(f, user)).(own := s1.own[f := Child(s1.own, t, i)]), f)
  }

  /** `map_page_internal`. */
  ghost function MapWord(s: Vm, root: nat, virt: nat, phys: nat, hw: nat): (Vm, bool) {
    if root == 0 || virt == 0 || phys == 0 then (s, false) else
    var page, frame, p, user := Addr(virt), Addr(phys), PathOf(virt), virt < TOP_BIT;
    var (s3, t3) := EnsureTable(s, root, p.i4, user);
    if t3 == 0 then (s3, false)
    else if Huge(hw) && page % PAGE_1G == 0 && frame % PAGE_1G == 0 then
      (WriteWord(s3, t3, p.i3, Entry(frame, hw)), true) else
    var (s2, t2) := EnsureTable(s3, t3, p.i3, user);
    if t2 == 0 then (s2, false)
    else if Huge(hw) && page % PAGE_2M == 0 && frame % PAGE_2M == 0 then
      (WriteWord(s2, t2, p.i2, Entry(frame, hw)), true) else
    var (s1, t1) := EnsureTable(s2, t2, p.i2, user);
    if t1 == 0 then (s1, false) else
    (WriteWord(s1, t1, p.i1, Entry(frame, hw)), true)
  }

  /** `vmm_unmap_page`. */
  function Unmap(s: Vm, virt: nat): (Vm, bool) {
    if virt == 0 || s.cur == 0 then (s, false) else
    var p := PathOf(virt);
    var e4 := Load(s.ram, s.cur, p.i4);
    if !Present(e4) then (s, false) else
    var t3 := Addr(e4);
    var e3 := Load(s.ram, t3, p.i3);
    if t3 == 0 || !Present(e3) then (s, false)
    else if Huge(e3) then (WriteWord(s, t3, p.i3, 0), true) else
    var t2 := Addr(e3);
    var e2 := Load(s.ram, t2, p.i2);
    if t2 == 0 || !Present(e2) then (s, false)
    else if Huge(e2) then (WriteWord(s, t2, p.i2, 0), true) else
    var t1 := Addr(e2);
    if t1 == 0 || !Present(Load(s.ram, t1, p.i1)) then (s, false)
    else (WriteWord(s, t1, p.i1, 0), true)
  }

  // ----- address spaces

  /** The top table of a new space: the creator's higher half over an empty lower half. */
  function HigherHalf(ram: Ram, root: nat): (p: Page)
    ensures forall i: Index :: p[i] == if i >= 256 then Load(ram, root, i) else 0
  {
    seq(512, i requires 0 <= i < 512 => if i >= 256 then Load(ram, root, i) else 0)
  }

  /** `vmm_create_address_space`; 0 when no frame is left. */
  ghost function CreateSpace(s: Vm): (Vm, nat) {
    var (s1, f) := NewTable(s);
    if f == 0 then (s1, 0) else
    (s1.(ram := s1.ram[f := HigherHalf(s1.ram, s.cur)], own := s1.own[f := Owned(4, f, 0, 0)]), f)
  }

  /** `vmm_switch_address_space`. */
  function Switch(s: Vm, root: nat): Vm {
    if root == 0 || root == s.cur then s else s.(cur := root)
  }

  /** The page tables below the first `n` entries of a page directory, in freeing order. */
  function PtFrames(ram: Ram, pd: nat, n: nat): seq<nat>
    requires n <= 512
  {
    if n == 0 then [] else
    var w := Load(ram, pd, n - 1);
    PtFrames(ram, pd, n - 1) + if Links(2, w) then [Addr(w)] else []
  }

  /** The tables below the first `n` entries of a page-directory-pointer table. */
  function PdFrames(ram: Ram, pdpt: nat, n: nat): seq<nat>
    requires n <= 512
  {
    if n == 0 then [] else
    var w := Load(ram, pdpt, n - 1);
    PdFrames(ram, pdpt, n - 1) + if Links(3, w) then PtFrames(ram, Addr(w), 512) + [Addr(w)] else []
  }

  /** The tables below the first `n` entries of a top table. */
  function PdptFrames(ram: Ram, pml4: nat, n: nat): seq<nat>
    requires n <= 512
  {
    if n == 0 then [] else
    var w := Load(ram, pml4, n - 1);
    PdptFrames(ram, pml4, n - 1) + if Links(4, w) then PdFrames(ram, Addr(w), 512) + [Addr(w)] else []
  }

  /** The frames deleting a space gives back, in order. */
  function SpaceFrames(ram: Ram, root: nat): seq<nat> {
    PdptFrames(ram, root, 256) + [root]
  }

  /** `vmm_delete_address_space`. */
  function DeleteSpace(s: Vm, root: nat): Vm {
    if root == 0 || root == s.cur then s else
    s.(free := s.free + (set f | f in SpaceFrames(s.ram, root) && f in s.managed),
       own := map f | f in s.own && !(s.own[f].Owned? && s.own[f].root == root) :: s.own[f])
  }
}

/** The page-table steps keep the ownership invariant and act on translations as updates of
    a flat map from pages to frames. */
module MappingLaws {
  import opened PageTables
  import opened VmState

  ghost predicate SameWalks(s: Vm, s': Vm) {
    forall r: nat, p: Path {:trigger Walk(s'.ram, r, p)} :: IsRoot(s, r) ==> Walk(s'.ram, r, p) == Walk(s.ram, r, p)
  }

  /** From `s` to `s'`, only tables of `root` were added, each in a frame that was free, and
      those are all the frames that were taken. */
  ghost predicate Grows(s: Vm, s': Vm, root: nat) {
    && s'.managed == s.managed && s'.cur == s.cur
    && (forall f :: f in s.own ==> f in s'.own && s'.own[f] == s.own[f])
    && (forall f :: f in s'.own && f !in s.own ==>
          f in s.free && s'.own[f].Owned? && s'.own[f].root == root && s'.own[f].level < 4)
    && s'.free == s.free - (s'.own.Keys - s.own.Keys)
  }

  lemma GrowsTrans(s: Vm, m: Vm, s': Vm, root: nat)
    requires Grows(s, m, root) && Grows(m, s', root)
    ensures Grows(s, s', root)
  {
  }

  /** Words of the tables known in `s` other than entry `i` of `t` are untouched. */
  ghost predicate OnlyChanges(s: Vm, s': Vm, t: nat, i: Index) {
    forall f: nat, j: Index {:trigger Load(s'.ram, f, j)} ::
      f in s.own && (f != t || j != i) ==> Load(s'.ram, f, j) == Load(s.ram, f, j)
  }

  ghost predicate LinkPoint(s: Vm, t: nat, i: Index) {
    t in s.own && s.own[t].Owned? && s.own[t].level >= 2 && (s.own[t].level == 4 ==> i < 256)
  }

  lemma LinkWordOk(f: nat, user: bool)
    requires f % PAGE_4K == 0
    ensures var w := LinkWord(f, user); Present(w) && !Huge(w) && Addr(w) == f
  {
    LowBits(f / PAGE_4K, if user then 7 else 3);
  }

  /** The state after linking the cleared frame `f` at entry `i` of `t`. */
  function Link(s: Vm, t: nat, i: Index, f: nat, w: nat): Vm {
    Vm(s.managed, s.free - {f}, Store(Clear(s.ram, f), t, i, w), s.cur, s.own[f := Child(s.own, t, i)])
  }

  /** Linking writes one word of one known table and clears a frame that was no table. */
  lemma LinkWrites(s: Vm, t: nat, i: Index, f: nat, w: nat)
    requires Inv(s) && LinkPoint(s, t, i) && f in s.free
    ensures var s' := Link(s, t, i, f, w);
            && OnlyChanges(s, s', t, i) && Load(s'.ram, t, i) == w && t != f
            && (forall j: Index :: Load(s'.ram, f, j) == 0)
  {
  }

  lemma LinkKeepsInv(s: Vm, t: nat, i: Index, f: nat, w: nat)
    requires Inv(s) && LinkPoint(s, t, i) && f in s.free
    requires !Present(Load(s.ram, t, i))
    requires Present(w) && !Huge(w) && Addr(w) == f
    ensures Inv(Link(s, t, i, f, w))
    ensures OnlyChanges(s, Link(s, t, i, f, w), t, i)
  {
    assert !Present(0);
    LinkWrites(s, t, i, f, w);
    hide Present, Huge, Addr, Load, Store, Clear;
    var s' := Link(s, t, i, f, w);
    assert forall g :: g in s.own ==> s'.own[g] == s.own[g];
  }

  lemma LinkLeakFree(s: Vm, t: nat, i: Index, f: nat, w: nat)
    requires Inv(s) && LinkPoint(s, t, i) && f in s.free && LeakFree(s)
    requires !Present(Load(s.ram, t, i))
    requires Present(w) && !Huge(w) && Addr(w) == f
    ensures LeakFree(Link(s, t, i, f, w))
  {
    LinkWrites(s, t, i, f, w);
    hide Present, Huge, Addr, Load, Store, Clear;
    var s' := Link(s, t, i, f, w);
    forall g | g in s'.own && s'.own[g].Owned? && s'.own[g].level < 4
      ensures Linked(s', g)
    {
      if g != f {
        assert Linked(s, g);
      }
    }
  }

  lemma LinkKeepsWalk(s: Vm, t: nat, i: Index, f: nat, w: nat, r: nat, p: Path)
    requires Inv(s) && LinkPoint(s, t, i) && f in s.free
    requires !Present(Load(s.ram, t, i))
    requires Present(w) && !Huge(w) && Addr(w) == f
    requires IsRoot(s, r)
    ensures Walk(Link(s, t, i, f, w).ram, r, p) == Walk(s.ram, r, p)
  {
    assert !Present(0);
    hide Present, Huge, Addr;
    var s' := Link(s, t, i, f, w);
    assert forall g: nat, j: Index :: g in s.own && (g != t || j != i) ==> Load(s'.ram, g, j) == Load(s.ram, g, j);
    assert forall j: Index :: Load(s'.ram, f, j) == 0;
    assert Load(s'.ram, t, i) == w;
  }

  /** Making sure a table exists changes no translation, and only ever adds a table. */
  lemma EnsureKeeps(s: Vm, t: nat, i: Index, user: bool)
    requires Inv(s) && LinkPoint(s, t, i)
    requires Present(Load(s.ram, t, i)) ==> Links(s.own[t].level, Load(s.ram, t, i))
    ensures var (s', c) := EnsureTable(s, t, i, user);
            && Inv(s') && Grows(s, s', s.own[t].root) && SameWalks(s, s') && OnlyChanges(s, s', t, i)
            && (LeakFree(s) ==> LeakFree(s'))
            && (c != 0 ==> c in s'.own && s'.own[c] == Child(s.own, t, i)
                           && Links(s.own[t].level, Load(s'.ram, t, i)) && Addr(Load(s'.ram, t, i)) == c)
            && (c == 0 ==> s' == s && s.free == {})
  {
    if !Present(Load(s.ram, t, i)) && s.free != {} {
      var f := TakeFrame(s).1;
      var w := LinkWord(f, user);
      LinkWordOk(f, user);
      assert EnsureTable(s, t, i, user) == (Link(s, t, i, f, w), f);
      LinkKeepsInv(s, t, i, f, w);
      if LeakFree(s) {
        LinkLeakFree(s, t, i, f, w);
      }
      forall r: nat, p: Path | IsRoot(s, r)
        ensures Walk(Link(s, t, i, f, w).ram, r, p) == Walk(s.ram, r, p)
      {
        LinkKeepsWalk(s, t, i, f, w, r, p);
      }
    }
  }

  /** The page table a path runs through, or 0 when it ends above. */
  function TableOf(ram: Ram, root: nat, p: Path): nat {
    var e4 := Load(ram, root, p.i4);
    if root == 0 || !Present(e4) then 0 else
    var t3 := Addr(e4);
    var e3 := Load(ram, t3, p.i3);
    if t3 == 0 || !Present(e3) || Huge(e3) then 0 else
    var t2 := Addr(e3);
    var e2 := Load(ram, t2, p.i2);
    if t2 == 0 || !Present(e2) || Huge(e2) then 0 else Addr(e2)
  }

  /** No path of a known space runs through a page table it did not run through before. */
  ghost predicate NoNewTables(s: Vm, s': Vm) {
    forall r: nat, p: Path {:trigger TableOf(s'.ram, r, p)} :: IsRoot(s, r) && TableOf(s.ram, r, p) == 0 ==>
      TableOf(s'.ram, r, p) == 0
  }

  lemma LinkKeepsTable(s: Vm, t: nat, i: Index, f: nat, w: nat, r: nat, p: Path)
    requires Inv(s) && LinkPoint(s, t, i) && s.own[t].level >= 3 && f in s.free
    requires !Present(Load(s.ram, t, i))
    requires Present(w) && !Huge(w) && Addr(w) == f
    requires IsRoot(s, r)
    ensures TableOf(Link(s, t, i, f, w).ram, r, p) == TableOf(s.ram, r, p)
  {
    assert !Present(0);
    LinkWrites(s, t, i, f, w);
    hide Present, Huge, Addr, Load, Store, Clear;
  }

  /** Making sure of a table above the last level adds no page table to any path. */
  lemma EnsureKeepsTables(s: Vm, t: nat, i: Index, user: bool)
    requires Inv(s) && LinkPoint(s, t, i) && s.own[t].level >= 3
    ensures NoNewTables(s, EnsureTable(s, t, i, user).0)
  {
    if !Present(Load(s.ram, t, i)) && s.free != {} {
      var f := TakeFrame(s).1;
      var w := LinkWord(f, user);
      LinkWordOk(f, user);
      assert EnsureTable(s, t, i, user) == (Link(s, t, i, f, w), f);
      hide TableOf, Link;
      forall r: nat, p: Path | IsRoot(s, r)
        ensures TableOf(Link(s, t, i, f, w).ram, r, p) == TableOf(s.ram, r, p)
      {
        LinkKeepsTable(s, t, i, f, w, r, p);
      }
    }
  }

  // ----- tables along a path

  ghost predicate Holds3(s: Vm, r: nat, p: Path, t3: nat) {
    t3 != 0 && Links(4, Load(s.ram, r, p.i4)) && Addr(Load(s.ram, r, p.i4)) == t3
  }

  ghost predicate Holds2(s: Vm, r: nat, p: Path, t3: nat, t2: nat) {
    Holds3(s, r, p, t3) && t2 != 0 && Links(3, Load(s.ram, t3, p.i3)) && Addr(Load(s.ram, t3, p.i3)) == t2
  }

  ghost predicate Holds1(s: Vm, r: nat, p: Path, t3: nat, t2: nat, t1: nat) {
    Holds2(s, r, p, t3, t2) && t1 != 0 && Links(2, Load(s.ram, t2, p.i2)) && Addr(Load(s.ram, t2, p.i2)) == t1
  }

  /** Writing a word that is no link leaves the invariant alone. */
  lemma WriteKeepsInv(s: Vm, t: nat, i: Index, w: nat)
    requires Inv(s) && t in s.own && (s.own[t].level == 1 || !Links(s.own[t].level, w))
    ensures Inv(WriteWord(s, t, i, w))
    ensures (s.own[t].level == 1 || !Links(s.own[t].level, Load(s.ram, t, i))) && LeakFree(s)
            ==> LeakFree(WriteWord(s, t, i, w))
  {
    WordWritten(s, t, i, w);
    hide Present, Huge, Addr, Load, Store, LeakFree;
    if LeakFree(s) && (s.own[t].level == 1 || !Links(s.own[t].level, Load(s.ram, t, i))) {
      WriteLeakFree(s, t, i, w);
    }
  }

  lemma WordWritten(s: Vm, t: nat, i: Index, w: nat)
    ensures var s' := WriteWord(s, t, i, w);
            && Load(s'.ram, t, i) == w
            && forall g: nat, j: Index :: (g != t || j != i) ==> Load(s'.ram, g, j) == Load(s.ram, g, j)
  {
  }

  lemma WriteLeakFree(s: Vm, t: nat, i: Index, w: nat)
    requires Inv(s) && t in s.own && LeakFree(s)
    requires s.own[t].level == 1 || !Links(s.own[t].level, Load(s.ram, t, i))
    ensures LeakFree(WriteWord(s, t, i, w))
  {
    WordWritten(s, t, i, w);
    hide Present, Huge, Addr, Load, Store, Closed;
    var s' := WriteWord(s, t, i, w);
    forall f | f in s'.own && s'.own[f].Owned? && s'.own[f].level < 4
      ensures Linked(s', f)
    {
      assert Linked(s, f);
    }
  }

  function LeafOf(w: nat, size: nat): Leaf {
    if Present(w) then Leaf(Addr(w), size, Bits(w)) else Unmapped
  }

  /** Writing a 4 KiB slot changes exactly one page of exactly one space. */
  lemma WriteSlot1(s: Vm, r: nat, p: Path, t3: nat, t2: nat, t1: nat, w: nat, r': nat, p': Path)
    requires Inv(s) && IsRoot(s, r) && p.i4 < 256 && Holds1(s, r, p, t3, t2, t1)
    requires IsRoot(s, r')
    ensures Walk(WriteWord(s, t1, p.i1, w).ram, r', p')
            == if r' == r && p' == p then LeafOf(w, PAGE_4K) else Walk(s.ram, r', p')
  {
    hide Present, Huge, Addr;
    var s' := WriteWord(s, t1, p.i1, w);
    assert s.own[t1] == Owned(1, r, t2, p.i2);
    assert s.own[t2] == Owned(2, r, t3, p.i3);
    assert s.own[t3] == Owned(3, r, r, p.i4);
    assert forall g: nat, j: Index :: (g != t1 || j != p.i1) ==> Load(s'.ram, g, j) == Load(s.ram, g, j);
    assert Load(s'.ram, t1, p.i1) == w;
  }

  /** Writing a leaf or nothing into a 2 MiB slot changes the 512 pages under it. */
  lemma WriteSlot2(s: Vm, r: nat, p: Path, t3: nat, t2: nat, w: nat, r': nat, p': Path)
    requires Inv(s) && IsRoot(s, r) && p.i4 < 256 && Holds2(s, r, p, t3, t2)
    requires IsRoot(s, r') && !Links(2, w)
    ensures Walk(WriteWord(s, t2, p.i2, w).ram, r', p')
            == if r' == r && p'.i4 == p.i4 && p'.i3 == p.i3 && p'.i2 == p.i2 then LeafOf(w, PAGE_2M)
               else Walk(s.ram, r', p')
  {
    hide Present, Huge, Addr;
    var s' := WriteWord(s, t2, p.i2, w);
    assert s.own[t2] == Owned(2, r, t3, p.i3);
    assert s.own[t3] == Owned(3, r, r, p.i4);
    assert forall g: nat, j: Index :: (g != t2 || j != p.i2) ==> Load(s'.ram, g, j) == Load(s.ram, g, j);
    assert Load(s'.ram, t2, p.i2) == w;
  }

  /** Writing a huge leaf takes the page table off the paths below it and adds none. */
  lemma WriteSlot2Tables(s: Vm, r: nat, p: Path, t3: nat, t2: nat, w: nat, r': nat, p': Path)
    requires Inv(s) && IsRoot(s, r) && p.i4 < 256 && Holds2(s, r, p, t3, t2)
    requires IsRoot(s, r') && !Links(2, w)
    ensures TableOf(WriteWord(s, t2, p.i2, w).ram, r', p')
            == if r' == r && p'.i4 == p.i4 && p'.i3 == p.i3 && p'.i2 == p.i2 then 0 else TableOf(s.ram, r', p')
  {
    hide Present, Huge, Addr;
    var s' := WriteWord(s, t2, p.i2, w);
    assert s.own[t2] == Owned(2, r, t3, p.i3);
    assert s.own[t3] == Owned(3, r, r, p.i4);
    assert forall g: nat, j: Index :: (g != t2 || j != p.i2) ==> Load(s'.ram, g, j) == Load(s.ram, g, j);
    assert Load(s'.ram, t2, p.i2) == w;
  }

  lemma WriteSlot3(s: Vm, r: nat, p: Path, t3: nat, w: nat, r': nat, p': Path)
    requires Inv(s) && IsRoot(s, r) && p.i4 < 256 && Holds3(s, r, p, t3)
    requires IsRoot(s, r') && !Links(3, w)
    ensures Walk(WriteWord(s, t3, p.i3, w).ram, r', p')
            == if r' == r && p'.i4 == p.i4 && p'.i3 == p.i3 then LeafOf(w, PAGE_1G)
               else Walk(s.ram, r', p')
  {
    hide Present, Huge, Addr;
    var s' := WriteWord(s, t3, p.i3, w);
    assert s.own[t3] == Owned(3, r, r, p.i4);
    assert forall g: nat, j: Index :: (g != t3 || j != p.i3) ==> Load(s'.ram, g, j) == Load(s.ram, g, j);
    assert Load(s'.ram, t3, p.i3) == w;
  }

  // ----- mapping

  ghost function Reach2(s: Vm, r: nat, p: Path, user: bool): (Vm, nat) {
    var (s3, t3) := EnsureTable(s, r, p.i4, user);
    if t3 == 0 then (s3, 0) else EnsureTable(s3, t3, p.i3, user)
  }

  ghost function Reach1(s: Vm, r: nat, p: Path, user: bool): (Vm, nat) {
    var (s2, t2) := Reach2(s, r, p, user);
    if t2 == 0 then (s2, 0) else EnsureTable(s2, t2, p.i2, user)
  }

  ghost predicate Prepared(s: Vm, s': Vm, r: nat) {
    Inv(s') && Grows(s, s', r) && SameWalks(s, s') && (LeakFree(s) ==> LeakFree(s'))
  }

  lemma PreparedTrans(s: Vm, m: Vm, s': Vm, r: nat)
    requires Prepared(s, m, r) && Prepared(m, s', r)
    ensures Prepared(s, s', r)
  {
    GrowsTrans(s, m, s', r);
    forall q: nat, p: Path | IsRoot(s, q)
      ensures Walk(s'.ram, q, p) == Walk(s.ram, q, p)
    {
      assert Walk(m.ram, q, p) == Walk(s.ram, q, p);
    }
  }

  lemma Reach3Keeps(s: Vm, r: nat, p: Path, user: bool)
    requires Inv(s) && IsRoot(s, r) && p.i4 < 256
    ensures var (s3, t3) := EnsureTable(s, r, p.i4, user);
            Prepared(s, s3, r) && (t3 != 0 ==> Holds3(s3, r, p, t3)) && (t3 == 0 ==> s3.free == {})
  {
    EnsureKeeps(s, r, p.i4, user);
  }

  lemma Descend2(s: Vm, r: nat, p: Path, t3: nat, user: bool)
    requires Inv(s) && IsRoot(s, r) && p.i4 < 256 && Holds3(s, r, p, t3)
    requires Walk(s.ram, r, p).Leaf? ==> Walk(s.ram, r, p).size != PAGE_1G
    ensures var (s2, t2) := EnsureTable(s, t3, p.i3, user);
            Prepared(s, s2, r) && (t2 != 0 ==> Holds2(s2, r, p, t3, t2)) && (t2 == 0 ==> s2.free == {})
  {
    assert s.own[t3] == Owned(3, r, r, p.i4);
    EnsureKeeps(s, t3, p.i3, user);
    var s2 := EnsureTable(s, t3, p.i3, user).0;
    assert Load(s2.ram, r, p.i4) == Load(s.ram, r, p.i4);
  }

  lemma Descend1(s: Vm, r: nat, p: Path, t3: nat, t2: nat, user: bool)
    requires Inv(s) && IsRoot(s, r) && p.i4 < 256 && Holds2(s, r, p, t3, t2)
    requires Walk(s.ram, r, p).Leaf? ==> Walk(s.ram, r, p).size == PAGE_4K
    ensures var (s1, t1) := EnsureTable(s, t2, p.i2, user);
            Prepared(s, s1, r) && (t1 != 0 ==> Holds1(s1, r, p, t3, t2, t1)) && (t1 == 0 ==> s1.free == {})
  {
    assert s.own[t3] == Owned(3, r, r, p.i4);
    assert s.own[t2] == Owned(2, r, t3, p.i3);
    EnsureKeeps(s, t2, p.i2, user);
    var s1 := EnsureTable(s, t2, p.i2, user).0;
    assert Load(s1.ram, r, p.i4) == Load(s.ram, r, p.i4);
    assert Load(s1.ram, t3, p.i3) == Load(s.ram, t3, p.i3);
  }

  /** Reaching the page directory adds no page table to any path. */
  lemma Reach2Tables(s: Vm, r: nat, p: Path, user: bool)
    requires Inv(s) && IsRoot(s, r) && p.i4 < 256
    requires Walk(s.ram, r, p).Leaf? ==> Walk(s.ram, r, p).size != PAGE_1G
    ensures NoNewTables(s, Reach2(s, r, p, user).0)
  {
    Reach3Keeps(s, r, p, user);
    EnsureKeepsTables(s, r, p.i4, user);
    var (s3, t3) := EnsureTable(s, r, p.i4, user);
    hide TableOf, Walk, EnsureTable, Present, Huge, Addr, Load, LeakFree;
    if t3 != 0 {
      assert s3.own[t3] == Owned(3, r, r, p.i4);
      EnsureKeepsTables(s3, t3, p.i3, user);
      NoNewTrans(s, s3, EnsureTable(s3, t3, p.i3, user).0, r);
    }
  }

  lemma NoNewTrans(s: Vm, m: Vm, s': Vm, root: nat)
    requires NoNewTables(s, m) && NoNewTables(m, s') && Grows(s, m, root)
    ensures NoNewTables(s, s')
  {
    hide TableOf;
    forall r: nat, p: Path | IsRoot(s, r) && TableOf(s.ram, r, p) == 0
      ensures TableOf(s'.ram, r, p) == 0
    {
      assert TableOf(m.ram, r, p) == 0;
    }
  }

  lemma Reach2Keeps(s: Vm, r: nat, p: Path, user: bool)
    requires Inv(s) && IsRoot(s, r) && p.i4 < 256
    requires Walk(s.ram, r, p).Leaf? ==> Walk(s.ram, r, p).size != PAGE_1G
    ensures var (s2, t2) := Reach2(s, r, p, user);
            && Prepared(s, s2, r) && (t2 == 0 ==> s2.free == {})
            && (t2 != 0 ==> Holds2(s2, r, p, EnsureTable(s, r, p.i4, user).1, t2))
  {
    Reach3Keeps(s, r, p, user);
    var (s3, t3) := EnsureTable(s, r, p.i4, user);
    if t3 != 0 {
      assert Walk(s3.ram, r, p) == Walk(s.ram, r, p);
      Descend2(s3, r, p, t3, user);
      PreparedTrans(s, s3, EnsureTable(s3, t3, p.i3, user).0, r);
    }
  }

  lemma Reach1Keeps(s: Vm, r: nat, p: Path, user: bool)
    requires Inv(s) && IsRoot(s, r) && p.i4 < 256
    requires Walk(s.ram, r, p).Leaf? ==> Walk(s.ram, r, p).size == PAGE_4K
    ensures var (s1, t1) := Reach1(s, r, p, user);
            && Prepared(s, s1, r) && (t1 == 0 ==> s1.free == {})
            && (t1 != 0 ==> Holds1(s1, r, p, EnsureTable(s, r, p.i4, user).1, Reach2(s, r, p, user).1, t1))
  {
    Reach2Keeps(s, r, p, user);
    var (s2, t2) := Reach2(s, r, p, user);
    if t2 != 0 {
      assert Walk(s2.ram, r, p) == Walk(s.ram, r, p);
      Descend1(s2, r, p, EnsureTable(s, r, p.i4, user).1, t2, user);
      PreparedTrans(s, s2, EnsureTable(s2, t2, p.i2, user).0, r);
    }
  }

  /** The pages one leaf of the given size covers. */
  predicate SameGranule(p: Path, q: Path, size: nat) {
    p.i4 == q.i4 && p.i3 == q.i3 && (size != PAGE_1G ==> p.i2 == q.i2)
    && (size == PAGE_4K ==> p.i1 == q.i1)
  }

  /** In `s'` the pages of one granule of `root` have leaf `l`, and every other page of every
      space is as in `s`. */
  ghost predicate Updates(s: Vm, s': Vm, root: nat, p: Path, size: nat, l: Leaf) {
    forall r: nat, q: Path {:trigger Walk(s'.ram, r, q)} :: IsRoot(s, r) ==>
      Walk(s'.ram, r, q) == if r == root && SameGranule(p, q, size) then l else Walk(s.ram, r, q)
  }

  /** The address a leaf written for `phys` translates to. */
  function Stored(phys: nat, hw: nat): nat {
    Addr(phys) + if NoExecute(hw) && !NoExecute(Addr(phys)) then TOP_BIT else 0
  }

  /** The leaf written for `phys`: its address, and the attribute bits asked for. */
  function LeafFor(phys: nat, hw: nat, size: nat): Leaf {
    Leaf(Stored(phys, hw), size, Bits(hw))
  }

  /** Filling the 4 KiB slot at the end of a prepared path. */
  lemma FillSmall(s: Vm, s1: Vm, root: nat, p: Path, t3: nat, t2: nat, t1: nat, w: nat)
    requires Prepared(s, s1, root) && IsRoot(s, root) && p.i4 < 256 && Holds1(s1, root, p, t3, t2, t1)
    ensures var s' := WriteWord(s1, t1, p.i1, w);
            Inv(s') && Grows(s, s', root) && (LeakFree(s) ==> LeakFree(s'))
            && Updates(s, s', root, p, PAGE_4K, LeafOf(w, PAGE_4K))
  {
    var s' := WriteWord(s1, t1, p.i1, w);
    assert s1.own[t1] == Owned(1, root, t2, p.i2);
    WriteKeepsInv(s1, t1, p.i1, w);
    forall r: nat, q: Path | IsRoot(s, r)
      ensures Walk(s'.ram, r, q)
              == if r == root && SameGranule(p, q, PAGE_4K) then LeafOf(w, PAGE_4K) else Walk(s.ram, r, q)
    {
      assert SameGranule(p, q, PAGE_4K) <==> p == q;
      WriteSlot1(s1, root, p, t3, t2, t1, w, r, q);
      assert Walk(s1.ram, r, q) == Walk(s.ram, r, q);
    }
  }

  lemma FillLarge(s: Vm, s2: Vm, root: nat, p: Path, t3: nat, t2: nat, w: nat)
    requires Prepared(s, s2, root) && IsRoot(s, root) && p.i4 < 256 && Holds2(s2, root, p, t3, t2)
    requires Huge(w)
    ensures var s' := WriteWord(s2, t2, p.i2, w);
            Inv(s') && Grows(s, s', root) && Updates(s, s', root, p, PAGE_2M, LeafOf(w, PAGE_2M))
  {
    var s' := WriteWord(s2, t2, p.i2, w);
    assert s2.own[t2] == Owned(2, root, t3, p.i3);
    WriteKeepsInv(s2, t2, p.i2, w);
    forall r: nat, q: Path | IsRoot(s, r)
      ensures Walk(s'.ram, r, q)
              == if r == root && SameGranule(p, q, PAGE_2M) then LeafOf(w, PAGE_2M) else Walk(s.ram, r, q)
    {
      WriteSlot2(s2, root, p, t3, t2, w, r, q);
      assert Walk(s2.ram, r, q) == Walk(s.ram, r, q);
    }
  }

  /** The map is of a 2 MiB block: asked for, and both addresses aligned. */
  predicate LargeStep(virt: nat, phys: nat, hw: nat) {
    Huge(hw) && Addr(virt) % PAGE_2M == 0 && Addr(phys) % PAGE_2M == 0
  }

  lemma GiantIsLarge(a: nat)
    ensures a % PAGE_1G == 0 ==> a % PAGE_2M == 0
  {
    if a % PAGE_1G == 0 {
      assert a == (a / PAGE_1G * 512) * PAGE_2M;
    }
  }

  lemma MapSmallSteps(s: Vm, root: nat, virt: nat, phys: nat, hw: nat)
    requires root != 0 && virt != 0 && phys != 0 && !LargeStep(virt, phys, hw)
    ensures var p := PathOf(virt);
            var (s1, t1) := Reach1(s, root, p, virt < TOP_BIT);
            MapWord(s, root, virt, phys, hw)
            == if t1 == 0 then (s1, false) else (WriteWord(s1, t1, p.i1, Entry(Addr(phys), hw)), true)
  {
    GiantIsLarge(Addr(virt));
    GiantIsLarge(Addr(phys));
  }

  lemma MapLargeSteps(s: Vm, root: nat, virt: nat, phys: nat, hw: nat)
    requires root != 0 && virt != 0 && phys != 0 && LargeStep(virt, phys, hw)
    requires !(Addr(virt) % PAGE_1G == 0 && Addr(phys) % PAGE_1G == 0)
    ensures var p := PathOf(virt);
            var (s2, t2) := Reach2(s, root, p, virt < TOP_BIT);
            MapWord(s, root, virt, phys, hw)
            == if t2 == 0 then (s2, false) else (WriteWord(s2, t2, p.i2, Entry(Addr(phys), hw)), true)
  {
  }

  lemma EntryLeaf(phys: nat, hw: nat, size: nat)
    requires Present(hw)
    ensures LeafOf(Entry(Addr(phys), hw), size) == LeafFor(phys, hw, size)
    ensures Huge(Entry(Addr(phys), hw)) == Huge(hw)
  {
    EntryFields(Addr(phys), hw);
  }

  /** A 4 KiB map with no huge leaf on its path: on success exactly the page of `virt`
      translates to the new frame; on failure no translation changes. */
  lemma MapSmall(s: Vm, root: nat, virt: nat, phys: nat, hw: nat)
    requires Inv(s) && IsRoot(s, root) && PathOf(virt).i4 < 256
    requires Present(hw) && !LargeStep(virt, phys, hw)
    requires var l := Walk(s.ram, root, PathOf(virt)); l.Leaf? ==> l.size == PAGE_4K
    ensures var (s', ok) := MapWord(s, root, virt, phys, hw);
            && Inv(s') && Grows(s, s', root) && (LeakFree(s) ==> LeakFree(s'))
            && (ok ==> Updates(s, s', root, PathOf(virt), PAGE_4K, LeafFor(phys, hw, PAGE_4K)))
            && (!ok ==> SameWalks(s, s'))
            && (ok ==> virt != 0 && phys != 0) && (!ok ==> virt == 0 || phys == 0 || s'.free == {})
  {
    if virt != 0 && phys != 0 {
      var p, user := PathOf(virt), virt < TOP_BIT;
      Reach1Keeps(s, root, p, user);
      MapSmallSteps(s, root, virt, phys, hw);
      var (s1, t1) := Reach1(s, root, p, user);
      if t1 != 0 {
        EntryLeaf(phys, hw, PAGE_4K);
        FillSmall(s, s1, root, p, EnsureTable(s, root, p.i4, user).1, Reach2(s, root, p, user).1, t1,
                  Entry(Addr(phys), hw));
      }
    }
  }

  /** Putting a huge leaf in the slot loses a page table exactly when one was linked there. */
  lemma LargeLeaks(s: Vm, root: nat, p: Path, t3: nat, t2: nat, w: nat)
    requires Inv(s) && LeakFree(s) && IsRoot(s, root) && p.i4 < 256 && Holds2(s, root, p, t3, t2) && Huge(w)
    ensures LeakFree(WriteWord(s, t2, p.i2, w)) <==> TableOf(s.ram, root, p) == 0
  {
    var s' := WriteWord(s, t2, p.i2, w);
    var e := Load(s.ram, t2, p.i2);
    assert s.own[t3] == Owned(3, root, root, p.i4);
    assert s.own[t2] == Owned(2, root, t3, p.i3);
    if Links(2, e) {
      var t1 := Addr(e);
      assert s.own[t1] == Owned(1, root, t2, p.i2);
      assert Load(s'.ram, t2, p.i2) == w;
      assert !Linked(s', t1);
    } else {
      WriteKeepsInv(s, t2, p.i2, w);
    }
  }

  lemma LargeTables(s: Vm, s2: Vm, root: nat, p: Path, t3: nat, t2: nat, w: nat)
    requires NoNewTables(s, s2) && Prepared(s, s2, root) && IsRoot(s, root) && p.i4 < 256
    requires Holds2(s2, root, p, t3, t2) && Huge(w)
    ensures NoNewTables(s, WriteWord(s2, t2, p.i2, w))
  {
    hide TableOf, Walk, LeakFree, Load, Store, Present, Addr;
    var s' := WriteWord(s2, t2, p.i2, w);
    forall r: nat, q: Path | IsRoot(s, r) && TableOf(s.ram, r, q) == 0
      ensures TableOf(s'.ram, r, q) == 0
    {
      assert TableOf(s2.ram, r, q) == 0;
      WriteSlot2Tables(s2, root, p, t3, t2, w, r, q);
    }
  }

  /** What reaching the page directory leaves of a page table at the end of the path. */
  lemma Reach2SameTable(s: Vm, r: nat, p: Path, user: bool)
    requires Inv(s) && IsRoot(s, r) && p.i4 < 256 && TableOf(s.ram, r, p) != 0
    ensures Reach2(s, r, p, user).0 == s
  {
  }

  /** A 2 MiB map under a path with no 1 GiB leaf, when the 1 GiB branch does not fire. It
      loses a page table exactly when one was linked where the leaf goes. */
  lemma MapLarge(s: Vm, root: nat, virt: nat, phys: nat, hw: nat)
    requires Inv(s) && IsRoot(s, root) && PathOf(virt).i4 < 256
    requires Present(hw) && LargeStep(virt, phys, hw)
    requires !(Addr(virt) % PAGE_1G == 0 && Addr(phys) % PAGE_1G == 0)
    requires var l := Walk(s.ram, root, PathOf(virt)); l.Leaf? ==> l.size != PAGE_1G
    ensures var (s', ok) := MapWord(s, root, virt, phys, hw);
            && Inv(s') && Grows(s, s', root) && NoNewTables(s, s')
            && (ok ==> Updates(s, s', root, PathOf(virt), PAGE_2M, LeafFor(phys, hw, PAGE_2M)))
            && (!ok ==> SameWalks(s, s'))
            && (ok ==> virt != 0 && phys != 0) && (!ok ==> virt == 0 || phys == 0 || s'.free == {})
            && (LeakFree(s) ==> (LeakFree(s') <==> !ok || TableOf(s.ram, root, PathOf(virt)) == 0))
  {
    if virt != 0 && phys != 0 {
      var p, user := PathOf(virt), virt < TOP_BIT;
      Reach2Keeps(s, root, p, user);
      Reach2Tables(s, root, p, user);
      MapLargeSteps(s, root, virt, phys, hw);
      var (s2, t2) := Reach2(s, root, p, user);
      if TableOf(s.ram, root, p) != 0 {
        Reach2SameTable(s, root, p, user);
      }
      hide MapWord, Reach2, TableOf, Walk, PathOf, EnsureTable, LeakFree, Closed, FramesOk, Present, Addr;
      if t2 != 0 {
        var t3, w := EnsureTable(s, root, p.i4, user).1, Entry(Addr(phys), hw);
        EntryLeaf(phys, hw, PAGE_2M);
        FillLarge(s, s2, root, p, t3, t2, w);
        LargeTables(s, s2, root, p, t3, t2, w);
        if LeakFree(s) {
          LargeLeaks(s2, root, p, t3, t2, w);
        }
      }
    }
  }

  /** The map is of a 1 GiB block: asked for, and both addresses aligned. */
  predicate GiantMap(virt: nat, phys: nat, hw: nat) {
    Huge(hw) && Addr(virt) % PAGE_1G == 0 && Addr(phys) % PAGE_1G == 0
  }

  /** The page directory a path runs through, or 0 when it ends above. */
  function DirectoryOf(ram: Ram, root: nat, p: Path): nat {
    var e4 := Load(ram, root, p.i4);
    if root == 0 || !Present(e4) then 0 else
    var t3 := Addr(e4);
    var e3 := Load(ram, t3, p.i3);
    if t3 == 0 || !Present(e3) || Huge(e3) then 0 else Addr(e3)
  }

  lemma MapGiantSteps(s: Vm, root: nat, virt: nat, phys: nat, hw: nat)
    requires root != 0 && virt != 0 && phys != 0 && GiantMap(virt, phys, hw)
    ensures var p := PathOf(virt);
            var (s3, t3) := EnsureTable(s, root, p.i4, virt < TOP_BIT);
            MapWord(s, root, virt, phys, hw)
            == if t3 == 0 then (s3, false) else (WriteWord(s3, t3, p.i3, Entry(Addr(phys), hw)), true)
  {
  }

  lemma FillGiant(s: Vm, s3: Vm, root: nat, p: Path, t3: nat, w: nat)
    requires Prepared(s, s3, root) && IsRoot(s, root) && p.i4 < 256 && Holds3(s3, root, p, t3)
    requires Huge(w)
    ensures var s' := WriteWord(s3, t3, p.i3, w);
            Inv(s') && Grows(s, s', root) && Updates(s, s', root, p, PAGE_1G, LeafOf(w, PAGE_1G))
  {
    var s' := WriteWord(s3, t3, p.i3, w);
    assert s3.own[t3] == Owned(3, root, root, p.i4);
    WriteKeepsInv(s3, t3, p.i3, w);
    forall r: nat, q: Path | IsRoot(s, r)
      ensures Walk(s'.ram, r, q)
              == if r == root && SameGranule(p, q, PAGE_1G) then LeafOf(w, PAGE_1G) else Walk(s.ram, r, q)
    {
      WriteSlot3(s3, root, p, t3, w, r, q);
      assert Walk(s3.ram, r, q) == Walk(s.ram, r, q);
    }
  }

  /** Putting a 1 GiB leaf in the slot loses tables exactly when a page directory was linked
      there. */
  lemma GiantLeaks(s: Vm, root: nat, p: Path, t3: nat, w: nat)
    requires Inv(s) && LeakFree(s) && IsRoot(s, root) && p.i4 < 256 && Holds3(s, root, p, t3) && Huge(w)
    ensures LeakFree(WriteWord(s, t3, p.i3, w)) <==> DirectoryOf(s.ram, root, p) == 0
  {
    var s' := WriteWord(s, t3, p.i3, w);
    var e := Load(s.ram, t3, p.i3);
    assert s.own[t3] == Owned(3, root, root, p.i4);
    if Links(3, e) {
      var t2 := Addr(e);
      assert s.own[t2] == Owned(2, root, t3, p.i3);
      assert Load(s'.ram, t3, p.i3) == w;
      assert !Linked(s', t2);
    } else {
      WriteKeepsInv(s, t3, p.i3, w);
    }
  }

  /** Making sure of the table under the top adds no page directory to the path. */
  lemma SameDirectory(s: Vm, root: nat, p: Path, user: bool)
    requires Inv(s) && IsRoot(s, root) && p.i4 < 256
    ensures DirectoryOf(EnsureTable(s, root, p.i4, user).0.ram, root, p) == DirectoryOf(s.ram, root, p)
  {
    assert !Present(0);
    EnsureKeeps(s, root, p.i4, user);
    if !Present(Load(s.ram, root, p.i4)) && s.free != {} {
      var f := TakeFrame(s).1;
      var w := LinkWord(f, user);
      LinkWordOk(f, user);
      assert EnsureTable(s, root, p.i4, user) == (Link(s, root, p.i4, f, w), f);
      LinkWrites(s, root, p.i4, f, w);
      hide Present, Huge, Addr, Load;
    }
  }

  /** A 1 GiB map, whatever lies on its path below the top table: on success exactly the pages of
      its block get the leaf, and it loses tables exactly when a page directory was linked where
      the leaf goes. */
  lemma MapGiant(s: Vm, root: nat, virt: nat, phys: nat, hw: nat)
    requires Inv(s) && IsRoot(s, root) && PathOf(virt).i4 < 256
    requires Present(hw) && GiantMap(virt, phys, hw)
    ensures var (s', ok) := MapWord(s, root, virt, phys, hw);
            && Inv(s') && Grows(s, s', root)
            && (ok ==> Updates(s, s', root, PathOf(virt), PAGE_1G, LeafFor(phys, hw, PAGE_1G)))
            && (!ok ==> SameWalks(s, s'))
            && (ok ==> virt != 0 && phys != 0) && (!ok ==> virt == 0 || phys == 0 || s'.free == {})
            && (LeakFree(s) ==> (LeakFree(s') <==> !ok || DirectoryOf(s.ram, root, PathOf(virt)) == 0))
  {
    if virt != 0 && phys != 0 {
      var p, user := PathOf(virt), virt < TOP_BIT;
      Reach3Keeps(s, root, p, user);
      SameDirectory(s, root, p, user);
      MapGiantSteps(s, root, virt, phys, hw);
      var (s3, t3) := EnsureTable(s, root, p.i4, user);
      hide MapWord, DirectoryOf, Walk, PathOf, EnsureTable, LeakFree, Closed, FramesOk, Present, Addr;
      if t3 != 0 {
        var w := Entry(Addr(phys), hw);
        EntryLeaf(phys, hw, PAGE_1G);
        FillGiant(s, s3, root, p, t3, w);
        if LeakFree(s) {
          GiantLeaks(s3, root, p, t3, w);
        }
      }
    }
  }

  /** Unmapping succeeds exactly on mapped pages, removes exactly the leaf found there, and
      takes or gives no frame. */
  lemma UnmapRemoves(s: Vm, virt: nat)
    requires Inv(s) && PathOf(virt).i4 < 256
    ensures var (s', ok) := Unmap(s, virt);
            var l := Walk(s.ram, s.cur, PathOf(virt));
            && Inv(s') && s' == s.(ram := s'.ram) && (LeakFree(s) ==> LeakFree(s'))
            && (ok <==> virt != 0 && l.Leaf?)
            && (ok ==> Updates(s, s', s.cur, PathOf(virt), l.size, Unmapped))
            && (!ok ==> s' == s)
  {
    var p := PathOf(virt);
    var (s', ok) := Unmap(s, virt);
    if ok {
      var t3 := Addr(Load(s.ram, s.cur, p.i4));
      var e3 := Load(s.ram, t3, p.i3);
      if Huge(e3) {
        WriteKeepsInv(s, t3, p.i3, 0);
        forall r: nat, q: Path | IsRoot(s, r)
          ensures Walk(s'.ram, r, q)
                  == if r == s.cur && SameGranule(p, q, PAGE_1G) then Unmapped else Walk(s.ram, r, q)
        {
          WriteSlot3(s, s.cur, p, t3, 0, r, q);
        }
      } else {
        UnmapBelow(s, virt, t3);
      }
    }
  }

  lemma UnmapBelow(s: Vm, virt: nat, t3: nat)
    requires Inv(s) && PathOf(virt).i4 < 256 && Unmap(s, virt).1
    requires t3 == Addr(Load(s.ram, s.cur, PathOf(virt).i4)) && !Huge(Load(s.ram, t3, PathOf(virt).i3))
    ensures var s' := Unmap(s, virt).0;
            var l := Walk(s.ram, s.cur, PathOf(virt));
            && Inv(s') && s' == s.(ram := s'.ram) && (LeakFree(s) ==> LeakFree(s'))
            && l.Leaf? && Updates(s, s', s.cur, PathOf(virt), l.size, Unmapped)
  {
    var p := PathOf(virt);
    var s' := Unmap(s, virt).0;
    var t2 := Addr(Load(s.ram, t3, p.i3));
    var e2 := Load(s.ram, t2, p.i2);
    assert s.own[t2] == Owned(2, s.cur, t3, p.i3);
    if Huge(e2) {
      WriteKeepsInv(s, t2, p.i2, 0);
      forall r: nat, q: Path | IsRoot(s, r)
        ensures Walk(s'.ram, r, q)
                == if r == s.cur && SameGranule(p, q, PAGE_2M) then Unmapped else Walk(s.ram, r, q)
      {
        WriteSlot2(s, s.cur, p, t3, t2, 0, r, q);
      }
    } else {
      var t1 := Addr(e2);
      WriteKeepsInv(s, t1, p.i1, 0);
      forall r: nat, q: Path | IsRoot(s, r)
        ensures Walk(s'.ram, r, q)
                == if r == s.cur && SameGranule(p, q, PAGE_4K) then Unmapped else Walk(s.ram, r, q)
      {
        assert SameGranule(p, q, PAGE_4K) <==> p == q;
        WriteSlot1(s, s.cur, p, t3, t2, t1, 0, r, q);
      }
    }
  }
}
