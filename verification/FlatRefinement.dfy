/** The tables in memory refine a flat model: one finite map from page number to leaf per
    address space. */
module FlatRefinement {
  import opened PageTables
  import opened VmState
  import opened MappingLaws
  import opened SpaceLaws
  import opened PageBlocks
  import opened VmFlags
  import opened BulkMapping

  datatype Flat = Flat(spaces: map<nat, map<nat, Leaf>>, cur: nat)

  function Lookup(m: map<nat, Leaf>, n: nat): Leaf {
    if n in m then m[n] else Unmapped
  }

  ghost predicate AgreesAt(s: Vm, flat: Flat, r: nat, n: nat)
    requires r in flat.spaces
  {
    Walk(s.ram, r, PathOf(n * PAGE_4K)) == Lookup(flat.spaces[r], n)
  }

  /** The flat model has a map for every space, and it gives the leaf the walk finds on
      every page of the lower half. */
  ghost predicate Agrees(s: Vm, flat: Flat) {
    && flat.cur == s.cur
    && (forall r :: r in flat.spaces <==> IsRoot(s, r))
    && (forall r, n: nat :: r in flat.spaces && n < LOWER_PAGES ==> AgreesAt(s, flat, r, n))
  }

  // ----- operations on both levels

  datatype Op =
    | MapPage(virt: nat, phys: nat, hw: nat)
    | MapRange(virt: nat, phys: nat, count: nat, flags: bv64, nx: bool)
    | UnmapPage(virt: nat)
    | NewSpace
    | SwitchTo(root: nat)
    | Delete(root: nat)

  datatype Result = Result(ok: bool, root: nat)

  ghost function Step(s: Vm, op: Op): (Vm, Result) {
    match op
    case MapPage(virt, phys, hw) => var (s', ok) := MapWord(s, s.cur, virt, phys, hw); (s', Result(ok, 0))
    case MapRange(virt, phys, count, flags, nx) =>
      var (s', ok) := MapPages(s, virt, phys, count, flags, nx); (s', Result(ok, 0))
    case UnmapPage(virt) => var (s', ok) := Unmap(s, virt); (s', Result(ok, 0))
    case NewSpace => var (s', r) := CreateSpace(s); (s', Result(r != 0, r))
    case SwitchTo(root) => (Switch(s, root), Result(true, root))
    case Delete(root) => (DeleteSpace(s, root), Result(true, root))
  }

  /** The pages from `v0` on get these leaves. */
  function Overlay(m: map<nat, Leaf>, v0: nat, leaves: seq<Leaf>): map<nat, Leaf> {
    m + map n | v0 <= n < v0 + |leaves| :: LeafAt(leaves, v0, n)
  }

  function LeafAt(leaves: seq<Leaf>, v0: nat, n: nat): Leaf
    requires v0 <= n < v0 + |leaves|
  {
    leaves[n - v0]
  }

  /** The leaves of a bulk map that succeeds. */
  function RangeLeaves(virt: nat, phys: nat, count: nat, flags: bv64, nx: bool): (ls: seq<Leaf>)
    ensures |ls| == count
  {
    BulkLeaves(phys, count, Blocks(virt, phys, count, flags), HwFlags(flags, nx), HwFlags(flags & !HUGE, nx))
  }

  /** What the operation that returned `res` does to the flat model. */
  function FlatStep(flat: Flat, op: Op, res: Result): Flat
    requires flat.cur in flat.spaces
  {
    var m: map<nat, Leaf> := flat.spaces[flat.cur];
    match op
    case MapPage(virt, phys, hw) =>
      if !res.ok then flat
      else if GiantMap(virt, phys, hw) then
        flat.(spaces := flat.spaces[flat.cur :=
          Overlay(m, virt / PAGE_1G * 0x4_0000, seq(0x4_0000, _ => LeafFor(phys, hw, PAGE_1G)))])
      else if LargeStep(virt, phys, hw) then
        flat.(spaces := flat.spaces[flat.cur :=
          Overlay(m, virt / PAGE_2M * 512, seq(512, _ => LeafFor(phys, hw, PAGE_2M)))])
      else
        var page: nat := virt / PAGE_4K;
        flat.(spaces := flat.spaces[flat.cur := m[page := LeafFor(phys, hw, PAGE_4K)]])
    case MapRange(virt, phys, count, flags, nx) =>
      if !res.ok then flat else
      flat.(spaces := flat.spaces[flat.cur := Overlay(m, virt / PAGE_4K, RangeLeaves(virt, phys, count, flags, nx))])
    case UnmapPage(virt) =>
      var l := Lookup(m, virt / PAGE_4K);
      if !res.ok || l.Unmapped? || l.size == 0 then flat else
      flat.(spaces := flat.spaces[flat.cur := map n | n in m && !InBlock(n, virt, l.size) :: m[n]])
    case NewSpace =>
      if !res.ok then flat else flat.(spaces := flat.spaces[res.root := map[]])
    case SwitchTo(root) =>
      if root == 0 then flat else flat.(cur := root)
    case Delete(root) =>
      if root == 0 || root == flat.cur then flat else flat.(spaces := flat.spaces - {root})
  }

  /** Lower-half operations on spaces that exist: a 4 KiB map does not land under a huge leaf, a
      2 MiB map not under a 1 GiB leaf, and a bulk map goes to a vacant range and lays no 1 GiB
      leaf by accident. */
  ghost predicate Allowed(flat: Flat, op: Op) {
    match op
    case MapPage(virt, phys, hw) =>
      && virt < LOWER_HALF && Present(hw) && flat.cur in flat.spaces
      && var l := Lookup(flat.spaces[flat.cur], virt / PAGE_4K);
         if GiantMap(virt, phys, hw) then true
         else if LargeStep(virt, phys, hw) then l.Leaf? ==> l.size != PAGE_1G
         else l.Leaf? ==> l.size == PAGE_4K
    case MapRange(virt, phys, count, flags, _) =>
      && virt / PAGE_4K + count <= LOWER_PAGES && flat.cur in flat.spaces
      && (forall n: nat :: virt / PAGE_4K <= n < virt / PAGE_4K + count ==>
            Lookup(flat.spaces[flat.cur], n) == Unmapped)
      && NoGiantStep(virt, phys, Blocks(virt, phys, count, flags))
    case UnmapPage(virt) => virt < LOWER_HALF
    case NewSpace => true
    case SwitchTo(root) => root == 0 || root in flat.spaces
    case Delete(root) => root == 0 || root in flat.spaces
  }

  /** The operation lays a huge leaf where a table is linked, which is then lost. */
  ghost predicate Buries(s: Vm, op: Op) {
    match op
    case MapPage(virt, phys, hw) =>
      if GiantMap(virt, phys, hw) then DirectoryOf(s.ram, s.cur, PathOf(virt)) != 0
      else LargeStep(virt, phys, hw) && TableOf(s.ram, s.cur, PathOf(virt)) != 0
    case MapRange(virt, phys, count, flags, _) => !NoTablesUnder(s, virt, Blocks(virt, phys, count, flags))
    case _ => false
  }

  ghost predicate Sound(s: Vm, flat: Flat) {
    Inv(s) && Agrees(s, flat)
  }

  /** The state agrees, and no table was lost unless the step buried one. */
  ghost predicate Refined(s: Vm, flat: Flat, op: Op) {
    && flat.cur in flat.spaces
    && var (s', res) := Step(s, op);
       Sound(s', FlatStep(flat, op, res)) && (LeakFree(s) && !Buries(s, op) ==> LeakFree(s'))
  }

  lemma PageWalk(s: Vm, flat: Flat, r: nat, virt: nat)
    requires Agrees(s, flat) && r in flat.spaces && virt < LOWER_HALF
    ensures Walk(s.ram, r, PathOf(virt)) == Lookup(flat.spaces[r], virt / PAGE_4K)
  {
    var n := virt / PAGE_4K;
    PathIsPage(virt, n * PAGE_4K);
    assert AgreesAt(s, flat, r, n);
  }

  lemma WalkSizes(ram: Ram, r: nat, p: Path)
    ensures Walk(ram, r, p).Leaf? ==> LeafSize(Walk(ram, r, p).size)
  {
  }

  lemma SmallRefines(s: Vm, flat: Flat, virt: nat, phys: nat, hw: nat)
    requires Sound(s, flat) && Allowed(flat, MapPage(virt, phys, hw)) && !LargeStep(virt, phys, hw)
    ensures Refined(s, flat, MapPage(virt, phys, hw))
  {
    NoGiant(virt, phys, hw);
    hide Walk, MapWord, Unmap, PathOf, Closed, FramesOk, LeakFree, Stored, LargeStep, TableOf, GiantMap;
    PageWalk(s, flat, s.cur, virt);
    PathIsPage(virt, virt);
    MapSmall(s, s.cur, virt, phys, hw);
    var (s', res) := Step(s, MapPage(virt, phys, hw));
    var flat' := FlatStep(flat, MapPage(virt, phys, hw), res);
    forall r, n: nat | r in flat'.spaces && n < LOWER_PAGES
      ensures AgreesAt(s', flat', r, n)
    {
      assert AgreesAt(s, flat, r, n);
      assert IsRoot(s, r);
      BlockIsGranule(virt, n, PAGE_4K);
    }
  }

  /** The pages of the 2 MiB block an address lies in. */
  lemma PagesOfBlock(virt: nat, n: nat)
    ensures InBlock(n, virt, PAGE_2M) <==> virt / PAGE_2M * 512 <= n < virt / PAGE_2M * 512 + 512
  {
    Div2M(n * PAGE_4K);
    assert n * PAGE_4K / PAGE_4K == n;
  }

  lemma OverlayAt(m: map<nat, Leaf>, v0: nat, leaves: seq<Leaf>, n: nat)
    ensures Lookup(Overlay(m, v0, leaves), n) == if v0 <= n < v0 + |leaves| then leaves[n - v0] else Lookup(m, n)
  {
  }

  lemma LargeRefines(s: Vm, flat: Flat, virt: nat, phys: nat, hw: nat)
    requires Sound(s, flat) && Allowed(flat, MapPage(virt, phys, hw)) && LargeStep(virt, phys, hw)
             && !GiantMap(virt, phys, hw)
    ensures Refined(s, flat, MapPage(virt, phys, hw))
  {
    NoGiant(virt, phys, hw);
    hide Walk, MapWord, Unmap, PathOf, Closed, FramesOk, LeakFree, Stored, LargeStep, TableOf, Overlay,
         NoNewTables, GiantMap;
    PageWalk(s, flat, s.cur, virt);
    PathIsPage(virt, virt);
    MapLarge(s, s.cur, virt, phys, hw);
    var (s', res) := Step(s, MapPage(virt, phys, hw));
    var flat' := FlatStep(flat, MapPage(virt, phys, hw), res);
    var l := LeafFor(phys, hw, PAGE_2M);
    forall r, n: nat | r in flat'.spaces && n < LOWER_PAGES
      ensures AgreesAt(s', flat', r, n)
    {
      assert AgreesAt(s, flat, r, n);
      assert IsRoot(s, r);
      BlockIsGranule(virt, n, PAGE_2M);
      PagesOfBlock(virt, n);
      OverlayAt(flat.spaces[flat.cur], virt / PAGE_2M * 512, seq(512, _ => l), n);
    }
  }

  lemma NoGiant(virt: nat, phys: nat, hw: nat)
    ensures GiantMap(virt, phys, hw) ==> LargeStep(virt, phys, hw)
    ensures LargeStep(virt, phys, hw) && !GiantMap(virt, phys, hw) ==> !(Addr(virt) % PAGE_1G == 0 && Addr(phys) % PAGE_1G == 0)
  {
    GiantIsLarge(Addr(virt));
    GiantIsLarge(Addr(phys));
  }

  /** The pages of the 1 GiB block an address lies in. */
  lemma PagesOfGiant(virt: nat, n: nat)
    ensures InBlock(n, virt, PAGE_1G) <==> virt / PAGE_1G * 0x4_0000 <= n < virt / PAGE_1G * 0x4_0000 + 0x4_0000
  {
    assert n * PAGE_4K / PAGE_1G == n / 0x4_0000;
  }

  lemma GiantRefines(s: Vm, flat: Flat, virt: nat, phys: nat, hw: nat)
    requires Sound(s, flat) && Allowed(flat, MapPage(virt, phys, hw)) && GiantMap(virt, phys, hw)
    ensures Refined(s, flat, MapPage(virt, phys, hw))
  {
    hide Walk, MapWord, Unmap, PathOf, Closed, FramesOk, LeakFree, Stored, GiantMap, DirectoryOf, Overlay;
    PageWalk(s, flat, s.cur, virt);
    PathIsPage(virt, virt);
    MapGiant(s, s.cur, virt, phys, hw);
    var (s', res) := Step(s, MapPage(virt, phys, hw));
    var flat' := FlatStep(flat, MapPage(virt, phys, hw), res);
    var l := LeafFor(phys, hw, PAGE_1G);
    forall r, n: nat | r in flat'.spaces && n < LOWER_PAGES
      ensures AgreesAt(s', flat', r, n)
    {
      assert AgreesAt(s, flat, r, n);
      assert IsRoot(s, r);
      BlockIsGranule(virt, n, PAGE_1G);
      PagesOfGiant(virt, n);
      OverlayAt(flat.spaces[flat.cur], virt / PAGE_1G * 0x4_0000, seq(0x4_0000, _ => l), n);
    }
  }

  lemma FlatVacant(s: Vm, flat: Flat, v0: nat, count: nat)
    requires Sound(s, flat) && v0 + count <= LOWER_PAGES && flat.cur in flat.spaces
    requires forall n: nat :: v0 <= n < v0 + count ==> Lookup(flat.spaces[flat.cur], n) == Unmapped
    ensures Vacant(s, v0, count)
  {
    hide Walk, PathOf, Closed, FramesOk;
    forall k: nat | v0 <= k < v0 + count
      ensures Walk(s.ram, s.cur, PathOf(k * PAGE_4K)) == Unmapped
    {
      assert AgreesAt(s, flat, s.cur, k);
    }
  }

  lemma RangeRefines(s: Vm, flat: Flat, virt: nat, phys: nat, count: nat, flags: bv64, nx: bool)
    requires Sound(s, flat) && Allowed(flat, MapRange(virt, phys, count, flags, nx))
    ensures Refined(s, flat, MapRange(virt, phys, count, flags, nx))
  {
    hide Walk, MapPages, PathOf, LeakFree, HwFlags, NoTablesUnder, NoGiantStep, Overlay, BulkLeaves, Closed,
         FramesOk, Blocks;
    var v0 := virt / PAGE_4K;
    FlatVacant(s, flat, v0, count);
    MapPagesOutcome(s, virt, phys, count, flags, nx);
    var op := MapRange(virt, phys, count, flags, nx);
    var (s', res) := Step(s, op);
    var flat' := FlatStep(flat, op, res);
    var leaves, h := RangeLeaves(virt, phys, count, flags, nx), Blocks(virt, phys, count, flags);
    forall r, n: nat | r in flat'.spaces && n < LOWER_PAGES
      ensures AgreesAt(s', flat', r, n)
    {
      assert AgreesAt(s, flat, r, n);
      assert IsRoot(s, r);
      if res.ok {
        assert WindowAt(s, s', v0, leaves, 0, 512 * h, 512 * h, count, r, n);
        OverlayAt(flat.spaces[flat.cur], v0, leaves, n);
      } else {
        assert WindowAt(s, s', 0, [], 0, 0, 0, 0, r, n);
      }
    }
  }

  lemma UnmapRefines(s: Vm, flat: Flat, virt: nat)
    requires Sound(s, flat) && Allowed(flat, UnmapPage(virt))
    ensures Refined(s, flat, UnmapPage(virt))
  {
    hide Walk, MapWord, Unmap, PathOf, Closed, FramesOk, LeakFree, Stored;
    PageWalk(s, flat, s.cur, virt);
    WalkSizes(s.ram, s.cur, PathOf(virt));
    PathIsPage(virt, virt);
    UnmapRemoves(s, virt);
    var (s', res) := Step(s, UnmapPage(virt));
    var flat' := FlatStep(flat, UnmapPage(virt), res);
    forall r, n: nat | r in flat'.spaces && n < LOWER_PAGES
      ensures AgreesAt(s', flat', r, n)
    {
      assert AgreesAt(s, flat, r, n);
      assert IsRoot(s, r);
      var l := Walk(s.ram, s.cur, PathOf(virt));
      if l.Leaf? {
        BlockIsGranule(virt, n, l.size);
      }
    }
  }

  lemma SpaceRefines(s: Vm, flat: Flat, op: Op)
    requires Sound(s, flat) && Allowed(flat, op) && (op.NewSpace? || op.SwitchTo? || op.Delete?)
    ensures Refined(s, flat, op)
  {
    hide Walk, PathOf, CreateSpace, SpaceFrames, Closed, FramesOk, LeakFree;
    var (s', res) := Step(s, op);
    var flat' := FlatStep(flat, op, res);
    match op {
      case NewSpace =>
        CreateKeeps(s);
      case SwitchTo(root) =>
        SwitchKeepsAll(s, root);
      case Delete(root) =>
        if root != 0 && root != s.cur {
          DeleteKeepsInv(s, root);
          if LeakFree(s) {
            DeleteKeeps(s, root);
          }
        }
    }
    forall r, n: nat | r in flat'.spaces && n < LOWER_PAGES
      ensures AgreesAt(s', flat', r, n)
    {
      PathIsPage(n * PAGE_4K, n * PAGE_4K);
      if IsRoot(s, r) {
        assert AgreesAt(s, flat, r, n);
      }
    }
  }

  lemma SwitchKeepsAll(s: Vm, root: nat)
    requires Inv(s) && (root == 0 || IsRoot(s, root))
    ensures Inv(Switch(s, root)) && (LeakFree(s) ==> LeakFree(Switch(s, root)))
  {
    hide Present, Huge, Addr;
    var s' := Switch(s, root);
    assert forall f :: f in s.own && s.own[f].Owned? ==> (Linked(s, f) <==> Linked(s', f));
  }

  /** Each operation on the tables agrees with its effect on the flat model, and loses no
      table unless it lays a huge leaf over one. */
  lemma StepRefines(s: Vm, flat: Flat, op: Op)
    requires Sound(s, flat) && Allowed(flat, op)
    ensures Refined(s, flat, op)
  {
    hide Sound, Allowed, Refined;
    match op
    case MapPage(virt, phys, hw) =>
      NoGiant(virt, phys, hw);
      if GiantMap(virt, phys, hw) {
        GiantRefines(s, flat, virt, phys, hw);
      } else if LargeStep(virt, phys, hw) {
        LargeRefines(s, flat, virt, phys, hw);
      } else {
        SmallRefines(s, flat, virt, phys, hw);
      }
    case MapRange(virt, phys, count, flags, nx) => RangeRefines(s, flat, virt, phys, count, flags, nx);
    case UnmapPage(virt) => UnmapRefines(s, flat, virt);
    case _ => SpaceRefines(s, flat, op);
  }

  // ----- runs

  ghost function Run(s: Vm, ops: seq<Op>): Vm
    decreases |ops|
  {
    if ops == [] then s else Run(Step(s, ops[0]).0, ops[1..])
  }

  /** The flat model driven by the results the operations return. */
  ghost function FlatRun(s: Vm, flat: Flat, ops: seq<Op>): Flat
    decreases |ops|
  {
    if ops == [] || flat.cur !in flat.spaces then flat else
    var (s', res) := Step(s, ops[0]);
    FlatRun(s', FlatStep(flat, ops[0], res), ops[1..])
  }

  ghost predicate AllowedRun(s: Vm, flat: Flat, ops: seq<Op>)
    decreases |ops|
  {
    ops == [] ||
    (flat.cur in flat.spaces && Allowed(flat, ops[0])
     && var (s', res) := Step(s, ops[0]);
        AllowedRun(s', FlatStep(flat, ops[0], res), ops[1..]))
  }

  /** No step of the run lays a huge leaf over a linked table. */
  ghost predicate BuriesNothing(s: Vm, ops: seq<Op>)
    decreases |ops|
  {
    ops == [] || (!Buries(s, ops[0]) && BuriesNothing(Step(s, ops[0]).0, ops[1..]))
  }

  /** Over every run of 4 KiB, 2 MiB, 1 GiB and bulk maps with their rollbacks, unmaps, creations,
      switches and deletions the tables in memory agree with the flat model and the ownership
      invariant holds; and no table is lost in a run that never buries one. */
  lemma {:induction false} RunRefines(s: Vm, flat: Flat, ops: seq<Op>)
    requires Sound(s, flat) && AllowedRun(s, flat, ops)
    ensures Sound(Run(s, ops), FlatRun(s, flat, ops))
    ensures LeakFree(s) && BuriesNothing(s, ops) ==> LeakFree(Run(s, ops))
    decreases |ops|
  {
    hide Sound, Allowed, Step, FlatStep, Buries, LeakFree;
    if ops == [] {
    } else {
      StepRefines(s, flat, ops[0]);
      var (s', res) := Step(s, ops[0]);
      RunRefines(s', FlatStep(flat, ops[0], res), ops[1..]);
    }
  }

  // ----- starting

  /** The flat map of one space: the leaf the walk finds on each page. */
  ghost function PagesOf(s: Vm, r: nat): map<nat, Leaf> {
    map n | 0 <= n < LOWER_PAGES && Walk(s.ram, r, PathOf(n * PAGE_4K)).Leaf? :: Walk(s.ram, r, PathOf(n * PAGE_4K))
  }

  ghost function FlatOf(s: Vm): Flat {
    Flat(map r | r in s.own && IsRoot(s, r) :: PagesOf(s, r), s.cur)
  }

  /** A run can start anywhere: every state that meets the invariant, whatever its tables hold
      in either half, agrees with the flat model read off it. */
  lemma AnyStateIsSound(s: Vm)
    requires Inv(s)
    ensures Sound(s, FlatOf(s))
  {
    hide Walk, PathOf, Closed, FramesOk;
    var flat := FlatOf(s);
    forall r, n: nat | r in flat.spaces && n < LOWER_PAGES
      ensures AgreesAt(s, flat, r, n)
    {
      assert flat.spaces[r] == PagesOf(s, r);
    }
  }

  /** A run can start: one space with an empty top table agrees with one empty flat map. */
  lemma StartIsSound(managed: set<nat>, free: set<nat>, root: nat)
    requires free <= managed && root !in free && root != 0 && root % PAGE_4K == 0
    requires forall f :: f in free ==> f != 0 && f % PAGE_4K == 0
    ensures var s := Vm(managed, free, map[root := ZeroPage()], root, map[root := Owned(4, root, 0, 0)]);
            LeakFree(s) && Sound(s, Flat(map[root := map[]], root))
  {
    var s := Vm(managed, free, map[root := ZeroPage()], root, map[root := Owned(4, root, 0, 0)]);
    var flat := Flat(map[root := map[]], root);
    assert !Present(0);
    hide PathOf;
    forall r, n: nat | r in flat.spaces && n < LOWER_PAGES
      ensures AgreesAt(s, flat, r, n)
    {
      assert Load(s.ram, root, PathOf(n * PAGE_4K).i4) == 0;
    }
  }
}
