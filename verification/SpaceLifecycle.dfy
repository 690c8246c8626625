/** The life of one address space: create it, fill it, leave it, delete it. */
module SpaceLifecycle {
  import opened PageTables
  import opened VmState
  import opened MappingLaws
  import opened SpaceLaws
  import opened FlatRefinement

  /** A lower-half 4 KiB map or unmap, with any arguments that may fail. */
  predicate UserOp(op: Op) {
    match op
    case MapPage(virt, _, hw) => virt < LOWER_HALF && Present(hw) && !Huge(hw)
    case UnmapPage(virt) => virt < LOWER_HALF
    case _ => false
  }

  /** The current space's lower half holds no huge leaf. */
  ghost predicate SmallOnly(s: Vm) {
    forall p: Path {:trigger Walk(s.ram, s.cur, p)} :: p.i4 < 256 && Walk(s.ram, s.cur, p).Leaf? ==>
      Walk(s.ram, s.cur, p).size == PAGE_4K
  }

  /** Nothing outside the lower half of space `root` translates differently. */
  ghost predicate OthersSame(s: Vm, s': Vm, root: nat) {
    forall r: nat, p: Path {:trigger Walk(s'.ram, r, p)} ::
      IsRoot(s, r) && (r != root || p.i4 >= 256) ==> Walk(s'.ram, r, p) == Walk(s.ram, r, p)
  }

  lemma UserStep(s: Vm, op: Op)
    requires Inv(s) && LeakFree(s) && SmallOnly(s) && UserOp(op)
    ensures var s' := Step(s, op).0;
            Inv(s') && LeakFree(s') && SmallOnly(s') && Grows(s, s', s.cur) && OthersSame(s, s', s.cur)
  {
    hide Walk, MapWord, Unmap, PathOf, Closed, FramesOk, LeakFree, Stored;
    PathIsPage(op.virt, op.virt);
    match op
    case MapPage(virt, phys, hw) =>
      MapSmall(s, s.cur, virt, phys, hw);
    case UnmapPage(virt) =>
      UnmapRemoves(s, virt);
  }

  lemma {:induction false} UserRun(s: Vm, ops: seq<Op>)
    requires Inv(s) && LeakFree(s) && SmallOnly(s)
    requires forall i :: 0 <= i < |ops| ==> UserOp(ops[i])
    ensures var s' := Run(s, ops);
            Inv(s') && LeakFree(s') && Grows(s, s', s.cur) && OthersSame(s, s', s.cur)
    decreases |ops|
  {
    hide Walk, Step, Inv, LeakFree;
    if ops == [] {
    } else {
      UserStep(s, ops[0]);
      var m := Step(s, ops[0]).0;
      UserRun(m, ops[1..]);
      var s' := Run(m, ops[1..]);
      GrowsTrans(s, m, s', s.cur);
      forall r: nat, p: Path | IsRoot(s, r) && (r != s.cur || p.i4 >= 256)
        ensures Walk(s'.ram, r, p) == Walk(s.ram, r, p)
      {
        assert Walk(m.ram, r, p) == Walk(s.ram, r, p);
      }
    }
  }

  /** Every owned table belongs to a space that exists. */
  lemma RootKnown(s: Vm, f: nat)
    requires Inv(s) && LeakFree(s) && f in s.own && s.own[f].Owned?
    ensures IsRoot(s, s.own[f].root)
  {
    if s.own[f].level < 4 {
      assert Linked(s, f);
      var g := s.own[f].parent;
      if s.own[g].level < 4 {
        assert Linked(s, g);
        var h := s.own[g].parent;
        if s.own[h].level < 4 {
          assert Linked(s, h);
        }
      }
    }
  }

  ghost function WholeLife(s: Vm, ops: seq<Op>): Vm {
    var (s1, r) := CreateSpace(s);
    var s3 := Run(Switch(s1, r), ops);
    DeleteSpace(Switch(s3, s.cur), r)
  }

  lemma SwitchKeeps(s: Vm, root: nat)
    requires Inv(s) && LeakFree(s) && IsRoot(s, root)
    ensures var s' := Switch(s, root); Inv(s') && LeakFree(s') && s' == s.(cur := root)
  {
    var s' := Switch(s, root);
    forall f | f in s'.own && s'.own[f].Owned? && s'.own[f].level < 4
      ensures Linked(s', f)
    {
      assert Linked(s, f);
    }
  }

  lemma NoneOwnedYet(s: Vm, r: nat)
    requires Inv(s) && LeakFree(s) && r !in s.own
    ensures forall f :: f in s.own && s.own[f].Owned? ==> s.own[f].root != r
  {
    forall f | f in s.own && s.own[f].Owned?
      ensures s.own[f].root != r
    {
      RootKnown(s, f);
    }
  }

  /** Right after creation and switch: an empty current space. */
  lemma Entered(s: Vm)
    requires Inv(s) && LeakFree(s) && CreateSpace(s).1 != 0
    ensures var (s1, r) := CreateSpace(s);
            var s2 := Switch(s1, r);
            && Inv(s2) && LeakFree(s2) && SmallOnly(s2) && SameWalks(s, s2)
            && s2.cur == r && r in s.free && s2.free == s.free - {r} && s2.managed == s.managed
            && s2.own == s.own[r := Owned(4, r, 0, 0)] && (forall q :: IsRoot(s, q) ==> IsRoot(s2, q) && q != r)
  {
    CreateKeeps(s);
    var (s1, r) := CreateSpace(s);
    SwitchKeeps(s1, r);
    assert Switch(s1, r).ram == s1.ram;
  }

  /** What the space owns in `s3` is exactly what was taken since `s`. */
  lemma OwnsWhatItTook(s: Vm, s2: Vm, s3: Vm, r: nat)
    requires forall f :: f in s.own && s.own[f].Owned? ==> s.own[f].root != r
    requires r !in s.own && r in s.free && s2.free == s.free - {r} && s2.own == s.own[r := Owned(4, r, 0, 0)]
    requires forall f :: f in s.own ==> f !in s.free
    requires Grows(s2, s3, r)
    ensures forall f :: BelongsTo(s3, f, r) <==> f in s.free && f !in s3.free
    ensures forall f :: f in s3.own && !BelongsTo(s3, f, r) <==> f in s.own
    ensures forall f :: f in s.own ==> f in s3.own && s3.own[f] == s.own[f]
    ensures s3.free <= s.free
  {
    forall f
      ensures BelongsTo(s3, f, r) <==> f in s.free && f !in s3.free
    {
      assert f in s3.free <==> f in s2.free && !(f in s3.own && f !in s2.own);
    }
  }

  /** The state in which the space is deleted. */
  lemma Left(s: Vm, ops: seq<Op>)
    requires Inv(s) && LeakFree(s) && CreateSpace(s).1 != 0
    requires forall i :: 0 <= i < |ops| ==> UserOp(ops[i])
    ensures var (s1, r) := CreateSpace(s);
            var s2 := Switch(s1, r);
            var s3 := Run(s2, ops);
            var s4 := Switch(s3, s.cur);
            && Inv(s4) && LeakFree(s4) && IsRoot(s4, r) && r != s.cur && s4 == s3.(cur := s.cur)
            && s4.managed == s.managed && SameWalks(s, s4) && Grows(s2, s3, r)
  {
    hide Walk, Step, Closed, FramesOk, LeakFree, CreateSpace, Switch;
    Entered(s);
    var (s1, r) := CreateSpace(s);
    var s2 := Switch(s1, r);
    UserRun(s2, ops);
    var s3 := Run(s2, ops);
    SwitchKeeps(s3, s.cur);
    forall q: nat, p: Path | IsRoot(s, q)
      ensures Walk(s3.ram, q, p) == Walk(s.ram, q, p)
    {
      assert Walk(s2.ram, q, p) == Walk(s.ram, q, p);
    }
  }

  /** Creating a space, switching to it, running any lower-half 4 KiB maps and unmaps,
      switching back and deleting it gives back exactly the frames it took, each once, and
      nothing else changes for anyone. */
  lemma LifecycleRestores(s: Vm, ops: seq<Op>)
    requires Inv(s) && LeakFree(s) && CreateSpace(s).1 != 0
    requires forall i :: 0 <= i < |ops| ==> UserOp(ops[i])
    ensures var (s1, r) := CreateSpace(s);
            var s3 := Run(Switch(s1, r), ops);
            var s' := WholeLife(s, ops);
            && s'.free == s.free && s'.own == s.own && s'.cur == s.cur && SameWalks(s, s')
            && Distinct(SpaceFrames(s3.ram, r))
            && (forall f :: f in SpaceFrames(s3.ram, r) <==> f in s.free && f !in s3.free)
  {
    Entered(s);
    Left(s, ops);
    var (s1, r) := CreateSpace(s);
    var s2 := Switch(s1, r);
    var s3 := Run(s2, ops);
    NoneOwnedYet(s, r);
    OwnsWhatItTook(s, s2, s3, r);
    Restored(s, Switch(s3, s.cur), r);
  }

  lemma Restored(s: Vm, s4: Vm, r: nat)
    requires Inv(s4) && LeakFree(s4) && IsRoot(s4, r) && r != s4.cur && s4.managed == s.managed
    requires s.free <= s.managed && s4.free <= s.free
    requires forall f :: BelongsTo(s4, f, r) <==> f in s.free && f !in s4.free
    requires forall f :: f in s4.own && !BelongsTo(s4, f, r) <==> f in s.own
    requires forall f :: f in s.own ==> f in s4.own && s4.own[f] == s.own[f]
    ensures var s' := DeleteSpace(s4, r);
            && s'.free == s.free && s'.own == s.own && s'.cur == s4.cur && s'.ram == s4.ram
            && Distinct(SpaceFrames(s4.ram, r))
            && (forall f :: f in SpaceFrames(s4.ram, r) <==> f in s.free && f !in s4.free)
  {
    DeleteVisits(s4, r);
    DeleteKeeps(s4, r);
    var s' := DeleteSpace(s4, r);
    assert forall f :: f in s'.free <==> f in s.free;
    assert forall f :: f in s'.own <==> f in s.own;
  }
}
