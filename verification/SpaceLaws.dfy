/** Creating and deleting address spaces. */
module SpaceLaws {
  import opened PageTables
  import opened VmState
  import opened MappingLaws

  /** A new space translates the higher half exactly as its creator does and the lower half
      not at all; no other space notices. */
  lemma CreateKeeps(s: Vm)
    requires Inv(s)
    ensures var (s', r) := CreateSpace(s);
            && Inv(s') && (LeakFree(s) ==> LeakFree(s')) && SameWalks(s, s')
            && (r == 0 ==> s' == s && s.free == {})
            && (r != 0 ==> && r in s.free && s'.free == s.free - {r} && s'.cur == s.cur && s'.managed == s.managed
                           && s'.own == s.own[r := Owned(4, r, 0, 0)])
            && (forall p: Path {:trigger Walk(s'.ram, r, p)} ::
                  r != 0 ==> Walk(s'.ram, r, p) == if p.i4 < 256 then Unmapped else Walk(s.ram, s.cur, p))
  {
    var (s', r) := CreateSpace(s);
    if r != 0 {
      assert forall g: nat, j: Index :: g != r ==> Load(s'.ram, g, j) == Load(s.ram, g, j);
      assert forall j: Index :: Load(s'.ram, r, j) == if j >= 256 then Load(s.ram, s.cur, j) else 0;
      assert !Present(0);
      CreatedInv(s);
      forall p: Path
        ensures Walk(s'.ram, r, p) == if p.i4 < 256 then Unmapped else Walk(s.ram, s.cur, p)
      {
        CreatedWalk(s, p);
      }
      forall q: nat, p: Path | IsRoot(s, q)
        ensures Walk(s'.ram, q, p) == Walk(s.ram, q, p)
      {
        OldWalk(s, q, p);
      }
    }
  }

  lemma CreatedInv(s: Vm)
    requires Inv(s) && CreateSpace(s).1 != 0
    ensures var s' := CreateSpace(s).0; Inv(s') && (LeakFree(s) ==> LeakFree(s'))
  {
    assert !Present(0);
    CreatedWords(s);
    hide Present, Huge, Addr, Load, HigherHalf, LeakFree;
    if LeakFree(s) {
      CreatedLeakFree(s);
    }
  }

  /** Creation writes one frame that was no table. */
  lemma CreatedWords(s: Vm)
    requires Inv(s) && CreateSpace(s).1 != 0
    ensures var (s', r) := CreateSpace(s);
            && r in s.free && r !in s.own
            && (forall g: nat, j: Index :: g != r ==> Load(s'.ram, g, j) == Load(s.ram, g, j))
            && (forall j: Index :: Load(s'.ram, r, j) == if j >= 256 then Load(s.ram, s.cur, j) else 0)
  {
    hide Present, Huge, Addr, Closed;
  }

  lemma CreatedLeakFree(s: Vm)
    requires Inv(s) && CreateSpace(s).1 != 0 && LeakFree(s)
    ensures LeakFree(CreateSpace(s).0)
  {
    CreatedWords(s);
    hide Present, Huge, Addr, Load, HigherHalf, Closed;
    var s' := CreateSpace(s).0;
    forall f | f in s'.own && s'.own[f].Owned? && s'.own[f].level < 4
      ensures Linked(s', f)
    {
      assert Linked(s, f);
    }
  }

  lemma CreatedWalk(s: Vm, p: Path)
    requires Inv(s) && CreateSpace(s).1 != 0
    ensures var (s', r) := CreateSpace(s);
            Walk(s'.ram, r, p) == if p.i4 < 256 then Unmapped else Walk(s.ram, s.cur, p)
  {
    assert !Present(0);
    hide Present, Huge, Addr;
    var (s', r) := CreateSpace(s);
    assert forall g: nat, j: Index :: g != r ==> Load(s'.ram, g, j) == Load(s.ram, g, j);
    assert Load(s'.ram, r, p.i4) == if p.i4 >= 256 then Load(s.ram, s.cur, p.i4) else 0;
  }

  lemma OldWalk(s: Vm, q: nat, p: Path)
    requires Inv(s) && CreateSpace(s).1 != 0 && IsRoot(s, q)
    ensures Walk(CreateSpace(s).0.ram, q, p) == Walk(s.ram, q, p)
  {
    var (s', r) := CreateSpace(s);
    assert forall g: nat, j: Index :: g != r ==> Load(s'.ram, g, j) == Load(s.ram, g, j);
  }

  // ----- deletion

  predicate Distinct(xs: seq<nat>) {
    forall i, j :: 0 <= i < j < |xs| ==> xs[i] != xs[j]
  }

  lemma DistinctConcat(xs: seq<nat>, ys: seq<nat>)
    requires Distinct(xs) && Distinct(ys) && forall x :: x in xs ==> x !in ys
    ensures Distinct(xs + ys)
  {
    var zs := xs + ys;
    forall i, j | 0 <= i < j < |zs|
      ensures zs[i] != zs[j]
    {
      if i < |xs| <= j {
        assert zs[i] in xs && zs[j] in ys;
      }
    }
  }

  /** Frame `f` is a table of the given level hanging off one of the first `n` entries of `t`. */
  ghost predicate Hangs(s: Vm, f: nat, level: int, t: nat, n: nat) {
    f in s.own && s.own[f].Owned? && s.own[f].level == level && s.own[f].parent == t && s.own[f].idx < n
  }

  ghost predicate UnderPdpt(s: Vm, f: nat, t3: nat, n: nat) {
    || Hangs(s, f, 2, t3, n)
    || (f in s.own && s.own[f].Owned? && s.own[f].level == 1 && Hangs(s, s.own[f].parent, 2, t3, n))
  }

  ghost predicate UnderPml4(s: Vm, f: nat, root: nat, n: nat) {
    || Hangs(s, f, 3, root, n)
    || (f in s.own && s.own[f].Owned? && s.own[f].level == 2 && Hangs(s, s.own[f].parent, 3, root, n))
    || (f in s.own && s.own[f].Owned? && s.own[f].level == 1
        && s.own[f].parent in s.own && s.own[s.own[f].parent].Owned? && s.own[s.own[f].parent].level == 2
        && Hangs(s, s.own[s.own[f].parent].parent, 3, root, n))
  }

  ghost predicate IsTable(s: Vm, t: nat, level: int) {
    t in s.own && s.own[t].Owned? && s.own[t].level == level
  }

  lemma {:induction false} PtList(s: Vm, pd: nat, n: nat)
    requires Inv(s) && LeakFree(s) && IsTable(s, pd, 2) && n <= 512
    ensures var xs := PtFrames(s.ram, pd, n);
            Distinct(xs) && forall f :: f in xs <==> Hangs(s, f, 1, pd, n)
  {
    hide Present, Huge, Addr, Load;
    if n > 0 {
      PtList(s, pd, n - 1);
      var w := Load(s.ram, pd, n - 1);
      var xs := PtFrames(s.ram, pd, n - 1);
      assert Links(2, w) ==> s.own[Addr(w)] == Owned(1, s.own[pd].root, pd, n - 1);
      if Links(2, w) {
        DistinctConcat(xs, [Addr(w)]);
      }
      forall f | Hangs(s, f, 1, pd, n)
        ensures f in PtFrames(s.ram, pd, n)
      {
        assert Linked(s, f);
      }
    }
  }

  lemma {:induction false} PdList(s: Vm, t3: nat, n: nat)
    requires Inv(s) && LeakFree(s) && IsTable(s, t3, 3) && n <= 512
    ensures var xs := PdFrames(s.ram, t3, n);
            Distinct(xs) && forall f :: f in xs <==> UnderPdpt(s, f, t3, n)
  {
    hide Present, Huge, Addr, Load;
    if n > 0 {
      PdList(s, t3, n - 1);
      var w := Load(s.ram, t3, n - 1);
      var xs := PdFrames(s.ram, t3, n - 1);
      if Links(3, w) {
        var pd := Addr(w);
        assert s.own[pd] == Owned(2, s.own[t3].root, t3, n - 1);
        PtList(s, pd, 512);
        var ys := PtFrames(s.ram, pd, 512);
        DistinctConcat(ys, [pd]);
        DistinctConcat(xs, ys + [pd]);
        assert xs + (ys + [pd]) == PdFrames(s.ram, t3, n);
      }
      forall f | UnderPdpt(s, f, t3, n)
        ensures f in PdFrames(s.ram, t3, n)
      {
        assert Linked(s, f);
        if s.own[f].level == 1 {
          assert Linked(s, s.own[f].parent);
        }
      }
    }
  }

  /** One more top-table entry adds the tables below it, or nothing when it is no link. */
  lemma OneMoreEntry(s: Vm, root: nat, n: nat, f: nat)
    requires Inv(s) && LeakFree(s) && IsRoot(s, root) && 0 < n <= 256
    ensures var w := Load(s.ram, root, n - 1);
            UnderPml4(s, f, root, n)
            <==> UnderPml4(s, f, root, n - 1) || (Links(4, w) && (f == Addr(w) || UnderPdpt(s, f, Addr(w), 512)))
  {
    hide Present, Huge, Addr, Load;
    if f in s.own && s.own[f].Owned? && s.own[f].level < 4 {
      assert Linked(s, f);
      if s.own[f].level < 3 {
        assert Linked(s, s.own[f].parent);
        if s.own[f].level == 1 {
          assert Linked(s, s.own[s.own[f].parent].parent);
        }
      }
    }
    var w := Load(s.ram, root, n - 1);
    assert Links(4, w) ==> s.own[Addr(w)] == Owned(3, root, root, n - 1);
  }

  lemma {:induction false} PdptList(s: Vm, root: nat, n: nat)
    requires Inv(s) && LeakFree(s) && IsRoot(s, root) && n <= 256
    ensures var xs := PdptFrames(s.ram, root, n);
            Distinct(xs) && forall f :: f in xs <==> UnderPml4(s, f, root, n)
  {
    hide Present, Huge, Addr, Load;
    if n > 0 {
      PdptList(s, root, n - 1);
      var w := Load(s.ram, root, n - 1);
      var xs := PdptFrames(s.ram, root, n - 1);
      if Links(4, w) {
        var t3 := Addr(w);
        assert s.own[t3] == Owned(3, root, root, n - 1);
        PdList(s, t3, 512);
        var ys := PdFrames(s.ram, t3, 512);
        DistinctConcat(ys, [t3]);
        DistinctConcat(xs, ys + [t3]);
        assert xs + (ys + [t3]) == PdptFrames(s.ram, root, n);
      }
      forall f
        ensures f in PdptFrames(s.ram, root, n) <==> UnderPml4(s, f, root, n)
      {
        OneMoreEntry(s, root, n, f);
      }
    }
  }

  ghost predicate BelongsTo(s: Vm, f: nat, root: nat) {
    f in s.own && s.own[f].Owned? && s.own[f].root == root
  }

  /** Deleting a space visits exactly the table frames that belong to it, each once. */
  lemma DeleteVisits(s: Vm, root: nat)
    requires Inv(s) && LeakFree(s) && IsRoot(s, root)
    ensures Distinct(SpaceFrames(s.ram, root))
    ensures forall f :: f in SpaceFrames(s.ram, root) <==> BelongsTo(s, f, root)
  {
    PdptList(s, root, 256);
    DistinctConcat(PdptFrames(s.ram, root, 256), [root]);
    forall f
      ensures f in SpaceFrames(s.ram, root) <==> BelongsTo(s, f, root)
    {
      UnderIsBelongs(s, f, root);
    }
  }

  lemma UnderIsBelongs(s: Vm, f: nat, root: nat)
    requires Inv(s) && LeakFree(s) && IsRoot(s, root)
    ensures UnderPml4(s, f, root, 256) || f == root <==> BelongsTo(s, f, root)
  {
    if f in s.own && s.own[f].Owned? && s.own[f].level < 4 {
      assert Linked(s, f);
      if s.own[f].level < 3 {
        assert Linked(s, s.own[f].parent);
        if s.own[f].level == 1 {
          assert Linked(s, s.own[s.own[f].parent].parent);
        }
      }
    }
  }

  // ----- deletion when tables may have been lost

  lemma {:induction false} PtBelong(s: Vm, root: nat, pd: nat, n: nat)
    requires Inv(s) && n <= 512 && IsTable(s, pd, 2) && s.own[pd].root == root
    ensures forall f :: f in PtFrames(s.ram, pd, n) ==> BelongsTo(s, f, root)
  {
    hide Present, Huge, Addr, Load;
    if n > 0 {
      PtBelong(s, root, pd, n - 1);
    }
  }

  lemma {:induction false} PdBelong(s: Vm, root: nat, t3: nat, n: nat)
    requires Inv(s) && n <= 512 && IsTable(s, t3, 3) && s.own[t3].root == root
    ensures forall f :: f in PdFrames(s.ram, t3, n) ==> BelongsTo(s, f, root)
  {
    hide Present, Huge, Addr, Load;
    if n > 0 {
      PdBelong(s, root, t3, n - 1);
      var w := Load(s.ram, t3, n - 1);
      if Links(3, w) {
        assert s.own[Addr(w)] == Owned(2, root, t3, n - 1);
        PtBelong(s, root, Addr(w), 512);
      }
    }
  }

  lemma {:induction false} PdptBelong(s: Vm, root: nat, n: nat)
    requires Inv(s) && n <= 256 && IsRoot(s, root)
    ensures forall f :: f in PdptFrames(s.ram, root, n) ==> BelongsTo(s, f, root)
  {
    hide Present, Huge, Addr, Load;
    if n > 0 {
      PdptBelong(s, root, n - 1);
      var w := Load(s.ram, root, n - 1);
      if Links(4, w) {
        assert s.own[Addr(w)] == Owned(3, root, root, n - 1);
        PdBelong(s, root, Addr(w), 512);
      }
    }
  }

  /** Whether or not tables were lost, deleting a space frees only tables of that space,
      keeps the invariant and leaves every other space. */
  lemma DeleteKeepsInv(s: Vm, root: nat)
    requires Inv(s) && IsRoot(s, root) && root != s.cur
    ensures var s' := DeleteSpace(s, root);
            && Inv(s') && s'.ram == s.ram && s'.cur == s.cur
            && (forall f :: f in s'.free ==> f in s.free || (f in s.managed && BelongsTo(s, f, root)))
            && (forall r :: IsRoot(s', r) <==> IsRoot(s, r) && r != root)
  {
    hide Present, Huge, Addr, Load, PdptFrames;
    PdptBelong(s, root, 256);
    var s' := DeleteSpace(s, root);
    forall f | f in SpaceFrames(s.ram, root)
      ensures BelongsTo(s, f, root)
    {
    }
    assert forall f :: f in s'.own <==> f in s.own && !BelongsTo(s, f, root);
  }

  /** Deleting a space gives back exactly the managed frames among its tables, and leaves
      the invariant and every other space's translations as they were. */
  lemma DeleteKeeps(s: Vm, root: nat)
    requires Inv(s) && LeakFree(s) && IsRoot(s, root) && root != s.cur
    ensures var s' := DeleteSpace(s, root);
            && Inv(s') && LeakFree(s') && s'.ram == s.ram && s'.cur == s.cur
            && (forall f :: f in s'.free <==> f in s.free || (f in s.managed && BelongsTo(s, f, root)))
            && (forall r :: IsRoot(s', r) <==> IsRoot(s, r) && r != root)
  {
    DeleteVisits(s, root);
    var s' := DeleteSpace(s, root);
    forall f | f in s'.own && s'.own[f].Owned? && s'.own[f].level < 4
      ensures Linked(s', f)
    {
      assert Linked(s, f);
    }
  }
}
