/** The flag word callers pass and the page-table flags made from it. */
module VmFlags {
  import opened PageTables

  const WRITABLE: bv64 := 0x2
  const USER: bv64 := 0x4
  const WRITETHROUGH: bv64 := 0x8
  const NOCACHE: bv64 := 0x10
  const HUGE: bv64 := 0x80
  const GLOBAL: bv64 := 0x100
  const NO_EXECUTE: bv64 := 0x8000_0000_0000_0000

  predicate Has(flags: bv64, bit: bv64) { flags & bit != 0 }

  function If(b: bool, w: nat): nat { if b then w else 0 }

  /** The hardware bits: always present, the requested attributes, and no-execute only when
      the processor supports it. */
  function HwFlags(flags: bv64, nx: bool): nat {
    1 + If(Has(flags, WRITABLE), 2) + If(Has(flags, USER), 4) + If(Has(flags, WRITETHROUGH), 8)
    + If(Has(flags, NOCACHE), 16) + If(Has(flags, GLOBAL), 256) + If(Has(flags, HUGE), 128)
    + If(Has(flags, NO_EXECUTE) && nx, TOP_BIT)
  }

  /** Attribute bits of a table word. */
  predicate Writable(w: nat) { w / 2 % 2 == 1 }
  predicate User(w: nat) { w / 4 % 2 == 1 }
  predicate WriteThrough(w: nat) { w / 8 % 2 == 1 }
  predicate CacheDisabled(w: nat) { w / 16 % 2 == 1 }
  predicate Global(w: nat) { w / 256 % 2 == 1 }

  function LowHw(b1: bool, b2: bool, b3: bool, b4: bool, b7: bool, b8: bool): nat {
    1 + If(b1, 2) + If(b2, 4) + If(b3, 8) + If(b4, 16) + If(b8, 256) + If(b7, 128)
  }

  lemma Bit1(r: nat, b: bool, k: nat)
    requires r < 2
    ensures (r + If(b, 2) + 4 * k) / 2 % 2 == 1 <==> b
  {
    assert (r + If(b, 2) + 4 * k) / 2 == 2 * k + If(b, 1);
  }

  lemma Bit2(r: nat, b: bool, k: nat)
    requires r < 4
    ensures (r + If(b, 4) + 8 * k) / 4 % 2 == 1 <==> b
  {
    assert (r + If(b, 4) + 8 * k) / 4 == 2 * k + If(b, 1);
  }

  lemma Bit3(r: nat, b: bool, k: nat)
    requires r < 8
    ensures (r + If(b, 8) + 16 * k) / 8 % 2 == 1 <==> b
  {
    assert (r + If(b, 8) + 16 * k) / 8 == 2 * k + If(b, 1);
  }

  lemma Bit4(r: nat, b: bool, k: nat)
    requires r < 16
    ensures (r + If(b, 16) + 32 * k) / 16 % 2 == 1 <==> b
  {
    assert (r + If(b, 16) + 32 * k) / 16 == 2 * k + If(b, 1);
  }

  lemma Bit7(r: nat, b: bool, k: nat)
    requires r < 128
    ensures (r + If(b, 128) + 256 * k) / 128 % 2 == 1 <==> b
  {
    assert (r + If(b, 128) + 256 * k) / 128 == 2 * k + If(b, 1);
  }

  lemma Bit8(r: nat, b: bool, k: nat)
    requires r < 256
    ensures (r + If(b, 256) + 512 * k) / 256 % 2 == 1 <==> b
  {
    assert (r + If(b, 256) + 512 * k) / 256 == 2 * k + If(b, 1);
  }

  lemma HwSplits(flags: bv64, nx: bool) returns (low: nat)
    ensures low == LowHw(Has(flags, WRITABLE), Has(flags, USER), Has(flags, WRITETHROUGH), Has(flags, NOCACHE), Has(flags, HUGE), Has(flags, GLOBAL))
    ensures low < 512 && HwFlags(flags, nx) == (if Has(flags, NO_EXECUTE) && nx then TOP_BIT else 0) + low
    ensures low % 2 == 1 && (low / 128 % 2 == 1 <==> Has(flags, HUGE))
    ensures Bits(HwFlags(flags, nx)) == low
  {
    hide Has;
    var b1, b2, b3 := Has(flags, WRITABLE), Has(flags, USER), Has(flags, WRITETHROUGH);
    var b4, b7, b8 := Has(flags, NOCACHE), Has(flags, HUGE), Has(flags, GLOBAL);
    low := LowHw(b1, b2, b3, b4, b7, b8);
    Bit7(1 + If(b1, 2) + If(b2, 4) + If(b3, 8) + If(b4, 16), b7, If(b8, 1));
    EvenPlus(If(b1, 1) + If(b2, 2) + If(b3, 4) + If(b4, 8) + If(b8, 128) + If(b7, 64), 1);
    LowBits(if Has(flags, NO_EXECUTE) && nx then TOP_BIT / PAGE_4K else 0, low);
  }

  /** The hardware word is present, huge exactly when asked, and no-execute exactly when
      asked and supported. */
  lemma HwFlagsMean(flags: bv64, nx: bool)
    ensures var hw := HwFlags(flags, nx);
            && Present(hw) && (Huge(hw) <==> Has(flags, HUGE))
            && (NoExecute(hw) <==> Has(flags, NO_EXECUTE) && nx)
  {
    var low := HwSplits(flags, nx);
    hide Has, HwFlags, LowHw, If;
    LowBits(if Has(flags, NO_EXECUTE) && nx then TOP_BIT / PAGE_4K else 0, low);
  }

  lemma IsWritable(b1: bool, b2: bool, b3: bool, b4: bool, b7: bool, b8: bool, w: nat)
    requires Bits(w) == LowHw(b1, b2, b3, b4, b7, b8)
    ensures Writable(w) <==> b1
  {
    Bit1(1, b1, If(b2, 1) + If(b3, 2) + If(b4, 4) + 32 * If(b7, 1) + 64 * If(b8, 1) + 1024 * (w / PAGE_4K));
  }

  lemma IsUser(b1: bool, b2: bool, b3: bool, b4: bool, b7: bool, b8: bool, w: nat)
    requires Bits(w) == LowHw(b1, b2, b3, b4, b7, b8)
    ensures User(w) <==> b2
  {
    Bit2(1 + If(b1, 2), b2, If(b3, 1) + If(b4, 2) + 16 * If(b7, 1) + 32 * If(b8, 1) + 512 * (w / PAGE_4K));
  }

  lemma IsWriteThrough(b1: bool, b2: bool, b3: bool, b4: bool, b7: bool, b8: bool, w: nat)
    requires Bits(w) == LowHw(b1, b2, b3, b4, b7, b8)
    ensures WriteThrough(w) <==> b3
  {
    Bit3(1 + If(b1, 2) + If(b2, 4), b3, If(b4, 1) + 8 * If(b7, 1) + 16 * If(b8, 1) + 256 * (w / PAGE_4K));
  }

  lemma IsCacheDisabled(b1: bool, b2: bool, b3: bool, b4: bool, b7: bool, b8: bool, w: nat)
    requires Bits(w) == LowHw(b1, b2, b3, b4, b7, b8)
    ensures CacheDisabled(w) <==> b4
  {
    Bit4(1 + If(b1, 2) + If(b2, 4) + If(b3, 8), b4, 4 * If(b7, 1) + 8 * If(b8, 1) + 128 * (w / PAGE_4K));
  }

  lemma IsGlobal(b1: bool, b2: bool, b3: bool, b4: bool, b7: bool, b8: bool, w: nat)
    requires Bits(w) == LowHw(b1, b2, b3, b4, b7, b8)
    ensures Global(w) <==> b8
  {
    Bit8(1 + If(b1, 2) + If(b2, 4) + If(b3, 8) + If(b4, 16) + If(b7, 128), b8, 8 * (w / PAGE_4K));
  }

  /** Bits 1, 2, 3, 4 and 8 of every word written with the attribute bits of the hardware word are
      the caller's flags 0x2, 0x4, 0x8, 0x10 and 0x100. */
  lemma HwRightsMean(flags: bv64, nx: bool, w: nat)
    requires Bits(w) == Bits(HwFlags(flags, nx))
    ensures Writable(w) <==> flags & 0x2 != 0
    ensures User(w) <==> flags & 0x4 != 0
    ensures WriteThrough(w) <==> flags & 0x8 != 0
    ensures CacheDisabled(w) <==> flags & 0x10 != 0
    ensures Global(w) <==> flags & 0x100 != 0
  {
    var low := HwSplits(flags, nx);
    hide HwFlags, LowHw, Bits, Writable, User, WriteThrough, CacheDisabled, Global;
    var b1, b2, b3 := Has(flags, WRITABLE), Has(flags, USER), Has(flags, WRITETHROUGH);
    var b4, b7, b8 := Has(flags, NOCACHE), Has(flags, HUGE), Has(flags, GLOBAL);
    IsWritable(b1, b2, b3, b4, b7, b8, w);
    IsUser(b1, b2, b3, b4, b7, b8, w);
    IsWriteThrough(b1, b2, b3, b4, b7, b8, w);
    IsCacheDisabled(b1, b2, b3, b4, b7, b8, w);
    IsGlobal(b1, b2, b3, b4, b7, b8, w);
  }

  /** The same, flag by flag. */
  lemma HwRightsAre(flags: bv64, nx: bool, w: nat)
    requires Bits(w) == Bits(HwFlags(flags, nx))
    ensures Writable(w) == Has(flags, 0x2) && User(w) == Has(flags, 0x4) && WriteThrough(w) == Has(flags, 0x8)
    ensures CacheDisabled(w) == Has(flags, 0x10) && Global(w) == Has(flags, 0x100)
  {
    HwRightsMean(flags, nx, w);
    hide HwFlags, Bits, Writable, User, WriteThrough, CacheDisabled, Global;
  }

  lemma DropHuge(flags: bv64)
    ensures !Has(flags & !HUGE, HUGE)
    ensures Has(flags & !HUGE, NO_EXECUTE) == Has(flags, NO_EXECUTE)
  {
  }

  function Or(a: bv64, b: bv64): bv64 { a | b }

  /** Two flag words together ask for what either asks for. */
  lemma OrHas(a: bv64, b: bv64)
    ensures Or(a, b) & 0x2 != 0 <==> a & 0x2 != 0 || b & 0x2 != 0
    ensures Or(a, b) & 0x4 != 0 <==> a & 0x4 != 0 || b & 0x4 != 0
    ensures Or(a, b) & 0x8 != 0 <==> a & 0x8 != 0 || b & 0x8 != 0
    ensures Or(a, b) & 0x10 != 0 <==> a & 0x10 != 0 || b & 0x10 != 0
    ensures Or(a, b) & 0x100 != 0 <==> a & 0x100 != 0 || b & 0x100 != 0
  {
  }

  lemma OrFlags(a: bv64, b: bv64)
    ensures Has(Or(a, b), HUGE) == (Has(a, HUGE) || Has(b, HUGE))
    ensures Has(Or(a, b), NO_EXECUTE) == (Has(a, NO_EXECUTE) || Has(b, NO_EXECUTE))
  {
  }
}

/** Mapping ranges of pages, with rollback. */
module BulkMapping {
  import opened Options
  import opened PageTables
  import opened VmState
  import opened MappingLaws
  import opened PageBlocks
  import opened VmFlags

  /** `vmm_map_page`. */
  ghost function MapPage(s: Vm, virt: nat, phys: nat, flags: bv64, nx: bool): (Vm, bool) {
    MapWord(s, s.cur, virt, phys, HwFlags(flags, nx))
  }

  /** Maps blocks 0, 1, ... of the given size until `n` are mapped or one fails; the second
      component counts the mapped ones. */
  ghost function MapRun(s: Vm, virt: nat, phys: nat, n: nat, size: nat, hw: nat): (r: (Vm, nat))
    ensures r.1 <= n
  {
    if n == 0 then (s, 0) else
    var (m, k) := MapRun(s, virt, phys, n - 1, size, hw);
    if k < n - 1 then (m, k) else
    var (s', ok) := MapWord(m, m.cur, virt + (n - 1) * size, phys + (n - 1) * size, hw);
    (s', if ok then n else n - 1)
  }

  function UnmapRun(s: Vm, virt: nat, n: nat, size: nat): Vm {
    if n == 0 then s else Unmap(UnmapRun(s, virt, n - 1, size), virt + (n - 1) * size).0
  }

  predicate UsesHuge(virt: nat, phys: nat, count: nat, flags: bv64) {
    Has(flags, HUGE) && virt % PAGE_2M == 0 && phys % PAGE_2M == 0 && count >= 512
  }

  /** The 4 KiB loop with its cleanup. */
  ghost function MapSmallPages(s: Vm, virt: nat, phys: nat, count: nat, flags: bv64, nx: bool): (Vm, bool) {
    var (m, k) := MapRun(s, virt, phys, count, PAGE_4K, HwFlags(flags & !HUGE, nx));
    if k < count then (UnmapRun(m, virt, k, PAGE_4K), false) else (m, true)
  }

  /** `vmm_map_pages`. */
  ghost function MapPages(s: Vm, virt: nat, phys: nat, count: nat, flags: bv64, nx: bool): (Vm, bool) {
    if !UsesHuge(virt, phys, count, flags) then MapSmallPages(s, virt, phys, count, flags, nx) else
    var h, rest := count / 512, count % 512;
    var (m, k) := MapRun(s, virt, phys, h, PAGE_2M, HwFlags(flags, nx));
    if k < h then (UnmapRun(m, virt, k, PAGE_2M), false) else
    var v, p := virt + h * PAGE_2M, phys + h * PAGE_2M;
    var (m', k') := MapRun(m, v, p, rest, PAGE_4K, HwFlags(flags & !HUGE, nx));
    if k' < rest then (UnmapRun(UnmapRun(m', v, k', PAGE_4K), virt, h, PAGE_2M), false) else (m', true)
  }

  // ----- a window of new leaves over an otherwise unchanged state

  /** Relative page `i` is one of the currently mapped new pages: a stretch of 2 MiB blocks
      from `a` to `b` and a stretch of 4 KiB pages from `c` to `d`. */
  predicate Live(i: int, a: int, b: int, c: int, d: int) {
    a <= i < b || c <= i < d
  }

  ghost predicate WindowAt(s: Vm, s': Vm, v0: nat, leaves: seq<Leaf>, a: int, b: int, c: int, d: int, r: nat, n: nat)
    requires 0 <= a <= b <= |leaves| && 0 <= c <= d <= |leaves|
  {
    Walk(s'.ram, r, PathOf(n * PAGE_4K))
    == if r == s.cur && Live(n - v0, a, b, c, d) then leaves[n - v0] else Walk(s.ram, r, PathOf(n * PAGE_4K))
  }

  ghost predicate HigherSame(s: Vm, s': Vm) {
    forall r: nat, p: Path {:trigger Walk(s'.ram, r, p)} ::
      IsRoot(s, r) && p.i4 >= 256 ==> Walk(s'.ram, r, p) == Walk(s.ram, r, p)
  }

  /** `s'` is `s` with the live pages of the window, counted from page `v0` of the current
      space, mapped to their leaves. */
  ghost predicate Window(s: Vm, s': Vm, v0: nat, leaves: seq<Leaf>, a: int, b: int, c: int, d: int) {
    && 0 <= a <= b <= |leaves| && 0 <= c <= d <= |leaves|
    && s'.cur == s.cur && Inv(s') && HigherSame(s, s')
    && (forall r :: IsRoot(s, r) ==> IsRoot(s', r))
    && (forall r, n: nat :: IsRoot(s, r) && n < LOWER_PAGES ==> WindowAt(s, s', v0, leaves, a, b, c, d, r, n))
  }

  /** Pages `v0 .. v0 + n` lie in the lower half and are unmapped in the current space. */
  ghost predicate Vacant(s: Vm, v0: nat, n: nat) {
    v0 + n <= LOWER_PAGES
    && forall k: nat :: v0 <= k < v0 + n ==> Walk(s.ram, s.cur, PathOf(k * PAGE_4K)) == Unmapped
  }

  lemma PageOf(virt: nat, n: nat)
    requires virt / PAGE_4K == n && n < LOWER_PAGES
    ensures virt < LOWER_HALF && PathOf(virt) == PathOf(n * PAGE_4K) && PathOf(virt).i4 < 256
  {
    PathIsPage(virt, n * PAGE_4K);
  }

  /** Mapping the next 4 KiB page extends the window by one, or changes nothing. */
  lemma ExtendSmall(s: Vm, m: Vm, v0: nat, leaves: seq<Leaf>, b: int, c: int, d: int, virt: nat, phys: nat, hw: nat)
    requires Inv(s) && Window(s, m, v0, leaves, 0, b, c, d) && b <= c && d < |leaves| && Vacant(s, v0, |leaves|)
    requires virt / PAGE_4K == v0 + d && Present(hw) && !Huge(hw)
    requires leaves[d] == LeafFor(phys, hw, PAGE_4K)
    ensures var (s', ok) := MapWord(m, m.cur, virt, phys, hw);
            && Window(s, s', v0, leaves, 0, b, c, if ok then d + 1 else d) && Grows(m, s', s.cur)
            && (LeakFree(m) ==> LeakFree(s'))
            && (!ok ==> virt == 0 || phys == 0 || s'.free == {})
            && (ok ==> virt != 0)
  {
    hide Walk, MapWord, PathOf, Closed, FramesOk, LeakFree, Stored;
    PageOf(virt, v0 + d);
    assert WindowAt(s, m, v0, leaves, 0, b, c, d, s.cur, v0 + d);
    MapSmall(m, m.cur, virt, phys, hw);
    var (s', ok) := MapWord(m, m.cur, virt, phys, hw);
    var d' := if ok then d + 1 else d;
    forall r, n: nat | IsRoot(s, r) && n < LOWER_PAGES
      ensures WindowAt(s, s', v0, leaves, 0, b, c, d', r, n)
    {
      assert WindowAt(s, m, v0, leaves, 0, b, c, d, r, n);
      BlockIsGranule(virt, n, PAGE_4K);
    }
    forall r: nat, p: Path | IsRoot(s, r) && p.i4 >= 256
      ensures Walk(s'.ram, r, p) == Walk(s.ram, r, p)
    {
      assert Walk(m.ram, r, p) == Walk(s.ram, r, p);
    }
  }

  /** Unmapping the first 4 KiB page of the window shrinks it by one. */
  lemma ShrinkSmall(s: Vm, m: Vm, v0: nat, leaves: seq<Leaf>, b: int, c: int, d: int, virt: nat)
    requires Inv(s) && Window(s, m, v0, leaves, 0, b, c, d) && b <= c < d && Vacant(s, v0, |leaves|)
    requires virt / PAGE_4K == v0 + c && virt != 0 && leaves[c].Leaf? && leaves[c].size == PAGE_4K
    ensures var (s', ok) := Unmap(m, virt);
            && ok && Window(s, s', v0, leaves, 0, b, c + 1, d) && s' == m.(ram := s'.ram)
            && (LeakFree(m) ==> LeakFree(s'))
  {
    hide Walk, Unmap, PathOf, Closed, FramesOk, LeakFree;
    PageOf(virt, v0 + c);
    assert WindowAt(s, m, v0, leaves, 0, b, c, d, s.cur, v0 + c);
    UnmapRemoves(m, virt);
    var s', c' := Unmap(m, virt).0, c + 1;
    forall r, n: nat | IsRoot(s, r) && n < LOWER_PAGES
      ensures WindowAt(s, s', v0, leaves, 0, b, c', d, r, n)
    {
      assert WindowAt(s, m, v0, leaves, 0, b, c, d, r, n);
      BlockIsGranule(virt, n, PAGE_4K);
    }
    forall r: nat, p: Path | IsRoot(s, r) && p.i4 >= 256
      ensures Walk(s'.ram, r, p) == Walk(s.ram, r, p)
    {
      assert Walk(m.ram, r, p) == Walk(s.ram, r, p);
    }
  }

  /** The pages of the 2 MiB block at `virt`. */
  lemma BlockPages(virt: nat, n: nat)
    requires virt % PAGE_2M == 0
    ensures InBlock(n, virt, PAGE_2M) <==> virt / PAGE_4K <= n < virt / PAGE_4K + 512
  {
    var q := virt / PAGE_2M;
    assert virt == q * PAGE_2M && virt / PAGE_4K == 512 * q;
  }

  lemma BlockAligned(a: nat)
    requires a % PAGE_2M == 0
    ensures Addr(a) == a
  {
    var q := a / PAGE_2M;
    assert a == q * PAGE_2M == (512 * q) * PAGE_4K;
    hide Addr;
    HighBits(512 * q, 0);
  }

  lemma LargeBlock(virt: nat, n: nat)
    requires virt % PAGE_2M == 0 && virt < LOWER_HALF && n < LOWER_PAGES
    ensures SameGranule(PathOf(virt), PathOf(n * PAGE_4K), PAGE_2M)
            <==> virt / PAGE_4K <= n < virt / PAGE_4K + 512
  {
    BlockIsGranule(virt, n, PAGE_2M);
    BlockPages(virt, n);
  }

  lemma ExtendLarge(s: Vm, m: Vm, v0: nat, leaves: seq<Leaf>, b: int, virt: nat, phys: nat, hw: nat)
    requires Inv(s) && Window(s, m, v0, leaves, 0, b, b, b) && b + 512 <= |leaves| && Vacant(s, v0, |leaves|)
    requires virt / PAGE_4K == v0 + b && virt % PAGE_2M == 0 && phys % PAGE_2M == 0
    requires !(virt % PAGE_1G == 0 && phys % PAGE_1G == 0)
    requires Present(hw) && Huge(hw)
    requires forall i :: b <= i < b + 512 ==> leaves[i] == LeafFor(phys, hw, PAGE_2M)
    ensures var (s', ok) := MapWord(m, m.cur, virt, phys, hw);
            var b' := if ok then b + 512 else b;
            && Window(s, s', v0, leaves, 0, b', b', b') && Grows(m, s', s.cur) && NoNewTables(m, s')
            && (LeakFree(m) && TableOf(m.ram, m.cur, PathOf(virt)) == 0 ==> LeakFree(s'))
            && (!ok ==> virt == 0 || phys == 0 || s'.free == {})
            && (ok ==> virt != 0)
  {
    hide Walk, MapWord, PathOf, Closed, FramesOk, LeakFree, Stored, Addr, TableOf;
    PageOf(virt, v0 + b);
    BlockAligned(virt);
    BlockAligned(phys);
    assert WindowAt(s, m, v0, leaves, 0, b, b, b, s.cur, v0 + b);
    MapLarge(m, m.cur, virt, phys, hw);
    var (s', ok) := MapWord(m, m.cur, virt, phys, hw);
    var b' := if ok then b + 512 else b;
    forall r, n: nat | IsRoot(s, r) && n < LOWER_PAGES
      ensures WindowAt(s, s', v0, leaves, 0, b', b', b', r, n)
    {
      assert WindowAt(s, m, v0, leaves, 0, b, b, b, r, n);
      LargeBlock(virt, n);
    }
    forall r: nat, p: Path | IsRoot(s, r) && p.i4 >= 256
      ensures Walk(s'.ram, r, p) == Walk(s.ram, r, p)
    {
      assert Walk(m.ram, r, p) == Walk(s.ram, r, p);
    }
  }

  lemma ShrinkLarge(s: Vm, m: Vm, v0: nat, leaves: seq<Leaf>, a: int, b: int, virt: nat)
    requires Inv(s) && Window(s, m, v0, leaves, a, b, b, b) && a + 512 <= b && Vacant(s, v0, |leaves|)
    requires virt / PAGE_4K == v0 + a && virt % PAGE_2M == 0 && virt != 0
    requires forall i :: a <= i < a + 512 ==> leaves[i].Leaf? && leaves[i].size == PAGE_2M
    ensures var (s', ok) := Unmap(m, virt);
            && ok && Window(s, s', v0, leaves, a + 512, b, b, b) && s' == m.(ram := s'.ram)
            && (LeakFree(m) ==> LeakFree(s'))
  {
    hide Walk, Unmap, PathOf, Closed, FramesOk, LeakFree;
    PageOf(virt, v0 + a);
    assert WindowAt(s, m, v0, leaves, a, b, b, b, s.cur, v0 + a);
    UnmapRemoves(m, virt);
    var s', a' := Unmap(m, virt).0, a + 512;
    forall r, n: nat | IsRoot(s, r) && n < LOWER_PAGES
      ensures WindowAt(s, s', v0, leaves, a', b, b, b, r, n)
    {
      assert WindowAt(s, m, v0, leaves, a, b, b, b, r, n);
      LargeBlock(virt, n);
    }
    forall r: nat, p: Path | IsRoot(s, r) && p.i4 >= 256
      ensures Walk(s'.ram, r, p) == Walk(s.ram, r, p)
    {
      assert Walk(m.ram, r, p) == Walk(s.ram, r, p);
    }
  }

  // ----- the loops

  /** Pages `b .. b + n` of the window are 4 KiB leaves for consecutive frames. */
  ghost predicate SmallLeaves(leaves: seq<Leaf>, b: int, phys: nat, n: nat, hw: nat) {
    0 <= b && b + n <= |leaves|
    && forall i: nat :: b <= i < b + n ==> leaves[i] == LeafFor(phys + (i - b) * PAGE_4K, hw, PAGE_4K)
  }

  lemma {:induction false} SmallRun(s: Vm, m: Vm, v0: nat, leaves: seq<Leaf>, b: int, virt: nat, phys: nat, n: nat,
                                    hw: nat)
    requires Inv(s) && Window(s, m, v0, leaves, 0, b, b, b) && Vacant(s, v0, |leaves|)
    requires virt / PAGE_4K == v0 + b && Present(hw) && !Huge(hw) && SmallLeaves(leaves, b, phys, n, hw)
    ensures var (s', k) := MapRun(m, virt, phys, n, PAGE_4K, hw);
            && Window(s, s', v0, leaves, 0, b, b, b + k) && Grows(m, s', s.cur)
            && (LeakFree(m) ==> LeakFree(s'))
            && (k < n ==> virt == 0 || phys == 0 || s'.free == {})
            && (k > 0 ==> virt != 0)
  {
    hide Walk, MapWord, PathOf, Inv, LeakFree, Stored, WindowAt;
    if n > 0 {
      SmallRun(s, m, v0, leaves, b, virt, phys, n - 1, hw);
      var (m', k) := MapRun(m, virt, phys, n - 1, PAGE_4K, hw);
      if k == n - 1 {
        var v, p := virt + k * PAGE_4K, phys + k * PAGE_4K;
        PageStep(virt, k);
        ExtendSmall(s, m', v0, leaves, b, b, b + k, v, p, hw);
        GrowsTrans(m, m', MapWord(m', m'.cur, v, p, hw).0, s.cur);
      }
    }
  }

  lemma PageStep(virt: nat, k: nat)
    ensures (virt + k * PAGE_4K) / PAGE_4K == virt / PAGE_4K + k
  {
  }

  lemma {:induction false} SmallRollback(s: Vm, m: Vm, v0: nat, leaves: seq<Leaf>, b: int, c: int, d: int, virt: nat,
                                         n: nat)
    requires Inv(s) && Window(s, m, v0, leaves, 0, b, c, d) && b <= c && c + n <= d && Vacant(s, v0, |leaves|)
    requires virt / PAGE_4K == v0 + c && virt != 0
    requires forall j :: c <= j < c + n ==> leaves[j].Leaf? && leaves[j].size == PAGE_4K
    ensures var s' := UnmapRun(m, virt, n, PAGE_4K);
            && Window(s, s', v0, leaves, 0, b, c + n, d) && s' == m.(ram := s'.ram)
            && (LeakFree(m) ==> LeakFree(s'))
  {
    hide Walk, Unmap, PathOf, Inv, LeakFree, WindowAt;
    if n > 0 {
      SmallRollback(s, m, v0, leaves, b, c, d, virt, n - 1);
      var v := virt + (n - 1) * PAGE_4K;
      PageStep(virt, n - 1);
      ShrinkSmall(s, UnmapRun(m, virt, n - 1, PAGE_4K), v0, leaves, b, c + n - 1, d, v);
    }
  }

  lemma BlockStep(virt: nat, v: nat, k: nat)
    requires virt % PAGE_2M == 0 && v == virt + k * PAGE_2M
    ensures v / PAGE_4K == virt / PAGE_4K + 512 * k && v % PAGE_2M == 0
  {
    var q := virt / PAGE_2M;
    assert v == (q + k) * PAGE_2M;
    assert virt == 512 * q * PAGE_4K && v == 512 * (q + k) * PAGE_4K;
  }

  /** The 1 GiB branch fires for none of the 2 MiB steps. */
  predicate NoGiantStep(virt: nat, phys: nat, h: nat) {
    forall i: nat :: i < h ==> !GiantStep(virt, phys, i)
  }

  predicate GiantStep(virt: nat, phys: nat, i: nat) {
    (virt + i * PAGE_2M) % PAGE_1G == 0 && (phys + i * PAGE_2M) % PAGE_1G == 0
  }

  lemma GiantMeansCongruent(virt: nat, phys: nat, i: nat)
    requires GiantStep(virt, phys, i)
    ensures virt % PAGE_1G == phys % PAGE_1G
  {
    var d := i * PAGE_2M;
    SameRemainder(virt, (virt + d) / PAGE_1G, d);
    SameRemainder(phys, (phys + d) / PAGE_1G, d);
  }

  /** A remainder is determined by what completes it to a multiple. */
  lemma SameRemainder(x: nat, q: nat, d: nat)
    requires x + d == q * PAGE_1G
    ensures x % PAGE_1G == if d % PAGE_1G == 0 then 0 else PAGE_1G - d % PAGE_1G
  {
    var e, r := d / PAGE_1G, d % PAGE_1G;
    assert d == e * PAGE_1G + r;
    if r == 0 {
      RemainderOf(x, q - e, 0);
    } else {
      RemainderOf(x, q - e - 1, PAGE_1G - r);
    }
  }

  lemma RemainderOf(x: nat, q: int, r: nat)
    requires x == q * PAGE_1G + r && r < PAGE_1G
    ensures x % PAGE_1G == r
  {
  }

  /** It cannot fire when the two addresses differ modulo 1 GiB. */
  lemma NotCongruent(virt: nat, phys: nat, h: nat)
    requires virt % PAGE_1G != phys % PAGE_1G
    ensures NoGiantStep(virt, phys, h)
  {
    if i: nat :| i < h && GiantStep(virt, phys, i) {
      GiantMeansCongruent(virt, phys, i);
      assert false;
    }
  }

  /** The first `n` blocks of the window are 2 MiB leaves for consecutive frames. */
  ghost predicate LargeLeaves(leaves: seq<Leaf>, phys: nat, n: nat, hw: nat) {
    512 * n <= |leaves|
    && forall j: nat :: j < 512 * n ==> leaves[j] == LeafFor(phys + j / 512 * PAGE_2M, hw, PAGE_2M)
  }

  lemma LargeLeavesBlock(leaves: seq<Leaf>, phys: nat, n: nat, k: nat, hw: nat)
    requires LargeLeaves(leaves, phys, n, hw) && k < n
    ensures 512 * k + 512 <= |leaves|
    ensures forall i: nat :: 512 * k <= i < 512 * k + 512 ==> leaves[i] == LeafFor(phys + k * PAGE_2M, hw, PAGE_2M)
  {
    forall i: nat | 512 * k <= i < 512 * k + 512
      ensures leaves[i] == LeafFor(phys + k * PAGE_2M, hw, PAGE_2M)
    {
      assert i / 512 == k;
    }
  }

  lemma EmptyWindow(s: Vm, v0: nat, leaves: seq<Leaf>)
    requires Inv(s)
    ensures Window(s, s, v0, leaves, 0, 0, 0, 0)
  {
    assert forall r, n: nat :: IsRoot(s, r) && n < LOWER_PAGES ==> WindowAt(s, s, v0, leaves, 0, 0, 0, 0, r, n);
  }

  /** No page table is linked where any of the `h` blocks of 2 MiB goes. */
  ghost predicate NoTablesUnder(s: Vm, virt: nat, h: nat) {
    forall i: nat :: i < h ==> NoTableAt(s, virt, i)
  }

  ghost predicate NoTableAt(s: Vm, virt: nat, i: nat) {
    TableOf(s.ram, s.cur, PathOf(virt + i * PAGE_2M)) == 0
  }

  lemma {:induction false} LargeRun(s: Vm, v0: nat, leaves: seq<Leaf>, virt: nat, phys: nat, n: nat, hw: nat)
    requires Inv(s) && Vacant(s, v0, |leaves|)
    requires virt / PAGE_4K == v0 && virt % PAGE_2M == 0 && phys % PAGE_2M == 0 && Present(hw) && Huge(hw)
    requires NoGiantStep(virt, phys, n) && LargeLeaves(leaves, phys, n, hw)
    ensures var (s', k) := MapRun(s, virt, phys, n, PAGE_2M, hw);
            && Window(s, s', v0, leaves, 0, 512 * k, 512 * k, 512 * k) && Grows(s, s', s.cur)
            && (k < n ==> virt == 0 || phys == 0 || s'.free == {})
            && (k > 0 ==> virt != 0)
  {
    hide Walk, MapWord, PathOf, Inv, LeakFree, Stored, WindowAt, TableOf, NoNewTables;
    if n > 0 {
      LargeRun(s, v0, leaves, virt, phys, n - 1, hw);
      var (m, k) := MapRun(s, virt, phys, n - 1, PAGE_2M, hw);
      if k == n - 1 {
        var v, p := virt + k * PAGE_2M, phys + k * PAGE_2M;
        BlockStep(virt, v, k);
        BlockStep(phys, p, k);
        assert !GiantStep(virt, phys, k);
        LargeLeavesBlock(leaves, phys, n, k, hw);
        ExtendLarge(s, m, v0, leaves, 512 * k, v, p, hw);
        GrowsTrans(s, m, MapWord(m, m.cur, v, p, hw).0, s.cur);
      }
    } else {
      EmptyWindow(s, v0, leaves);
    }
  }

  /** The 2 MiB loop adds no page table, and loses none when none was linked in its way. */
  lemma {:induction false} LargeRunTables(s: Vm, v0: nat, leaves: seq<Leaf>, virt: nat, phys: nat, n: nat, hw: nat)
    requires Inv(s) && Vacant(s, v0, |leaves|)
    requires virt / PAGE_4K == v0 && virt % PAGE_2M == 0 && phys % PAGE_2M == 0 && Present(hw) && Huge(hw)
    requires NoGiantStep(virt, phys, n) && LargeLeaves(leaves, phys, n, hw)
    ensures var s' := MapRun(s, virt, phys, n, PAGE_2M, hw).0;
            NoNewTables(s, s') && (LeakFree(s) && NoTablesUnder(s, virt, n) ==> LeakFree(s'))
  {
    hide Walk, MapWord, PathOf, Inv, LeakFree, Stored, Window, TableOf, NoNewTables, Vacant, Present, Huge, Grows,
         NoTableAt;
    if n == 0 {
      NoNewSelf(s);
    } else {
      LargeRunTables(s, v0, leaves, virt, phys, n - 1, hw);
      LargeRun(s, v0, leaves, virt, phys, n - 1, hw);
      var (m, k) := MapRun(s, virt, phys, n - 1, PAGE_2M, hw);
      if k == n - 1 {
        var v, p := virt + k * PAGE_2M, phys + k * PAGE_2M;
        BlockStep(virt, v, k);
        BlockStep(phys, p, k);
        assert !GiantStep(virt, phys, k);
        LargeLeavesBlock(leaves, phys, n, k, hw);
        ExtendLarge(s, m, v0, leaves, 512 * k, v, p, hw);
        NoNewTrans(s, m, MapWord(m, m.cur, v, p, hw).0, s.cur);
        if NoTablesUnder(s, virt, n) {
          assert NoTableAt(s, virt, k);
          StillNoTable(s, m, virt, k);
        }
      }
    }
  }

  lemma NoNewSelf(s: Vm)
    ensures NoNewTables(s, s)
  {
  }

  lemma StillNoTable(s: Vm, m: Vm, virt: nat, k: nat)
    requires Inv(s) && NoNewTables(s, m) && NoTableAt(s, virt, k) && Grows(s, m, s.cur)
    ensures TableOf(m.ram, m.cur, PathOf(virt + k * PAGE_2M)) == 0
  {
    hide TableOf, PathOf;
  }

  lemma {:induction false} LargeRollback(s: Vm, m: Vm, v0: nat, leaves: seq<Leaf>, b: int, virt: nat, n: nat)
    requires Inv(s) && Window(s, m, v0, leaves, 0, b, b, b) && 512 * n <= b && Vacant(s, v0, |leaves|)
    requires virt / PAGE_4K == v0 && virt % PAGE_2M == 0 && virt != 0
    requires forall j :: 0 <= j < b ==> leaves[j].Leaf? && leaves[j].size == PAGE_2M
    ensures var s' := UnmapRun(m, virt, n, PAGE_2M);
            && Window(s, s', v0, leaves, 512 * n, b, b, b) && s' == m.(ram := s'.ram)
            && (LeakFree(m) ==> LeakFree(s'))
  {
    hide Walk, Unmap, PathOf, Inv, LeakFree, WindowAt;
    if n > 0 {
      LargeRollback(s, m, v0, leaves, b, virt, n - 1);
      var v := virt + (n - 1) * PAGE_2M;
      BlockStep(virt, v, n - 1);
      ShrinkLarge(s, UnmapRun(m, virt, n - 1, PAGE_2M), v0, leaves, 512 * (n - 1), b, v);
    }
  }

  // ----- what a whole call does

  /** The window of a bulk map: `h` blocks of 2 MiB and then 4 KiB pages. */
  function BulkLeaves(phys: nat, count: nat, h: nat, hwLarge: nat, hwSmall: nat): (leaves: seq<Leaf>)
    ensures |leaves| == count
  {
    seq(count, i requires 0 <= i < count =>
      if i < 512 * h then LeafFor(phys + i / 512 * PAGE_2M, hwLarge, PAGE_2M)
      else LeafFor(phys + h * PAGE_2M + (i - 512 * h) * PAGE_4K, hwSmall, PAGE_4K))
  }

  lemma BulkLeavesOk(phys: nat, count: nat, h: nat, hwLarge: nat, hwSmall: nat)
    requires 512 * h <= count
    ensures var leaves := BulkLeaves(phys, count, h, hwLarge, hwSmall);
            && LargeLeaves(leaves, phys, h, hwLarge)
            && SmallLeaves(leaves, 512 * h, phys + h * PAGE_2M, count - 512 * h, hwSmall)
  {
  }

  /** The page `i` pages into the range and its offset, as stored for the flag word `hw`. */
  function Destination(virt: nat, phys: nat, hw: nat, va: nat): nat
    requires virt / PAGE_4K <= va / PAGE_4K
  {
    Stored(phys + (va / PAGE_4K - virt / PAGE_4K) * PAGE_4K, hw) + va % PAGE_4K
  }

  /** In `s'` the `count` pages from `virt` translate to the frames from `phys`, and nothing
      else in any space translates differently. */
  ghost predicate Moved(s: Vm, s': Vm, virt: nat, phys: nat, count: nat, hw: nat) {
    && HigherSame(s, s')
    && forall r: nat, va: nat {:trigger Translate(s'.ram, r, va)} :: IsRoot(s, r) && va < LOWER_HALF ==>
         Translate(s'.ram, r, va)
         == if r == s.cur && virt / PAGE_4K <= va / PAGE_4K < virt / PAGE_4K + count
            then Some(Destination(virt, phys, hw, va))
            else Translate(s.ram, r, va)
  }

  /** Unless a no-execute bit is stored, that is byte for byte the physical range. */
  lemma DestinationIs(virt: nat, phys: nat, hw: nat, va: nat)
    requires virt / PAGE_4K <= va / PAGE_4K && !NoExecute(hw)
    ensures Destination(virt, phys, hw, va) == Addr(phys) + (va - Addr(virt))
  {
    SmallLeafApplies(virt, phys, va, va / PAGE_4K - virt / PAGE_4K);
    hide Addr;
  }

  /** Nothing translates differently. */
  ghost predicate Untouched(s: Vm, s': Vm) {
    && HigherSame(s, s')
    && forall r: nat, va: nat {:trigger Translate(s'.ram, r, va)} :: IsRoot(s, r) && va < LOWER_HALF ==>
         Translate(s'.ram, r, va) == Translate(s.ram, r, va)
  }

  lemma SmallLeafApplies(virt: nat, phys: nat, va: nat, i: nat)
    requires va / PAGE_4K == virt / PAGE_4K + i
    ensures Addr(phys + i * PAGE_4K) + va % PAGE_4K == Addr(phys) + (va - Addr(virt))
  {
    PageStep(phys, i);
  }

  lemma LargeLeafApplies(virt: nat, phys: nat, va: nat, i: nat)
    requires va / PAGE_4K == virt / PAGE_4K + i && virt % PAGE_2M == 0 && phys % PAGE_2M == 0
    ensures Addr(phys + i / 512 * PAGE_2M) + va % PAGE_2M == Addr(phys) + (va - Addr(virt))
  {
    BlockAligned(virt);
    BlockAligned(phys);
    BlockStep(phys, phys + i / 512 * PAGE_2M, i / 512);
    BlockAligned(phys + i / 512 * PAGE_2M);
    var q := virt / PAGE_2M;
    assert virt == q * 512 * PAGE_4K;
    assert va == (q + i / 512) * PAGE_2M + (i % 512 * PAGE_4K + va % PAGE_4K);
    DivRem(va, q + i / 512, i % 512 * PAGE_4K + va % PAGE_4K);
  }

  lemma DivRem(va: nat, q: nat, rest: nat)
    requires va == q * PAGE_2M + rest && rest < PAGE_2M
    ensures va % PAGE_2M == rest
  {
  }

  lemma TailFrame(phys: nat, h: nat, i: nat)
    requires 512 * h <= i
    ensures phys + h * PAGE_2M + (i - 512 * h) * PAGE_4K == phys + i * PAGE_4K
  {
  }

  lemma TopBits(a: nat, b: nat)
    requires a / PAGE_2M == b / PAGE_2M
    ensures NoExecute(a) == NoExecute(b)
  {
    TopQuotient(a);
    TopQuotient(b);
  }

  lemma TopQuotient(a: nat)
    ensures a / TOP_BIT == a / PAGE_2M / 0x400_0000_0000
  {
  }

  /** A 2 MiB leaf sends its addresses where 4 KiB leaves would, bit 63 included. */
  lemma LargeDestination(virt: nat, phys: nat, va: nat, i: nat, hw: nat)
    requires va / PAGE_4K == virt / PAGE_4K + i && virt % PAGE_2M == 0 && phys % PAGE_2M == 0
    ensures Stored(phys + i / 512 * PAGE_2M, hw) + va % PAGE_2M == Stored(phys + i * PAGE_4K, hw) + va % PAGE_4K
  {
    LargeLeafApplies(virt, phys, va, i);
    SmallLeafApplies(virt, phys, va, i);
    SameBlock(phys, i);
    hide NoExecute, Addr;
  }

  lemma SameBlock(phys: nat, i: nat)
    requires phys % PAGE_2M == 0
    ensures NoExecute(Addr(phys + i / 512 * PAGE_2M)) == NoExecute(Addr(phys + i * PAGE_4K))
  {
    var a, b := phys + i / 512 * PAGE_2M, phys + i * PAGE_4K;
    BlockStep(phys, a, i / 512);
    BlockAligned(a);
    var q := a / PAGE_2M;
    assert a == q * PAGE_2M && b == a + i % 512 * PAGE_4K;
    assert Addr(b) == q * PAGE_2M + i % 512 * PAGE_4K by {
      PageStep(phys, i);
      BlockAligned(phys);
      AddrStep(phys, i);
    }
    BlockQuotient(q, i % 512 * PAGE_4K);
    BlockQuotient(q, 0);
    TopBits(Addr(a), Addr(b));
  }

  lemma AddrStep(a: nat, i: nat)
    requires Addr(a) == a
    ensures Addr(a + i * PAGE_4K) == a + i * PAGE_4K
  {
    var q := a / PAGE_4K;
    assert a == q * PAGE_4K;
    HighBits(q + i, 0);
  }

  lemma BlockQuotient(q: nat, rest: nat)
    requires rest < PAGE_2M
    ensures (q * PAGE_2M + rest) / PAGE_2M == q
  {
  }

  /** A full window of bulk leaves moves the range. */
  lemma WindowMoves(s: Vm, s': Vm, virt: nat, phys: nat, count: nat, h: nat, hwLarge: nat, hwSmall: nat)
    requires Window(s, s', virt / PAGE_4K, BulkLeaves(phys, count, h, hwLarge, hwSmall), 0, 512 * h, 512 * h, count)
    requires virt / PAGE_4K + count <= LOWER_PAGES && NoExecute(hwLarge) == NoExecute(hwSmall)
    requires h > 0 ==> virt % PAGE_2M == 0 && phys % PAGE_2M == 0
    ensures Moved(s, s', virt, phys, count, hwSmall)
  {
    hide Walk, PathOf, Inv, Addr, NoExecute;
    var leaves := BulkLeaves(phys, count, h, hwLarge, hwSmall);
    forall r: nat, va: nat | IsRoot(s, r) && va < LOWER_HALF
      ensures Translate(s'.ram, r, va)
              == if r == s.cur && virt / PAGE_4K <= va / PAGE_4K < virt / PAGE_4K + count
                 then Some(Destination(virt, phys, hwSmall, va))
                 else Translate(s.ram, r, va)
    {
      var n := va / PAGE_4K;
      PageOf(va, n);
      assert WindowAt(s, s', virt / PAGE_4K, leaves, 0, 512 * h, 512 * h, count, r, n);
      var i := n - virt / PAGE_4K;
      if r == s.cur && 0 <= i < count {
        if i < 512 * h {
          LargeDestination(virt, phys, va, i, hwLarge);
        } else {
          TailFrame(phys, h, i);
        }
      }
    }
  }

  /** An empty window leaves every translation as it was. */
  lemma WindowUntouched(s: Vm, s': Vm, v0: nat, leaves: seq<Leaf>, b: int, c: int)
    requires Window(s, s', v0, leaves, b, b, c, c)
    ensures Untouched(s, s')
  {
    hide Walk, PathOf, Inv;
    forall r: nat, va: nat | IsRoot(s, r) && va < LOWER_HALF
      ensures Translate(s'.ram, r, va) == Translate(s.ram, r, va)
    {
      PageOf(va, va / PAGE_4K);
      assert WindowAt(s, s', v0, leaves, b, b, c, c, r, va / PAGE_4K);
    }
  }

  /** Every page of every space has the leaf it had. */
  ghost predicate SamePages(s: Vm, s': Vm) {
    Window(s, s', 0, [], 0, 0, 0, 0)
  }

  lemma EmptyIsSame(s: Vm, s': Vm, v0: nat, leaves: seq<Leaf>, b: int, c: int)
    requires Window(s, s', v0, leaves, b, b, c, c)
    ensures SamePages(s, s')
  {
    hide Walk, PathOf, Inv;
    forall r, n: nat | IsRoot(s, r) && n < LOWER_PAGES
      ensures WindowAt(s, s', 0, [], 0, 0, 0, 0, r, n)
    {
      assert WindowAt(s, s', v0, leaves, b, b, c, c, r, n);
    }
  }

  /** The outcome of a bulk map, page by page: all leaves in place, or, when frames ran out
      or an address was null, none. Either way only tables of the current space were added. */
  ghost predicate BulkOutcome(s: Vm, s': Vm, ok: bool, virt: nat, phys: nat, count: nat, h: nat, hwL: nat, hwS: nat)
    requires 512 * h <= count
  {
    && Inv(s') && Grows(s, s', s.cur)
    && (ok ==> Window(s, s', virt / PAGE_4K, BulkLeaves(phys, count, h, hwL, hwS), 0, 512 * h, 512 * h, count))
    && (!ok ==> SamePages(s, s') && (virt == 0 || phys == 0 || s'.free == {}))
  }

  lemma MapSmallOutcome(s: Vm, virt: nat, phys: nat, count: nat, flags: bv64, nx: bool)
    requires Inv(s) && Vacant(s, virt / PAGE_4K, count)
    ensures var (s', ok) := MapSmallPages(s, virt, phys, count, flags, nx);
            var hw := HwFlags(flags & !HUGE, nx);
            && BulkOutcome(s, s', ok, virt, phys, count, 0, HwFlags(flags, nx), hw) && (LeakFree(s) ==> LeakFree(s'))
  {
    hide MapWord, Walk, Inv, LeakFree, Has, HwFlags, Window, SamePages, NoExecute, BulkLeaves,
         SmallLeaves, Present, Huge, Vacant, MapRun, UnmapRun, Grows;
    DropHuge(flags);
    var hw, hwL := HwFlags(flags & !HUGE, nx), HwFlags(flags, nx);
    HwFlagsMean(flags & !HUGE, nx);
    var v0, leaves := virt / PAGE_4K, BulkLeaves(phys, count, 0, hwL, hw);
    BulkLeavesOk(phys, count, 0, hwL, hw);
    EmptyWindow(s, v0, leaves);
    SmallRun(s, s, v0, leaves, 0, virt, phys, count, hw);
    var (m, k) := MapRun(s, virt, phys, count, PAGE_4K, hw);
    if k < count {
      if k > 0 {
        SmallLeavesSize(leaves, 0, phys, count, hw);
        SmallRollback(s, m, v0, leaves, 0, 0, k, virt, k);
        GrowsAnyRam(s, m, UnmapRun(m, virt, k, PAGE_4K).ram);
      } else {
        UnmapNone(m, virt, PAGE_4K);
      }
      WindowInv(s, UnmapRun(m, virt, k, PAGE_4K), v0, leaves, k, k);
      EmptyIsSame(s, UnmapRun(m, virt, k, PAGE_4K), v0, leaves, 0, k);
    } else {
      WindowInv(s, m, v0, leaves, 0, k);
    }
  }

  lemma UnmapNone(m: Vm, virt: nat, size: nat)
    ensures UnmapRun(m, virt, 0, size) == m
  {
  }

  lemma GrowsAnyRam(s: Vm, m: Vm, ram: Ram)
    requires Grows(s, m, s.cur)
    ensures Grows(s, m.(ram := ram), s.cur)
  {
  }

  lemma WindowInv(s: Vm, m: Vm, v0: nat, leaves: seq<Leaf>, c: int, d: int)
    requires Window(s, m, v0, leaves, 0, 0, c, d)
    ensures Inv(m)
  {
  }

  lemma LargeLeavesSize(leaves: seq<Leaf>, phys: nat, h: nat, hw: nat)
    requires LargeLeaves(leaves, phys, h, hw)
    ensures forall j :: 0 <= j < 512 * h ==> leaves[j].Leaf? && leaves[j].size == PAGE_2M
  {
  }

  lemma SmallLeavesSize(leaves: seq<Leaf>, b: nat, phys: nat, n: nat, hw: nat)
    requires SmallLeaves(leaves, b, phys, n, hw)
    ensures forall j :: b <= j < b + n ==> leaves[j].Leaf? && leaves[j].size == PAGE_4K
  {
  }

  /** Bulk mapping with 2 MiB pages and a 4 KiB tail, where the 1 GiB branch cannot fire. No
      table is lost when none was linked where a block goes. */
  lemma MapHugeOutcome(s: Vm, virt: nat, phys: nat, count: nat, flags: bv64, nx: bool)
    requires Inv(s) && Vacant(s, virt / PAGE_4K, count)
    requires UsesHuge(virt, phys, count, flags) && NoGiantStep(virt, phys, count / 512)
    ensures var (s', ok) := MapPages(s, virt, phys, count, flags, nx);
            && BulkOutcome(s, s', ok, virt, phys, count, count / 512, HwFlags(flags, nx), HwFlags(flags & !HUGE, nx))
            && (LeakFree(s) && NoTablesUnder(s, virt, count / 512) ==> LeakFree(s'))
  {
    hide MapWord, Walk, Inv, LeakFree, Has, HwFlags, WindowAt, NoExecute, BulkLeaves, SamePages, NoTablesUnder, TableOf,
         LargeLeaves, SmallLeaves, NoGiantStep, Vacant, MapRun, UnmapRun, Grows, NoNewTables;
    DropHuge(flags);
    var hwS, hwL := HwFlags(flags & !HUGE, nx), HwFlags(flags, nx);
    HwFlagsMean(flags & !HUGE, nx);
    HwFlagsMean(flags, nx);
    var h, rest := count / 512, count % 512;
    var v0, leaves := virt / PAGE_4K, BulkLeaves(phys, count, h, hwL, hwS);
    BulkLeavesOk(phys, count, h, hwL, hwS);
    LargeLeavesSize(leaves, phys, h, hwL);
    LargeRun(s, v0, leaves, virt, phys, h, hwL);
    LargeRunTables(s, v0, leaves, virt, phys, h, hwL);
    var (m, k) := MapRun(s, virt, phys, h, PAGE_2M, hwL);
    if k < h {
      if k > 0 {
        LargeRollback(s, m, v0, leaves, 512 * k, virt, k);
        GrowsAnyRam(s, m, UnmapRun(m, virt, k, PAGE_2M).ram);
      } else {
        UnmapNone(m, virt, PAGE_2M);
      }
      EmptyIsSame(s, UnmapRun(m, virt, k, PAGE_2M), v0, leaves, 512 * k, 512 * k);
    } else {
      HugeTail(s, m, virt, phys, count, h, leaves, hwL, hwS);
    }
  }

  /** Unmapping the tail and then the blocks. */
  lemma RollbackBoth(s: Vm, m: Vm, v0: nat, leaves: seq<Leaf>, virt: nat, v: nat, h: nat, k: nat)
    requires Inv(s) && Vacant(s, v0, |leaves|) && h > 0 && virt != 0 && virt % PAGE_2M == 0
    requires v0 == virt / PAGE_4K && v / PAGE_4K == v0 + 512 * h && v != 0
    requires Window(s, m, v0, leaves, 0, 512 * h, 512 * h, 512 * h + k)
    requires forall j :: 0 <= j < 512 * h ==> leaves[j].Leaf? && leaves[j].size == PAGE_2M
    requires forall j :: 512 * h <= j < 512 * h + k ==> leaves[j].Leaf? && leaves[j].size == PAGE_4K
    ensures var s' := UnmapRun(UnmapRun(m, v, k, PAGE_4K), virt, h, PAGE_2M);
            && Inv(s') && SamePages(s, s') && s' == m.(ram := s'.ram)
            && (LeakFree(m) ==> LeakFree(s'))
  {
    hide Walk, Inv, LeakFree, WindowAt, SamePages, Vacant, Unmap;
    SmallRollback(s, m, v0, leaves, 512 * h, 512 * h, 512 * h + k, v, k);
    var m' := UnmapRun(m, v, k, PAGE_4K);
    CloseTail(s, m', v0, leaves, 512 * h, 512 * h + k);
    LargeRollback(s, m', v0, leaves, 512 * h, virt, h);
    EmptyIsSame(s, UnmapRun(m', virt, h, PAGE_2M), v0, leaves, 512 * h, 512 * h);
  }

  /** The 4 KiB tail after all the 2 MiB blocks are in place. */
  lemma HugeTail(s: Vm, m: Vm, virt: nat, phys: nat, count: nat, h: nat, leaves: seq<Leaf>, hwL: nat, hwS: nat)
    requires Inv(s) && Vacant(s, virt / PAGE_4K, count) && h > 0 && 512 * h <= count && virt != 0
    requires virt % PAGE_2M == 0 && Present(hwS) && !Huge(hwS)
    requires leaves == BulkLeaves(phys, count, h, hwL, hwS)
    requires Window(s, m, virt / PAGE_4K, leaves, 0, 512 * h, 512 * h, 512 * h) && Grows(s, m, s.cur)
    ensures var v, p, rest := virt + h * PAGE_2M, phys + h * PAGE_2M, count - 512 * h;
            var (m', k') := MapRun(m, v, p, rest, PAGE_4K, hwS);
            var s' := if k' < rest then UnmapRun(UnmapRun(m', v, k', PAGE_4K), virt, h, PAGE_2M) else m';
            BulkOutcome(s, s', k' == rest, virt, phys, count, h, hwL, hwS) && (LeakFree(m) ==> LeakFree(s'))
  {
    hide MapWord, Walk, Inv, LeakFree, WindowAt, SamePages, NoExecute, BulkLeaves,
         LargeLeaves, SmallLeaves, Present, Huge;
    var v, p, rest := virt + h * PAGE_2M, phys + h * PAGE_2M, count - 512 * h;
    BulkLeavesOk(phys, count, h, hwL, hwS);
    LargeLeavesSize(leaves, phys, h, hwL);
    SmallLeavesSize(leaves, 512 * h, p, rest, hwS);
    BlockStep(virt, v, h);
    var v0 := virt / PAGE_4K;
    SmallRun(s, m, v0, leaves, 512 * h, v, p, rest, hwS);
    var (m', k') := MapRun(m, v, p, rest, PAGE_4K, hwS);
    GrowsTrans(s, m, m', s.cur);
    if k' < rest {
      RollbackBoth(s, m', v0, leaves, virt, v, h, k');
    }
  }

  lemma CloseTail(s: Vm, m: Vm, v0: nat, leaves: seq<Leaf>, b: int, c: int)
    requires Window(s, m, v0, leaves, 0, b, c, c)
    ensures Window(s, m, v0, leaves, 0, b, b, b)
  {
    hide Walk, PathOf, Inv;
    forall r, n: nat | IsRoot(s, r) && n < LOWER_PAGES
      ensures WindowAt(s, m, v0, leaves, 0, b, b, b, r, n)
    {
      assert WindowAt(s, m, v0, leaves, 0, b, c, c, r, n);
    }
  }

  /** How many 2 MiB blocks a call lays. */
  function Blocks(virt: nat, phys: nat, count: nat, flags: bv64): (h: nat)
    ensures 512 * h <= count
  {
    if UsesHuge(virt, phys, count, flags) then count / 512 else 0
  }

  /** `vmm_map_pages` on a vacant range, page by page and for every flag word. */
  lemma MapPagesOutcome(s: Vm, virt: nat, phys: nat, count: nat, flags: bv64, nx: bool)
    requires Inv(s) && Vacant(s, virt / PAGE_4K, count)
    requires NoGiantStep(virt, phys, Blocks(virt, phys, count, flags))
    ensures var (s', ok) := MapPages(s, virt, phys, count, flags, nx);
            var h := Blocks(virt, phys, count, flags);
            && BulkOutcome(s, s', ok, virt, phys, count, h, HwFlags(flags, nx), HwFlags(flags & !HUGE, nx))
            && (LeakFree(s) && NoTablesUnder(s, virt, h) ==> LeakFree(s'))
  {
    hide HwFlags, BulkOutcome, LeakFree, NoTablesUnder, Inv, Vacant, NoGiantStep, UsesHuge, MapSmallPages;
    if UsesHuge(virt, phys, count, flags) {
      MapHugeOutcome(s, virt, phys, count, flags, nx);
    } else {
      MapSmallOutcome(s, virt, phys, count, flags, nx);
    }
  }

  /** Pages outside the range have the leaves they had. */
  ghost predicate OnlyRange(s: Vm, s': Vm, v0: nat, count: nat) {
    forall r, n: nat :: IsRoot(s, r) && n < LOWER_PAGES && !(r == s.cur && v0 <= n < v0 + count) ==> SameLeafAt(s, s', r, n)
  }

  ghost predicate SameLeafAt(s: Vm, s': Vm, r: nat, n: nat) {
    Walk(s'.ram, r, PathOf(n * PAGE_4K)) == Walk(s.ram, r, PathOf(n * PAGE_4K))
  }

  /** A block with an unmapped page is under no 1 GiB leaf. */
  lemma NoGiantLeafBeside(ram: Ram, r: nat, p: Path, q: Path)
    requires p.i4 == q.i4 && p.i3 == q.i3 && Walk(ram, r, p) == Unmapped
    ensures Walk(ram, r, q).Leaf? ==> Walk(ram, r, q).size != PAGE_1G
  {
  }

  /** One block of 2 MiB, laid by a call for 512 huge pages, leaves the pages outside its range
      alone if and only if the addresses are not both 1 GiB aligned: then the huge flag makes the
      step lay a 1 GiB leaf. */
  lemma OneBlockKeepsToRangeIff(s: Vm, virt: nat, phys: nat, flags: bv64, nx: bool)
    requires Inv(s) && Vacant(s, virt / PAGE_4K, 512) && UsesHuge(virt, phys, 512, flags)
    requires MapPages(s, virt, phys, 512, flags, nx).1
    ensures OnlyRange(s, MapPages(s, virt, phys, 512, flags, nx).0, virt / PAGE_4K, 512)
            <==> !(virt % PAGE_1G == 0 && phys % PAGE_1G == 0)
  {
    hide MapPages, HwFlags, Inv, LeakFree, Walk, PathOf, MapWord, Vacant, NoTablesUnder, TableOf;
    var s' := MapPages(s, virt, phys, 512, flags, nx).0;
    var v0, hw := virt / PAGE_4K, HwFlags(flags, nx);
    if virt % PAGE_1G == 0 && phys % PAGE_1G == 0 {
      GiantBlockOverruns(s, virt, phys, flags, nx);
    } else {
      assert NoGiantStep(virt, phys, 1) by {
        assert !GiantStep(virt, phys, 0);
      }
      MapPagesOutcome(s, virt, phys, 512, flags, nx);
      var leaves := BulkLeaves(phys, 512, 1, hw, HwFlags(flags & !HUGE, nx));
      hide BulkLeaves;
      forall r, n: nat | IsRoot(s, r) && n < LOWER_PAGES && !(r == s.cur && v0 <= n < v0 + 512)
        ensures SameLeafAt(s, s', r, n)
      {
        assert WindowAt(s, s', v0, leaves, 0, 512, 512, 512, r, n);
      }
    }
  }

  lemma GiantBlockOverruns(s: Vm, virt: nat, phys: nat, flags: bv64, nx: bool)
    requires Inv(s) && Vacant(s, virt / PAGE_4K, 512) && UsesHuge(virt, phys, 512, flags)
    requires MapPages(s, virt, phys, 512, flags, nx).1 && virt % PAGE_1G == 0 && phys % PAGE_1G == 0
    ensures !OnlyRange(s, MapPages(s, virt, phys, 512, flags, nx).0, virt / PAGE_4K, 512)
  {
    hide HwFlags, Inv, LeakFree, Walk, PathOf, MapWord, DirectoryOf, Present, Has;
    OneBlock(s, virt, phys, flags, nx);
    HwFlagsMean(flags, nx);
    BlockAligned(virt);
    BlockAligned(phys);
    var v0, hw := virt / PAGE_4K, HwFlags(flags, nx);
    PageOf(virt, v0);
    CurIsRoot(s);
    MapGiant(s, s.cur, virt, phys, hw);
    var s' := MapWord(s, s.cur, virt, phys, hw).0;
    GiantNeighbour(virt);
    var n := v0 + 512;
    assert Walk(s'.ram, s.cur, PathOf(n * PAGE_4K)) == LeafFor(phys, hw, PAGE_1G);
    assert Walk(s.ram, s.cur, PathOf(v0 * PAGE_4K)) == Unmapped;
    NoGiantLeafBeside(s.ram, s.cur, PathOf(v0 * PAGE_4K), PathOf(n * PAGE_4K));
    assert !SameLeafAt(s, s', s.cur, n);
  }

  /** The page behind the first 2 MiB of a 1 GiB block is in the same block. */
  lemma GiantNeighbour(virt: nat)
    requires virt % PAGE_1G == 0 && virt < LOWER_HALF
    ensures var n := virt / PAGE_4K + 512;
            n < LOWER_PAGES && SameGranule(PathOf(virt), PathOf(n * PAGE_4K), PAGE_1G) && PathOf(virt) == PathOf(virt / PAGE_4K * PAGE_4K)
  {
    var n := virt / PAGE_4K + 512;
    assert virt == virt / PAGE_1G * PAGE_1G;
    assert n * PAGE_4K == virt + PAGE_2M;
    assert LOWER_HALF == 0x2_0000 * PAGE_1G;
    assert virt / PAGE_4K * PAGE_4K == virt;
    hide PathOf;
    Granule2M(virt, n * PAGE_4K);
  }

  lemma OneBlock(s: Vm, virt: nat, phys: nat, flags: bv64, nx: bool)
    requires UsesHuge(virt, phys, 512, flags) && MapPages(s, virt, phys, 512, flags, nx).1
    ensures MapPages(s, virt, phys, 512, flags, nx) == MapWord(s, s.cur, virt, phys, HwFlags(flags, nx))
  {
    hide MapWord, HwFlags, UsesHuge;
    var hw := HwFlags(flags, nx);
    assert MapRun(s, virt, phys, 0, PAGE_2M, hw) == (s, 0);
    assert MapRun(s, virt, phys, 1, PAGE_2M, hw).0 == MapWord(s, s.cur, virt, phys, hw).0;
  }

  /** What that means for addresses: the whole range moved, or nothing changed. */
  ghost predicate AllOrNothing(s: Vm, s': Vm, ok: bool, virt: nat, phys: nat, count: nat, hw: nat) {
    && Inv(s') && Grows(s, s', s.cur)
    && (ok ==> Moved(s, s', virt, phys, count, hw))
    && (!ok ==> Untouched(s, s') && (virt == 0 || phys == 0 || s'.free == {}))
  }

  lemma OutcomeMeans(s: Vm, s': Vm, ok: bool, virt: nat, phys: nat, count: nat, h: nat, hwL: nat, hwS: nat)
    requires 512 * h <= count && BulkOutcome(s, s', ok, virt, phys, count, h, hwL, hwS)
    requires virt / PAGE_4K + count <= LOWER_PAGES && NoExecute(hwL) == NoExecute(hwS)
    requires h > 0 ==> virt % PAGE_2M == 0 && phys % PAGE_2M == 0
    ensures AllOrNothing(s, s', ok, virt, phys, count, hwS)
  {
    hide Inv, WindowAt, Moved, Untouched, NoExecute, BulkLeaves;
    if ok {
      WindowMoves(s, s', virt, phys, count, h, hwL, hwS);
    } else {
      WindowUntouched(s, s', 0, [], 0, 0);
    }
  }

  /** The flag word of a request as the 4 KiB loop stores it; bit 63 is that of the request. */
  function SmallWord(flags: bv64, nx: bool): nat { HwFlags(flags & !HUGE, nx) }

  lemma SameNoExecute(flags: bv64, nx: bool)
    ensures NoExecute(HwFlags(flags, nx)) == NoExecute(SmallWord(flags, nx)) == (Has(flags, NO_EXECUTE) && nx)
  {
    hide HwFlags, Has, NoExecute;
    DropHuge(flags);
    HwFlagsMean(flags, nx);
    HwFlagsMean(flags & !HUGE, nx);
  }

  /** The 4 KiB loop is all or nothing. */
  lemma MapSmallPagesMove(s: Vm, virt: nat, phys: nat, count: nat, flags: bv64, nx: bool)
    requires Inv(s) && Vacant(s, virt / PAGE_4K, count)
    ensures var (s', ok) := MapSmallPages(s, virt, phys, count, flags, nx);
            AllOrNothing(s, s', ok, virt, phys, count, SmallWord(flags, nx)) && (LeakFree(s) ==> LeakFree(s'))
  {
    hide MapSmallPages, HwFlags, Inv, LeakFree, BulkOutcome, NoExecute, Has, AllOrNothing;
    MapSmallOutcome(s, virt, phys, count, flags, nx);
    SameNoExecute(flags, nx);
    var (s', ok) := MapSmallPages(s, virt, phys, count, flags, nx);
    OutcomeMeans(s, s', ok, virt, phys, count, 0, HwFlags(flags, nx), HwFlags(flags & !HUGE, nx));
  }

  /** `vmm_map_pages` on a vacant range is all or nothing, for every flag word; without a
      stored no-execute bit the range moves byte for byte. */
  lemma MapPagesAllOrNothing(s: Vm, virt: nat, phys: nat, count: nat, flags: bv64, nx: bool)
    requires Inv(s) && Vacant(s, virt / PAGE_4K, count)
    requires NoGiantStep(virt, phys, Blocks(virt, phys, count, flags))
    ensures var (s', ok) := MapPages(s, virt, phys, count, flags, nx);
            && AllOrNothing(s, s', ok, virt, phys, count, SmallWord(flags, nx))
            && (ok && !(Has(flags, NO_EXECUTE) && nx) ==>
                  forall va: nat :: va < LOWER_HALF && virt / PAGE_4K <= va / PAGE_4K < virt / PAGE_4K + count ==>
                    Translate(s'.ram, s.cur, va) == Some(Addr(phys) + (va - Addr(virt))))
  {
    hide MapPages, HwFlags, Inv, LeakFree, BulkOutcome, NoExecute, Has, Translate, Addr, NoGiantStep, Destination,
         NoTablesUnder;
    assert IsRoot(s, s.cur) by {
      CurIsRoot(s);
    }
    MapPagesOutcome(s, virt, phys, count, flags, nx);
    SameNoExecute(flags, nx);
    var (s', ok) := MapPages(s, virt, phys, count, flags, nx);
    OutcomeMeans(s, s', ok, virt, phys, count, Blocks(virt, phys, count, flags), HwFlags(flags, nx),
                 HwFlags(flags & !HUGE, nx));
    if ok && !(Has(flags, NO_EXECUTE) && nx) {
      forall va: nat | va < LOWER_HALF && virt / PAGE_4K <= va / PAGE_4K < virt / PAGE_4K + count
        ensures Translate(s'.ram, s.cur, va) == Some(Addr(phys) + (va - Addr(virt)))
      {
        DestinationIs(virt, phys, SmallWord(flags, nx), va);
      }
    }
  }

  lemma CurIsRoot(s: Vm)
    requires Inv(s)
    ensures IsRoot(s, s.cur)
  {
  }

  /** Huge pages are invisible: where both forms succeed they translate every address of
      every space alike, and where one fails it leaves every translation as before. */
  lemma HugeEqualsSmall(s: Vm, virt: nat, phys: nat, count: nat, flags: bv64, nx: bool, r: nat, va: nat)
    requires Inv(s) && Vacant(s, virt / PAGE_4K, count) && virt % PAGE_1G != phys % PAGE_1G
    requires IsRoot(s, r) && va < LOWER_HALF
    ensures var (large, okL) := MapPages(s, virt, phys, count, flags, nx);
            var (small, okS) := MapSmallPages(s, virt, phys, count, flags, nx);
            && (okL && okS ==> Translate(large.ram, r, va) == Translate(small.ram, r, va))
            && (!okL ==> Translate(large.ram, r, va) == Translate(s.ram, r, va))
            && (!okS ==> Translate(small.ram, r, va) == Translate(s.ram, r, va))
  {
    hide MapPages, MapSmallPages, Inv, LeakFree, Translate, Destination, Has, NoGiantStep;
    NotCongruent(virt, phys, Blocks(virt, phys, count, flags));
    MapPagesAllOrNothing(s, virt, phys, count, flags, nx);
    MapSmallPagesMove(s, virt, phys, count, flags, nx);
  }
}
