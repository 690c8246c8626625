/** Physical memory as 512-word pages, the x86-64 page-table word, and the 4-level walk. */
module PageTables {
  import opened Options

  const PAGE_4K: nat := 0x1000
  const PAGE_2M: nat := 0x20_0000
  const PAGE_1G: nat := 0x4000_0000
  const TOP_BIT: nat := 0x8000_0000_0000_0000
  const WORD: nat := 0x1_0000_0000_0000_0000
  /** The lower half of the canonical address space ends here. */
  const LOWER_HALF: nat := 0x8000_0000_0000

  type Index = i: nat | i < 512

  type Page = s: seq<nat> | |s| == 512 witness ZeroPage()

  function ZeroPage(): (p: seq<nat>)
    ensures |p| == 512 && forall i :: 0 <= i < 512 ==> p[i] == 0
  {
    seq(512, _ => 0)
  }

  /** Page frames by physical address. A frame that was never written reads as zeros. */
  type Ram = map<nat, Page>

  function Load(ram: Ram, frame: nat, i: Index): nat {
    if frame in ram then ram[frame][i] else 0
  }

  function Store(ram: Ram, frame: nat, i: Index, w: nat): Ram {
    ram[frame := (if frame in ram then ram[frame] else ZeroPage())[i := w]]
  }

  function Clear(ram: Ram, frame: nat): Ram {
    ram[frame := ZeroPage()]
  }

  // ----- table words

  predicate Present(w: nat) { w % 2 == 1 }

  predicate Huge(w: nat) { w / 128 % 2 == 1 }

  predicate NoExecute(w: nat) { w / TOP_BIT % 2 == 1 }

  /** The word with its low 12 bits cleared. Bit 63 stays. */
  function Addr(w: nat): nat { w - w % PAGE_4K }

  /** The low 12 bits: what the mapping allows and how it is cached. */
  function Bits(w: nat): nat { w % PAGE_4K }

  /** `phys | flags`, for a page-aligned `phys` and flags in bits 0-11 and 63. */
  function Entry(phys: nat, flags: nat): nat {
    phys + flags % PAGE_4K + if NoExecute(flags) && !NoExecute(phys) then TOP_BIT else 0
  }

  /** A word that points at another table: bit 7 means a huge leaf except in the top table,
      where it is never looked at. */
  predicate Links(level: int, w: nat) {
    Present(w) && (level == 4 || !Huge(w))
  }

  lemma EvenPlus(x: nat, low: nat)
    ensures (2 * x + low) % 2 == low % 2
  {
  }

  lemma LowBit0(q: nat, low: nat)
    ensures (q * PAGE_4K + low) % 2 == low % 2
  {
    EvenPlus(2048 * q, low);
  }

  lemma LowBit7(q: nat, low: nat)
    ensures (q * PAGE_4K + low) / 128 % 2 == low / 128 % 2
  {
    var w, a := q * PAGE_4K + low, low / 128;
    assert w == 128 * (32 * q + a) + low % 128;
    assert w / 128 == 32 * q + a;
    assert 32 * q + a == 2 * (16 * q + a / 2) + a % 2;
  }

  lemma HighBits(q: nat, low: nat)
    requires low < PAGE_4K
    ensures Addr(q * PAGE_4K + low) == q * PAGE_4K
  {
  }

  /** The low flag bits of a word are those of its low 12 bits. */
  lemma LowBits(q: nat, low: nat)
    requires low < PAGE_4K
    ensures var w := q * PAGE_4K + low;
            w % 2 == low % 2 && w / 128 % 2 == low / 128 % 2 && Addr(w) == q * PAGE_4K && Bits(w) == low
  {
    LowBit0(q, low);
    LowBit7(q, low);
    HighBits(q, low);
  }

  lemma EntryFields(phys: nat, flags: nat)
    requires phys % PAGE_4K == 0
    ensures Present(Entry(phys, flags)) <==> Present(flags)
    ensures Huge(Entry(phys, flags)) <==> Huge(flags)
    ensures Addr(Entry(phys, flags)) == phys + if NoExecute(flags) && !NoExecute(phys) then TOP_BIT else 0
    ensures Bits(Entry(phys, flags)) == Bits(flags)
  {
    var nx := NoExecute(flags) && !NoExecute(phys);
    var low := flags % PAGE_4K;
    LowBits(flags / PAGE_4K, low);
    LowBits(phys / PAGE_4K + if nx then TOP_BIT / PAGE_4K else 0, low);
  }

  // ----- addresses

  /** The four table indices of a virtual address. */
  datatype Path = Path(i4: Index, i3: Index, i2: Index, i1: Index)

  function PathOf(va: nat): Path {
    Path(va / 0x80_0000_0000 % 512, va / PAGE_1G % 512, va / PAGE_2M % 512, va / PAGE_4K % 512)
  }

  /** Addresses of the lower half share a path exactly when they share a page. */
  lemma PathIsPage(va: nat, vb: nat)
    requires va < LOWER_HALF && vb < LOWER_HALF
    ensures PathOf(va) == PathOf(vb) <==> va / PAGE_4K == vb / PAGE_4K
    ensures PathOf(va).i4 < 256
  {
    PagePath(va);
    PagePath(vb);
    if va / PAGE_4K == vb / PAGE_4K {
      Digits(PathOf(va), PathOf(vb));
    }
  }

  lemma Digit(a: nat, i: Index, b: nat, j: Index)
    requires a * 512 + i == b * 512 + j
    ensures a == b && i == j
  {
  }

  lemma Digits(p: Path, q: Path)
    requires ((p.i4 * 512 + p.i3) * 512 + p.i2) * 512 + p.i1 == ((q.i4 * 512 + q.i3) * 512 + q.i2) * 512 + q.i1
    ensures p == q
  {
    Digit((p.i4 * 512 + p.i3) * 512 + p.i2, p.i1, (q.i4 * 512 + q.i3) * 512 + q.i2, q.i1);
    Digit(p.i4 * 512 + p.i3, p.i2, q.i4 * 512 + q.i3, q.i2);
    Digit(p.i4, p.i3, q.i4, q.i3);
  }

  lemma Div2M(va: nat)
    ensures va / PAGE_2M == va / PAGE_4K / 512
  {
    var n := va / PAGE_4K;
    assert va == PAGE_2M * (n / 512) + (n % 512 * PAGE_4K + va % PAGE_4K);
  }

  lemma Div1G(va: nat)
    ensures va / PAGE_1G == va / PAGE_2M / 512
  {
    var n := va / PAGE_2M;
    assert va == PAGE_1G * (n / 512) + (n % 512 * PAGE_2M + va % PAGE_2M);
  }

  lemma Div512G(va: nat)
    ensures va / 0x80_0000_0000 == va / PAGE_1G / 512
  {
    var n := va / PAGE_1G;
    assert va == 0x80_0000_0000 * (n / 512) + (n % 512 * PAGE_1G + va % PAGE_1G);
  }

  /** The indices of a lower-half address are the base-512 digits of its page number. */
  lemma PagePath(va: nat)
    requires va < LOWER_HALF
    ensures var p := PathOf(va);
            va / PAGE_4K == ((p.i4 * 512 + p.i3) * 512 + p.i2) * 512 + p.i1 && p.i4 < 256
  {
    Div2M(va);
    Div1G(va);
    Div512G(va);
  }

  // ----- the walk

  datatype Leaf = Unmapped | Leaf(base: nat, size: nat, bits: nat)

  /** What the walk finds at the end of a path: nothing, or a leaf, the size it maps and the
      attribute bits of its word. */
  function Walk(ram: Ram, root: nat, p: Path): Leaf {
    var e4 := Load(ram, root, p.i4);
    if root == 0 || !Present(e4) then Unmapped else
    var t3 := Addr(e4);
    var e3 := Load(ram, t3, p.i3);
    if t3 == 0 || !Present(e3) then Unmapped
    else if Huge(e3) then Leaf(Addr(e3), PAGE_1G, Bits(e3)) else
    var t2 := Addr(e3);
    var e2 := Load(ram, t2, p.i2);
    if t2 == 0 || !Present(e2) then Unmapped
    else if Huge(e2) then Leaf(Addr(e2), PAGE_2M, Bits(e2)) else
    var t1 := Addr(e2);
    var e1 := Load(ram, t1, p.i1);
    if t1 == 0 || !Present(e1) then Unmapped
    else Leaf(Addr(e1), PAGE_4K, Bits(e1))
  }

  function Apply(l: Leaf, va: nat): Option<nat> {
    match l
    case Unmapped => None
    case Leaf(base, size, _) => if size == 0 then None else Some(base + va % size)
  }

  function Translate(ram: Ram, root: nat, va: nat): Option<nat> {
    Apply(Walk(ram, root, PathOf(va)), va)
  }
}
