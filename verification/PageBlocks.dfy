/** The pages of the lower half and the blocks a leaf covers. */
module PageBlocks {
  import opened PageTables
  import opened MappingLaws

  /** Number of 4 KiB pages in the lower half. */
  const LOWER_PAGES: nat := 0x8_0000_0000

  predicate LeafSize(size: nat) {
    size == PAGE_4K || size == PAGE_2M || size == PAGE_1G
  }

  /** Page `n` of the lower half lies in the same leaf-sized block as address `virt`. */
  predicate InBlock(n: nat, virt: nat, size: nat)
    requires size > 0
  {
    n * PAGE_4K / size == virt / size
  }

  lemma Granule4K(va: nat, vb: nat)
    requires va < LOWER_HALF && vb < LOWER_HALF
    ensures SameGranule(PathOf(va), PathOf(vb), PAGE_4K) <==> va / PAGE_4K == vb / PAGE_4K
  {
    PathIsPage(va, vb);
    assert SameGranule(PathOf(va), PathOf(vb), PAGE_4K) <==> PathOf(va) == PathOf(vb);
  }

  lemma Digits2M(va: nat)
    requires va < LOWER_HALF
    ensures var p := PathOf(va); va / PAGE_2M == (p.i4 * 512 + p.i3) * 512 + p.i2
    ensures var p := PathOf(va); va / PAGE_1G == p.i4 * 512 + p.i3
  {
    Div1G(va);
    Div512G(va);
  }

  lemma Granule2M(va: nat, vb: nat)
    requires va < LOWER_HALF && vb < LOWER_HALF
    ensures SameGranule(PathOf(va), PathOf(vb), PAGE_2M) <==> va / PAGE_2M == vb / PAGE_2M
    ensures SameGranule(PathOf(va), PathOf(vb), PAGE_1G) <==> va / PAGE_1G == vb / PAGE_1G
  {
    Digits2M(va);
    Digits2M(vb);
    ThreeDigits(PathOf(va), PathOf(vb));
  }

  lemma ThreeDigits(p: Path, q: Path)
    ensures (p.i4 * 512 + p.i3) * 512 + p.i2 == (q.i4 * 512 + q.i3) * 512 + q.i2 <==> SameGranule(p, q, PAGE_2M)
    ensures p.i4 * 512 + p.i3 == q.i4 * 512 + q.i3 <==> SameGranule(p, q, PAGE_1G)
  {
    if (p.i4 * 512 + p.i3) * 512 + p.i2 == (q.i4 * 512 + q.i3) * 512 + q.i2 {
      Digit(p.i4 * 512 + p.i3, p.i2, q.i4 * 512 + q.i3, q.i2);
    }
    if p.i4 * 512 + p.i3 == q.i4 * 512 + q.i3 {
      Digit(p.i4, p.i3, q.i4, q.i3);
    }
  }

  lemma BlockIsGranule(virt: nat, n: nat, size: nat)
    requires virt < LOWER_HALF && n < LOWER_PAGES && LeafSize(size)
    ensures InBlock(n, virt, size) <==> SameGranule(PathOf(virt), PathOf(n * PAGE_4K), size)
    ensures size == PAGE_4K ==> (InBlock(n, virt, size) <==> n == virt / PAGE_4K)
    ensures PathOf(n * PAGE_4K).i4 < 256 && PathOf(virt).i4 < 256
  {
    PathIsPage(virt, n * PAGE_4K);
    if size == PAGE_4K {
      Granule4K(virt, n * PAGE_4K);
    } else {
      Granule2M(virt, n * PAGE_4K);
    }
  }
}
