/** The packed page bitmap of the physical memory manager: page `i` is bit `i % 8` of
    byte `i / 8`, and a set bit means the page is used. */
module PageBitmap {

  /** The byte `1 << k`. */
  function Mask(k: nat): bv8
    requires k < 8
  {
    match k
    case 0 => 1
    case 1 => 2
    case 2 => 4
    case 3 => 8
    case 4 => 16
    case 5 => 32
    case 6 => 64
    case _ => 128
  }

  predicate HasBit(b: bv8, k: nat)
    requires k < 8
  {
    b & Mask(k) != 0
  }

  function WithBit(b: bv8, k: nat): bv8
    requires k < 8
  {
    b | Mask(k)
  }

  function WithoutBit(b: bv8, k: nat): bv8
    requires k < 8
  {
    b & !Mask(k)
  }

  predicate Bit(bytes: seq<bv8>, i: nat)
    requires i / 8 < |bytes|
  {
    HasBit(bytes[i / 8], i % 8)
  }

  /** The first `n` bits, unpacked. */
  function Unpack(bytes: seq<bv8>, n: nat): (bits: seq<bool>)
    requires n <= 8 * |bytes|
    ensures |bits| == n
  {
    seq(n, i requires 0 <= i < n => Bit(bytes, i))
  }

  lemma MaskAlone(b: bv8, j: nat, k: nat)
    requires j < 8 && k < 8
    ensures HasBit(WithBit(b, k), j) <==> j == k || HasBit(b, j)
    ensures HasBit(WithoutBit(b, k), j) <==> j != k && HasBit(b, j)
  {
  }

  lemma SameBit(i: nat, j: nat)
    requires i / 8 == j / 8
    ensures i % 8 == j % 8 <==> i == j
  {
  }

  lemma BitSet(bytes: seq<bv8>, i: nat, j: nat)
    requires i / 8 < |bytes| && j / 8 < |bytes|
    ensures Bit(bytes[i / 8 := WithBit(bytes[i / 8], i % 8)], j) <==> j == i || Bit(bytes, j)
  {
    hide HasBit, WithBit, WithoutBit;
    if i / 8 == j / 8 {
      MaskAlone(bytes[i / 8], j % 8, i % 8);
      SameBit(i, j);
    }
  }

  lemma BitCleared(bytes: seq<bv8>, i: nat, j: nat)
    requires i / 8 < |bytes| && j / 8 < |bytes|
    ensures Bit(bytes[i / 8 := WithoutBit(bytes[i / 8], i % 8)], j) <==> j != i && Bit(bytes, j)
  {
    hide HasBit, WithBit, WithoutBit;
    if i / 8 == j / 8 {
      MaskAlone(bytes[i / 8], j % 8, i % 8);
      SameBit(i, j);
    }
  }

  /** Or-ing the mask into the byte sets exactly the addressed bit. */
  lemma SetBit(bytes: seq<bv8>, n: nat, i: nat)
    requires i < n <= 8 * |bytes|
    ensures Unpack(bytes[i / 8 := WithBit(bytes[i / 8], i % 8)], n) == Unpack(bytes, n)[i := true]
  {
    hide HasBit, WithBit;
    var after := bytes[i / 8 := WithBit(bytes[i / 8], i % 8)];
    forall j: nat | j < n
      ensures Unpack(after, n)[j] == Unpack(bytes, n)[i := true][j]
    {
      BitSet(bytes, i, j);
    }
  }

  /** And-ing the inverted mask clears exactly the addressed bit. */
  lemma ClearBit(bytes: seq<bv8>, n: nat, i: nat)
    requires i < n <= 8 * |bytes|
    ensures Unpack(bytes[i / 8 := WithoutBit(bytes[i / 8], i % 8)], n) == Unpack(bytes, n)[i := false]
  {
    hide HasBit, WithoutBit;
    var after := bytes[i / 8 := WithoutBit(bytes[i / 8], i % 8)];
    forall j: nat | j < n
      ensures Unpack(after, n)[j] == Unpack(bytes, n)[i := false][j]
    {
      BitCleared(bytes, i, j);
    }
  }
}

/** What allocation and freeing mean on the unpacked bitmap. */
module PageRuns {
  import opened Options
  const PAGE_SIZE: nat := 4096

  /** Pages `s .. s + n` exist and are all free. */
  predicate RunAt(bits: seq<bool>, s: nat, n: nat) {
    s + n <= |bits| && forall i :: s <= i < s + n ==> !bits[i]
  }

  /** `bits` with pages `s .. s + n` set to `v`. */
  function Mark(bits: seq<bool>, s: nat, n: nat, v: bool): (r: seq<bool>)
    ensures |r| == |bits|
  {
    seq(|bits|, i requires 0 <= i < |bits| => if s <= i < s + n then v else bits[i])
  }

  /** The lowest run of `n` free pages starting at or after `from`. */
  function FirstRunFrom(bits: seq<bool>, n: nat, from: nat): (r: Option<nat>)
    ensures r.Some? ==> from <= r.value && RunAt(bits, r.value, n)
    ensures forall t: nat :: from <= t && RunAt(bits, t, n) ==> r.Some? && r.value <= t
    decreases |bits| - from
  {
    if from + n > |bits| then None
    else if RunAt(bits, from, n) then Some(from)
    else if from == |bits| then None
    else FirstRunFrom(bits, n, from + 1)
  }

  function FirstRun(bits: seq<bool>, n: nat): Option<nat> {
    FirstRunFrom(bits, n, 0)
  }

  lemma FirstRunIs(bits: seq<bool>, n: nat, s: nat)
    requires RunAt(bits, s, n)
    requires forall t: nat :: t < s ==> !RunAt(bits, t, n)
    ensures FirstRun(bits, n) == Some(s)
  {
  }

  lemma NoFirstRun(bits: seq<bool>, n: nat)
    requires forall t: nat :: !RunAt(bits, t, n)
    ensures FirstRun(bits, n) == None
  {
  }

  /** Page `i` is the lowest free page when every page below it is used. */
  lemma FirstFreeIs(bits: seq<bool>, i: nat)
    requires i < |bits| && !bits[i]
    requires forall t :: 0 <= t < i ==> bits[t]
    ensures FirstRun(bits, 1) == Some(i)
  {
    forall t: nat | t < i
      ensures !RunAt(bits, t, 1)
    {
      assert bits[t];
    }
    FirstRunIs(bits, 1, i);
  }

  lemma NoFirstFree(bits: seq<bool>)
    requires forall t :: 0 <= t < |bits| ==> bits[t]
    ensures FirstRun(bits, 1) == None
  {
    forall t: nat
      ensures !RunAt(bits, t, 1)
    {
      assert t < |bits| ==> bits[t];
    }
    NoFirstRun(bits, 1);
  }

  /** No run of `n` free pages ends by page `i`. */
  ghost predicate NoRunBefore(bits: seq<bool>, n: nat, i: nat) {
    forall t: nat :: t + n <= i ==> !RunAt(bits, t, n)
  }

  /** A used page within the last `n` pages keeps a run from ending here. */
  lemma NoRunStep(bits: seq<bool>, n: nat, i: nat, u: nat)
    requires NoRunBefore(bits, n, i) && u <= i < u + n && i < |bits| && bits[u]
    ensures NoRunBefore(bits, n, i + 1)
  {
    forall t: nat | t + n <= i + 1
      ensures !RunAt(bits, t, n)
    {
      if t + n == i + 1 {
        assert t <= u < t + n;
      }
    }
  }

  function Count(bits: seq<bool>, v: bool): nat {
    if bits == [] then 0 else Count(bits[..|bits| - 1], v) + if bits[|bits| - 1] == v then 1 else 0
  }

  /** Free plus used pages is the number of pages, whatever the bitmap. */
  lemma {:induction false} FreePlusUsed(bits: seq<bool>)
    ensures Count(bits, false) + Count(bits, true) == |bits|
  {
    if bits == [] {
    } else {
      FreePlusUsed(bits[..|bits| - 1]);
    }
  }

  /** The pages a manager starting at `start` accepts back: inside the range and at an
      absolute page boundary. */
  predicate Accepts(start: nat, bits: seq<bool>, page: nat) {
    start <= page < start + |bits| * PAGE_SIZE && page % PAGE_SIZE == 0
  }

  function FreeOne(start: nat, bits: seq<bool>, page: nat): (r: seq<bool>)
    ensures |r| == |bits|
  {
    if Accepts(start, bits, page) then bits[(page - start) / PAGE_SIZE := false] else bits
  }

  function FreeMany(start: nat, bits: seq<bool>, page: nat, count: nat): (r: seq<bool>)
    ensures |r| == |bits|
  {
    if count == 0 then bits
    else FreeOne(start, FreeMany(start, bits, page, count - 1), page + (count - 1) * PAGE_SIZE)
  }

  /** With a page-aligned start, freeing a run clears exactly its pages. */
  lemma {:induction false} FreeManyAligned(start: nat, bits: seq<bool>, s: nat, n: nat)
    requires start % PAGE_SIZE == 0 && s + n <= |bits|
    ensures FreeMany(start, bits, start + s * PAGE_SIZE, n) == Mark(bits, s, n, false)
  {
    if n == 0 {
      assert Mark(bits, s, 0, false) == bits;
    } else {
      FreeManyAligned(start, bits, s, n - 1);
      var page := start + s * PAGE_SIZE + (n - 1) * PAGE_SIZE;
      assert page == start + (s + n - 1) * PAGE_SIZE;
      assert page % PAGE_SIZE == 0 && (page - start) / PAGE_SIZE == s + n - 1;
      assert Mark(bits, s, n - 1, false)[s + n - 1 := false] == Mark(bits, s, n, false);
    }
  }

  /** With an unaligned start, freeing an allocated run does nothing at all. */
  lemma {:induction false} FreeManyUnaligned(start: nat, bits: seq<bool>, s: nat, n: nat)
    requires start % PAGE_SIZE != 0
    ensures FreeMany(start, bits, start + s * PAGE_SIZE, n) == bits
  {
    if n != 0 {
      FreeManyUnaligned(start, bits, s, n - 1);
      assert start + s * PAGE_SIZE + (n - 1) * PAGE_SIZE == start + (s + n - 1) * PAGE_SIZE;
      assert (start + (s + n - 1) * PAGE_SIZE) % PAGE_SIZE != 0;
    }
  }

  /** Allocating a run and freeing it restores the bitmap if and only if the managed range
      starts at a page boundary. */
  lemma AllocThenFreeRestores(start: nat, bits: seq<bool>, n: nat)
    requires n > 0 && FirstRun(bits, n).Some?
    ensures var s := FirstRun(bits, n).value;
            FreeMany(start, Mark(bits, s, n, true), start + s * PAGE_SIZE, n) == bits
            <==> start % PAGE_SIZE == 0
  {
    var s := FirstRun(bits, n).value;
    var marked := Mark(bits, s, n, true);
    if start % PAGE_SIZE == 0 {
      FreeManyAligned(start, marked, s, n);
      assert Mark(marked, s, n, false) == bits;
    } else {
      FreeManyUnaligned(start, marked, s, n);
      assert marked[s] != bits[s];
    }
  }

  // ----- runs of allocations and frees

  datatype Block = Block(first: nat, len: nat)

  datatype Allocator = Allocator(bits: seq<bool>, live: seq<Block>)

  /** `Take(n)` is `pmm_alloc_pages(n)`; `Drop(k)` frees the k-th live block. */
  datatype Request = Take(n: nat) | Drop(k: nat)

  function Serve(start: nat, a: Allocator, q: Request): Allocator {
    match q
    case Take(n) =>
      if n == 0 then a
      else (match FirstRun(a.bits, n)
            case None => a
            case Some(s) => Allocator(Mark(a.bits, s, n, true), a.live + [Block(s, n)]))
    case Drop(k) =>
      if k >= |a.live| then a
      else Allocator(FreeMany(start, a.bits, start + a.live[k].first * PAGE_SIZE, a.live[k].len),
                     a.live[..k] + a.live[k + 1..])
  }

  function ServeAll(start: nat, a: Allocator, qs: seq<Request>): Allocator {
    if qs == [] then a else Serve(start, ServeAll(start, a, qs[..|qs| - 1]), qs[|qs| - 1])
  }

  predicate Covers(b: Block, i: nat) {
    b.first <= i < b.first + b.len
  }

  ghost predicate Covered(live: seq<Block>, i: nat) {
    exists k :: 0 <= k < |live| && Covers(live[k], i)
  }

  /** Live blocks lie in the range, avoid the boot-reserved pages and each other, and the
      used bits are exactly the boot-reserved pages and the live blocks. */
  ghost predicate Accounted(boot: seq<bool>, a: Allocator) {
    && |a.bits| == |boot|
    && (forall k :: 0 <= k < |a.live| ==> a.live[k].first + a.live[k].len <= |boot|)
    && (forall j, k, i: nat :: 0 <= j < k < |a.live| && Covers(a.live[j], i) ==> !Covers(a.live[k], i))
    && (forall i :: 0 <= i < |boot| && boot[i] ==> !Covered(a.live, i))
    && (forall i :: 0 <= i < |boot| ==> (a.bits[i] <==> boot[i] || Covered(a.live, i)))
  }

  lemma TakeAccounted(start: nat, boot: seq<bool>, a: Allocator, n: nat)
    requires Accounted(boot, a)
    ensures Accounted(boot, Serve(start, a, Take(n)))
  {
    if n != 0 && FirstRun(a.bits, n).Some? {
      var s := FirstRun(a.bits, n).value;
      var live := a.live + [Block(s, n)];
      forall i | 0 <= i < |boot|
        ensures Covered(live, i) <==> Covered(a.live, i) || s <= i < s + n
      {
        if Covered(a.live, i) {
          var k :| 0 <= k < |a.live| && Covers(a.live[k], i);
          assert Covers(live[k], i);
        }
        if s <= i < s + n {
          assert Covers(live[|a.live|], i);
        }
      }
      forall j, k, i: nat | 0 <= j < k < |live| && Covers(live[j], i)
        ensures !Covers(live[k], i)
      {
        if k == |a.live| && Covers(live[k], i) {
          assert Covered(a.live, i);
        }
      }
    }
  }

  /** What the remaining blocks cover when one of them is gone. */
  lemma CoveredWithout(boot: seq<bool>, a: Allocator, k: nat, i: nat)
    requires Accounted(boot, a) && k < |a.live|
    ensures Covered(a.live[..k] + a.live[k + 1..], i) <==> Covered(a.live, i) && !Covers(a.live[k], i)
  {
    var b, live := a.live[k], a.live[..k] + a.live[k + 1..];
    hide Covers;
    if Covered(live, i) {
      var j :| 0 <= j < |live| && Covers(live[j], i);
      assert live[j] == a.live[if j < k then j else j + 1];
    }
    if Covered(a.live, i) && !Covers(b, i) {
      var j :| 0 <= j < |a.live| && Covers(a.live[j], i);
      assert live[if j < k then j else j - 1] == a.live[j];
    }
  }

  lemma DropAccounted(start: nat, boot: seq<bool>, a: Allocator, k: nat)
    requires start % PAGE_SIZE == 0 && Accounted(boot, a)
    ensures Accounted(boot, Serve(start, a, Drop(k)))
  {
    if k < |a.live| {
      var b := a.live[k];
      FreeManyAligned(start, a.bits, b.first, b.len);
      var live := a.live[..k] + a.live[k + 1..];
      hide FreeMany, Covered;
      forall i: nat
        ensures Covered(live, i) <==> Covered(a.live, i) && !Covers(b, i)
      {
        CoveredWithout(boot, a, k, i);
      }
      assert forall j :: 0 <= j < |live| ==> live[j] == a.live[if j < k then j else j + 1];
    }
  }

  /** Every run of allocations and frees of live blocks keeps the accounts. */
  lemma {:induction false} RunAccounted(start: nat, boot: seq<bool>, qs: seq<Request>)
    requires start % PAGE_SIZE == 0
    ensures Accounted(boot, ServeAll(start, Allocator(boot, []), qs))
  {
    if qs == [] {
    } else {
      RunAccounted(start, boot, qs[..|qs| - 1]);
      var a := ServeAll(start, Allocator(boot, []), qs[..|qs| - 1]);
      match qs[|qs| - 1]
      case Take(n) => TakeAccounted(start, boot, a, n);
      case Drop(k) => DropAccounted(start, boot, a, k);
    }
  }
}

/** The physical memory manager: a static bitmap over one contiguous range of frames. */
module PhysicalMemory {
  import opened Options
  import opened PageBitmap
  import opened PageRuns

  const BITMAP_BYTES: nat := 8192
  const LOW_MEMORY: nat := 0x100000

  /** A memory-map entry handed over by the boot loader. */
  datatype Region = Region(base: nat, length: nat, usable: bool)

  predicate Candidate(r: Region) {
    r.usable && r.base >= LOW_MEMORY && r.length > 0
  }

  /** The range choice: the first of the longest usable regions above 1 MiB. */
  ghost predicate Chosen(regions: seq<Region>, start: nat, length: nat) {
    || (length == 0 && start == LOW_MEMORY && forall r :: r in regions ==> !Candidate(r))
    || (exists k :: 0 <= k < |regions| && Candidate(regions[k])
                    && start == regions[k].base && length == regions[k].length
                    && (forall j :: 0 <= j < |regions| && Candidate(regions[j]) ==>
                          regions[j].length < length || (regions[j].length == length && k <= j)))
  }

  method ChooseRange(regions: seq<Region>) returns (start: nat, length: nat)
    ensures Chosen(regions, start, length)
    ensures start >= LOW_MEMORY
  {
    start, length := LOW_MEMORY, 0;
    for i := 0 to |regions|
      invariant start >= LOW_MEMORY
      invariant Chosen(regions[..i], start, length)
    {
      var before := regions[..i];
      assert regions[..i + 1] == before + [regions[i]];
      var entry := regions[i];
      if entry.usable {
        if entry.length > length && entry.base >= LOW_MEMORY {
          assert Candidate(regions[..i + 1][i]);
          start, length := entry.base, entry.length;
        } else if length != 0 {
          var k :| 0 <= k < |before| && Candidate(before[k])
                   && start == before[k].base && length == before[k].length
                   && (forall j :: 0 <= j < |before| && Candidate(before[j]) ==>
                         before[j].length < length || (before[j].length == length && k <= j));
          assert Candidate(regions[..i + 1][k]);
        }
      } else if length != 0 {
        var k :| 0 <= k < |before| && Candidate(before[k])
                 && start == before[k].base && length == before[k].length
                 && (forall j :: 0 <= j < |before| && Candidate(before[j]) ==>
                       before[j].length < length || (before[j].length == length && k <= j));
        assert Candidate(regions[..i + 1][k]);
      }
    }
    assert regions[..|regions|] == regions;
  }

  /** The first page, and the number of pages, that reserving bytes `lo .. hi` marks when
      the marking loop steps from `lo` one page at a time. */
  function MarkedFirst(start: nat, lo: nat): nat
    requires start <= lo
  {
    (lo - start) / PAGE_SIZE
  }

  function MarkedCount(lo: nat, hi: nat): nat
    requires lo <= hi
  {
    (hi - lo + PAGE_SIZE - 1) / PAGE_SIZE
  }

  predicate Marks(start: nat, lo: nat, hi: nat, i: nat)
    requires start <= lo < hi
  {
    MarkedFirst(start, lo) <= i < MarkedFirst(start, lo) + MarkedCount(lo, hi)
  }

  /** Page `i` holds one of the bytes `lo .. hi`. */
  predicate Touches(start: nat, lo: nat, hi: nat, i: nat)
    requires start <= lo < hi
  {
    start + i * PAGE_SIZE < hi && lo < start + (i + 1) * PAGE_SIZE
  }

  /** The marked pages are exactly the pages the bytes touch if and only if the last byte
      is not carried into a further page by the offset of the first one. */
  lemma MarksTouchedPages(start: nat, lo: nat, hi: nat)
    requires start <= lo < hi
    ensures (forall i: nat :: Marks(start, lo, hi, i) <==> Touches(start, lo, hi, i))
            <==> (lo - start) % PAGE_SIZE + (hi - 1 - lo) % PAGE_SIZE < PAGE_SIZE
  {
    var last := (hi - 1 - start) / PAGE_SIZE;
    var a, b := lo - start, hi - 1 - lo;
    assert (a + b) / PAGE_SIZE == a / PAGE_SIZE + b / PAGE_SIZE + (a % PAGE_SIZE + b % PAGE_SIZE) / PAGE_SIZE;
    assert MarkedFirst(start, lo) + MarkedCount(lo, hi) - 1 == a / PAGE_SIZE + b / PAGE_SIZE;
    assert Touches(start, lo, hi, last);
    assert forall i: nat :: Touches(start, lo, hi, i) <==> a / PAGE_SIZE <= i <= last;
  }

  class Pmm {
    const kernelStart: nat
    const maxPages: nat
    const bitmap: array<bv8>
    var totalAllocations: nat
    var failedAllocations: nat

    ghost predicate Valid()
      reads this, bitmap
    {
      && maxPages <= 8 * bitmap.Length
      && kernelStart >= LOW_MEMORY
    }

    /** The abstract value: one boolean per managed page, true when used. */
    ghost function Bits(): (bits: seq<bool>)
      requires Valid()
      reads this, bitmap
      ensures |bits| == maxPages
    {
      Unpack(bitmap[..], maxPages)
    }

    /** The manager over a range chosen from the memory map, before any page is reserved. */
    constructor (start: nat, length: nat)
      requires start >= LOW_MEMORY
      ensures Valid() && fresh(bitmap)
      ensures kernelStart == start
      ensures maxPages * PAGE_SIZE <= length && maxPages <= 8 * BITMAP_BYTES
      ensures maxPages == 8 * BITMAP_BYTES || length < (maxPages + 1) * PAGE_SIZE
      ensures forall i :: 0 <= i < maxPages ==> !Bits()[i]
      ensures totalAllocations == 0 && failedAllocations == 0
    {
      kernelStart := start;
      var pages := 8 * BITMAP_BYTES;
      if pages * PAGE_SIZE > length {
        pages := length / PAGE_SIZE;
      }
      maxPages := pages;
      bitmap := new bv8[BITMAP_BYTES](_ => 0);
      totalAllocations, failedAllocations := 0, 0;
    }

    method IsUsed(i: nat) returns (used: bool)
      requires Valid() && i < maxPages
      ensures used == Bits()[i]
    {
      used := HasBit(bitmap[i / 8], i % 8);
    }

    method SetUsed(i: nat)
      requires Valid() && i < maxPages
      modifies bitmap
      ensures Bits() == old(Bits())[i := true]
    {
      SetBit(bitmap[..], maxPages, i);
      bitmap[i / 8] := WithBit(bitmap[i / 8], i % 8);
      assert bitmap[..] == old(bitmap[..])[i / 8 := WithBit(old(bitmap[i / 8]), i % 8)];
    }

    method SetFree(i: nat)
      requires Valid() && i < maxPages
      modifies bitmap
      ensures Bits() == old(Bits())[i := false]
    {
      hide Bit, Mask;
      ClearBit(bitmap[..], maxPages, i);
      bitmap[i / 8] := WithoutBit(bitmap[i / 8], i % 8);
      assert bitmap[..] == old(bitmap[..])[i / 8 := WithoutBit(old(bitmap[i / 8]), i % 8)];
    }

    /** Reserves the pages of one memory-map entry, clipped to the managed range. */
    method ReserveRegion(r: Region)
      requires Valid()
      modifies bitmap
      ensures var end := kernelStart + maxPages * PAGE_SIZE;
              var lo := if r.base < kernelStart then kernelStart else r.base;
              var hi := if r.base + r.length > end then end else r.base + r.length;
              Bits() == if r.usable || hi <= lo then old(Bits())
                        else Mark(old(Bits()), MarkedFirst(kernelStart, lo), MarkedCount(lo, hi), true)
    {
      var end := kernelStart + maxPages * PAGE_SIZE;
      if r.usable {
        return;
      }
      if r.base >= end || r.base + r.length <= kernelStart {
        return;
      }
      var lo, hi := r.base, r.base + r.length;
      if lo < kernelStart {
        lo := kernelStart;
      }
      if hi > end {
        hi := end;
      }
      var addr := lo;
      ghost var n := 0;
      ghost var first := MarkedFirst(kernelStart, lo);
      assert Mark(Bits(), first, 0, true) == Bits();
      while addr < hi
        invariant addr == lo + n * PAGE_SIZE && addr < hi + PAGE_SIZE
        invariant Bits() == Mark(old(Bits()), first, n, true)
      {
        var page := (addr - kernelStart) / PAGE_SIZE;
        assert page == first + n;
        SetUsed(page);
        assert Bits() == Mark(old(Bits()), first, n + 1, true);
        addr := addr + PAGE_SIZE;
        n := n + 1;
      }
      assert lo < hi ==> n == MarkedCount(lo, hi);
    }

    /** Reserves what `pmm_init` reserves besides the memory map: the first 256 pages. */
    method ReserveLowPages()
      requires Valid()
      modifies bitmap
      ensures Bits() == Mark(old(Bits()), 0, 256, true)
    {
      var i := 0;
      assert Mark(Bits(), 0, 0, true) == Bits();
      while i < 256 && i < maxPages
        invariant i <= 256 && i <= maxPages
        invariant Bits() == Mark(old(Bits()), 0, i, true)
      {
        SetUsed(i);
        i := i + 1;
        assert Bits() == Mark(old(Bits()), 0, i, true);
      }
      assert Mark(old(Bits()), 0, i, true) == Mark(old(Bits()), 0, 256, true);
    }

    /** Takes the lowest free page; 0 exactly when none is free. */
    method AllocPage() returns (page: nat)
      requires Valid()
      modifies this, bitmap
      ensures page == 0 <==> FirstRun(old(Bits()), 1).None?
      ensures page == 0 ==> Bits() == old(Bits())
                            && failedAllocations == old(failedAllocations) + 1
                            && totalAllocations == old(totalAllocations)
      ensures page != 0 ==> var s := FirstRun(old(Bits()), 1).value;
                            page == kernelStart + s * PAGE_SIZE
                            && Bits() == Mark(old(Bits()), s, 1, true)
                            && totalAllocations == old(totalAllocations) + 1
                            && failedAllocations == old(failedAllocations)
    {
      ghost var bits := Bits();
      var i := 0;
      while i < maxPages
        invariant i <= maxPages
        invariant Bits() == bits
        invariant totalAllocations == old(totalAllocations) && failedAllocations == old(failedAllocations)
        invariant forall t :: 0 <= t < i ==> bits[t]
      {
        var used := IsUsed(i);
        if !used {
          FirstFreeIs(bits, i);
          SetUsed(i);
          assert Bits() == Mark(bits, i, 1, true);
          totalAllocations := totalAllocations + 1;
          return kernelStart + i * PAGE_SIZE;
        }
        i := i + 1;
      }
      NoFirstFree(bits);
      failedAllocations := failedAllocations + 1;
      return 0;
    }

    /** Marks pages `s .. s + count` used. */
    method MarkUsed(s: nat, count: nat)
      requires Valid() && s + count <= maxPages
      modifies bitmap
      ensures Bits() == Mark(old(Bits()), s, count, true)
    {
      assert Mark(Bits(), s, 0, true) == Bits();
      for j := 0 to count
        invariant Bits() == Mark(old(Bits()), s, j, true)
      {
        SetUsed(s + j);
        assert Bits() == Mark(old(Bits()), s, j + 1, true);
      }
    }

    /** Takes the lowest-addressed run of `count` free pages, marking exactly those pages;
        0 exactly when `count` is 0 or no such run exists. */
    method AllocPages(count: nat) returns (page: nat)
      requires Valid()
      modifies this, bitmap
      ensures page == 0 <==> count == 0 || FirstRun(old(Bits()), count).None?
      ensures page == 0 ==> Bits() == old(Bits()) && totalAllocations == old(totalAllocations)
      ensures failedAllocations == old(failedAllocations) + if page == 0 && count > 0 then 1 else 0
      ensures page != 0 ==> var s := FirstRun(old(Bits()), count).value;
                            page == kernelStart + s * PAGE_SIZE
                            && Bits() == Mark(old(Bits()), s, count, true)
                            && totalAllocations == old(totalAllocations) + 1
    {
      hide Unpack, Bit, Mask;
      if count == 0 {
        return 0;
      }
      if count == 1 {
        page := AllocPage();
        return;
      }
      ghost var bits := Bits();
      var foundPages, startPage := 0, 0;
      var i := 0;
      while i < maxPages
        invariant i <= maxPages && foundPages < count && foundPages <= i
        invariant foundPages > 0 ==> startPage == i - foundPages
        invariant Bits() == bits
        invariant totalAllocations == old(totalAllocations) && failedAllocations == old(failedAllocations)
        invariant forall t :: i - foundPages <= t < i ==> !bits[t]
        invariant foundPages < i ==> bits[i - foundPages - 1]
        invariant NoRunBefore(bits, count, i)
      {
        var used := IsUsed(i);
        if !used {
          if foundPages == 0 {
            startPage := i;
          }
          foundPages := foundPages + 1;
          if foundPages == count {
            FirstRunIs(bits, count, startPage);
            MarkUsed(startPage, count);
            totalAllocations := totalAllocations + 1;
            return kernelStart + startPage * PAGE_SIZE;
          }
          if foundPages <= i {
            NoRunStep(bits, count, i, i - foundPages);
          }
        } else {
          NoRunStep(bits, count, i, i);
          foundPages := 0;
        }
        i := i + 1;
      }
      NoFirstRun(bits, count);
      failedAllocations := failedAllocations + 1;
      return 0;
    }

    /** Frees a page, or does nothing when the page is outside the range or unaligned. */
    method FreePage(page: nat)
      requires Valid()
      modifies bitmap
      ensures Bits() == FreeOne(kernelStart, old(Bits()), page)
    {
      if page < kernelStart || page >= kernelStart + maxPages * PAGE_SIZE || page % PAGE_SIZE != 0 {
        return;
      }
      SetFree((page - kernelStart) / PAGE_SIZE);
    }

    method FreePages(page: nat, count: nat)
      requires Valid()
      modifies bitmap
      ensures Bits() == FreeMany(kernelStart, old(Bits()), page, count)
    {
      for i := 0 to count
        invariant Bits() == FreeMany(kernelStart, old(Bits()), page, i)
      {
        FreePage(page + i * PAGE_SIZE);
      }
    }

    method IsPageFree(page: nat) returns (free: bool)
      requires Valid()
      ensures free <==> Accepts(kernelStart, Bits(), page) && !Bits()[(page - kernelStart) / PAGE_SIZE]
    {
      if page < kernelStart || page >= kernelStart + maxPages * PAGE_SIZE || page % PAGE_SIZE != 0 {
        return false;
      }
      var used := IsUsed((page - kernelStart) / PAGE_SIZE);
      return !used;
    }

    method FreeMemory() returns (bytes: nat)
      requires Valid()
      ensures bytes == Count(Bits(), false) * PAGE_SIZE
    {
      var n := CountPages(false);
      bytes := n * PAGE_SIZE;
    }

    method UsedMemory() returns (bytes: nat)
      requires Valid()
      ensures bytes == Count(Bits(), true) * PAGE_SIZE
    {
      var n := CountPages(true);
      bytes := n * PAGE_SIZE;
    }

    method CountPages(v: bool) returns (n: nat)
      requires Valid()
      ensures n == Count(Bits(), v)
    {
      n := 0;
      for i := 0 to maxPages
        invariant n == Count(Bits()[..i], v)
      {
        assert Bits()[..i + 1][..i] == Bits()[..i];
        var used := IsUsed(i);
        if used == v {
          n := n + 1;
        }
      }
      assert Bits()[..maxPages] == Bits();
    }
  }
}
