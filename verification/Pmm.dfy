/** Machine words shared by the memory modules. */
module Machine {
  const U64_LIMIT: nat := 0x1_0000_0000_0000_0000
  const PAGE_SIZE: nat := 4096

  type u64 = x: int | 0 <= x < U64_LIMIT

  /** Unsigned 64-bit wrap-around. */
  function Wrap(x: nat): u64 {
    x % U64_LIMIT
  }
}

/** The physical page allocator of kernel/src/mm/pmm.c over the packed bitmap. */
module Pmms {
  import opened Machine
  import opened Bitmaps

  const BITMAP_MAX_SIZE: nat := 128 * 1024
  const BITMAP_MAX_BITS: nat := BITMAP_MAX_SIZE * 8

  datatype RegionKind = Usable | BootloaderReclaimable | ExecutableAndModules | Framebuffer | OtherKind

  datatype Region = Region(base: u64, length: u64, kind: RegionKind)

  /** `pmm_region_page_count`, with the wrap-around of `length + 4095`. */
  function RegionPageCount(length: u64): nat {
    if length == 0 then 0 else Wrap(length + PAGE_SIZE - 1) / PAGE_SIZE
  }

  /** The page interval that the code attributes to a region. */
  predicate InRegion(page: nat, base: u64, length: u64) {
    base / PAGE_SIZE <= page < base / PAGE_SIZE + RegionPageCount(length)
  }

  /** The page lies in one of the first `n` regions of this kind. */
  ghost predicate InKind(regions: seq<Region>, n: nat, kind: RegionKind, page: nat)
    requires n <= |regions|
  {
    n > 0 && (InKind(regions, n - 1, kind, page) || HitsRegion(regions[n - 1], kind, page))
  }

  predicate HitsRegion(region: Region, kind: RegionKind, page: nat) {
    region.kind == kind && InRegion(page, region.base, region.length)
  }

  datatype Kernel = NoKernel | KernelAt(base: u64, size: u64)

  ghost predicate Reserved(regions: seq<Region>, kernel: Kernel, page: nat) {
    || (kernel.KernelAt? && InRegion(page, kernel.base, kernel.size))
    || InKind(regions, |regions|, BootloaderReclaimable, page)
    || InKind(regions, |regions|, ExecutableAndModules, page)
    || InKind(regions, |regions|, Framebuffer, page)
  }

  /** The end of the highest usable region among the first `n`, with its wrap-around. */
  function HighestUsable(regions: seq<Region>, n: nat): u64
    requires n <= |regions|
  {
    if n == 0 then 0 else
      var rest := HighestUsable(regions, n - 1);
      var end := Wrap(regions[n - 1].base + regions[n - 1].length);
      if regions[n - 1].kind == Usable && end > rest then end else rest
  }

  function TotalPages(regions: seq<Region>): nat {
    Wrap(HighestUsable(regions, |regions|) + PAGE_SIZE - 1) / PAGE_SIZE
  }

  ghost predicate NoWrap(regions: seq<Region>) {
    forall i :: 0 <= i < |regions| && regions[i].kind == Usable ==>
      regions[i].base + regions[i].length + PAGE_SIZE <= U64_LIMIT
  }

  /** A region that does not wrap lies wholly below the page count that pmm_init derives,
      so the clamp of pmm_mark_usable drops nothing. */
  lemma {:induction false} UsableBelowTotal(regions: seq<Region>, n: nat, page: nat)
    requires NoWrap(regions) && n <= |regions|
    requires InKind(regions, n, Usable, page)
    ensures page * PAGE_SIZE < HighestUsable(regions, n) <= U64_LIMIT - PAGE_SIZE
  {
    var last := regions[n - 1];
    HighestBounded(regions, n - 1);
    if HitsRegion(last, Usable, page) {
      assert last.base + last.length + PAGE_SIZE <= U64_LIMIT;
    } else {
      UsableBelowTotal(regions, n - 1, page);
    }
  }

  lemma {:induction false} HighestBounded(regions: seq<Region>, n: nat)
    requires NoWrap(regions) && n <= |regions|
    ensures HighestUsable(regions, n) <= U64_LIMIT - PAGE_SIZE
  {
    if n > 0 {
      HighestBounded(regions, n - 1);
    }
  }

  /** On a memory map that does not wrap, the page limit adds nothing to InKind. */
  lemma UsableFits(regions: seq<Region>, page: nat)
    requires NoWrap(regions) && InKind(regions, |regions|, Usable, page)
    ensures page < TotalPages(regions)
  {
    UsableBelowTotal(regions, |regions|, page);
  }

  // ----- regions in bytes -----

  /** Some byte of the region lies in the page. */
  ghost predicate Touched(page: nat, base: nat, length: nat) {
    exists a: nat :: InPage(a, page) && base <= a < base + length
  }

  predicate InPage(a: nat, page: nat) {
    a / 4096 == page
  }

  /** The region reaches into one page more than its length alone fills. */
  predicate Overhangs(base: nat, length: nat) {
    length > 0 && base % 4096 + (length - 1) % 4096 >= 4096
  }

  lemma TouchedPages(page: nat, base: nat, length: nat)
    ensures Touched(page, base, length) <==> length > 0 && base / 4096 <= page <= (base + length - 1) / 4096
  {
    if length > 0 && base / 4096 <= page <= (base + length - 1) / 4096 {
      var a := if base > page * 4096 then base else page * 4096;
      assert InPage(a, page) && base <= a < base + length;
    }
  }

  /** The pages that the code attributes to a region of known length are those with a byte of it, except that
      the last one is missed exactly when the region overhangs. */
  lemma RegionExact(page: nat, base: u64, length: u64)
    requires length + 4095 < U64_LIMIT
    ensures InRegion(page, base, length) <==>
            Touched(page, base, length) && !(Overhangs(base, length) && page == (base + length - 1) / 4096)
  {
    TouchedPages(page, base, length);
    if length > 0 {
      LastPage(base, length);
    }
  }

  lemma LastPage(base: nat, length: nat)
    requires length > 0
    ensures (length + 4095) / 4096 == (length - 1) / 4096 + 1
    ensures (base + length - 1) / 4096 == base / 4096 + (length - 1) / 4096 + if Overhangs(base, length) then 1 else 0
  {
    assert base == base / 4096 * 4096 + base % 4096;
    assert length - 1 == (length - 1) / 4096 * 4096 + (length - 1) % 4096;
  }

  /** From an aligned base the code finds every page with a byte of the region, and no other. */
  lemma RegionAligned(page: nat, base: u64, length: u64)
    requires length + 4095 < U64_LIMIT && base % 4096 == 0
    ensures InRegion(page, base, length) <==> Touched(page, base, length)
  {
    RegionExact(page, base, length);
  }

  /** For any base, every byte of the region is in one of its pages exactly when it does not overhang. */
  lemma RegionCovers(base: u64, length: u64)
    requires length + 4095 < U64_LIMIT
    ensures (forall a: nat :: base <= a < base + length ==> InRegion(a / 4096, base, length)) <==>
            !Overhangs(base, length)
  {
    if Overhangs(base, length) {
      var a := base + length - 1;
      RegionExact(a / 4096, base, length);
      assert base <= a < base + length && !InRegion(a / 4096, base, length);
    }
    forall a: nat | !Overhangs(base, length) && base <= a < base + length
      ensures InRegion(a / 4096, base, length)
    {
      RegionExact(a / 4096, base, length);
      assert InPage(a, a / 4096);
    }
  }

  /** The page has a byte of one of the regions of this kind. */
  ghost predicate TouchesKind(regions: seq<Region>, kind: RegionKind, page: nat) {
    exists i :: 0 <= i < |regions| && regions[i].kind == kind && Touched(page, regions[i].base, regions[i].length)
  }

  /** Regions start on pages, and end below the last page of the address space. */
  ghost predicate AlignedMap(regions: seq<Region>) {
    forall i :: 0 <= i < |regions| ==> AlignedRegion(regions[i])
  }

  predicate AlignedRegion(r: Region) {
    r.base % 4096 == 0 && r.base + r.length + 4096 <= U64_LIMIT
  }

  lemma {:induction false} KindInBytes(regions: seq<Region>, n: nat, kind: RegionKind, page: nat)
    requires AlignedMap(regions) && n <= |regions|
    ensures InKind(regions, n, kind, page) <==> TouchesKind(regions[..n], kind, page)
  {
    hide Touched, InRegion;
    if n > 0 {
      KindInBytes(regions, n - 1, kind, page);
      assert AlignedRegion(regions[n - 1]);
      RegionAligned(page, regions[n - 1].base, regions[n - 1].length);
      var whole, rest := regions[..n], regions[..n - 1];
      assert forall i :: 0 <= i < n - 1 ==> whole[i] == rest[i];
      if TouchesKind(rest, kind, page) {
        var i :| 0 <= i < |rest| && rest[i].kind == kind && Touched(page, rest[i].base, rest[i].length);
        assert whole[i] == rest[i];
      }
      if HitsRegion(regions[n - 1], kind, page) {
        assert whole[n - 1] == regions[n - 1];
      }
    }
  }

  /** What pmm_init leaves free, in bytes: the non-zero pages with a byte of usable memory and no byte of the
      kernel or of a reserved region. */
  ghost predicate FreeInBytes(regions: seq<Region>, kernel: Kernel, page: nat) {
    && page != 0 && TouchesKind(regions, Usable, page)
    && !(kernel.KernelAt? && Touched(page, kernel.base, kernel.size))
    && !TouchesKind(regions, BootloaderReclaimable, page)
    && !TouchesKind(regions, ExecutableAndModules, page) && !TouchesKind(regions, Framebuffer, page)
  }

  lemma InitInBytes(regions: seq<Region>, kernel: Kernel, page: nat)
    requires AlignedMap(regions)
    requires kernel.KernelAt? ==> kernel.base % 4096 == 0 && kernel.size + 4095 < U64_LIMIT
    ensures FreeInBytes(regions, kernel, page) <==>
            && 0 < page < TotalPages(regions) && InKind(regions, |regions|, Usable, page)
            && !Reserved(regions, kernel, page)
  {
    hide TouchesKind, Touched, InKind, TotalPages, InRegion;
    assert regions[..|regions|] == regions;
    KindInBytes(regions, |regions|, Usable, page);
    KindInBytes(regions, |regions|, BootloaderReclaimable, page);
    KindInBytes(regions, |regions|, ExecutableAndModules, page);
    KindInBytes(regions, |regions|, Framebuffer, page);
    if kernel.KernelAt? {
      RegionAligned(page, kernel.base, kernel.size);
    }
    assert forall i :: 0 <= i < |regions| ==> AlignedRegion(regions[i]);
    if InKind(regions, |regions|, Usable, page) {
      UsableFits(regions, page);
    }
  }

  /** The page count that pmm_init derives is the least that covers every usable region. */
  lemma TotalPagesTight(regions: seq<Region>)
    requires NoWrap(regions)
    ensures forall i :: 0 <= i < |regions| && regions[i].kind == Usable ==>
              regions[i].base + regions[i].length <= TotalPages(regions) * 4096
    ensures TotalPages(regions) > 0 ==>
              exists i :: 0 <= i < |regions| && regions[i].kind == Usable
                          && regions[i].base + regions[i].length > (TotalPages(regions) - 1) * 4096
  {
    hide HighestUsable;
    var h := HighestUsable(regions, |regions|);
    HighestIsMaximum(regions, |regions|);
    HighestBounded(regions, |regions|);
    assert h <= TotalPages(regions) * 4096 < h + 4096;
  }

  lemma {:induction false} HighestIsMaximum(regions: seq<Region>, n: nat)
    requires NoWrap(regions) && n <= |regions|
    ensures var h := HighestUsable(regions, n);
            && (forall i :: 0 <= i < n && regions[i].kind == Usable ==> regions[i].base + regions[i].length <= h)
            && (h > 0 ==> exists i :: 0 <= i < n && regions[i].kind == Usable
                                      && regions[i].base + regions[i].length == h)
  {
    if n > 0 {
      HighestIsMaximum(regions, n - 1);
    }
  }

  /** Splitting a set by membership in another splits its size. */
  lemma CardinalitySplit(whole: set<nat>, part: set<nat>)
    requires part <= whole
    ensures |part| + |whole - part| == |whole|
  {
    assert whole == part + (whole - part);
  }

  lemma TakeCounts(usable: set<nat>, free: set<nat>, page: nat)
    requires page in free
    ensures |free - {page}| == |free| - 1
    ensures page in usable ==> |usable - (free - {page})| == |usable - free| + 1
  {
    assert page in usable ==> usable - (free - {page}) == (usable - free) + {page};
  }

  lemma ReleaseCounts(usable: set<nat>, free: set<nat>, page: nat)
    requires page !in free
    ensures |free + {page}| == |free| + 1
    ensures page in usable ==> |usable - (free + {page})| == |usable - free| - 1
  {
    assert page in usable ==> usable - free == (usable - (free + {page})) + {page};
  }

  class Pmm {
    const bitmap: Bitmap
    var totalPages: nat
    var freePages: nat
    var usedPages: nat
    var nextFree: nat
    /** The non-zero pages of usable regions, fixed by Init. */
    ghost var usable: set<nat>

    constructor ()
      ensures Valid() && Free() == {} && fresh(bitmap) && fresh(bitmap.buffer)
    {
      bitmap := new Bitmap(BITMAP_MAX_SIZE);
      totalPages, freePages, usedPages, nextFree, usable := 0, 0, 0, 0, {};
    }

    /** The pages whose bit is clear. */
    ghost function Free(): set<nat>
      reads this, bitmap
    {
      bitmap.clear
    }

    ghost predicate Base()
      reads this, bitmap, bitmap.buffer
    {
      && bitmap.Valid() && bitmap.buffer.Length == BITMAP_MAX_SIZE
      && bitmap.bits == totalPages && nextFree <= totalPages && 0 !in Free()
    }

    ghost predicate CountExact()
      reads this, bitmap
    {
      freePages == |Free()|
    }

    /** Nothing below the search hint is free. */
    ghost predicate HintSound()
      reads this, bitmap
    {
      forall p :: p in Free() ==> nextFree <= p
    }

    ghost predicate Valid()
      reads this, bitmap, bitmap.buffer
    {
      Base() && CountExact() && HintSound()
    }

    /** `usedPages` counts exactly the usable pages that are taken, and only usable pages are free. */
    ghost predicate Accounted()
      reads this, bitmap
    {
      Free() <= usable && usedPages == |usable - Free()|
    }

    /** Conservation: free and used pages always add up to the usable ones. */
    lemma Conservation()
      requires Valid() && Accounted()
      ensures freePages + usedPages == |usable|
    {
      CardinalitySplit(usable, Free());
    }

    function ClampPageCount(start: nat, count: nat): nat
      reads this
    {
      if start >= totalPages then 0
      else if count > totalPages - start then totalPages - start else count
    }

    method MarkUsed(page: nat)
      requires Base()
      modifies this`freePages, this`usedPages, bitmap`clear, bitmap.buffer
      ensures Base() && Free() == old(Free()) - {page}
      ensures old(CountExact()) ==> CountExact()
      ensures old(HintSound()) ==> HintSound()
      ensures old(Accounted()) ==> Accounted()
    {
      hide Bitmap.Valid;
      bitmap.ClearBelow();
      if page >= totalPages { return; }
      var marked := bitmap.Test(page);
      if marked { return; }
      bitmap.Set(page);
      TakeCounts(usable, old(Free()), page);
      if freePages > 0 {
        freePages := freePages - 1;
      }
      usedPages := usedPages + 1;
    }

    method MarkFree(page: nat)
      requires Base()
      modifies this`freePages, this`usedPages, this`nextFree, bitmap`clear, bitmap.buffer
      ensures Base() && Free() == if 0 < page < totalPages then old(Free()) + {page} else old(Free())
      ensures old(CountExact()) ==> CountExact()
      ensures old(HintSound()) ==> HintSound()
      ensures old(Accounted()) && (0 < page < totalPages ==> page in usable) ==> Accounted()
      ensures old(nextFree) == 0 ==> nextFree == 0
      ensures old(usedPages) == 0 ==> usedPages == 0
    {
      hide Bitmap.Valid;
      if page == 0 || page >= totalPages { return; }
      var marked := bitmap.Test(page);
      if !marked { return; }
      bitmap.Clear(page);
      ReleaseCounts(usable, old(Free()), page);
      freePages := freePages + 1;
      if usedPages > 0 {
        usedPages := usedPages - 1;
      }
      if page < nextFree {
        nextFree := page;
      }
    }

    /** `pmm_reserve_region`: takes exactly the pages of the region. */
    method ReserveRegion(base: u64, length: u64)
      requires Base()
      modifies this`freePages, this`usedPages, bitmap`clear, bitmap.buffer
      ensures Base()
      ensures forall p :: p in Free() <==> p in old(Free()) && !InRegion(p, base, length)
      ensures old(CountExact()) ==> CountExact()
      ensures old(HintSound()) ==> HintSound()
      ensures old(Accounted()) ==> Accounted()
    {
      var start := base / PAGE_SIZE;
      var count := ClampPageCount(start, RegionPageCount(length));
      for page := start to start + count
        invariant Base()
        invariant forall p :: p in Free() <==> p in old(Free()) && !(start <= p < page)
        invariant old(CountExact()) ==> CountExact()
        invariant old(HintSound()) ==> HintSound()
        invariant old(Accounted()) ==> Accounted()
      {
        MarkUsed(page);
      }
    }

    /** `pmm_unreserve_region`: releases exactly the existing non-zero pages of the region. */
    method UnreserveRegion(base: u64, length: u64)
      requires Base()
      modifies this`freePages, this`usedPages, this`nextFree, bitmap`clear, bitmap.buffer
      ensures Base()
      ensures forall p: nat :: p in Free() <==> p in old(Free()) || (0 < p < totalPages && InRegion(p, base, length))
      ensures old(CountExact()) ==> CountExact()
      ensures old(HintSound()) ==> HintSound()
      ensures old(nextFree) == 0 ==> nextFree == 0
      ensures old(usedPages) == 0 ==> usedPages == 0
      ensures old(Accounted()) && (forall p: nat :: 0 < p < totalPages && InRegion(p, base, length) ==> p in usable)
        ==> Accounted()
    {
      hide Bitmap.Valid;
      var start := base / PAGE_SIZE;
      var count := ClampPageCount(start, RegionPageCount(length));
      ghost var inside := forall p: nat :: 0 < p < totalPages && InRegion(p, base, length) ==> p in usable;
      ghost var accounted := old(Accounted()) && inside;
      for page := start to start + count
        invariant Base()
        invariant forall p: nat :: p in Free() <==> p in old(Free()) || (0 < p < totalPages && start <= p < page)
        invariant old(CountExact()) ==> CountExact()
        invariant old(HintSound()) ==> HintSound()
        invariant old(nextFree) == 0 ==> nextFree == 0
        invariant old(usedPages) == 0 ==> usedPages == 0
        invariant accounted ==> Accounted()
      {
        MarkFree(page);
      }
    }

    /** The lowest clear bit of [begin, end), if any: the inner loop of pmm_alloc_page. */
    method Scan(begin: nat, end: nat) returns (found: bool, page: nat)
      requires Base() && begin <= end <= totalPages
      ensures found ==> begin <= page < end && page in Free()
      ensures forall p :: begin <= p < (if found then page else end) ==> p !in Free()
    {
      page := begin;
      while page < end
        invariant begin <= page <= end
        invariant forall p :: begin <= p < page ==> p !in Free()
      {
        var marked := bitmap.Test(page);
        if !marked {
          return true, page;
        }
        page := page + 1;
      }
      found := false;
    }

    /** `pmm_seek_next_free_page` */
    method SeekNextFree()
      requires Base()
      modifies this`nextFree
      ensures Base() && nextFree >= old(nextFree)
      ensures forall p :: old(nextFree) <= p < nextFree ==> p !in Free()
      ensures nextFree < totalPages ==> nextFree in Free()
    {
      var marked := bitmap.Test(nextFree);
      while nextFree < totalPages && marked
        invariant marked <==> nextFree !in Free()
        invariant Base() && nextFree >= old(nextFree)
        invariant forall p :: old(nextFree) <= p < nextFree ==> p !in Free()
      {
        nextFree := nextFree + 1;
        marked := bitmap.Test(nextFree);
      }
    }

    /** The search of pmm_alloc_page, up to the test that finds a clear bit: pmm.c:208-221. */
    method FindFree() returns (found: bool, page: nat)
      requires Base()
      ensures found ==> page in Free()
      ensures found && page >= nextFree ==> forall p :: nextFree <= p < page ==> p !in Free()
      ensures found && page < nextFree ==> forall p :: p in Free() ==> page <= p < nextFree
      ensures Valid() ==> (found <==> Free() != {})
      ensures found && Valid() ==> forall p :: p in Free() ==> page <= p
    {
      hide Bitmap.Valid, HintSound;
      bitmap.ClearBelow();
      page := 0;
      if freePages == 0 {
        Exhausted();
        return false, 0;
      }
      var start := nextFree;
      found, page := Scan(start, totalPages);
      if !found {
        found, page := Scan(0, start);
      }
      if found {
        FirstPassFinds(start, page);
      }
    }

    /** `pmm_alloc_page` from any hint. The result is a page number; 0 stands for NULL.
        With the invariants of Valid the two-pass search is the plain lowest-Free() scan. */
    method AllocPage() returns (page: nat)
      requires Base()
      modifies this`freePages, this`usedPages, this`nextFree, bitmap`clear, bitmap.buffer
      ensures Base()
      ensures Free() == old(Free()) - {page}
      ensures page != 0 ==> page in old(Free())
      ensures page != 0 && page >= old(nextFree) ==> forall p :: old(nextFree) <= p < page ==> p !in old(Free())
      ensures page != 0 && page < old(nextFree) ==>
                forall p :: p in old(Free()) ==> page <= p < old(nextFree)
      ensures old(Accounted()) ==> Accounted()
      ensures old(Valid()) ==> Valid()
      ensures old(Valid()) ==> (page == 0 <==> old(Free()) == {})
      ensures old(Valid()) ==> forall p :: p in old(Free()) ==> page <= p
    {
      hide Bitmap.Valid, HintSound, Accounted;
      bitmap.ClearBelow();
      var found;
      found, page := FindFree();
      if !found {
        return 0;
      }
      Claim(page);
    }

    /** pmm_alloc_page takes no lock. If a tick between its last bitmap_test and its bitmap_set lets another
        task call it, both get the same page, and it is counted once. */
    method AllocPageInterrupted() returns (page: nat, other: nat)
      requires Valid() && Free() != {}
      modifies this`freePages, this`usedPages, this`nextFree, bitmap`clear, bitmap.buffer
      ensures page == other && page in old(Free()) && Free() == old(Free()) - {page}
      ensures Valid() && (old(Accounted()) ==> Accounted())
    {
      hide Bitmap.Valid, HintSound, Accounted;
      bitmap.ClearBelow();
      var found;
      found, page := FindFree();
      other := AllocPage();
      Claim(page);
    }

    lemma Exhausted()
      ensures CountExact() && freePages == 0 ==> Free() == {}
    {
    }

    lemma FirstPassFinds(start: nat, page: nat)
      requires page in Free() && start == nextFree
      requires page >= start ==> forall p :: start <= p < page ==> p !in Free()
      ensures HintSound() ==> forall p :: p in Free() ==> page <= p
    {
    }

    /** The bookkeeping of a successful pmm_alloc_page: pmm.c:222-230. */
    method Claim(page: nat)
      requires Base() && page < totalPages
      modifies this`freePages, this`usedPages, this`nextFree, bitmap`clear, bitmap.buffer
      ensures Base() && Free() == old(Free()) - {page}
      ensures old(CountExact()) ==> CountExact()
      ensures old(Accounted()) ==> Accounted()
      ensures (forall p :: p in old(Free()) ==> page <= p) ==> HintSound()
    {
      hide Bitmap.Valid;
      bitmap.ClearBelow();
      MarkUsed(page);
      nextFree := page + 1;
      if nextFree >= totalPages {
        nextFree := 0;
      }
      SeekNextFree();
    }

    /** Under the invariants the second pass of pmm_alloc_page has nothing to find. */
    lemma SecondPassEmpty(page: nat)
      requires Valid()
      ensures page < nextFree ==> page !in Free()
      ensures freePages > 0 ==> exists p :: nextFree <= p < totalPages && p in Free()
    {
      if freePages > 0 {
        var p :| p in Free();
        assert nextFree <= p < totalPages && p in Free();
      }
    }

    /** `pmm_free_page`, `pmm_unlock_page` on a page number. */
    method FreePage(page: nat)
      requires Valid()
      modifies this`freePages, this`usedPages, this`nextFree, bitmap`clear, bitmap.buffer
      ensures Valid() && Free() == if 0 < page < totalPages then old(Free()) + {page} else old(Free())
      ensures old(Accounted()) && page in usable ==> Accounted()
    {
      MarkFree(page);
    }

    /** `pmm_mark_usable` */
    method MarkUsable(regions: seq<Region>)
      requires Valid() && Free() == {} && usedPages == 0 && nextFree == 0
      modifies this`freePages, this`usedPages, this`nextFree, bitmap`clear, bitmap.buffer
      ensures Valid() && usedPages == 0 && nextFree == 0
      ensures forall p: nat :: p in Free() <==> 0 < p < totalPages && InKind(regions, |regions|, Usable, p)
    {
      for i := 0 to |regions|
        invariant Valid() && usedPages == 0 && nextFree == 0
        invariant forall p: nat :: p in Free() <==> 0 < p < totalPages && InKind(regions, i, Usable, p)
      {
        if regions[i].kind == Usable {
          UnreserveRegion(regions[i].base, regions[i].length);
        }
      }
    }

    /** `pmm_reserve_memmap_type` */
    method ReserveKind(regions: seq<Region>, kind: RegionKind)
      requires Valid()
      modifies this`freePages, this`usedPages, bitmap`clear, bitmap.buffer
      ensures Valid()
      ensures forall p :: p in Free() <==> p in old(Free()) && !InKind(regions, |regions|, kind, p)
      ensures old(Accounted()) ==> Accounted()
    {
      for i := 0 to |regions|
        invariant Valid()
        invariant forall p :: p in Free() <==> p in old(Free()) && !InKind(regions, i, kind, p)
        invariant old(Accounted()) ==> Accounted()
      {
        if regions[i].kind == kind {
          ReserveRegion(regions[i].base, regions[i].length);
        }
      }
    }

    /** The reservations that pmm_init makes on top of the usable regions. */
    method ReserveAll(regions: seq<Region>, kernel: Kernel)
      requires Valid()
      modifies this`freePages, this`usedPages, bitmap`clear, bitmap.buffer
      ensures Valid()
      ensures forall p :: p in Free() <==> p in old(Free()) && !Reserved(regions, kernel, p)
      ensures old(Accounted()) ==> Accounted()
    {
      hide Bitmap.Valid, CountExact, HintSound, Accounted, InKind;
      ReserveRegion(0, PAGE_SIZE);
      if kernel.KernelAt? {
        ReserveRegion(kernel.base, kernel.size);
      }
      ReserveKind(regions, BootloaderReclaimable);
      ReserveKind(regions, ExecutableAndModules);
      ReserveKind(regions, Framebuffer);
    }

    /** The scan of pmm_init for the end of the highest usable region. */
    method FindHighest(regions: seq<Region>) returns (highest: u64)
      ensures highest == HighestUsable(regions, |regions|)
    {
      highest := 0;
      for i := 0 to |regions|
        invariant highest == HighestUsable(regions, i)
      {
        var end := Wrap(regions[i].base + regions[i].length);
        if regions[i].kind == Usable && end > highest {
          highest := end;
        }
      }
    }

    /** `pmm_init`. A page is free afterwards exactly when it is a non-zero page of a usable region
        and of no reserved one; the counters are exact from then on. */
    method Init(regions: seq<Region>, kernel: Kernel) returns (ok: bool)
      requires bitmap.buffer.Length == BITMAP_MAX_SIZE
      modifies this, bitmap, bitmap.buffer
      ensures ok <==> TotalPages(regions) <= BITMAP_MAX_BITS
      ensures totalPages == TotalPages(regions)
      ensures !ok ==> freePages == 0
      ensures ok ==> Valid() && Accounted()
      ensures ok ==> forall p: nat :: p in Free() <==>
                0 < p < totalPages && InKind(regions, |regions|, Usable, p) && !Reserved(regions, kernel, p)
      ensures ok ==> forall p: nat :: p in usable <==> 0 < p < totalPages && InKind(regions, |regions|, Usable, p)
      ensures ok && AlignedMap(regions)
              && (kernel.KernelAt? ==> kernel.base % 4096 == 0 && kernel.size + 4095 < U64_LIMIT) ==>
                forall p: nat :: p in Free() <==> FreeInBytes(regions, kernel, p)
    {
      hide Bitmap.Valid, InKind, Reserved, HighestUsable, AlignedMap, FreeInBytes;
      freePages, usedPages, nextFree := 0, 0, 0;
      var highest := FindHighest(regions);
      totalPages := Wrap(highest + PAGE_SIZE - 1) / PAGE_SIZE;
      if (totalPages + 7) / 8 > BITMAP_MAX_SIZE || totalPages > BITMAP_MAX_BITS {
        return false;
      }
      bitmap.Init(totalPages);
      Populate(regions, kernel);
      if AlignedMap(regions) && (kernel.KernelAt? ==> kernel.base % 4096 == 0 && kernel.size + 4095 < U64_LIMIT) {
        forall p: nat ensures p in Free() <==> FreeInBytes(regions, kernel, p) {
          InitInBytes(regions, kernel, p);
        }
      }
      return true;
    }

    /** The accounting part of pmm_init: pmm.c:311-331. */
    method Populate(regions: seq<Region>, kernel: Kernel)
      requires Base() && Free() == {} && freePages == usedPages == nextFree == 0
      modifies this`freePages, this`usedPages, this`nextFree, this`usable, bitmap`clear, bitmap.buffer
      ensures Valid() && Accounted()
      ensures forall p: nat :: p in Free() <==>
                0 < p < totalPages && InKind(regions, |regions|, Usable, p) && !Reserved(regions, kernel, p)
      ensures forall p: nat :: p in usable <==> 0 < p < totalPages && InKind(regions, |regions|, Usable, p)
    {
      hide Bitmap.Valid, InKind, Reserved;
      MarkUsable(regions);
      usable := Free();
      assert usable - Free() == {};
      ReserveAll(regions, kernel);
      SeekNextFree();
    }
  }
}
