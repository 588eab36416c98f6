/** The flat ELF loader of kernel/src/elf: validation, the bounds scan and the copy into one heap block. */
module Elfs {
  import opened Machine
  import opened PageTables
  import opened HeapBlocks
  import opened HeapPages
  import opened HeapLinks
  import opened Heaps

  datatype Status = Success | Invalid | NoMemory

  const PT_LOAD: nat := 1
  const PF_W: bv32 := 2

  /** A program header. */
  datatype Segment = Segment(kind: nat, flags: bv32, offset: u64, vaddr: u64, filesz: u64, memsz: u64)

  datatype Header = Header(ident: seq<u8>, kind: nat, machine: nat, version: nat, entry: u64)

  /** An ELF file: its header and program headers as read from it, and all its bytes. */
  datatype ElfFile = ElfFile(header: Header, segments: seq<Segment>, bytes: seq<u8>)

  /** `elf_validate` */
  predicate Accepted(h: Header) {
    && |h.ident| == 16 && h.ident[..4] == [0x7F, 0x45, 0x4C, 0x46] && h.ident[4] == 2 && h.ident[5] == 1
    && h.version == 1 && h.kind == 2 && h.machine == 62
  }

  /** Exactly the headers of version 1 that name a 64-bit little-endian executable for x86-64, in the numbers
      of the System V gABI, chapter 4, and its AMD64 supplement; the other identification bytes are free. */
  lemma AcceptedExactly(h: Header)
    ensures Accepted(h) <==>
            && |h.ident| == 16 && h.ident[0] == 0x7F && h.ident[1..4] == [0x45, 0x4C, 0x46]
            && h.ident[4] == 2 && h.ident[5] == 1 && h.version == 1 && h.kind == 2 && h.machine == 62
  {
    if |h.ident| == 16 {
      assert h.ident[..4] == [h.ident[0]] + h.ident[1..4];
    }
  }

  predicate Loads(file: ElfFile, k: int) {
    0 <= k < |file.segments| && file.segments[k].kind == PT_LOAD
  }

  /** What the flat loader relies on for one segment: file contents inside the file, and an end that does
      not wrap. */
  predicate Fits(seg: Segment, bytes: seq<u8>) {
    seg.offset + seg.filesz <= |bytes| && seg.vaddr + seg.memsz < U64_LIMIT
  }

  /** The byte that the System V gABI, chapter 5, "Program Header", puts at offset `j` of a segment: the
      file's bytes first, then zeros. */
  function SegmentByte(seg: Segment, bytes: seq<u8>, j: nat): u8
    requires Fits(seg, bytes)
  {
    if j < seg.filesz then bytes[seg.offset + j] else 0
  }

  ghost predicate AllFit(file: ElfFile) {
    forall k :: Loads(file, k) ==> Fits(file.segments[k], file.bytes)
  }

  /** The highest end of the first `n` loaded segments. */
  function HighestEnd(file: ElfFile, n: nat): nat
    requires n <= |file.segments|
  {
    if n == 0 then 0 else
    var rest := HighestEnd(file, n - 1);
    var end := file.segments[n - 1].vaddr + file.segments[n - 1].memsz;
    if Loads(file, n - 1) && end > rest then end else rest
  }

  /** The image fits its block: its size can be rounded up, and no file contents reach past the highest end,
      which is where the image ends. */
  ghost predicate InsideImage(file: ElfFile) {
    && NoWideSpan(file)
    && forall k :: Loads(file, k) ==>
         file.segments[k].vaddr + file.segments[k].filesz <= HighestEnd(file, |file.segments|)
  }

  /** No segment ends 2^64 - 15 bytes or more above the start of another. */
  ghost predicate NoWideSpan(file: ElfFile) {
    forall k, l :: Loads(file, k) && Loads(file, l) ==>
      file.segments[k].vaddr + file.segments[k].memsz - file.segments[l].vaddr + ALIGNMENT <= U64_LIMIT
  }

  /** The bytes that placing the segment writes. */
  predicate Covers(seg: Segment, a: nat) {
    seg.vaddr <= a < seg.vaddr + seg.filesz || seg.vaddr <= a < seg.vaddr + seg.memsz
  }

  /** The last of the first `n` segments that writes the address, or -1. */
  function Writer(file: ElfFile, n: nat, a: nat): (k: int)
    requires n <= |file.segments|
    ensures -1 <= k < n && (k >= 0 ==> Loads(file, k) && Covers(file.segments[k], a))
    ensures forall l :: k < l < n && Loads(file, l) ==> !Covers(file.segments[l], a)
  {
    if n == 0 then -1
    else if Loads(file, n - 1) && Covers(file.segments[n - 1], a) then n - 1
    else Writer(file, n - 1, a)
  }

  /** `elf_image_t`; `base` is an address in the kernel heap, or 0 when nothing was loaded. */
  datatype LoadedImage = LoadedImage(base: nat, size: u64, entry: u64, imageBase: u64)

  /** [low, high) is the tightest interval around the first `n` loaded segments. */
  ghost predicate Bounds(file: ElfFile, n: nat, low: int, high: int) {
    && (forall k :: Loads(file, k) && k < n ==>
          low <= file.segments[k].vaddr && file.segments[k].vaddr + file.segments[k].memsz <= high)
    && ((exists k :: Loads(file, k) && k < n) ==>
          && (exists k :: Loads(file, k) && k < n && file.segments[k].vaddr == low)
          && (exists k :: Loads(file, k) && k < n && file.segments[k].vaddr + file.segments[k].memsz == high))
    && ((forall k :: Loads(file, k) ==> k >= n) ==> low == U64_LIMIT - 1 && high == 0)
  }

  /** The scan at elf_loader.c:56-85. */
  method Scan(file: ElfFile) returns (lowest: u64, highest: u64)
    requires AllFit(file)
    ensures Bounds(file, |file.segments|, lowest, highest)
  {
    lowest, highest := U64_LIMIT - 1, 0;
    for i := 0 to |file.segments|
      invariant Bounds(file, i, lowest, highest)
    {
      var ph := file.segments[i];
      if ph.kind != PT_LOAD {
        continue;
      }
      assert Loads(file, i);
      if ph.vaddr < lowest {
        lowest := ph.vaddr;
      }
      var end := ph.vaddr + ph.memsz;
      if end > highest {
        highest := end;
      }
    }
  }

  /** `k_memcpy` from the file into a buffer. */
  method CopyBytes(dest: array<u8>, at: nat, src: seq<u8>, from: nat, n: nat)
    requires at + n <= dest.Length && from + n <= |src|
    modifies dest
    ensures dest[..] == old(dest[..at]) + src[from..from + n] + old(dest[at + n..])
  {
    for i := 0 to n
      invariant forall k :: 0 <= k < dest.Length ==>
        dest[k] == if at <= k < at + i then src[from + k - at] else old(dest[k])
    {
      dest[at + i] := src[from + i];
    }
  }

  /** `k_memset` with zero. */
  method ZeroBytes(dest: array<u8>, at: nat, n: nat)
    requires at + n <= dest.Length
    modifies dest
    ensures forall k :: 0 <= k < dest.Length ==> dest[k] == if at <= k < at + n then 0 else old(dest[k])
  {
    for i := 0 to n
      invariant forall k :: 0 <= k < dest.Length ==> dest[k] == if at <= k < at + i then 0 else old(dest[k])
    {
      dest[at + i] := 0;
    }
  }

  /** Byte `i` of the image after the first `n` segments: the byte of its last writer, or what was there. */
  ghost predicate PlacedAt(file: ElfFile, n: nat, before: map<nat, u8>, after: map<nat, u8>, base: nat, low: nat,
                           i: nat)
    requires AllFit(file) && n <= |file.segments|
  {
    var k := Writer(file, n, low + i);
    if k < 0 then SameAt(before, after, base + i)
    else Stored(after, base + i, SegmentByte(file.segments[k], file.bytes, low + i - file.segments[k].vaddr))
  }

  ghost predicate Placed(file: ElfFile, n: nat, before: map<nat, u8>, after: map<nat, u8>, base: nat, low: nat)
    requires AllFit(file) && n <= |file.segments|
  {
    forall i: nat :: PlacedAt(file, n, before, after, base, low, i)
  }

  predicate Stored(data: map<nat, u8>, p: nat, byte: u8) {
    p in data && data[p] == byte
  }

  /** Byte `i` of the image after one segment has been placed. */
  ghost predicate WroteAt(before: map<nat, u8>, after: map<nat, u8>, base: nat, low: nat, seg: Segment,
                          bytes: seq<u8>, i: nat)
    requires Fits(seg, bytes)
  {
    if Covers(seg, low + i) then Stored(after, base + i, SegmentByte(seg, bytes, low + i - seg.vaddr))
    else SameAt(before, after, base + i)
  }

  /** Nothing changes outside the block. */
  ghost predicate OnlyInside(block: Block, before: map<nat, u8>, after: map<nat, u8>) {
    forall p: nat :: !block.Holds(p) ==> SameAt(before, after, p)
  }

  /** One pass of the copy loop at elf_loader.c:118-131. */
  method PlaceSegment(heap: Heap, low: u64, seg: Segment, bytes: seq<u8>, base: nat, ghost block: Block)
    requires Fits(seg, bytes) && low <= seg.vaddr && block in Live(heap.blocks) && base == block.Payload()
    requires seg.vaddr + seg.memsz <= low + block.size && seg.vaddr + seg.filesz <= low + block.size
    modifies heap`data
    ensures forall i: nat :: WroteAt(old(heap.data), heap.data, base, low, seg, bytes, i)
    ensures OnlyInside(block, old(heap.data), heap.data)
  {
    var dest := base + (seg.vaddr - low);
    heap.CopyIn(dest, bytes, seg.offset, seg.filesz, block);
    ghost var copied := heap.data;
    if seg.memsz > seg.filesz {
      heap.ZeroFill(dest + seg.filesz, seg.memsz - seg.filesz, block);
    }
    SegmentWritten(old(heap.data), copied, heap.data, base, low, seg, bytes);
    forall p: nat | !block.Holds(p) ensures SameAt(old(heap.data), heap.data, p) {
      assert SameAt(old(heap.data), copied, p) && SameAt(copied, heap.data, p);
    }
  }

  /** The file's bytes and then the zeros make up the segment. */
  lemma SegmentWritten(before: map<nat, u8>, copied: map<nat, u8>, after: map<nat, u8>, base: nat, low: nat,
                       seg: Segment, bytes: seq<u8>)
    requires Fits(seg, bytes) && low <= seg.vaddr
    requires var dest := base + (seg.vaddr - low);
             && (forall p: nat :: dest <= p < dest + seg.filesz ==>
                   p in copied && copied[p] == bytes[seg.offset + (p - dest)])
             && (forall p: nat :: !(dest <= p < dest + seg.filesz) ==> SameAt(before, copied, p))
             && (forall p: nat :: dest + seg.filesz <= p < dest + seg.memsz ==> p in after && after[p] == 0)
             && (forall p: nat :: !(dest + seg.filesz <= p < dest + seg.memsz) ==> SameAt(copied, after, p))
    ensures forall i: nat :: WroteAt(before, after, base, low, seg, bytes, i)
  {
    var dest := base + (seg.vaddr - low);
    forall i: nat ensures WroteAt(before, after, base, low, seg, bytes, i) {
      var p := base + i;
      assert dest <= p < dest + seg.filesz ==> p in copied && copied[p] == bytes[seg.offset + (p - dest)];
      assert dest <= p < dest + seg.filesz || SameAt(before, copied, p);
      assert dest + seg.filesz <= p < dest + seg.memsz || SameAt(copied, after, p);
    }
  }

  lemma PlacedNext(file: ElfFile, n: nat, before: map<nat, u8>, mid: map<nat, u8>, after: map<nat, u8>, base: nat,
                   low: nat)
    requires AllFit(file) && n < |file.segments|
    requires Placed(file, n, before, mid, base, low)
    requires if Loads(file, n) then forall i: nat :: WroteAt(mid, after, base, low, file.segments[n], file.bytes, i)
             else after == mid
    ensures Placed(file, n + 1, before, after, base, low)
  {
    var m := n + 1;
    forall i: nat ensures PlacedAt(file, m, before, after, base, low, i) {
      assert PlacedAt(file, n, before, mid, base, low, i);
      assert Loads(file, n) ==> WroteAt(mid, after, base, low, file.segments[n], file.bytes, i);
    }
  }

  lemma InsideTransitive(block: Block, d: map<nat, u8>, e: map<nat, u8>, f: map<nat, u8>)
    requires OnlyInside(block, d, e) && OnlyInside(block, e, f)
    ensures OnlyInside(block, d, f)
  {
    forall p: nat | !block.Holds(p) ensures SameAt(d, f, p) {
      assert SameAt(d, e, p) && SameAt(e, f, p);
    }
  }

  /** The copy loop at elf_loader.c:108-132. */
  method PlaceSegments(heap: Heap, file: ElfFile, base: nat, low: u64, ghost block: Block)
    requires AllFit(file) && block in Live(heap.blocks) && base == block.Payload()
    requires forall k :: Loads(file, k) ==>
      var seg := file.segments[k];
      low <= seg.vaddr && seg.vaddr + seg.memsz <= low + block.size && seg.vaddr + seg.filesz <= low + block.size
    modifies heap`data
    ensures Placed(file, |file.segments|, old(heap.data), heap.data, base, low)
    ensures OnlyInside(block, old(heap.data), heap.data)
  {
    hide Placed, WroteAt, OnlyInside;
    NothingPlaced(file, heap.data, base, low, block);
    for i := 0 to |file.segments|
      invariant Placed(file, i, old(heap.data), heap.data, base, low)
      invariant OnlyInside(block, old(heap.data), heap.data)
    {
      ghost var mid := heap.data;
      if file.segments[i].kind == PT_LOAD {
        assert Loads(file, i);
        PlaceSegment(heap, low, file.segments[i], file.bytes, base, block);
        InsideTransitive(block, old(heap.data), mid, heap.data);
      }
      PlacedNext(file, i, old(heap.data), mid, heap.data, base, low);
    }
  }

  lemma NothingPlaced(file: ElfFile, data: map<nat, u8>, base: nat, low: nat, block: Block)
    requires AllFit(file)
    ensures Placed(file, 0, data, data, base, low) && OnlyInside(block, data, data)
  {
  }

  /** Some segment is loaded below the top address; one at the top is taken for none. */
  ghost predicate LoadsAny(file: ElfFile) {
    exists k :: Loads(file, k) && file.segments[k].vaddr < U64_LIMIT - 1
  }

  /** The image spans exactly from the lowest to the highest address, and every address in it that a segment
      writes holds the byte of the last segment that does. */
  ghost predicate Flat(file: ElfFile, image: LoadedImage, data: map<nat, u8>)
    requires AllFit(file)
  {
    && image.entry == file.header.entry
    && if LoadsAny(file) then
         && Bounds(file, |file.segments|, image.imageBase, image.imageBase + image.size)
         && forall i: nat :: FlatAt(file, data, image.base, image.imageBase, i)
       else image.base == 0 && image.size == 0 && image.imageBase == 0
  }

  ghost predicate FlatAt(file: ElfFile, data: map<nat, u8>, base: nat, low: nat, i: nat)
    requires AllFit(file)
  {
    var k := Writer(file, |file.segments|, low + i);
    k >= 0 ==> Stored(data, base + i, SegmentByte(file.segments[k], file.bytes, low + i - file.segments[k].vaddr))
  }

  /** The highest end is no higher than the lowest start. */
  ghost predicate SpansNothing(file: ElfFile) {
    forall k, l :: Loads(file, k) && Loads(file, l) ==>
      file.segments[l].vaddr + file.segments[l].memsz <= file.segments[k].vaddr
  }

  lemma BoundsUse(file: ElfFile, low: nat, high: nat)
    requires AllFit(file) && InsideImage(file) && Bounds(file, |file.segments|, low, high)
    ensures low < U64_LIMIT - 1 <==> LoadsAny(file)
    ensures LoadsAny(file) ==> low <= high && (low == high <==> SpansNothing(file))
    ensures LoadsAny(file) ==> high - low + ALIGNMENT <= U64_LIMIT
    ensures forall k :: Loads(file, k) ==>
      var seg := file.segments[k]; low <= seg.vaddr && seg.vaddr + seg.memsz <= high && seg.vaddr + seg.filesz <= high
  {
    HighestBound(file, |file.segments|, high);
  }

  lemma {:induction false} HighestBound(file: ElfFile, n: nat, high: nat)
    requires n <= |file.segments|
    requires forall k :: Loads(file, k) && k < n ==> file.segments[k].vaddr + file.segments[k].memsz <= high
    ensures HighestEnd(file, n) <= high
  {
    if n > 0 {
      HighestBound(file, n - 1, high);
    }
  }

  lemma {:induction false} EndBelowHighest(file: ElfFile, n: nat, k: nat)
    requires k < n <= |file.segments| && Loads(file, k)
    ensures file.segments[k].vaddr + file.segments[k].memsz <= HighestEnd(file, n)
  {
    if k < n - 1 {
      EndBelowHighest(file, n - 1, k);
    }
  }

  /** The image that a call gave out: no block for a base of 0, else one new live block that holds it. */
  ghost predicate Holding(image: LoadedImage, was: set<Block>, live: set<Block>, block: Block) {
    if image.base == 0 then live == was
    else block.Payload() == image.base && image.size <= block.size && block !in was && live == was + {block}
  }

  /** `elf_load_image`. A failure for want of memory is a heap that cannot grow, or a request for no bytes. */
  method LoadImage(heap: Heap, file: ElfFile)
    returns (status: Status, image: LoadedImage, ghost block: Block, ghost growth: Growth)
    requires heap.Valid() && AllFit(file) && InsideImage(file)
    modifies heap`committedEnd, heap`frames, heap`hdr, heap`data, heap`blocks, heap.vm`tables, heap.vm`node
    modifies heap.vmas.table, heap.vm.pmm`freePages, heap.vm.pmm`usedPages, heap.vm.pmm`nextFree
    modifies heap.vm.pmm.bitmap`clear, heap.vm.pmm.bitmap.buffer
    ensures heap.Valid() && Keeps(Live(old(heap.blocks)), old(heap.data), heap.data)
    ensures status.Invalid? <==> !Accepted(file.header)
    ensures !status.Invalid? ==> |file.header.ident| == 16 && file.header.ident[4] == 2 && file.header.machine == 62
    ensures Accepted(file.header) && LoadsAny(file) && SpansNothing(file) ==> status.NoMemory?
    ensures status.NoMemory? ==> LoadsAny(file) && (SpansNothing(file) || heap.Stuck())
    ensures status.Success? ==> Flat(file, image, heap.data) && (image.base != 0 <==> LoadsAny(file))
    ensures image.entry == file.header.entry && (!status.Success? ==> image.base == 0)
    ensures Holding(image, Live(old(heap.blocks)), Live(heap.blocks), block)
    ensures GrewBy(old(heap.vm.Snap()), old(heap.frames), heap.vm.Snap(), heap.frames, growth,
                   status.NoMemory? && !SpansNothing(file))
    ensures status.Invalid? ==> heap.vm.Snap() == old(heap.vm.Snap()) && unchanged(heap)
  {
    hide SpansNothing, LoadsAny, InsideImage, Fits, Writer, AllFit, Accepted, Bounds, FlatAt, OnlyInside, Placed;
    hide GrewBy, Keeps, Live, Heap.Valid, Heap.Stuck, AlignSize, PagesFor, KmallocBlocks, OnlyArea;
    image, block := LoadedImage(0, 0, file.header.entry, 0), Block(0, 0, true);
    growth := Growth(0, heap.vm.Snap(), {});
    GrewNothing(heap.vm.Snap(), heap.frames);
    KeepsSelf(Live(heap.blocks), heap.data);
    if !Accepted(file.header) {
      return Invalid, image, block, growth;
    }
    AcceptedExactly(file.header);
    var lowest, highest := Scan(file);
    BoundsUse(file, lowest, highest);
    if lowest != U64_LIMIT - 1 {
      var size := highest - lowest;
      var base;
      base, block, growth := heap.Kmalloc(size);
      image := image.(base := base, size := size, imageBase := lowest);
      if base == 0 {
        return NoMemory, image, block, growth;
      }
      ghost var mid := heap.data;
      TakenIsLive(heap.blocks, block);
      heap.Tiled();
      PlaceSegments(heap, file, base, lowest, block);
      PlacedIsFlat(file, mid, heap.data, base, lowest);
      InsideKeeps(heap.blocks, heap.committedEnd, block, Live(old(heap.blocks)), old(heap.data), mid, heap.data);
    }
    return Success, image, block, growth;
  }

  lemma TakenIsLive(bs: seq<Block>, block: Block)
    requires block in bs && !block.free
    ensures block in Live(bs)
  {
  }

  /** Writing inside the new block changes nothing that was live. */
  lemma InsideKeeps(bs: seq<Block>, end: nat, block: Block, was: set<Block>, d: map<nat, u8>, e: map<nat, u8>,
                    f: map<nat, u8>)
    requires Tiles(bs, HEAP_START, end) && block in bs && block !in was && Live(bs) == was + {block}
    requires Keeps(was, d, e) && OnlyInside(block, e, f)
    ensures Keeps(was, d, f)
  {
    var i := IndexOfBlock(bs, block);
    CopyKeeps(bs, i, block.size, e, f);
    assert Live(bs) - {block} == was;
    KeepsTransitive(was, was, d, e, f);
  }

  lemma PlacedIsFlat(file: ElfFile, before: map<nat, u8>, data: map<nat, u8>, base: nat, low: nat)
    requires AllFit(file) && Placed(file, |file.segments|, before, data, base, low)
    ensures forall i: nat :: FlatAt(file, data, base, low, i)
  {
    hide Writer;
    forall i: nat ensures FlatAt(file, data, base, low, i) {
      assert PlacedAt(file, |file.segments|, before, data, base, low, i);
    }
  }

  // ----- segments that do not overlap -----

  /** What the page-wise loader relies on besides: no wrap-around when the end is rounded up to a page. */
  predicate Loadable(seg: Segment, bytes: seq<u8>) {
    Fits(seg, bytes) && seg.vaddr + seg.memsz + PAGE_SIZE <= U64_LIMIT
  }

  ghost predicate AllLoadable(file: ElfFile) {
    forall k :: Loads(file, k) ==> Loadable(file.segments[k], file.bytes)
  }

  /** A segment as linkers lay it out: it starts on a page, and has no more file than memory. */
  predicate Sane(seg: Segment, bytes: seq<u8>) {
    Loadable(seg, bytes) && seg.vaddr % PAGE_SIZE == 0 && seg.filesz <= seg.memsz
  }

  ghost predicate AllSane(file: ElfFile) {
    forall k :: Loads(file, k) ==> Sane(file.segments[k], file.bytes)
  }

  /** Such segments meet what both loaders rely on. */
  lemma SaneFits(file: ElfFile)
    requires AllSane(file)
    ensures AllFit(file) && AllLoadable(file) && InsideImage(file)
  {
    assert ALIGNMENT <= PAGE_SIZE;
    forall k | Loads(file, k)
      ensures file.segments[k].vaddr + file.segments[k].filesz <= HighestEnd(file, |file.segments|)
    {
      EndBelowHighest(file, |file.segments|, k);
    }
  }

  /** No two loaded segments claim the same byte address. */
  ghost predicate BytesDisjoint(file: ElfFile) {
    forall k, l :: Loads(file, k) && Loads(file, l) && k != l ==> Apart(file.segments[k], file.segments[l])
  }

  predicate Apart(a: Segment, b: Segment) {
    a.memsz == 0 || b.memsz == 0 || a.vaddr + a.memsz <= b.vaddr || b.vaddr + b.memsz <= a.vaddr
  }

  /** The image holds byte `j` of the segment, at the segment's distance from the lowest address. */
  ghost predicate HoldsByte(image: LoadedImage, data: map<nat, u8>, seg: Segment, bytes: seq<u8>, j: nat)
    requires Fits(seg, bytes)
  {
    var i := seg.vaddr + j - image.imageBase;
    0 <= i < image.size && Stored(data, image.base + i, SegmentByte(seg, bytes, j))
  }

  /** Without overlaps the flat image holds every segment whole. */
  lemma FlatHolds(file: ElfFile, image: LoadedImage, data: map<nat, u8>, k: int, j: nat)
    requires AllSane(file) && AllFit(file) && BytesDisjoint(file) && Loads(file, k) && j < file.segments[k].memsz
    requires Flat(file, image, data)
    ensures HoldsByte(image, data, file.segments[k], file.bytes, j)
  {
    hide Writer, SegmentByte;
    var a := file.segments[k].vaddr + j;
    var w := Writer(file, |file.segments|, a);
    assert LoadsAny(file);
    assert Covers(file.segments[k], a);
    assert Loads(file, w) && Covers(file.segments[w], a);
    assert w == k;
    assert FlatAt(file, data, image.base, image.imageBase, a - image.imageBase);
  }
}
