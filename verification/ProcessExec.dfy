/** kernel/src/process/process_exec.c: the flat image in the kernel heap and the pages of the process, one
    after the other. What the kernel reads in the one is what the process reads in the other, as long as no
    loaded page lies over a page of the heap. */
module ProcessExec {
  import opened Options
  import opened Machine
  import opened Pmms
  import opened PageBits
  import opened PageTrees
  import opened PageTables
  import opened Vmas
  import opened HeapBlocks
  import opened HeapPages
  import opened HeapLinks
  import opened Heaps
  import opened Elfs
  import opened ProcessLoading

  // ----- one memory, read through page tables -----

  /** Physical memory: the frames behind the heap's pages hold the heap's bytes by address, where they are
      known; every other data frame holds its own. */
  datatype Memory = Memory(heapFrames: seq<nat>, heap: map<nat, u8>, data: Frames)

  ghost function ByteOf(m: Memory, f: nat, k: nat): Option<u8> {
    if f in m.heapFrames then
      var i: nat :| i < |m.heapFrames| && m.heapFrames[i] == f;
      HeapByte(m, HEAP_START + GROW_SIZE * i + k)
    else if f in m.data && k < |m.data[f]| then Some(m.data[f][k]) else None
  }

  function HeapByte(m: Memory, a: nat): Option<u8> {
    if a in m.heap then Some(m.heap[a]) else None
  }

  /** The byte read at `va` through the tables of this root. */
  ghost function Reads(t: Tables, m: Memory, root: nat, va: nat): Option<u8> {
    match Lookup(t, root, IndexOf(va))
    case None => None
    case Some(leaf) => if leaf.level == 1 then ByteOf(m, leaf.entry.frame, va % PAGE_SIZE) else None
  }

  /** While its pages are backed, the kernel reads the heap's bytes at their addresses. */
  lemma ReadsHeap(s: Snapshot, m: Memory, a: nat)
    requires PagesBacked(s, m.heapFrames) && HEAP_START <= a < HEAP_START + GROW_SIZE * |m.heapFrames|
    ensures Reads(s.tables, m, s.kernel, a) == HeapByte(m, a)
  {
    hide IndexOf, Lookup;
    var i := (a - HEAP_START) / GROW_SIZE;
    SamePage(a, HEAP_START + GROW_SIZE * i);
    assert PageBacked(s, i, m.heapFrames[i]);
    assert a % PAGE_SIZE == a - HEAP_START - GROW_SIZE * i && a / PAGE_SIZE == HEAP_START / PAGE_SIZE + i;
  }

  /** A backed segment shows the process exactly the segment's bytes, from the start of its first page on: at
      its own addresses if it is page-aligned, and shifted down otherwise. */
  lemma SeesSegment(s: Snapshot, m: Memory, root: nat, seg: Segment, bytes: seq<u8>, frames: seq<nat>, j: nat)
    requires Loadable(seg, bytes) && |frames| == PageCount(seg) && j < seg.memsz
    requires SegmentBacked(s, m.data, root, seg, bytes, frames) && Elements(frames) !! Elements(m.heapFrames)
    ensures Reads(s.tables, m, root, PageStart(seg) + j) == Some(SegmentByte(seg, bytes, j))
  {
    hide IndexOf, Lookup, PageIndex;
    InsidePage(seg, j);
    var f := frames[j / PAGE_SIZE];
    assert Backed(s, m.data, root, seg, bytes, j / PAGE_SIZE, f);
    assert f in Elements(frames);
    assert j / PAGE_SIZE * PAGE_SIZE + j % PAGE_SIZE == j;
  }

  // ----- segments that share no page -----

  lemma SharedPage(a: Segment, b: Segment)
    requires a.vaddr % PAGE_SIZE == 0 && b.vaddr % PAGE_SIZE == 0
    requires a.vaddr <= b.vaddr < a.vaddr + a.memsz && b.memsz > 0
    ensures exists p: nat, q: nat :: p < PageCount(a) && q < PageCount(b) && PageAddress(a, p) == PageAddress(b, q)
  {
    var p := (b.vaddr - a.vaddr) / PAGE_SIZE;
    assert p < PageCount(a) && 0 < PageCount(b) && PageAddress(a, p) == PageAddress(b, 0);
  }

  /** Page-disjoint segments are byte-disjoint, which is what the flat loader needs. */
  lemma PagesDisjointBytes(file: ElfFile)
    requires AllSane(file) && OwnPages(file)
    ensures BytesDisjoint(file)
  {
    forall k, l | Loads(file, k) && Loads(file, l) && k != l ensures Apart(file.segments[k], file.segments[l]) {
      var a, b := file.segments[k], file.segments[l];
      if !Apart(a, b) {
        if a.vaddr <= b.vaddr {
          SharedPage(a, b);
        } else {
          SharedPage(b, a);
        }
        assert false;
      }
    }
  }

  /** Segments below 2^48 whose page-rounded address ranges do not meet claim no page twice. */
  lemma DisjointRangesOwnPages(file: ElfFile)
    requires forall k :: Loads(file, k) ==>
      var seg := file.segments[k]; seg.vaddr % PAGE_SIZE == 0 && seg.vaddr + seg.memsz <= 0x1_0000_0000_0000
    requires forall k, l :: Loads(file, k) && Loads(file, l) && k != l ==>
      var a, b := file.segments[k], file.segments[l];
      a.vaddr + PageCount(a) * PAGE_SIZE <= b.vaddr || b.vaddr + PageCount(b) * PAGE_SIZE <= a.vaddr
    ensures OwnPages(file)
  {
    forall k, l, p: nat, q: nat |
      && Loads(file, k) && Loads(file, l) && p < PageCount(file.segments[k]) && q < PageCount(file.segments[l])
      && PageBitsOf(PageAddress(file.segments[k], p)) == PageBitsOf(PageAddress(file.segments[l], q))
      ensures k == l && p == q
    {
      LowPage(file.segments[k], p);
      LowPage(file.segments[l], q);
    }
  }

  lemma LowPage(seg: Segment, p: nat)
    requires seg.vaddr % PAGE_SIZE == 0 && seg.vaddr + seg.memsz <= 0x1_0000_0000_0000 && p < PageCount(seg)
    ensures PageBitsOf(PageAddress(seg, p)) * PAGE_SIZE == PageAddress(seg, p)
  {
  }

  // ----- loaded pages over heap pages -----

  /** One of the first `n` heap pages is among the pages, in a slot that the root shares with the kernel. */
  ghost predicate Clash(t: Tables, kernel: nat, root: nat, n: nat, pages: set<Index>) {
    exists i: nat :: i < n && HeapIndex(i) in pages && Affected(t, kernel, root, HeapIndex(i))
  }

  lemma HeapKept(s: Snapshot, d: Frames, u: Snapshot, d': Frames, root: nat, pages: set<Index>, taken: set<nat>,
                 heapFrames: seq<nat>)
    requires Sound(s) && IsRoot(s.node, root) && PagesBacked(s, heapFrames)
    requires Touches(s, d, u, d', root, pages, taken) && !Clash(s.tables, s.kernel, root, |heapFrames|, pages)
    ensures PagesBacked(u, heapFrames)
  {
    hide Lookup, HeapIndex, Evolves, Tree, Affected, LeafEntry;
    assert IsRoot(s.node, s.kernel) by { KernelRoot(s); }
    forall i | 0 <= i < |heapFrames| ensures PageBacked(u, i, heapFrames[i]) {
      assert PageBacked(s, i, heapFrames[i]);
      SharingStays(s, u, s.kernel, root, HeapIndex(i));
    }
  }

  lemma SharedLookup(t: Tables, r: nat, root: nat, x: Index)
    requires Affected(t, r, root, x)
    ensures Lookup(t, r, x) == Lookup(t, root, x)
  {
  }

  lemma KernelLeaf(frame: nat)
    ensures !LeafEntry(frame, WRITABLE).user
  {
  }

  /** A loaded page over a heap page takes the page from the heap. */
  lemma HeapBroken(s: Snapshot, d: Frames, u: Snapshot, d': Frames, root: nat, file: ElfFile, frames: seq<seq<nat>>,
                   heapFrames: seq<nat>)
    requires Sound(s) && IsRoot(s.node, root) && AllLoadable(file) && FileBacked(u, d', root, file, frames)
    requires Touches(s, d, u, d', root, LoadedPages(file, frames), AllFrames(frames))
    requires Clash(s.tables, s.kernel, root, |heapFrames|, LoadedPages(file, frames))
    ensures !PagesBacked(u, heapFrames)
  {
    hide Lookup, HeapIndex, Evolves, Tree, Affected, LeafEntry, PageIndex, PageHolds, Loadable;
    assert IsRoot(s.node, s.kernel) by { KernelRoot(s); }
    var i: nat :| i < |heapFrames| && HeapIndex(i) in LoadedPages(file, frames)
      && Affected(s.tables, s.kernel, root, HeapIndex(i));
    SharingStays(s, u, s.kernel, root, HeapIndex(i));
    SharedLookup(u.tables, s.kernel, root, HeapIndex(i));
    var k, p :| 0 <= k < |frames| && 0 <= p < |frames[k]| && PageIndex(file.segments[k], p) == HeapIndex(i);
    assert Backed(u, d', root, file.segments[k], file.bytes, p, frames[k][p]);
    KernelLeaf(heapFrames[i]);
    assert !PageBacked(u, i, heapFrames[i]);
  }

  /** A file below the upper half of the address space clashes with no heap page. */
  lemma LowNeverClashes(t: Tables, kernel: nat, root: nat, n: nat, file: ElfFile, frames: seq<seq<nat>>)
    requires |frames| <= |file.segments| && n <= BITMAP_MAX_BITS
    requires forall k :: 0 <= k < |frames| ==> file.segments[k].vaddr + |frames[k]| * PAGE_SIZE <= 0x8000_0000_0000
    ensures !Clash(t, kernel, root, n, LoadedPages(file, frames))
  {
    hide IndexOf;
    forall i: nat | i < n && HeapIndex(i) in LoadedPages(file, frames) ensures false {
      var k, p :| 0 <= k < |frames| && 0 <= p < |frames[k]| && PageIndex(file.segments[k], p) == HeapIndex(i);
      SamePage(PageAddress(file.segments[k], p), HEAP_START + GROW_SIZE * i);
      HeapPageBits(i);
      LowAddress(PageAddress(file.segments[k], p));
    }
  }

  lemma LowAddress(va: nat)
    requires va < 0x8000_0000_0000
    ensures PageBitsOf(va) < 0x8_0000_0000
  {
  }

  /** A root that shares the kernel's present slots, as page_table_create makes it, sees every heap page: for
      it a clash is a loaded page that is a heap page. */
  lemma CreatedRootSeesHeap(s: Snapshot, heapFrames: seq<nat>, root: nat, i: nat)
    requires PagesBacked(s, heapFrames) && i < |heapFrames|
    requires forall slot :: Shares(s.tables, root, s.kernel, slot) <==> At(s.tables, s.kernel, slot).present
    ensures Affected(s.tables, s.kernel, root, HeapIndex(i))
  {
    hide HeapIndex, LeafEntry;
    assert PageBacked(s, i, heapFrames[i]);
    assert Shares(s.tables, root, s.kernel, HeapIndex(i).i4);
  }

  // ----- agreement of the two loaders -----

  /** The two loaders agree on byte `j` of the segment, and on the byte that the ELF file calls for: the
      process reads it at its address, and the kernel in the flat image. */
  ghost predicate AgreeAt(t: Tables, m: Memory, kernel: nat, root: nat, seg: Segment, bytes: seq<u8>,
                          image: LoadedImage, j: nat)
    requires Fits(seg, bytes)
  {
    var byte := if j < seg.filesz then bytes[seg.offset + j] else 0;
    && Reads(t, m, root, seg.vaddr + j) == Some(byte) && image.imageBase <= seg.vaddr + j
    && Reads(t, m, kernel, image.base + (seg.vaddr + j - image.imageBase)) == Some(byte)
  }

  /** They agree on every byte of every loaded segment. */
  ghost predicate LoadersAgree(t: Tables, m: Memory, kernel: nat, root: nat, file: ElfFile, image: LoadedImage)
    requires AllFit(file)
  {
    forall k, j: nat :: Loads(file, k) && j < file.segments[k].memsz ==>
      AgreeAt(t, m, kernel, root, file.segments[k], file.bytes, image, j)
  }

  /** The image lies in the committed heap. */
  ghost predicate InHeap(image: LoadedImage, n: nat) {
    image.base == 0 || (HEAP_START <= image.base && image.base + image.size <= HEAP_START + GROW_SIZE * n)
  }

  lemma BackedAgrees(s: Snapshot, m: Memory, root: nat, file: ElfFile, frames: seq<seq<nat>>, image: LoadedImage)
    requires AllSane(file) && AllFit(file) && AllLoadable(file) && BytesDisjoint(file)
    requires FileBacked(s, m.data, root, file, frames) && Whole(file, frames)
    requires AllFrames(frames) !! Elements(m.heapFrames) && PagesBacked(s, m.heapFrames)
    requires Flat(file, image, m.heap) && (image.base != 0 <==> LoadsAny(file)) && InHeap(image, |m.heapFrames|)
    ensures LoadersAgree(s.tables, m, s.kernel, root, file, image)
  {
    hide SegmentBacked, PageCount, Reads, Flat, Writer, PagesBacked, BytesDisjoint;
    forall k, j: nat | Loads(file, k) && j < file.segments[k].memsz
      ensures AgreeAt(s.tables, m, s.kernel, root, file.segments[k], file.bytes, image, j)
    {
      assert Elements(frames[k]) <= AllFrames(frames);
      SeesSegment(s, m, root, file.segments[k], file.bytes, frames[k], j);
      FlatHolds(file, image, m.heap, k, j);
      assert LoadsAny(file);
      ReadsHeap(s, m, image.base + (file.segments[k].vaddr + j - image.imageBase));
    }
  }

  /** The frames of the pages were free when the heap's frames were not. */
  lemma FramesApart(s: Snapshot, d: Frames, u: Snapshot, d': Frames, root: nat, pages: set<Index>, taken: set<nat>,
                    heapFrames: seq<nat>)
    requires PagesBacked(s, heapFrames) && Touches(s, d, u, d', root, pages, taken)
    ensures taken !! Elements(heapFrames)
  {
    hide Remaps, Lookup;
    forall f | f in Elements(heapFrames) ensures f !in taken {
      var i :| 0 <= i < |heapFrames| && heapFrames[i] == f;
      assert PageBacked(s, i, f);
    }
  }

  const USER_RFLAGS: u64 := 0x202

  /** The fields of `process_t` that loading reads or writes. */
  class Process {
    const pageTable: nat
    const userStackTop: u64
    var image: LoadedImage
    var userRip: u64
    var userRsp: u64
    var userRflags: u64
    var isUserProcess: bool

    constructor (pageTable: nat, userStackTop: u64)
      ensures this.pageTable == pageTable && this.userStackTop == userStackTop && !isUserProcess
    {
      this.pageTable, this.userStackTop := pageTable, userStackTop;
      image := LoadedImage(0, 0, 0, 0);
      userRip, userRsp, userRflags, isUserProcess := 0, 0, 0, false;
    }
  }

  lemma EntryMapped(s: Snapshot, u: Snapshot, root: nat, x: Index, r: WalkResult)
    requires WalkStep(s, u, root, x, false, r)
    ensures u == s && (r.Found? <==> Lookup(s.tables, root, x).Some?)
  {
    ReadWalkIsLookup(s.tables, root, x);
  }

  /** What happened while a file was loaded: the flat image and its block, how the heap grew for it and the
      state it left, and the frames of the pages loaded. */
  datatype Outcome = Outcome(image: LoadedImage, block: Block, growth: Growth, grown: Snapshot, frames: seq<seq<nat>>)

  /** Loading takes frames and remaps addresses in two steps: for the heap's new pages, then for the pages
      loaded. Every frame that left the free set is a new page table, backs one new heap page or one loaded
      page, or is the one that a heap page which cannot be mapped loses. */
  ghost predicate LoadStep(s: Snapshot, was: seq<nat>, d: Frames, u: Snapshot, heapFrames: seq<nat>, d': Frames,
                           root: nat, file: ElfFile, o: Outcome, failed: bool)
    requires AllLoadable(file)
  {
    && GrewBy(s, was, o.grown, heapFrames, o.growth, failed)
    && FileBacked(u, d', root, file, o.frames) && OwnFrames(o.frames)
    && Touches(o.grown, d, u, d', root, LoadedPages(file, o.frames), AllFrames(o.frames))
    && Accounts(s, u, Elements(heapFrames[|was|..]) + AllFrames(o.frames), o.growth.lost)
  }

  lemma GrownOnly(s: Snapshot, was: seq<nat>, d: Frames, u: Snapshot, heapFrames: seq<nat>, root: nat, file: ElfFile,
                  o: Outcome, failed: bool)
    requires AllLoadable(file) && GrewBy(s, was, u, heapFrames, o.growth, failed) && o.grown == u && o.frames == []
    ensures LoadStep(s, was, d, u, heapFrames, d, root, file, o, failed)
    ensures forall n :: !Clash(s.tables, s.kernel, root, n, LoadedPages(file, o.frames))
  {
    hide Accounts, Remaps, CommitStep, Touches;
    NoSegments(u, d, root, file);
    assert Elements(heapFrames[|was|..]) + AllFrames([]) == Elements(heapFrames[|was|..]);
  }

  lemma GrownThenLoaded(s: Snapshot, was: seq<nat>, d: Frames, u: Snapshot, heapFrames: seq<nat>, d': Frames,
                        root: nat, file: ElfFile, o: Outcome)
    requires AllLoadable(file) && Sound(s) && Sound(o.grown) && GrewBy(s, was, o.grown, heapFrames, o.growth, false)
    requires FileBacked(u, d', root, file, o.frames) && OwnFrames(o.frames)
    requires Touches(o.grown, d, u, d', root, LoadedPages(file, o.frames), AllFrames(o.frames))
    ensures LoadStep(s, was, d, u, heapFrames, d', root, file, o, false)
  {
    hide Accounts, Remaps, Tree, FileBacked, OwnFrames, LoadedPages, AllFrames;
    AccountsTransitive(s, o.grown, u, Elements(heapFrames[|was|..]), AllFrames(o.frames), {});
  }

  /** A root that existed before the heap grew shares a slot exactly as before. */
  lemma ClashBefore(s: Snapshot, was: seq<nat>, u: Snapshot, heapFrames: seq<nat>, growth: Growth, failed: bool,
                    root: nat, pages: set<Index>)
    requires Sound(s) && IsRoot(s.node, root) && GrewBy(s, was, u, heapFrames, growth, failed)
    ensures IsRoot(u.node, root) && u.kernel == s.kernel
    ensures Clash(s.tables, s.kernel, root, |heapFrames|, pages) <==>
            Clash(u.tables, u.kernel, root, |heapFrames|, pages)
  {
    hide Lookup, HeapIndex, Evolves, Tree, Affected, Accounts, CommitStep;
    assert IsRoot(s.node, s.kernel) by { KernelRoot(s); }
    forall i: nat ensures Affected(s.tables, s.kernel, root, HeapIndex(i)) <==>
                          Affected(u.tables, s.kernel, root, HeapIndex(i)) {
      SharingStays(s, u, s.kernel, root, HeapIndex(i));
    }
    SharingStays(s, u, s.kernel, root, HeapIndex(0));
  }

  lemma NoAccess(t: Tables, root: nat, file: ElfFile)
    ensures AccessAsAsked(t, root, file, [])
  {
  }

  lemma NothingLoads(file: ElfFile)
    requires AllLoadable(file) && !LoadsAny(file)
    ensures SpansNothing(file)
  {
  }

  lemma ImageInHeap(bs: seq<Block>, end: nat, n: nat, image: LoadedImage, block: Block)
    requires Tiles(bs, HEAP_START, end) && end == HEAP_START + GROW_SIZE * n
    requires image.base != 0 ==> block in bs && block.Payload() == image.base && image.size <= block.size
    ensures InHeap(image, n)
  {
    if image.base != 0 {
      var i := IndexOfBlock(bs, block);
      NonNull(bs, end);
      BelowEnd(bs, HEAP_START, end, i);
    }
  }

  lemma NowValid(heap: Heap, s: Snapshot, d: Frames, root: nat, file: ElfFile, o: Outcome)
    requires heap.vm.Valid() && heap.Intact() && AllLoadable(file)
    requires Sound(s) && IsRoot(s.node, root) && PagesBacked(s, heap.frames)
    requires FileBacked(heap.vm.Snap(), heap.vm.data, root, file, o.frames)
    requires Touches(s, d, heap.vm.Snap(), heap.vm.data, root, LoadedPages(file, o.frames), AllFrames(o.frames))
    ensures heap.Valid() <==> PagesBacked(heap.vm.Snap(), heap.frames)
    ensures heap.Valid() <==> !Clash(s.tables, s.kernel, root, |heap.frames|, LoadedPages(file, o.frames))
  {
    hide AddressSpaces.Valid, Heap.Valid, Heap.Intact, Touches, SegmentBacked, LoadedPages, PagesBacked, Clash, Sound;
    hide PageCount, Loadable;
    heap.WhenValid();
    if Clash(s.tables, s.kernel, root, |heap.frames|, LoadedPages(file, o.frames)) {
      HeapBroken(s, d, heap.vm.Snap(), heap.vm.data, root, file, o.frames, heap.frames);
    } else {
      HeapKept(s, d, heap.vm.Snap(), heap.vm.data, root, LoadedPages(file, o.frames), AllFrames(o.frames),
               heap.frames);
    }
  }

  ghost function MemoryOf(heap: Heap): Memory
    reads heap, heap.vm
  {
    Memory(heap.frames, heap.data, heap.vm.data)
  }

  /** The two loaders one after the other: process_exec.c:16-41. */
  method Load(heap: Heap, root: nat, file: ElfFile) returns (status: Status, image: LoadedImage, ghost o: Outcome)
    requires heap.Valid() && IsRoot(heap.vm.node, root)
    requires AllFit(file) && AllLoadable(file) && InsideImage(file) && OwnPages(file)
    modifies heap`committedEnd, heap`frames, heap`hdr, heap`data, heap`blocks
    modifies heap.vm`tables, heap.vm`node, heap.vm`data, heap.vmas.table
    modifies heap.vm.pmm`freePages, heap.vm.pmm`usedPages, heap.vm.pmm`nextFree
    modifies heap.vm.pmm.bitmap`clear, heap.vm.pmm.bitmap.buffer
    ensures heap.vm.Valid() && heap.Intact() && IsRoot(heap.vm.node, root) && o.image == image
    ensures LoadStep(old(heap.vm.Snap()), old(heap.frames), old(heap.vm.data), heap.vm.Snap(), heap.frames,
                     heap.vm.data, root, file, o, status.NoMemory? && image.base == 0 && !SpansNothing(file))
    ensures heap.Valid() <==> !Clash(old(heap.vm.tables), heap.vm.kernelRoot, root, |heap.frames|,
                                     LoadedPages(file, o.frames))
    ensures Keeps(Live(old(heap.blocks)), old(heap.data), heap.data)
    ensures Holding(image, Live(old(heap.blocks)), Live(heap.blocks), o.block)
    ensures image.entry == file.header.entry
    ensures status.Success? ==> Flat(file, image, heap.data) && Whole(file, o.frames)
    ensures AccessAsAsked(heap.vm.tables, root, file, o.frames)
    ensures status.Success? && AllSane(file) && heap.Valid() ==>
      LoadersAgree(heap.vm.tables, MemoryOf(heap), heap.vm.kernelRoot, root, file, image)
    ensures status.Invalid? <==> !Accepted(file.header)
    ensures status.Invalid? ==> heap.vm.Snap() == old(heap.vm.Snap()) && unchanged(heap)
    ensures status.NoMemory? && image.base == 0 ==> SpansNothing(file) || heap.Stuck()
    ensures status.NoMemory? && image.base != 0 ==>
      |heap.vm.pmm.Free()| <= 1 || exists k :: Loads(file, k) && Blocked(heap.vm.tables, root, file.segments[k])
  {
    hide AddressSpaces.Valid, Touches, OwnPages, AllSane, LoadersAgree, FileBacked, OwnFrames, Accepted, LoadedPages;
    hide Flat, SpansNothing, Blocked, LoadsAny, AllFrames, Whole, BytesDisjoint, InsideImage, AllFit, AllLoadable;
    hide LoadStep, GrewBy, AccessAsAsked, Clash, Keeps, Live, PagesBacked, Sound, Heap.Valid, Heap.Listed, Heap.Stuck;
    hide Coalesced, VmaTable.Valid;
    ghost var vm, s, was := heap.vm, heap.vm.Snap(), heap.frames;
    heap.WhenValid();
    vm.IsSound();
    ghost var block, growth;
    status, image, block, growth := LoadImage(heap, file);
    ghost var grown := vm.Snap();
    o := Outcome(image, block, growth, grown, []);
    heap.WhenValid();
    vm.IsSound();
    heap.Tiled();
    if !status.Success? {
      GrownOnly(s, was, vm.data, grown, heap.frames, root, file, o, status.NoMemory? && !SpansNothing(file));
      ClashBefore(s, was, grown, heap.frames, growth, status.NoMemory? && !SpansNothing(file), root, {});
      NoAccess(grown.tables, root, file);
      return;
    }
    ClashBefore(s, was, grown, heap.frames, growth, false, root, {});
    InImage(heap.blocks, block, image, Live(old(heap.blocks)));
    ImageInHeap(heap.blocks, heap.committedEnd, |heap.frames|, image, block);
    ghost var frames;
    status, frames := MapSegments(heap.vm, root, file);
    o := o.(frames := frames);
    GrownThenLoaded(s, was, old(heap.vm.data), vm.Snap(), heap.frames, vm.data, root, file, o);
    ClashBefore(s, was, grown, heap.frames, growth, false, root, LoadedPages(file, frames));
    NowValid(heap, grown, old(heap.vm.data), root, file, o);
    if !LoadsAny(file) {
      NothingLoads(file);
    }
    if status.Success? && AllSane(file) && heap.Valid() {
      PagesDisjointBytes(file);
      FramesApart(grown, old(heap.vm.data), vm.Snap(), vm.data, root, LoadedPages(file, frames), AllFrames(frames),
                  heap.frames);
      BackedAgrees(vm.Snap(), MemoryOf(heap), root, file, frames, image);
    }
  }

  lemma InImage(bs: seq<Block>, block: Block, image: LoadedImage, was: set<Block>)
    requires Holding(image, was, Live(bs), block)
    ensures image.base != 0 ==> block in bs && block.Payload() == image.base && image.size <= block.size
  {
    assert image.base != 0 ==> block in Live(bs);
  }

  /** The entry check and the registers: process_exec.c:43-68. */
  method Enter(vm: AddressSpaces, process: Process, image: LoadedImage) returns (status: Status)
    requires vm.Valid() && IsRoot(vm.node, process.pageTable)
    modifies process, vm`tables, vm`node
    modifies vm.pmm`freePages, vm.pmm`usedPages, vm.pmm`nextFree, vm.pmm.bitmap`clear, vm.pmm.bitmap.buffer
    ensures vm.Valid() && vm.Snap() == old(vm.Snap())
    ensures status == if Lookup(vm.tables, process.pageTable, IndexOf(image.entry)).Some? then Success else Invalid
    ensures process.image == image && process.userRip == image.entry
    ensures status.Success? ==> process.userRsp == Wrap(process.userStackTop + U64_LIMIT - 8)
    ensures status.Success? ==> process.userRflags == 0x202 && process.isUserProcess
    ensures !status.Success? ==> process.isUserProcess == old(process.isUserProcess)
  {
    hide AddressSpaces.Valid, IndexOf, Wrap, Lookup, WalkStep;
    process.image := image;
    process.userRip := image.entry;
    ghost var s := vm.Snap();
    var pte := vm.PageWalk(process.pageTable, process.userRip, false);
    EntryMapped(s, vm.Snap(), process.pageTable, IndexOf(process.userRip), pte);
    if pte.Failed? {
      return Invalid;
    }
    process.userRsp := Wrap(process.userStackTop + U64_LIMIT - 8);
    process.userRflags := USER_RFLAGS;
    process.isUserProcess := true;
    return Success;
  }

  /** `process_exec`. The heap stays valid if and only if no loaded page is a committed heap page seen by the
      process's root, and then the process and the kernel read the same file. When the segments cannot be
      mapped, the block of the flat image stays live although no field of the process holds it. */
  method Exec(heap: Heap, process: Process, file: ElfFile) returns (status: Status, ghost o: Outcome)
    requires heap.Valid() && IsRoot(heap.vm.node, process.pageTable)
    requires AllFit(file) && AllLoadable(file) && InsideImage(file) && OwnPages(file)
    modifies process, heap`committedEnd, heap`frames, heap`hdr, heap`data, heap`blocks
    modifies heap.vm`tables, heap.vm`node, heap.vm`data, heap.vmas.table
    modifies heap.vm.pmm`freePages, heap.vm.pmm`usedPages, heap.vm.pmm`nextFree
    modifies heap.vm.pmm.bitmap`clear, heap.vm.pmm.bitmap.buffer
    ensures heap.vm.Valid() && heap.Intact()
    ensures LoadStep(old(heap.vm.Snap()), old(heap.frames), old(heap.vm.data), heap.vm.Snap(), heap.frames,
                     heap.vm.data, process.pageTable, file, o,
                     status.NoMemory? && o.image.base == 0 && !SpansNothing(file))
    ensures heap.Valid() <==> !Clash(old(heap.vm.tables), heap.vm.kernelRoot, process.pageTable, |heap.frames|,
                                     LoadedPages(file, o.frames))
    ensures Keeps(Live(old(heap.blocks)), old(heap.data), heap.data)
    ensures Holding(o.image, Live(old(heap.blocks)), Live(heap.blocks), o.block)
    ensures status.Success? ==> Flat(file, o.image, heap.data) && Whole(file, o.frames) && process.image == o.image
    ensures AccessAsAsked(heap.vm.tables, process.pageTable, file, o.frames)
    ensures status.Success? && AllSane(file) && heap.Valid() ==>
      LoadersAgree(heap.vm.tables, MemoryOf(heap), heap.vm.kernelRoot, process.pageTable, file, process.image)
    ensures status.Success? ==> Lookup(heap.vm.tables, process.pageTable, IndexOf(file.header.entry)).Some?
    ensures status.Success? ==> process.userRip == file.header.entry && process.isUserProcess
    ensures status.Success? ==> process.userRflags == 0x202
    ensures status.Success? ==> process.userRsp == Wrap(process.userStackTop + U64_LIMIT - 8)
    ensures !status.Success? ==> process.isUserProcess == old(process.isUserProcess)
    ensures !Accepted(file.header) ==>
      status == Invalid && heap.vm.Snap() == old(heap.vm.Snap()) && unchanged(heap) && unchanged(process)
    ensures status.Invalid? && Accepted(file.header) ==>
      process.image == o.image && Lookup(heap.vm.tables, process.pageTable, IndexOf(file.header.entry)).None?
    ensures status.NoMemory? ==> unchanged(process)
    ensures status.NoMemory? && o.image.base == 0 ==> SpansNothing(file) || heap.Stuck()
    ensures status.NoMemory? && o.image.base != 0 ==>
      || |heap.vm.pmm.Free()| <= 1
      || exists k :: Loads(file, k) && Blocked(heap.vm.tables, process.pageTable, file.segments[k])
  {
    hide AddressSpaces.Valid, OwnPages, AllSane, IndexOf, LoadersAgree, Accepted, LoadedPages, Clash, LoadStep,
        AccessAsAsked;
    hide Flat, Wrap, SpansNothing, Blocked, Lookup, WalkStep, Whole, AllFit, AllLoadable, InsideImage, Holding;
    hide Keeps, Live, PagesBacked, Heap.Valid, Heap.Listed, Heap.Stuck, Coalesced, VmaTable.Valid;
    var image: LoadedImage;
    status, image, o := Load(heap, process.pageTable, file);
    if !status.Success? {
      return;
    }
    heap.WhenValid();
    status := Enter(heap.vm, process, image);
    heap.WhenValid();
  }

  // ----- a file that takes a page from the heap -----

  /** A heap of two pages, a process root that shares its slot, and one free frame. */
  ghost function SharedSlot(): Snapshot {
    Snapshot(map[1 := Zeros()[288 := TableEntry(2)], 5 := Zeros()[288 := TableEntry(2)],
                 2 := Zeros()[0 := TableEntry(3)], 3 := Zeros()[0 := TableEntry(4)],
                 4 := Zeros()[0 := LeafEntry(1000, WRITABLE)][1 := LeafEntry(1001, WRITABLE)]],
             map[1 := Root, 5 := Root, 2 := Pdpt(288, 1), 3 := Pd(2, 0), 4 := Pt(3, 0)], 1, {7})
  }

  /** A file with one segment of one page, which starts where the heap does. */
  function HeapFile(): ElfFile {
    ElfFile(Elfs.Header([0x7F, 0x45, 0x4C, 0x46, 2, 1, 0, 0, 0, 0, 0, 0, 0, 0, 0, 0], 2, 62, 1, HEAP_START),
            [Segment(1, 0, 0, HEAP_START, PAGE_SIZE, PAGE_SIZE)],
            seq(PAGE_SIZE, i => if i == 0 then 1 else 0))
  }

  lemma SharedSlotSound()
    ensures Sound(SharedSlot())
  {
    var s := SharedSlot();
    forall f, i | f in s.node && At(s.tables, f, i).present ensures Link(s.tables, s.node, s.kernel, f, i) {
    }
  }

  lemma SharedSlotBacked()
    ensures var s := SharedSlot();
            && PagesBacked(s, [1000, 1001]) && RoomForPage(s, 5, HeapIndex(0)) && Affected(s.tables, 1, 5, HeapIndex(0))
  {
    hide HeapIndex;
    var s := SharedSlot();
    HeapIndexDigits(0);
    HeapIndexDigits(1);
    assert PageBacked(s, 0, 1000) && PageBacked(s, 1, 1001);
  }

  lemma HeapFileSane()
    ensures var file := HeapFile();
            && Accepted(file.header) && AllSane(file) && OwnPages(file) && AllLoadable(file) && AllFit(file)
  {
    var file := HeapFile();
    forall k | Loads(file, k) ensures Sane(file.segments[k], file.bytes) {
      assert k == 0;
    }
  }

  lemma HeapFileClashes(frames: seq<seq<nat>>)
    requires |frames| == 1 && |frames[0]| == 1
    ensures var s := SharedSlot(); Clash(s.tables, s.kernel, 5, 2, LoadedPages(HeapFile(), frames))
  {
    hide IndexOf;
    SharedSlotBacked();
    var seg := HeapFile().segments[0];
    assert PageIndex(seg, 0) in LoadedPages(HeapFile(), frames) && PageIndex(seg, 0) == HeapIndex(0) by {
      assert PageAddress(seg, 0) == HEAP_START;
    }
  }

  /** There is room to load that file, and once it is loaded the first heap page is gone: the kernel reads the
      process's page in its place, and with it other bytes of the flat image than the process does. */
  lemma ClashHappens(d: Frames, u: Snapshot, d': Frames, frames: seq<seq<nat>>, heap: map<nat, u8>)
    requires var s, file := SharedSlot(), HeapFile();
             && AllLoadable(file) && FileBacked(u, d', 5, file, frames) && Whole(file, frames)
             && Touches(s, d, u, d', 5, LoadedPages(file, frames), AllFrames(frames))
    ensures var s, file := SharedSlot(), HeapFile();
            && Sound(s) && PagesBacked(s, [1000, 1001]) && RoomForPage(s, 5, HeapIndex(0))
            && Accepted(file.header) && AllSane(file) && OwnPages(file)
            && Clash(s.tables, s.kernel, 5, 2, LoadedPages(file, frames)) && !PagesBacked(u, [1000, 1001])
            && AllFit(file) && !LoadersAgree(u.tables, Memory([1000, 1001], heap, d'), 1, 5, file,
                                             LoadedImage(HEAP_START + HEADER, PAGE_SIZE, HEAP_START, HEAP_START))
  {
    hide Touches, PagesBacked, Clash, Sound, FileBacked, LoadedPages, SharedSlot, HeapFile, LoadersAgree, RoomForPage;
    hide AllSane, OwnPages, Accepted, AllLoadable, Whole, HeapIndex;
    SharedSlotSound();
    SharedSlotBacked();
    HeapFileSane();
    var f := OnlyPage(u, d', frames);
    HeapFileClashes(frames);
    var s, file := SharedSlot(), HeapFile();
    assert IsRoot(s.node, 5) by { SharedFree(); }
    HeapBroken(s, d, u, d', 5, file, frames, [1000, 1001]);
    KernelReadsPage(d, u, d', frames, heap, f);
    KernelDisagrees(u, Memory([1000, 1001], heap, d'));
  }

  /** The kernel reads the process's page where the heap was. */
  lemma KernelReadsPage(d: Frames, u: Snapshot, d': Frames, frames: seq<seq<nat>>, heap: map<nat, u8>, f: nat)
    requires var s, file := SharedSlot(), HeapFile();
             |frames| == 1 && Touches(s, d, u, d', 5, LoadedPages(file, frames), AllFrames(frames))
    requires frames[0] == [f] && f in d' && |d'[f]| == PAGE_SIZE && d'[f][HEADER] == 0
    requires var leaf := Lookup(u.tables, 5, HeapIndex(0));
             leaf.Some? && leaf.value.level == 1 && leaf.value.entry.frame == f
    ensures Reads(u.tables, Memory([1000, 1001], heap, d'), 1, HEAP_START + HEADER) == Some(0)
  {
    hide Touches, PagesBacked, SharedSlot, Lookup, IndexOf, LoadedPages;
    var s, file := SharedSlot(), HeapFile();
    SharedSlotBacked();
    FramesApart(s, d, u, d', 5, LoadedPages(file, frames), AllFrames(frames), [1000, 1001]);
    assert f in frames[0] && f in AllFrames(frames);
    assert 1000 in [1000, 1001] && 1001 in [1000, 1001];
    KernelSeesPage(s, d, u, d', LoadedPages(file, frames), AllFrames(frames));
    SamePage(HEAP_START + HEADER, HEAP_START);
    assert HeapIndex(0) == IndexOf(HEAP_START) == IndexOf(HEAP_START + HEADER);
    assert (HEAP_START + HEADER) % PAGE_SIZE == HEADER;
  }

  lemma KernelDisagrees(u: Snapshot, m: Memory)
    requires AllFit(HeapFile()) && Reads(u.tables, m, 1, HEAP_START + HEADER) == Some(0)
    ensures !LoadersAgree(u.tables, m, 1, 5, HeapFile(),
                          LoadedImage(HEAP_START + HEADER, PAGE_SIZE, HEAP_START, HEAP_START))
  {
    hide Reads;
    var file := HeapFile();
    assert Loads(file, 0) && 0 < file.segments[0].memsz && SegmentByte(file.segments[0], file.bytes, 0) == 1;
    assert !AgreeAt(u.tables, m, 1, 5, file.segments[0], file.bytes,
                    LoadedImage(HEAP_START + HEADER, PAGE_SIZE, HEAP_START, HEAP_START), 0);
  }

  /** The file's only page. */
  lemma OnlyPage(u: Snapshot, d: Frames, frames: seq<seq<nat>>) returns (f: nat)
    requires var file := HeapFile(); AllLoadable(file) && FileBacked(u, d, 5, file, frames) && Whole(file, frames)
    ensures |frames| == 1 && frames[0] == [f] && f in d && |d[f]| == PAGE_SIZE
    ensures var seg := HeapFile().segments[0];
            && Lookup(u.tables, 5, HeapIndex(0)) == Some(Leaf(UserPage(seg, f), 1))
            && d[f][HEADER] == 0
  {
    hide Lookup, UserPage, IndexOf;
    var file := HeapFile();
    var seg := file.segments[0];
    assert Loads(file, 0) && PageCount(seg) == 1;
    f := frames[0][0];
    assert Backed(u, d, 5, seg, file.bytes, 0, f);
    assert InSegment(seg, 0 * PAGE_SIZE + HEADER);
    assert SegmentByte(seg, file.bytes, HEADER) == 0;
  }

  lemma KernelSeesPage(s: Snapshot, d: Frames, u: Snapshot, d': Frames, pages: set<Index>, taken: set<nat>)
    requires s == SharedSlot() && Touches(s, d, u, d', 5, pages, taken)
    ensures u.kernel == 1 && Lookup(u.tables, 1, HeapIndex(0)) == Lookup(u.tables, 5, HeapIndex(0))
  {
    hide Lookup, HeapIndex;
    HeapIndexDigits(0);
    SharingStays(s, u, 1, 5, HeapIndex(0));
    SharedLookup(u.tables, 1, 5, HeapIndex(0));
  }

  /** The state that loading the file leads to. */
  ghost function Taken(): Snapshot {
    var s := SharedSlot();
    s.(tables := Write(s.tables, 4, 0, UserPage(HeapFile().segments[0], 7)), free := {})
  }

  lemma TakenMaps()
    ensures var s := SharedSlot();
            MapStep(s.(free := s.free - {7}), Taken(), 5, HeapIndex(0), UserPage(HeapFile().segments[0], 7), true)
  {
    hide HeapIndex, LeafEntry, MapStep;
    var s := SharedSlot();
    var t := s.(free := s.free - {7});
    SharedSlotSound();
    HeapIndexDigits(0);
    GrowsReflexive(t);
    assert Reach(t.tables, 5, HeapIndex(0)) == Some(4);
    MappedHasRoom(t, 5, HeapIndex(0));
    WalkThenWrite(t, t, 5, HeapIndex(0), UserPage(HeapFile().segments[0], 7));
  }

  /** Loading the file can end in such a state: the premises of `ClashHappens` are met. */
  lemma ClashReached(d: Frames)
    ensures var s, file, u, d' := SharedSlot(), HeapFile(), Taken(), d[7 := HeapFile().bytes];
            && AllLoadable(file) && FileBacked(u, d', 5, file, [[7]]) && Whole(file, [[7]])
            && Touches(s, d, u, d', 5, LoadedPages(file, [[7]]), AllFrames([[7]]))
  {
    hide MapStep, SharedSlot, Taken, Touches, Sound, IndexOf, Lookup;
    var s, file, u := SharedSlot(), HeapFile(), Taken();
    var seg := file.segments[0];
    SharedSlotSound();
    HeapFileSane();
    TakenMaps();
    SharedFree();
    assert PageIndex(seg, 0) == HeapIndex(0) by { assert PageAddress(seg, 0) == HEAP_START; }
    assert PageCount(seg) == 1 && !Writable(seg);
    PageMapped(s, d, u, 5, seg, file.bytes, 0, 7, file.bytes);
    assert LoadedPages(file, [[7]]) == {PageIndex(seg, 0)} && AllFrames([[7]]) == {7} by {
      assert [[7]][0] == [7] && 7 in [[7]][0];
    }
    assert forall k :: Loads(file, k) ==> k == 0;
  }

  lemma SharedFree()
    ensures SharedSlot().free == {7} && IsRoot(SharedSlot().node, 5)
  {
  }
}
