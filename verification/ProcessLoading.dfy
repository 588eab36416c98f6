/** The page-wise ELF loader of kernel/src/process: segments are copied page by page into fresh frames
    mapped under the process's own root. */
module ProcessLoading {
  import opened Options
  import opened Machine
  import opened Pmms
  import opened PageBits
  import opened PageTrees
  import opened PageTables
  import opened HeapPages
  import opened Elfs

  type Frames = map<nat, seq<u8>>

  function PageCount(seg: Segment): nat {
    (seg.memsz + PAGE_SIZE - 1) / PAGE_SIZE
  }

  function PageAddress(seg: Segment, p: nat): nat {
    seg.vaddr + p * PAGE_SIZE
  }

  function PageIndex(seg: Segment, p: nat): Index {
    IndexOf(PageAddress(seg, p))
  }

  predicate Writable(seg: Segment) {
    seg.flags & PF_W != 0
  }

  /** The leaf that a loaded page has: open to user mode, and writable if and only if bit 1 of the segment's
      flags says so. */
  function UserPage(seg: Segment, frame: nat): PageEntry {
    Entry(true, seg.flags & 2 != 0, true, false, frame, 0)
  }

  lemma UserPageEntry(seg: Segment, frame: nat)
    requires frame < 0x100_0000_0000
    ensures EntryOf(UserWord(FrameAddress(frame), Writable(seg))) == UserPage(seg, frame)
  {
    hide EntryOf, UserWord, FrameAddress;
    UserOfFrame(frame, Writable(seg));
  }

  /** No page, taken as bits 12 to 47 of its address, is claimed twice by the loaded segments. */
  ghost predicate OwnPages(file: ElfFile) {
    forall k, l, p: nat, q: nat ::
      && Loads(file, k) && Loads(file, l) && p < PageCount(file.segments[k]) && q < PageCount(file.segments[l])
      && PageBitsOf(PageAddress(file.segments[k], p)) == PageBitsOf(PageAddress(file.segments[l], q))
      ==> k == l && p == q
  }

  /** Offset `j` lies in the segment's file contents or in its memory. */
  predicate InSegment(seg: Segment, j: nat) {
    j < seg.filesz || j < seg.memsz
  }

  ghost predicate PageHolds(content: seq<u8>, seg: Segment, bytes: seq<u8>, p: nat)
    requires Loadable(seg, bytes)
  {
    && |content| == PAGE_SIZE
    && forall k :: 0 <= k < PAGE_SIZE && InSegment(seg, p * PAGE_SIZE + k) ==>
         content[k] == SegmentByte(seg, bytes, p * PAGE_SIZE + k)
  }

  /** Page `p` of the segment is mapped for user mode to `frame`, which is neither free nor a page table and
      holds it. */
  ghost predicate Backed(s: Snapshot, data: Frames, root: nat, seg: Segment, bytes: seq<u8>, p: nat, frame: nat)
    requires Loadable(seg, bytes)
  {
    && Lookup(s.tables, root, PageIndex(seg, p)) == Some(Leaf(UserPage(seg, frame), 1))
    && frame !in s.free && frame !in s.node && frame < BITMAP_MAX_BITS
    && frame in data && PageHolds(data[frame], seg, bytes, p)
  }

  /** What loading may touch: only addresses in `pages`, only under the root and those that share the slot,
      and only frames that were free. Of the frames it took, those in `frames` hold data and the rest are
      the new page tables. */
  ghost predicate Touches(s: Snapshot, data: Frames, u: Snapshot, data': Frames, root: nat, pages: set<Index>,
                          frames: set<nat>) {
    && Remaps(s, u, root, pages) && Accounts(s, u, frames, {})
    && (forall f :: f in data && f !in s.free ==> f in data' && data'[f] == data[f])
  }

  lemma TouchesNothing(s: Snapshot, d: Frames, root: nat, pages: set<Index>)
    ensures Touches(s, d, s, d, root, pages, {})
  {
    RemapsNothing(s, root, pages);
  }

  lemma RootStays(s: Snapshot, d: Frames, u: Snapshot, d': Frames, root: nat, pages: set<Index>, frames: set<nat>)
    requires Touches(s, d, u, d', root, pages, frames) && IsRoot(s.node, root)
    ensures IsRoot(u.node, root)
  {
  }

  lemma TouchesTransitive(s: Snapshot, d: Frames, u: Snapshot, d': Frames, v: Snapshot, d'': Frames, root: nat,
                          x: set<Index>, f: set<nat>, y: set<Index>, g: set<nat>)
    requires Touches(s, d, u, d', root, x, f) && Touches(u, d', v, d'', root, y, g)
    requires IsRoot(s.node, root) && Sound(s) && Sound(u)
    ensures Touches(s, d, v, d'', root, x + y, f + g)
  {
    hide Accounts, Remaps, Tree;
    AccountsTransitive(s, u, v, f, g, {});
    RemapsTransitive(s, u, v, root, x, y);
    NotFreed(s, u, f);
  }

  lemma NotFreed(s: Snapshot, u: Snapshot, frames: set<nat>)
    requires Accounts(s, u, frames, {})
    ensures forall f :: f !in s.free ==> f !in u.free
  {
  }

  lemma BackedStays(s: Snapshot, d: Frames, u: Snapshot, d': Frames, pages: set<Index>, frames: set<nat>,
                    root: nat, seg: Segment, bytes: seq<u8>, p: nat, frame: nat)
    requires Loadable(seg, bytes) && IsRoot(s.node, root) && Touches(s, d, u, d', root, pages, frames)
    requires Backed(s, d, root, seg, bytes, p, frame) && PageIndex(seg, p) !in pages
    ensures Backed(u, d', root, seg, bytes, p, frame)
  {
    hide Lookup, Evolves;
  }

  /** The outcome of one page: mapped and filled exactly when there is room, or refused with the data frame
      given back. */
  ghost predicate PageStep(s: Snapshot, d: Frames, u: Snapshot, d': Frames, root: nat, seg: Segment, bytes: seq<u8>,
                           p: nat, frame: nat, ok: bool)
    requires Loadable(seg, bytes)
  {
    && (ok <==> RoomForPage(s, root, PageIndex(seg, p)))
    && Touches(s, d, u, d', root, if ok then {PageIndex(seg, p)} else {}, if ok then {frame} else {})
    && (if ok then Backed(u, d', root, seg, bytes, p, frame)
        else SameView(s.tables, s.node, u.tables) && (|u.free| <= 1 || Large(u.tables, root, PageIndex(seg, p))))
  }

  /** The map step of a frame already taken remaps its page alone, and only when it succeeds. */
  lemma TakenRemaps(s: Snapshot, u: Snapshot, root: nat, x: Index, page: nat, e: PageEntry, ok: bool)
    requires MapStep(s.(free := s.free - {page}), u, root, x, e, ok)
    ensures Remaps(s, u, root, if ok then {x} else {})
    ensures forall free :: Remaps(s, u.(free := free), root, if ok then {x} else {})
  {
    hide Lookup, Evolves;
  }

  lemma PageMapped(s: Snapshot, d: Frames, u: Snapshot, root: nat, seg: Segment, bytes: seq<u8>, p: nat, page: nat,
                   content: seq<u8>)
    requires Loadable(seg, bytes) && Sound(s) && IsRoot(s.node, root) && page in s.free
    requires page < BITMAP_MAX_BITS && PageHolds(content, seg, bytes, p)
    requires MapStep(s.(free := s.free - {page}), u, root, PageIndex(seg, p),
        UserPage(seg, page), true)
    ensures PageStep(s, d, u, d[page := content], root, seg, bytes, p, page, true)
  {
    hide Tree, Lookup, Evolves, PageIndex, Large, Missing;
    TakenFrames(s, u, page);
    TakenRemaps(s, u, root, PageIndex(seg, p), page, UserPage(seg, page), true);
    RoomWithout(s, root, PageIndex(seg, p), page);
  }

  lemma PageRefused(s: Snapshot, d: Frames, u: Snapshot, root: nat, seg: Segment, bytes: seq<u8>, p: nat, page: nat)
    requires Loadable(seg, bytes) && Sound(s) && IsRoot(s.node, root) && page in s.free
    requires MapStep(s.(free := s.free - {page}), u, root, PageIndex(seg, p),
        UserPage(seg, page), false)
    ensures page !in u.node
    ensures PageStep(s, d, u.(free := u.free + {page}), d, root, seg, bytes, p, page, false)
  {
    hide Tree, Lookup, Evolves, PageIndex, Missing, UserPage, Backed;
    TakenFrames(s, u, page);
    TakenRemaps(s, u, root, PageIndex(seg, p), page, UserPage(seg, page), false);
    RoomWithout(s, root, PageIndex(seg, p), page);
    assert u.free == {} ==> u.free + {page} == {page};
    assert Lookup(u.tables, root, PageIndex(seg, p)) == Lookup(s.tables, root, PageIndex(seg, p));
  }

  lemma NoFrame(s: Snapshot, d: Frames, root: nat, seg: Segment, bytes: seq<u8>, p: nat)
    requires Loadable(seg, bytes) && s.free == {}
    ensures s.(free := s.free - {0}) == s && PageStep(s, d, s, d, root, seg, bytes, p, 0, false)
  {
    TouchesNothing(s, d, root, {});
  }

  /** The bytes that one page receives: process_loader.c:51-84 on the frame's HHDM view. */
  method FillPage(was: seq<u8>, seg: Segment, bytes: seq<u8>, p: nat) returns (content: seq<u8>)
    requires Loadable(seg, bytes) && |was| == PAGE_SIZE
    ensures PageHolds(content, seg, bytes, p)
    ensures forall k :: 0 <= k < PAGE_SIZE && !InSegment(seg, p * PAGE_SIZE + k) ==> content[k] == was[k]
  {
    var page := new u8[PAGE_SIZE](i requires 0 <= i < PAGE_SIZE => was[i]);
    var pageOffset := p * PAGE_SIZE;
    var toCopy := 0;
    if pageOffset < seg.filesz {
      toCopy := seg.filesz - pageOffset;
      if toCopy > PAGE_SIZE {
        toCopy := PAGE_SIZE;
      }
    }
    if toCopy > 0 {
      CopyBytes(page, 0, bytes, seg.offset + pageOffset, toCopy);
    }
    assert forall k :: 0 <= k < PAGE_SIZE ==>
      page[k] == page[..][k] == if k < toCopy then bytes[seg.offset + pageOffset + k] else was[k];
    var inMemory := 0;
    if pageOffset < seg.memsz {
      inMemory := seg.memsz - pageOffset;
      if inMemory > PAGE_SIZE {
        inMemory := PAGE_SIZE;
      }
    }
    if inMemory > toCopy {
      ZeroBytes(page, toCopy, inMemory - toCopy);
    }
    content := page[..];
  }

  lemma PageInRange(seg: Segment, bytes: seq<u8>, p: nat)
    requires Loadable(seg, bytes) && p < PageCount(seg)
    ensures p * PAGE_SIZE < seg.memsz && PageAddress(seg, p) < U64_LIMIT
  {
  }

  /** The map call on a fresh frame: process_loader.c:38-43. */
  method MapTaken(vm: AddressSpaces, root: nat, seg: Segment, bytes: seq<u8>, p: nat, page: nat) returns (ok: bool)
    requires vm.Valid() && IsRoot(vm.node, root) && Loadable(seg, bytes) && p < PageCount(seg) && page < BITMAP_MAX_BITS
    modifies vm`tables, vm`node
    modifies vm.pmm`freePages, vm.pmm`usedPages, vm.pmm`nextFree, vm.pmm.bitmap`clear, vm.pmm.bitmap.buffer
    ensures vm.Valid()
    ensures MapStep(old(vm.Snap()), vm.Snap(), root, PageIndex(seg, p), UserPage(seg, page), ok)
  {
    hide AddressSpaces.Valid, MapStep, UserPath, UserPage, EntryOf, UserWord, FrameAddress, MappedAs, MappedTo;
    hide FrameNumber, IndexOf;
    PageInRange(seg, bytes, p);
    UserPageEntry(seg, page);
    ok := vm.MapUser(root, PageAddress(seg, p), FrameAddress(page), Writable(seg));
  }

  /** Mapping and filling a fresh frame, or giving it back: process_loader.c:38-84. */
  method MapAndFill(vm: AddressSpaces, root: nat, seg: Segment, bytes: seq<u8>, p: nat, page: nat,
                    ghost s: Snapshot, ghost d: Frames) returns (ok: bool)
    requires vm.Valid() && IsRoot(vm.node, root) && Loadable(seg, bytes) && p < PageCount(seg)
    requires Sound(s) && page in s.free && page in vm.pmm.usable && 0 < page < vm.pmm.totalPages <= BITMAP_MAX_BITS
    requires vm.Snap() == s.(free := s.free - {page}) && vm.data == d && page in d && |d[page]| == PAGE_SIZE
    modifies vm`tables, vm`node, vm`data
    modifies vm.pmm`freePages, vm.pmm`usedPages, vm.pmm`nextFree, vm.pmm.bitmap`clear, vm.pmm.bitmap.buffer
    ensures vm.Valid() && PageStep(s, d, vm.Snap(), vm.data, root, seg, bytes, p, page, ok)
  {
    hide AddressSpaces.Valid, MapStep, PageStep, PageHolds, PageCount, UserPage, Tree, Loadable, PageIndex;
    ok := MapTaken(vm, root, seg, bytes, p, page);
    if !ok {
      PageRefused(s, d, vm.Snap(), root, seg, bytes, p, page);
      vm.GiveFrame(page);
      return;
    }
    var content := FillPage(vm.data[page], seg, bytes, p);
    PageMapped(s, d, vm.Snap(), root, seg, bytes, p, page, content);
    ContentSize(content, seg, bytes, p);
    vm.FillFrame(page, content);
  }

  lemma ContentSize(content: seq<u8>, seg: Segment, bytes: seq<u8>, p: nat)
    requires Loadable(seg, bytes) && PageHolds(content, seg, bytes, p)
    ensures |content| == PAGE_SIZE
  {
  }

  /** One pass of the page loop: process_loader.c:30-87. */
  method MapSegmentPage(vm: AddressSpaces, root: nat, seg: Segment, bytes: seq<u8>, p: nat)
      returns (ok: bool, frame: nat)
    requires vm.Valid() && IsRoot(vm.node, root) && Loadable(seg, bytes) && p < PageCount(seg)
    modifies vm`tables, vm`node, vm`data
    modifies vm.pmm`freePages, vm.pmm`usedPages, vm.pmm`nextFree, vm.pmm.bitmap`clear, vm.pmm.bitmap.buffer
    ensures vm.Valid() && PageStep(old(vm.Snap()), old(vm.data), vm.Snap(), vm.data, root, seg, bytes, p, frame, ok)
  {
    hide PageStep, PageCount, Tree, Loadable;
    ghost var s, d := vm.Snap(), vm.data;
    frame := vm.TakeFrame();
    if frame == 0 {
      NoFrame(s, d, root, seg, bytes, p);
      return false, 0;
    }
    ok := MapAndFill(vm, root, seg, bytes, p, frame, s, d);
  }

  /** The pages of the first `n` pages of a segment. */
  function SegmentPages(seg: Segment, n: nat): set<Index> {
    set p | 0 <= p < n :: PageIndex(seg, p)
  }

  /** Fewer than 2^36 pages of a segment have different indices. */
  lemma PagesDiffer(seg: Segment, p: nat, q: nat)
    requires p < q < 0x10_0000_0000
    ensures PageIndex(seg, p) != PageIndex(seg, q)
  {
    hide IndexOf;
    SamePage(PageAddress(seg, p), PageAddress(seg, q));
    assert PageAddress(seg, q) / PAGE_SIZE == PageAddress(seg, p) / PAGE_SIZE + (q - p);
  }

  /** The first |frames| pages of the segment are backed by those frames. */
  ghost predicate SegmentBacked(s: Snapshot, d: Frames, root: nat, seg: Segment, bytes: seq<u8>, frames: seq<nat>)
    requires Loadable(seg, bytes)
  {
    forall p :: 0 <= p < |frames| ==> Backed(s, d, root, seg, bytes, p, frames[p])
  }

  /** The segment is loaded up to |frames| pages, each into a frame of its own. */
  ghost predicate SegmentStep(s: Snapshot, d: Frames, u: Snapshot, d': Frames, root: nat, seg: Segment, bytes: seq<u8>,
                              frames: seq<nat>)
    requires Loadable(seg, bytes)
  {
    && |frames| <= PageCount(seg) && SegmentBacked(u, d', root, seg, bytes, frames) && NoRepeats(frames)
    && Touches(s, d, u, d', root, SegmentPages(seg, |frames|), Elements(frames))
  }

  lemma NextPage(s: Snapshot, d: Frames, u: Snapshot, d': Frames, v: Snapshot, d'': Frames, root: nat, seg: Segment,
                 bytes: seq<u8>, frames: seq<nat>, frame: nat, ok: bool)
    requires Loadable(seg, bytes) && IsRoot(s.node, root) && |frames| < PageCount(seg)
    requires Sound(s) && Sound(u) && SegmentStep(s, d, u, d', root, seg, bytes, frames)
    requires PageStep(u, d', v, d'', root, seg, bytes, |frames|, frame, ok)
    ensures SegmentStep(s, d, v, d'', root, seg, bytes, if ok then frames + [frame] else frames)
  {
    hide Backed, PageIndex, Large, Touches, Tree, RoomForPage, SegmentPages, Evolves;
    var x := if ok then {PageIndex(seg, |frames|)} else {};
    var more := if ok then frames + [frame] else frames;
    var taken := if ok then {frame} else {};
    RootStays(s, d, u, d', root, SegmentPages(seg, |frames|), Elements(frames));
    assert Touches(s, d, v, d'', root, SegmentPages(seg, |more|), Elements(more)) by {
      TouchesTransitive(s, d, u, d', v, d'', root, SegmentPages(seg, |frames|), Elements(frames), x, taken);
      SegmentPagesNext(seg, |frames|);
      assert SegmentPages(seg, |frames|) + x == SegmentPages(seg, |more|);
      assert Elements(frames) + taken == Elements(more);
    }
    FewFrames(u, d', root, seg, bytes, frames);
    forall p | 0 <= p < |frames| ensures Backed(v, d'', root, seg, bytes, p, frames[p]) {
      PagesDiffer(seg, p, |frames|);
      BackedStays(u, d', v, d'', x, taken, root, seg, bytes, p, frames[p]);
    }
    forall p | ok && 0 <= p < |frames| ensures frames[p] != frame {
      assert Backed(u, d', root, seg, bytes, p, frames[p]);
      TakenWasFree(u, d', v, d'', root, x, {frame}, frame);
      NotFree(u, d', root, seg, bytes, p, frames[p]);
    }
  }

  lemma FewFrames(s: Snapshot, d: Frames, root: nat, seg: Segment, bytes: seq<u8>, frames: seq<nat>)
    requires Loadable(seg, bytes) && SegmentBacked(s, d, root, seg, bytes, frames) && NoRepeats(frames)
    ensures |frames| <= BITMAP_MAX_BITS
  {
    hide Lookup, PageHolds;
    assert forall p :: 0 <= p < |frames| ==> Backed(s, d, root, seg, bytes, p, frames[p]);
    FramesBounded(frames);
  }

  lemma SegmentPagesNext(seg: Segment, n: nat)
    ensures SegmentPages(seg, n + 1) == SegmentPages(seg, n) + {PageIndex(seg, n)}
  {
    hide PageIndex;
  }

  lemma TakenWasFree(s: Snapshot, d: Frames, u: Snapshot, d': Frames, root: nat, pages: set<Index>, frames: set<nat>,
      f: nat)
    requires Touches(s, d, u, d', root, pages, frames) && f in frames
    ensures f in s.free
  {
  }

  lemma NotFree(s: Snapshot, d: Frames, root: nat, seg: Segment, bytes: seq<u8>, p: nat, frame: nat)
    requires Loadable(seg, bytes) && Backed(s, d, root, seg, bytes, p, frame)
    ensures frame !in s.free
  {
  }

  /** Some page of the segment lies inside a large mapping. */
  ghost predicate Blocked(t: Tables, root: nat, seg: Segment) {
    exists p: nat :: p < PageCount(seg) && Large(t, root, PageIndex(seg, p))
  }

  /** `process_map_segment`. On failure the pages mapped so far stay, and no frame is lost: each one taken
      is a page table or backs a page of the segment. */
  method MapSegment(vm: AddressSpaces, root: nat, seg: Segment, bytes: seq<u8>)
      returns (status: Status, ghost frames: seq<nat>)
    requires vm.Valid() && IsRoot(vm.node, root) && Loadable(seg, bytes)
    modifies vm`tables, vm`node, vm`data
    modifies vm.pmm`freePages, vm.pmm`usedPages, vm.pmm`nextFree, vm.pmm.bitmap`clear, vm.pmm.bitmap.buffer
    ensures vm.Valid() && SegmentStep(old(vm.Snap()), old(vm.data), vm.Snap(), vm.data, root, seg, bytes, frames)
    ensures status.Success? || status.NoMemory?
    ensures status.Success? ==> |frames| == PageCount(seg)
    ensures status.NoMemory? ==> |vm.pmm.Free()| <= 1 || Blocked(vm.tables, root, seg)
  {
    hide AddressSpaces.Valid, Backed, Touches, Large, SegmentStep, SegmentPages, Sound, RoomForPage;
    frames := [];
    ghost var s, d := vm.Snap(), vm.data;
    vm.IsSound();
    NoPages(s, d, root, seg, bytes);
    for i := 0 to PageCount(seg)
      invariant vm.Valid() && IsRoot(vm.node, root) && |frames| == i
      invariant SegmentStep(s, d, vm.Snap(), vm.data, root, seg, bytes, frames)
    {
      ghost var u, d' := vm.Snap(), vm.data;
      vm.IsSound();
      var ok, frame := MapSegmentPage(vm, root, seg, bytes, i);
      NextPage(s, d, u, d', vm.Snap(), vm.data, root, seg, bytes, frames, frame, ok);
      if !ok {
        return NoMemory, frames;
      }
      frames := frames + [frame];
      RootStays(u, d', vm.Snap(), vm.data, root, {PageIndex(seg, i)}, {frame});
    }
    return Success, frames;
  }

  lemma NoPages(s: Snapshot, d: Frames, root: nat, seg: Segment, bytes: seq<u8>)
    requires Loadable(seg, bytes)
    ensures SegmentStep(s, d, s, d, root, seg, bytes, [])
  {
    TouchesNothing(s, d, root, {});
    assert SegmentPages(seg, 0) == {};
  }

  /** The first |frames| segments are loaded as far as their frames go, and the others are not yet. */
  ghost predicate FileBacked(s: Snapshot, d: Frames, root: nat, file: ElfFile, frames: seq<seq<nat>>)
    requires AllLoadable(file)
  {
    && |frames| <= |file.segments|
    && (forall k :: Loads(file, k) && k < |frames| ==>
          && |frames[k]| <= PageCount(file.segments[k])
          && SegmentBacked(s, d, root, file.segments[k], file.bytes, frames[k]))
    && (forall k :: 0 <= k < |frames| && !Loads(file, k) ==> frames[k] == [])
  }

  /** Every page loaded so far is mapped to its frame, open to user mode, and writable if and only if bit 1 of
      its segment's flags is set. */
  ghost predicate AccessAsAsked(t: Tables, root: nat, file: ElfFile, frames: seq<seq<nat>>) {
    |frames| <= |file.segments| && forall k, p :: 0 <= k < |frames| && 0 <= p < |frames[k]| ==>
      PageAccess(t, root, file.segments[k], p, frames[k][p])
  }

  ghost predicate PageAccess(t: Tables, root: nat, seg: Segment, p: nat, frame: nat) {
    MappedAs(t, root, PageIndex(seg, p), seg.flags & 2 != 0, true) && MappedTo(t, root, PageIndex(seg, p), frame)
  }

  lemma BackedAccess(s: Snapshot, d: Frames, root: nat, file: ElfFile, frames: seq<seq<nat>>)
    requires AllLoadable(file) && FileBacked(s, d, root, file, frames)
    ensures AccessAsAsked(s.tables, root, file, frames)
  {
    hide Lookup, PageIndex, PageHolds, PageCount, Loadable;
    forall k, p | 0 <= k < |frames| && 0 <= p < |frames[k]|
      ensures PageAccess(s.tables, root, file.segments[k], p, frames[k][p])
    {
      assert Backed(s, d, root, file.segments[k], file.bytes, p, frames[k][p]);
    }
  }

  /** Every page of every loaded segment has its frame. */
  ghost predicate Whole(file: ElfFile, frames: seq<seq<nat>>) {
    |frames| == |file.segments| && forall k :: Loads(file, k) ==> |frames[k]| == PageCount(file.segments[k])
  }

  /** No frame serves two pages. */
  ghost predicate OwnFrames(frames: seq<seq<nat>>) {
    && (forall k :: 0 <= k < |frames| ==> NoRepeats(frames[k]))
    && (forall k, l, f :: 0 <= k < l < |frames| && f in frames[k] ==> f !in frames[l])
  }

  /** The frames of all pages. */
  function AllFrames(frames: seq<seq<nat>>): set<nat> {
    set k, f | 0 <= k < |frames| && f in frames[k] :: f
  }

  /** The pages loaded so far: as many of each segment as it has frames. */
  function LoadedPages(file: ElfFile, frames: seq<seq<nat>>): set<Index>
    requires |frames| <= |file.segments|
  {
    set k, p | 0 <= k < |frames| && 0 <= p < |frames[k]| :: PageIndex(file.segments[k], p)
  }

  lemma LoadedPagesSnoc(file: ElfFile, frames: seq<seq<nat>>, own: seq<nat>)
    requires |frames| < |file.segments|
    ensures LoadedPages(file, frames + [own]) ==
            LoadedPages(file, frames) + SegmentPages(file.segments[|frames|], |own|)
  {
    hide PageIndex;
    var all := frames + [own];
    forall x ensures x in LoadedPages(file, all) <==>
        x in LoadedPages(file, frames) + SegmentPages(file.segments[|frames|], |own|) {
      if x in LoadedPages(file, frames) {
        var k, p :| 0 <= k < |frames| && 0 <= p < |frames[k]| && PageIndex(file.segments[k], p) == x;
        assert all[k] == frames[k];
      }
      if x in SegmentPages(file.segments[|frames|], |own|) {
        assert all[|frames|] == own;
      }
    }
  }

  lemma AllFramesSnoc(frames: seq<seq<nat>>, own: seq<nat>)
    ensures AllFrames(frames + [own]) == AllFrames(frames) + Elements(own)
  {
    var all := frames + [own];
    forall f ensures f in AllFrames(all) <==> f in AllFrames(frames) + Elements(own) {
      if f in AllFrames(frames) {
        var k :| 0 <= k < |frames| && f in frames[k];
        assert f in all[k];
      }
      if f in own {
        assert f in all[|frames|];
      }
    }
  }

  /** Pages of different segments have different indices. */
  lemma OwnPagesApart(file: ElfFile, k: int, l: int)
    requires OwnPages(file) && Loads(file, k) && Loads(file, l)
    requires k != l
    ensures forall p: nat :: p < PageCount(file.segments[k]) ==>
      PageIndex(file.segments[k], p) !in SegmentPages(file.segments[l], PageCount(file.segments[l]))
  {
    hide IndexOf, PageBitsOf, PageAddress, PageCount;
    forall p: nat, q: nat ensures PageIndex(file.segments[k], p) == PageIndex(file.segments[l], q) <==>
        PageBitsOf(PageAddress(file.segments[k], p)) == PageBitsOf(PageAddress(file.segments[l], q)) {
      SamePage(PageAddress(file.segments[k], p), PageAddress(file.segments[l], q));
    }
  }

  lemma NextSegment(u: Snapshot, d: Frames, v: Snapshot, d': Frames, root: nat, file: ElfFile,
                    frames: seq<seq<nat>>, own: seq<nat>)
    requires AllLoadable(file) && OwnPages(file) && IsRoot(u.node, root) && Loads(file, |frames|)
    requires FileBacked(u, d, root, file, frames) && OwnFrames(frames)
    requires SegmentStep(u, d, v, d', root, file.segments[|frames|], file.bytes, own)
    ensures FileBacked(v, d', root, file, frames + [own]) && OwnFrames(frames + [own])
  {
    hide Backed, PageIndex, SegmentPages, OwnPages, PageCount, Touches, Loadable, NoRepeats;
    var i := |frames|;
    forall k | Loads(file, k) && k < i ensures SegmentBacked(v, d', root, file.segments[k], file.bytes, frames[k]) {
      SegmentStays(u, d, v, d', root, file, k, i, frames[k], own);
    }
    forall k, f | 0 <= k < i && f in frames[k] ensures f !in own {
      EarlierNotFree(u, d, root, file, frames, k, f);
      if f in own {
        TakenWasFree(u, d, v, d', root, SegmentPages(file.segments[i], |own|), Elements(own), f);
      }
    }
  }

  lemma SegmentStays(u: Snapshot, d: Frames, v: Snapshot, d': Frames, root: nat, file: ElfFile, k: int, i: int,
                     frames: seq<nat>, own: seq<nat>)
    requires AllLoadable(file) && OwnPages(file) && IsRoot(u.node, root) && Loads(file, k) && Loads(file, i) && k != i
    requires |frames| <= PageCount(file.segments[k])
    requires SegmentBacked(u, d, root, file.segments[k], file.bytes, frames)
    requires SegmentStep(u, d, v, d', root, file.segments[i], file.bytes, own)
    ensures SegmentBacked(v, d', root, file.segments[k], file.bytes, frames)
  {
    hide Backed, PageIndex, SegmentPages, OwnPages, PageCount, Touches, Loadable, NoRepeats;
    OwnPagesApart(file, k, i);
    FewerPages(file.segments[i], |own|, PageCount(file.segments[i]));
    forall p | 0 <= p < |frames| ensures Backed(v, d', root, file.segments[k], file.bytes, p, frames[p]) {
      BackedStays(u, d, v, d', SegmentPages(file.segments[i], |own|), Elements(own),
                  root, file.segments[k], file.bytes, p, frames[p]);
    }
  }

  lemma FewerPages(seg: Segment, m: nat, n: nat)
    requires m <= n
    ensures SegmentPages(seg, m) <= SegmentPages(seg, n)
  {
    hide PageIndex;
  }

  lemma EarlierNotFree(u: Snapshot, d: Frames, root: nat, file: ElfFile, frames: seq<seq<nat>>, k: nat, f: nat)
    requires AllLoadable(file) && FileBacked(u, d, root, file, frames) && k < |frames| && f in frames[k]
    ensures f !in u.free
  {
    hide Backed, PageCount, Loadable;
    var p :| 0 <= p < |frames[k]| && frames[k][p] == f;
    NotFree(u, d, root, file.segments[k], file.bytes, p, f);
  }

  lemma SkipSegment(u: Snapshot, d: Frames, root: nat, file: ElfFile, frames: seq<seq<nat>>)
    requires AllLoadable(file) && FileBacked(u, d, root, file, frames) && OwnFrames(frames)
    requires |frames| < |file.segments| && !Loads(file, |frames|)
    ensures FileBacked(u, d, root, file, frames + [[]]) && OwnFrames(frames + [[]])
    ensures AllFrames(frames + [[]]) == AllFrames(frames)
    ensures LoadedPages(file, frames + [[]]) == LoadedPages(file, frames)
  {
    hide SegmentBacked, PageCount, Loadable, PageIndex;
    AllFramesSnoc(frames, []);
    LoadedPagesSnoc(file, frames, []);
  }

  lemma SegmentTouches(s: Snapshot, d: Frames, u: Snapshot, d': Frames, v: Snapshot, d'': Frames, root: nat,
                       file: ElfFile, frames: seq<seq<nat>>, own: seq<nat>)
    requires AllLoadable(file) && Loads(file, |frames|) && Sound(s) && Sound(u) && IsRoot(s.node, root)
    requires Touches(s, d, u, d', root, LoadedPages(file, frames), AllFrames(frames))
    requires SegmentStep(u, d', v, d'', root, file.segments[|frames|], file.bytes, own)
    ensures Touches(s, d, v, d'', root, LoadedPages(file, frames + [own]), AllFrames(frames + [own]))
  {
    hide Touches, Tree, SegmentBacked, SegmentPages, LoadedPages, AllFrames, PageCount, Loadable;
    TouchesTransitive(s, d, u, d', v, d'', root, LoadedPages(file, frames), AllFrames(frames),
                      SegmentPages(file.segments[|frames|], |own|), Elements(own));
    LoadedPagesSnoc(file, frames, own);
    AllFramesSnoc(frames, own);
  }

  /** The segment loop of process_exec: process_exec.c:25-41. In every outcome the frames taken are the new
      page tables and the frames of the pages loaded, one for each. */
  method MapSegments(vm: AddressSpaces, root: nat, file: ElfFile) returns (status: Status, ghost frames: seq<seq<nat>>)
    requires vm.Valid() && IsRoot(vm.node, root) && AllLoadable(file) && OwnPages(file)
    modifies vm`tables, vm`node, vm`data
    modifies vm.pmm`freePages, vm.pmm`usedPages, vm.pmm`nextFree, vm.pmm.bitmap`clear, vm.pmm.bitmap.buffer
    ensures vm.Valid() && IsRoot(vm.node, root) && |frames| <= |file.segments|
    ensures FileBacked(vm.Snap(), vm.data, root, file, frames) && OwnFrames(frames)
    ensures Touches(old(vm.Snap()), old(vm.data), vm.Snap(), vm.data, root, LoadedPages(file, frames),
                    AllFrames(frames))
    ensures AccessAsAsked(vm.tables, root, file, frames)
    ensures status.Success? || status.NoMemory?
    ensures status.Success? ==> Whole(file, frames)
    ensures status.NoMemory? ==>
      |vm.pmm.Free()| <= 1 || exists k :: Loads(file, k) && Blocked(vm.tables, root, file.segments[k])
  {
    hide AddressSpaces.Valid, Touches, SegmentStep, OwnPages, Loadable, PageCount, Blocked, LoadedPages, Sound;
    hide OwnFrames, AllFrames, SegmentBacked, AccessAsAsked;
    frames := [];
    ghost var s, d := vm.Snap(), vm.data;
    vm.IsSound();
    NoSegments(s, d, root, file);
    for i := 0 to |file.segments|
      invariant vm.Valid() && IsRoot(vm.node, root) && |frames| == i
      invariant FileBacked(vm.Snap(), vm.data, root, file, frames) && OwnFrames(frames)
      invariant Touches(s, d, vm.Snap(), vm.data, root, LoadedPages(file, frames), AllFrames(frames))
      invariant forall k :: Loads(file, k) && k < i ==> |frames[k]| == PageCount(file.segments[k])
    {
      if file.segments[i].kind != PT_LOAD {
        SkipSegment(vm.Snap(), vm.data, root, file, frames);
        frames := frames + [[]];
        continue;
      }
      assert Loads(file, i);
      ghost var u, d' := vm.Snap(), vm.data;
      vm.IsSound();
      ghost var own: seq<nat>;
      status, own := MapSegment(vm, root, file.segments[i], file.bytes);
      SegmentTouches(s, d, u, d', vm.Snap(), vm.data, root, file, frames, own);
      NextSegment(u, d', vm.Snap(), vm.data, root, file, frames, own);
      frames := frames + [own];
      RootStays(s, d, vm.Snap(), vm.data, root, LoadedPages(file, frames), AllFrames(frames));
      if !status.Success? {
        BackedAccess(vm.Snap(), vm.data, root, file, frames);
        return;
      }
    }
    BackedAccess(vm.Snap(), vm.data, root, file, frames);
    status := Success;
  }

  lemma NoSegments(s: Snapshot, d: Frames, root: nat, file: ElfFile)
    requires AllLoadable(file)
    ensures FileBacked(s, d, root, file, []) && OwnFrames([])
    ensures Touches(s, d, s, d, root, LoadedPages(file, []), AllFrames([]))
  {
    assert LoadedPages(file, []) == {} && AllFrames([]) == {};
    TouchesNothing(s, d, root, {});
  }

  /** The start of the page in which the segment starts. */
  function PageStart(seg: Segment): nat {
    seg.vaddr - seg.vaddr % PAGE_SIZE
  }

  /** An address inside a page has the page's indices. */
  lemma InsidePage(seg: Segment, j: nat)
    requires j < seg.memsz
    ensures IndexOf(PageStart(seg) + j) == PageIndex(seg, j / PAGE_SIZE) && j / PAGE_SIZE < PageCount(seg)
    ensures (PageStart(seg) + j) % PAGE_SIZE == j % PAGE_SIZE
  {
    hide IndexOf;
    SamePage(PageStart(seg) + j, PageAddress(seg, j / PAGE_SIZE));
    var p := j / PAGE_SIZE;
    assert (PageStart(seg) + j) / PAGE_SIZE == seg.vaddr / PAGE_SIZE + p == PageAddress(seg, p) / PAGE_SIZE;
  }
}
