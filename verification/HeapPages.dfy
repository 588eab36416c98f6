/** The frames under the kernel heap: heap_commit_page of kernel/src/mm/heap.c, what it takes from the page
    allocator, and what it loses. */
module HeapPages {
  import opened Options
  import opened Machine
  import opened Pmms
  import opened PageBits
  import opened PageTrees
  import opened PageTables
  import opened Vmas
  import opened HeapBlocks

  const HEAP_START: nat := 0xFFFF_9000_0000_0000

  /** The table indices of heap page `i`. */
  function HeapIndex(i: nat): Index {
    IndexOf(HEAP_START + GROW_SIZE * i)
  }

  lemma HeapIndexUnique(i: nat, j: nat)
    requires i <= BITMAP_MAX_BITS && j <= BITMAP_MAX_BITS && HeapIndex(i) == HeapIndex(j)
    ensures i == j
  {
    hide IndexOf;
    SamePage(HEAP_START + GROW_SIZE * i, HEAP_START + GROW_SIZE * j);
    HeapPageBits(i);
    HeapPageBits(j);
  }

  lemma HeapPageBits(i: nat)
    requires i <= BITMAP_MAX_BITS
    ensures PageBitsOf(HEAP_START + GROW_SIZE * i) == 0x9_0000_0000 + i
  {
  }

  /** A page can be committed: one frame for it and one for every missing table, and no large page. */
  ghost predicate CanCommit(s: Snapshot, x: Index) {
    RoomForPage(s, s.kernel, x)
  }

  /** The outcome of heap_commit_page. It succeeds exactly when there is room; then the page maps to a frame
      of its own and nothing else changes. Otherwise no translation changes, and one frame is lost exactly
      when there was one to take. */
  ghost predicate CommitStep(s: Snapshot, u: Snapshot, x: Index, page: nat, lost: set<nat>) {
    && (page != 0 <==> CanCommit(s, x))
    && Accounts(s, u, if page == 0 then {} else {page}, lost)
    && (lost != {} <==> page == 0 && s.free != {}) && |lost| <= 1
    && Remaps(s, u, s.kernel, {x})
    && if page != 0
       then MapsExactly(s.tables, s.node, u.tables, s.kernel, x, Some(Leaf(LeafEntry(page, WRITABLE), 1)))
       else SameView(s.tables, s.node, u.tables) && (u.free == {} || Large(u.tables, s.kernel, x))
  }

  lemma CommitFacts(s: Snapshot, u: Snapshot, x: Index, page: nat, lost: set<nat>)
    requires CommitStep(s, u, x, page, lost)
    ensures (page != 0 <==> CanCommit(s, x)) && u.kernel == s.kernel
    ensures page == 0 ==> u.free == {} || Large(u.tables, u.kernel, x)
  {
  }

  lemma CommitRemaps(s: Snapshot, u: Snapshot, x: Index, page: nat, ok: bool)
    requires MapStep(s.(free := s.free - {page}), u, s.kernel, x, LeafEntry(page, WRITABLE), ok)
    ensures Remaps(s, u, s.kernel, {x})
  {
    hide Lookup, Evolves, MapsExactly, SameView;
    MapRemaps(s.(free := s.free - {page}), u, s.kernel, x, LeafEntry(page, WRITABLE), ok);
  }

  lemma CommitMapped(s: Snapshot, u: Snapshot, x: Index, page: nat)
    requires Sound(s) && page in s.free && page != 0
    requires MapStep(s.(free := s.free - {page}), u, s.kernel, x, LeafEntry(page, WRITABLE), true)
    ensures CommitStep(s, u, x, page, {}) && |u.free| < |s.free|
  {
    hide Tree, Large, Missing, SameView, MapsExactly, Evolves, Accounts, TablesTaken, Remaps;
    TakenFrames(s, u, page);
    CommitRemaps(s, u, x, page, true);
    RoomWithout(s, s.kernel, x, page);
  }

  lemma CommitFailed(s: Snapshot, u: Snapshot, x: Index, page: nat)
    requires Sound(s) && page in s.free && page != 0
    requires MapStep(s.(free := s.free - {page}), u, s.kernel, x, LeafEntry(page, WRITABLE), false)
    ensures CommitStep(s, u, x, 0, {page})
  {
    hide Tree, Large, Missing, SameView, MapsExactly, Evolves, LeafEntry, Accounts, Remaps;
    TakenFrames(s, u, page);
    CommitRemaps(s, u, x, page, false);
    RoomWithout(s, s.kernel, x, page);
    LargeSeen(s, u, x);
  }

  lemma LargeSeen(s: Snapshot, u: Snapshot, x: Index)
    requires Sound(s) && SameView(s.tables, s.node, u.tables)
    ensures Large(u.tables, s.kernel, x) <==> Large(s.tables, s.kernel, x)
  {
    hide Lookup;
    KernelRoot(s);
    assert Lookup(u.tables, s.kernel, x) == Lookup(s.tables, s.kernel, x);
  }

  /** The frame and the mapping of heap_commit_page. A frame whose mapping fails is not given back. */
  method CommitFrame(vm: AddressSpaces, va: u64) returns (page: nat, ghost lost: set<nat>)
    requires vm.Valid()
    modifies vm`tables, vm`node
    modifies vm.pmm`freePages, vm.pmm`usedPages, vm.pmm`nextFree, vm.pmm.bitmap`clear, vm.pmm.bitmap.buffer
    ensures vm.Valid() && CommitStep(old(vm.Snap()), vm.Snap(), IndexOf(va), page, lost)
    ensures page != 0 ==> page < BITMAP_MAX_BITS && |vm.pmm.Free()| < |old(vm.pmm.Free())|
  {
    hide MapStep, CommitStep, EntryOf, MapWord, LeafEntry, FrameAddress, IndexOf, Tree, Pmm.Valid, Pmm.Accounted;
    ghost var s := vm.Snap();
    page := vm.TakeFrame();
    if page == 0 {
      NoFrameToCommit(s, IndexOf(va));
      return 0, {};
    }
    WritableFlag();
    LeafOfFrame(page, WRITABLE);
    var ok := vm.MapPage(va, FrameAddress(page), true);
    if !ok {
      CommitFailed(s, vm.Snap(), IndexOf(va), page);
      return 0, {page};
    }
    CommitMapped(s, vm.Snap(), IndexOf(va), page);
    lost := {};
  }

  lemma NoFrameToCommit(s: Snapshot, x: Index)
    requires s.free == {}
    ensures s.(free := s.free - {0}) == s && CommitStep(s, s, x, 0, {})
  {
    RemapsNothing(s, s.kernel, {x});
  }

  // ----- the loss happens -----

  /** The first 513 heap pages lie below the same page directory, 512 to a table. */
  lemma HeapIndexDigits(i: nat)
    requires i <= 512
    ensures HeapIndex(i) == Index(288, 0, i / 512, i % 512)
  {
    hide IndexOf, PageBitsOf;
    HeapPageBits(i);
    PageBitsFromIndex(HEAP_START + GROW_SIZE * i);
    DigitsUnique(HeapIndex(i), Index(288, 0, i / 512, i % 512));
  }

  ghost function FullFrames(): seq<nat> {
    seq(512, i requires 0 <= i < 512 => 1000 + i)
  }

  /** A heap of 512 pages, which fill one page table, and one free frame. */
  ghost function FullTable(): Snapshot {
    Snapshot(map[1 := Zeros()[288 := TableEntry(2)], 2 := Zeros()[0 := TableEntry(3)], 3 := Zeros()[0 := TableEntry(4)],
                 4 := seq(512, i requires 0 <= i < 512 => LeafEntry(1000 + i, WRITABLE))],
             map[1 := Root, 2 := Pdpt(288, 1), 3 := Pd(2, 0), 4 := Pt(3, 0)], 1, {7})
  }

  lemma FullTableSound()
    ensures Sound(FullTable())
  {
    var s := FullTable();
    forall f, i | f in s.node && At(s.tables, f, i).present ensures Link(s.tables, s.node, s.kernel, f, i) {
    }
  }

  lemma FullTableBacked()
    ensures PagesBacked(FullTable(), FullFrames())
  {
    hide HeapIndex;
    var s := FullTable();
    forall i | 0 <= i < 512 ensures PageBacked(s, i, FullFrames()[i]) {
      HeapIndexDigits(i);
      assert At(s.tables, 4, i) == LeafEntry(1000 + i, WRITABLE);
    }
  }

  lemma FullTableMissing()
    ensures var s, x := FullTable(), HeapIndex(512);
            Missing(s.tables, s.kernel, x) == 1 && Lookup(s.tables, s.kernel, x) == None
  {
    hide HeapIndex;
    HeapIndexDigits(512);
  }

  /** Committing page 512 of such a heap takes the last frame, finds none for the second page table, and
      loses it; no other outcome is possible. */
  lemma LossHappens()
    ensures var s, x := FullTable(), HeapIndex(512);
            && Sound(s) && PagesBacked(s, FullFrames()) && CommitStep(s, s.(free := {}), x, 0, {7})
            && forall u, page, lost :: CommitStep(s, u, x, page, lost) ==>
                 page == 0 && lost == {7} && u.free == {}
  {
    hide SameView, MapsExactly, HeapIndex, PagesBacked, Remaps, Lookup, Missing, Sound;
    FullTableSound();
    FullTableBacked();
    FullTableMissing();
    var s, x := FullTable(), HeapIndex(512);
    assert s.free == {7} && s.kernel == 1;
    ViewItself(s);
    LosesFrame(s, x);
    forall u, page, lost | CommitStep(s, u, x, page, lost) ensures page == 0 && lost == {7} && u.free == {} {
      assert lost <= s.free;
      assert 7 in lost;
    }
  }

  /** Without room the frame taken is gone, and the tables stay. */
  lemma LosesFrame(s: Snapshot, x: Index)
    requires s.free == {7} && 7 !in s.node && !RoomForPage(s, s.kernel, x)
    ensures CommitStep(s, s.(free := {}), x, 0, {7})
  {
    hide Lookup, Missing, Large;
    ViewItself(s);
    RemapsNothing(s, s.kernel, {x});
  }

  lemma ViewItself(s: Snapshot)
    ensures SameView(s.tables, s.node, s.tables)
  {
  }

  /** Heap page i is mapped under the kernel root to its own writable frame, which is neither free nor a
      page table. */
  ghost predicate PagesBacked(s: Snapshot, frames: seq<nat>) {
    && (forall i :: 0 <= i < |frames| ==> PageBacked(s, i, frames[i]))
    && NoRepeats(frames)
  }

  ghost predicate PageBacked(s: Snapshot, i: nat, frame: nat) {
    && Lookup(s.tables, s.kernel, HeapIndex(i)) == Some(Leaf(LeafEntry(frame, WRITABLE), 1))
    && frame !in s.free && frame !in s.node && frame < BITMAP_MAX_BITS
  }

  /** Heap pages are the kernel's to read and write, and closed to user mode. */
  lemma HeapAccess(s: Snapshot, frames: seq<nat>, i: nat)
    requires PagesBacked(s, frames) && i < |frames|
    ensures MappedAs(s.tables, s.kernel, HeapIndex(i), true, false)
    ensures MappedTo(s.tables, s.kernel, HeapIndex(i), frames[i])
  {
    hide Lookup, HeapIndex;
    assert PageBacked(s, i, frames[i]);
  }

  lemma FramesBounded(frames: seq<nat>)
    requires forall i :: 0 <= i < |frames| ==> frames[i] < BITMAP_MAX_BITS
    requires NoRepeats(frames)
    ensures |frames| <= BITMAP_MAX_BITS
  {
    DistinctCount(frames);
    BoundedSet(Elements(frames), BITMAP_MAX_BITS);
  }

  lemma {:induction false} DistinctCount(q: seq<nat>)
    requires NoRepeats(q)
    ensures |Elements(q)| == |q|
  {
    if q != [] {
      var rest, last := q[..|q| - 1], q[|q| - 1];
      DistinctCount(rest);
      assert q == rest + [last];
      assert last !in rest;
      assert Elements(q) == Elements(rest) + {last};
    }
  }

  lemma {:induction false} BoundedSet(s: set<nat>, n: nat)
    requires forall x :: x in s ==> x < n
    ensures |s| <= n
    decreases n
  {
    if n > 0 {
      BoundedSet(s - {n - 1}, n - 1);
      if n - 1 in s {
        assert s == (s - {n - 1}) + {n - 1};
      } else {
        assert s == s - {n - 1};
      }
    } else {
      assert s == {};
    }
  }

  /** Committing the next page keeps the others, and adds its own frame. */
  lemma PagesBackedNext(s: Snapshot, u: Snapshot, frames: seq<nat>, page: nat, lost: set<nat>)
    requires Sound(s) && PagesBacked(s, frames) && CommitStep(s, u, HeapIndex(|frames|), page, lost)
    requires page < BITMAP_MAX_BITS
    ensures |frames| <= BITMAP_MAX_BITS
    ensures PagesBacked(u, if page == 0 then frames else frames + [page])
  {
    hide Lookup, HeapIndex, LeafEntry, CanCommit, Tree, Large;
    FramesBounded(frames);
    assert IsRoot(s.node, s.kernel) by { KernelRoot(s); }
    forall i | 0 <= i < |frames| ensures PageBacked(u, i, frames[i]) {
      assert PageBacked(s, i, frames[i]);
      if HeapIndex(i) == HeapIndex(|frames|) {
        HeapIndexUnique(i, |frames|);
      }
    }
    if page != 0 {
      assert PageBacked(u, |frames|, page);
      assert page in s.free;
    }
  }

  /** The committed range stays inside the address space. */
  lemma CommittedFits(s: Snapshot, frames: seq<nat>)
    requires PagesBacked(s, frames)
    ensures |frames| <= BITMAP_MAX_BITS && HEAP_START + GROW_SIZE * |frames| < U64_LIMIT
  {
    assert forall i :: 0 <= i < |frames| ==> PageBacked(s, i, frames[i]);
    FramesBounded(frames);
  }

  // ----- growth by several pages -----

  /** How the heap grew: by how many pages; if an attempt failed, the state before it and the frame lost. */
  datatype Growth = Growth(pages: nat, before: Snapshot, lost: set<nat>)

  /** The indices of the heap pages from `a` up to `b`. */
  function HeapIndices(a: nat, b: nat): set<Index> {
    set i | a <= i < b :: HeapIndex(i)
  }

  /** The heap grew from the frames `was` to `frames`. Every frame that left the free set is a new page table
      or backs a new page, except the one that a failed attempt loses if it finds one to take. Nothing but the
      new pages translates differently, under any root. */
  ghost predicate GrewBy(s: Snapshot, was: seq<nat>, u: Snapshot, frames: seq<nat>, growth: Growth, failed: bool) {
    && was <= frames && |frames| == |was| + growth.pages
    && Accounts(s, u, Elements(frames[|was|..]), growth.lost)
    && Remaps(s, u, s.kernel, HeapIndices(|was|, |frames|))
    && if failed then CommitStep(growth.before, u, HeapIndex(|frames|), 0, growth.lost) else growth.lost == {}
  }

  lemma GrewNothing(s: Snapshot, frames: seq<nat>)
    ensures GrewBy(s, frames, s, frames, Growth(0, s, {}), false)
  {
    AccountsNothing(s);
    RemapsNothing(s, s.kernel, HeapIndices(|frames|, |frames|));
    assert Elements(frames[|frames|..]) == {};
  }

  lemma GrewPage(s: Snapshot, was: seq<nat>, u: Snapshot, page: nat, lost: set<nat>) returns (growth: Growth)
    requires CommitStep(s, u, HeapIndex(|was|), page, lost)
    ensures growth == Growth(if page == 0 then 0 else 1, s, lost)
    ensures GrewBy(s, was, u, if page == 0 then was else was + [page], growth, page == 0)
  {
    hide CanCommit, MapsExactly, SameView, Accounts, HeapIndex, Large, Remaps;
    SameOrOneMore(s, u, |was|, page != 0);
    growth := Growth(if page == 0 then 0 else 1, s, lost);
    assert was[|was|..] == [] && (was + [page])[|was|..] == [page];
    assert Elements([]) == {} && Elements([page]) == {page};
  }

  lemma SameOrOneMore(s: Snapshot, u: Snapshot, n: nat, grew: bool)
    requires Remaps(s, u, s.kernel, {HeapIndex(n)}) && (!grew ==> SameView(s.tables, s.node, u.tables))
    ensures Remaps(s, u, s.kernel, HeapIndices(n, if grew then n + 1 else n))
  {
    hide HeapIndex, Lookup, Evolves;
    assert HeapIndices(n, n + 1) == {HeapIndex(n)};
  }

  lemma GrewMore(s: Snapshot, was: seq<nat>, u: Snapshot, mid: seq<nat>, v: Snapshot, frames: seq<nat>,
                 g: Growth, h: Growth, failed: bool)
    requires Sound(s) && Sound(u)
    requires GrewBy(s, was, u, mid, g, false) && GrewBy(u, mid, v, frames, h, failed)
    ensures GrewBy(s, was, v, frames, Growth(g.pages + h.pages, h.before, h.lost), failed)
  {
    hide Accounts, CommitStep, HeapIndex, Tree, Remaps;
    assert IsRoot(s.node, s.kernel) by { KernelRoot(s); }
    assert u.kernel == s.kernel by { SameKernel(s, u, HeapIndices(|was|, |mid|)); }
    RemapsTransitive(s, u, v, s.kernel, HeapIndices(|was|, |mid|), HeapIndices(|mid|, |frames|));
    assert HeapIndices(|was|, |mid|) + HeapIndices(|mid|, |frames|) == HeapIndices(|was|, |frames|);
    AccountsTransitive(s, u, v, Elements(mid[|was|..]), Elements(frames[|mid|..]), h.lost);
    assert frames[|was|..] == mid[|was|..] + frames[|mid|..];
    assert Elements(frames[|was|..]) == Elements(mid[|was|..]) + Elements(frames[|mid|..]);
  }

  lemma SameKernel(s: Snapshot, u: Snapshot, pages: set<Index>)
    requires Remaps(s, u, s.kernel, pages)
    ensures u.kernel == s.kernel
  {
  }

  lemma GrewShrinks(s: Snapshot, was: seq<nat>, u: Snapshot, frames: seq<nat>, growth: Growth, failed: bool)
    requires GrewBy(s, was, u, frames, growth, failed)
    ensures |u.free| <= |s.free|
  {
    Smaller(u.free, s.free);
  }

  // ----- the heap's area -----

  /** The area that starts at `start` got the new size if that was allowed, and nothing else changed. */
  ghost predicate AreaResized(s: seq<Vma>, r: seq<Vma>, start: u64, size: int) {
    && 0 <= size < U64_LIMIT
    && (forall k: nat :: MayResize(s, start, size, k) ==> r == Resized(s, k, size))
    && ((forall k: nat :: !MayResize(s, start, size, k)) ==> r == s)
  }

  /** At most the ends of areas with this start differ. */
  ghost predicate OnlyArea(s: seq<Vma>, r: seq<Vma>, start: u64) {
    && |r| == |s|
    && forall i :: 0 <= i < |s| ==>
         r[i].start == s[i].start && r[i].flags == s[i].flags && (s[i].start != start ==> r[i] == s[i])
  }

  lemma OnlyAreaSelf(s: seq<Vma>, start: u64)
    ensures OnlyArea(s, s, start)
  {
  }

  lemma OnlyAreaTransitive(s: seq<Vma>, r: seq<Vma>, q: seq<Vma>, start: u64)
    requires OnlyArea(s, r, start) && OnlyArea(r, q, start)
    ensures OnlyArea(s, q, start)
  {
  }

  lemma ResizedOnly(s: seq<Vma>, r: seq<Vma>, start: u64, size: int)
    requires AreaResized(s, r, start, size)
    ensures OnlyArea(s, r, start)
  {
    if k: nat :| MayResize(s, start, size, k) {
      assert r == Resized(s, k, size);
    }
  }

  lemma OnlyAreaNext(s: seq<Vma>, r: seq<Vma>, q: seq<Vma>, start: u64, size: int, grown: bool)
    requires OnlyArea(s, r, start) && (if grown then AreaResized(r, q, start, size) else q == r)
    ensures OnlyArea(s, q, start)
  {
    if grown {
      ResizedOnly(r, q, start, size);
      OnlyAreaTransitive(s, r, q, start);
    }
  }
}
