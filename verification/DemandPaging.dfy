/** kernel/src/vmm/demand_paging.c: filling a page on a not-present fault. */
module DemandPaging {
  import opened Options
  import opened Machine
  import opened Pmms
  import opened PageBits
  import opened PageTrees
  import opened PageTables
  import opened Vmas

  function ZeroPage(): (z: seq<u8>)
    ensures |z| == PAGE_SIZE && forall i :: 0 <= i < PAGE_SIZE ==> z[i] == 0
  {
    seq(PAGE_SIZE, _ => 0)
  }

  /** The fault is one that the areas allow to be filled. */
  ghost predicate Fillable(areas: seq<Vma>, address: u64, errorCode: bv64) {
    errorCode & 1 == 0 && exists v :: v in areas && Contains(v, address) && v.flags & DEMAND_PAGED != 0
  }

  /** The outcome of a handled fault: the page is mapped writable to a frame that was free and is now all
      zero, no other address of any root changes, and no other frame of data does. Every other frame taken
      is a new page table; roots, their slots and the absence of sharing are kept. */
  ghost predicate Filled(s: Snapshot, data: map<nat, seq<u8>>, u: Snapshot, data': map<nat, seq<u8>>,
                         va: u64, frame: nat) {
    && Evolves(s.tables, s.node, u.tables, u.node) && Accounts(s, u, {frame}, {})
    && MapsExactly(s.tables, s.node, u.tables, s.kernel, IndexOf(va), Some(Leaf(LeafEntry(frame, WRITABLE), 1)))
    && data' == data[frame := ZeroPage()]
  }

  /** The outcome of a refused fault: no translation changes, the only frames gone are page tables, and no
      frame in use changes. */
  ghost predicate Refused(s: Snapshot, data: map<nat, seq<u8>>, u: Snapshot, data': map<nat, seq<u8>>) {
    && SameView(s.tables, s.node, u.tables) && Evolves(s.tables, s.node, u.tables, u.node)
    && Accounts(s, u, {}, {})
    && (forall f :: f !in s.free ==> (f in data <==> f in data') && (f in data ==> data'[f] == data[f]))
  }

  /** A fill can succeed: one frame for the data and one for every missing table, and no large page. */
  ghost predicate CanFill(s: Snapshot, va: u64) {
    RoomForPage(s, s.kernel, IndexOf(va))
  }

  /** The two outcomes together, and exactly when each of them happens. */
  ghost predicate FillOutcome(s: Snapshot, data: map<nat, seq<u8>>, u: Snapshot, data': map<nat, seq<u8>>,
                              va: u64, ok: bool, frame: nat) {
    && (ok <==> CanFill(s, va))
    && if ok then Filled(s, data, u, data', va, frame) else Refused(s, data, u, data')
  }

  /** What the map call at demand_paging.c:63 leaves, with the data frame given back on failure. */
  lemma AfterMap(s: Snapshot, page: nat, u: Snapshot, address: u64, data: map<nat, seq<u8>>, ok: bool)
    requires Sound(s) && page in s.free
    requires MapStep(s.(free := s.free - {page}), u, s.kernel, IndexOf(address), LeafEntry(page, WRITABLE), ok)
    ensures page !in u.node
    ensures FillOutcome(s, data, if ok then u else u.(free := u.free + {page}), data[page := ZeroPage()], address, ok,
        page)
  {
    hide Tree, Evolves, SameView, MapsExactly, Large, Missing, IndexOf;
    TakenFrames(s, u, page);
    RoomWithout(s, s.kernel, IndexOf(address), page);
  }

  lemma NothingTaken(s: Snapshot, address: u64, data: map<nat, seq<u8>>)
    requires s.free == {}
    ensures s.(free := s.free - {0}) == s && FillOutcome(s, data, s, data, address, false, 0)
  {
  }

  /** Who is helped by a handled fault. The page goes into the kernel's tables, so afterwards a root sees it
      exactly when it is the kernel root, shared the slot with it before the fault, or had the page already; a
      process that faulted in a slot of its own faults again. */
  lemma FilledSeenBy(s: Snapshot, data: map<nat, seq<u8>>, u: Snapshot, data': map<nat, seq<u8>>,
                     va: u64, frame: nat, r: nat)
    requires Sound(s) && Filled(s, data, u, data', va, frame) && IsRoot(s.node, r)
    ensures var x := IndexOf(va);
            && (Lookup(u.tables, r, x).Some? <==>
                  r == s.kernel || Shares(s.tables, r, s.kernel, x.i4) || Lookup(s.tables, r, x).Some?)
            && (r == s.kernel || Shares(s.tables, r, s.kernel, x.i4) ==>
                  Lookup(u.tables, r, x) == Some(Leaf(LeafEntry(frame, WRITABLE), 1)))
  {
    hide Lookup, IndexOf, Tree;
    assert IsRoot(s.node, s.kernel) by { KernelRoot(s); }
    SharingStays(s, u, r, s.kernel, IndexOf(va));
    assert Lookup(u.tables, r, IndexOf(va)) ==
      if r == s.kernel || Shares(u.tables, r, s.kernel, IndexOf(va).i4)
      then Some(Leaf(LeafEntry(frame, WRITABLE), 1)) else Lookup(s.tables, r, IndexOf(va));
  }

  /** The new page is the kernel's to read and write, and closed to user mode, under every root that sees it. */
  lemma FilledAccess(s: Snapshot, data: map<nat, seq<u8>>, u: Snapshot, data': map<nat, seq<u8>>,
                     va: u64, frame: nat, r: nat)
    requires Sound(s) && Filled(s, data, u, data', va, frame) && IsRoot(s.node, r)
    requires r == s.kernel || Shares(s.tables, r, s.kernel, IndexOf(va).i4)
    ensures MappedAs(u.tables, r, IndexOf(va), true, false) && MappedTo(u.tables, r, IndexOf(va), frame)
  {
    hide Lookup, IndexOf, Filled, Tree;
    FilledSeenBy(s, data, u, data', va, frame, r);
  }

  lemma HandledFacts(s: Snapshot, data: map<nat, seq<u8>>, u: Snapshot, data': map<nat, seq<u8>>,
                     va: u64, frame: nat)
    requires Sound(s) && FillOutcome(s, data, u, data', va, true, frame)
    ensures u.kernel == s.kernel && MappedAs(u.tables, s.kernel, IndexOf(va), true, false)
    ensures frame in data' && data'[frame] == ZeroPage()
  {
    hide MappedAs, MappedTo, IndexOf, MapsExactly, CanFill;
    assert IsRoot(s.node, s.kernel) by { KernelRoot(s); }
    FilledAccess(s, data, u, data', va, frame, s.kernel);
  }

  /** A kernel root and a process root without any slot, and four free frames. */
  ghost function EmptyRoots(): Snapshot {
    Snapshot(map[1 := Zeros(), 5 := Zeros()], map[1 := Root, 5 := Root], 1, {7, 8, 9, 10})
  }

  /** There every fault is handled, and the process does not see the page. */
  lemma HandledNotCured(data: map<nat, seq<u8>>, u: Snapshot, data': map<nat, seq<u8>>, va: u64, ok: bool, frame: nat)
    requires FillOutcome(EmptyRoots(), data, u, data', va, ok, frame)
    ensures Sound(EmptyRoots()) && IsRoot(EmptyRoots().node, 5)
    ensures ok && Lookup(u.tables, 1, IndexOf(va)).Some? && Lookup(u.tables, 5, IndexOf(va)).None?
  {
    hide IndexOf, Filled, Refused;
    var s, x := EmptyRoots(), IndexOf(va);
    assert |s.free| == 4 && Missing(s.tables, 1, x) == 3 && Lookup(s.tables, 1, x).None?;
    FilledSeenBy(s, data, u, data', va, frame, 1);
    FilledSeenBy(s, data, u, data', va, frame, 5);
  }

  /** `fault_address & ~(PAGE_SIZE - 1)` */
  function PageBase(address: u64): (base: u64)
    ensures IndexOf(base) == IndexOf(address) && base % PAGE_SIZE == 0 && base <= address < base + PAGE_SIZE
  {
    SamePage(address, address - address % PAGE_SIZE);
    address - address % PAGE_SIZE
  }

  /** The call of page_table_map at demand_paging.c:63-66. */
  method MapFresh(vm: AddressSpaces, address: u64, page: nat) returns (ok: bool)
    requires vm.Valid() && 0 < page < BITMAP_MAX_BITS
    modifies vm`tables, vm`node
    modifies vm.pmm`freePages, vm.pmm`usedPages, vm.pmm`nextFree, vm.pmm.bitmap`clear, vm.pmm.bitmap.buffer
    ensures vm.Valid()
    ensures MapStep(old(vm.Snap()), vm.Snap(), vm.kernelRoot, IndexOf(address), LeafEntry(page, WRITABLE), ok)
  {
    hide AddressSpaces.Valid, MapStep, EntryOf, MapWord, LeafEntry, FrameAddress, IndexOf;
    WritableFlag();
    LeafOfFrame(page, WRITABLE);
    ok := vm.Map(PageBase(address), FrameAddress(page), WRITABLE);
  }

  /** Mapping the fresh frame, or giving it back: demand_paging.c:63-78. */
  method MapOrGiveBack(vm: AddressSpaces, address: u64, page: nat, ghost s: Snapshot, ghost data: map<nat, seq<u8>>)
    returns (ok: bool)
    requires vm.Valid() && Sound(s) && page in s.free && page in vm.pmm.usable && page < BITMAP_MAX_BITS
    requires 0 < page < vm.pmm.totalPages && page in vm.data
    requires vm.Snap() == s.(free := s.free - {page}) && vm.data == data[page := ZeroPage()]
    modifies vm`tables, vm`node
    modifies vm.pmm`freePages, vm.pmm`usedPages, vm.pmm`nextFree, vm.pmm.bitmap`clear, vm.pmm.bitmap.buffer
    ensures vm.Valid() && FillOutcome(s, data, vm.Snap(), vm.data, address, ok, page)
  {
    hide AddressSpaces.Valid, MapStep, FillOutcome, LeafEntry, IndexOf, Sound;
    ok := MapFresh(vm, address, page);
    ghost var u := vm.Snap();
    AfterMap(s, page, u, address, data, ok);
    if !ok {
      vm.GiveFrame(page);
    }
  }

  /** The allocation and clearing at demand_paging.c:44-59. */
  method TakeZeroed(vm: AddressSpaces) returns (page: nat)
    requires vm.Valid()
    modifies vm`data
    modifies vm.pmm`freePages, vm.pmm`usedPages, vm.pmm`nextFree, vm.pmm.bitmap`clear, vm.pmm.bitmap.buffer
    ensures vm.Valid() && vm.Snap() == old(vm.Snap()).(free := old(vm.Snap()).free - {page})
    ensures page == 0 ==> old(vm.Snap()).free == {} && vm.data == old(vm.data)
    ensures page != 0 ==> page in old(vm.Snap()).free && page in vm.pmm.usable && page < BITMAP_MAX_BITS
    ensures page != 0 ==> page < vm.pmm.totalPages && vm.data == old(vm.data)[page := ZeroPage()]
  {
    hide Tree, Pmm.Valid, Pmm.Accounted;
    page := vm.TakeFrame();
    if page != 0 {
      vm.FillFrame(page, ZeroPage());
    }
  }

  /** The second half of vmm_handle_page_fault: demand_paging.c:39-78. */
  method Fill(vm: AddressSpaces, address: u64) returns (ok: bool, ghost frame: nat)
    requires vm.Valid()
    modifies vm`tables, vm`node, vm`data
    modifies vm.pmm`freePages, vm.pmm`usedPages, vm.pmm`nextFree, vm.pmm.bitmap`clear, vm.pmm.bitmap.buffer
    ensures vm.Valid() && FillOutcome(old(vm.Snap()), old(vm.data), vm.Snap(), vm.data, address, ok, frame)
  {
    hide FillOutcome, Tree, Pmm.Valid, Pmm.Accounted;
    ghost var s := vm.Snap();
    ghost var before := vm.data;
    var page := TakeZeroed(vm);
    frame := page;
    if page == 0 {
      NothingTaken(s, address, before);
      return false, 0;
    }
    ok := MapOrGiveBack(vm, address, page, s, before);
  }

  /** `vmm_handle_page_fault` */
  method HandlePageFault(vm: AddressSpaces, vmas: VmaTable, address: u64, errorCode: bv64)
    returns (ok: bool, ghost frame: nat)
    requires vm.Valid() && vmas.Valid()
    modifies vm`tables, vm`node, vm`data
    modifies vm.pmm`freePages, vm.pmm`usedPages, vm.pmm`nextFree, vm.pmm.bitmap`clear, vm.pmm.bitmap.buffer
    ensures vm.Valid()
    ensures if Fillable(vmas.Areas(), address, errorCode)
            then FillOutcome(old(vm.Snap()), old(vm.data), vm.Snap(), vm.data, address, ok, frame)
            else !ok && vm.Snap() == old(vm.Snap()) && vm.data == old(vm.data)
    ensures ok ==> MappedAs(vm.tables, vm.kernelRoot, IndexOf(address), true, false)
    ensures ok ==> frame in vm.data && forall k :: 0 <= k < PAGE_SIZE ==> |vm.data[frame]| > k && vm.data[frame][k] == 0
    ensures ok ==> errorCode % 2 == 0 && exists v :: v in vmas.Areas() && v.start <= address < v.end && v.flags & 8 != 0
  {
    hide AddressSpaces.Valid, FillOutcome, MappedAs, MappedTo, IndexOf;
    frame := 0;
    if errorCode & 1 != 0 {
      return false, 0;
    }
    var k := vmas.Find(address);
    if k < 0 {
      return false, 0;
    }
    if vmas.table[k].flags & DEMAND_PAGED == 0 {
      return false, 0;
    }
    assert vmas.Areas()[k] == vmas.table[k];
    vm.IsSound();
    assert Fillable(vmas.Areas(), address, errorCode);
    ghost var s, data := vm.Snap(), vm.data;
    ok, frame := Fill(vm, address);
    if ok {
      HandledFacts(s, data, vm.Snap(), vm.data, address, frame);
    }
  }
}
