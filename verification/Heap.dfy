/** kernel/src/mm/heap.c: block headers linked in place, first-fit allocation with split, merge and growth
    by one page at a time over the page allocator and the page tables. */
module Heaps {
  import opened Machine
  import opened PageTrees
  import opened PageTables
  import opened Vmas
  import opened HeapBlocks
  import opened HeapPages
  import opened HeapLinks

  class Heap {
    const vm: AddressSpaces
    const vmas: VmaTable
    /** `heap_vma`: the slot of the heap's own area. */
    const area: nat
    var head: nat
    var committedEnd: nat
    var hdr: map<nat, Header>
    /** User bytes by virtual address, where they are known. */
    var data: map<nat, u8>
    ghost var blocks: seq<Block>
    /** The frames behind the committed pages, in order. */
    ghost var frames: seq<nat>

    ghost predicate Listed()
      reads this`blocks, this`committedEnd, this`hdr, this`head
    {
      Tiles(blocks, HEAP_START, committedEnd) && Spells(hdr, blocks) && head == HEAP_START
    }

    /** The heap's area is in the table, and every committed page has its own frame. */
    ghost predicate Backed()
      reads this`committedEnd, this`frames, vm, vm.pmm, vm.pmm.bitmap, vm.pmm.bitmap.buffer, vmas, vmas.table
    {
      && vm.Valid() && vmas.Valid() && area < vmas.count && vmas.table as object != vm.pmm.bitmap.buffer
      && PagesBacked(vm.Snap(), frames) && committedEnd == HEAP_START + GROW_SIZE * |frames|
    }

    ghost predicate Valid()
      reads this`blocks, this`committedEnd, this`hdr, this`head, this`frames
      reads vm, vm.pmm, vm.pmm.bitmap, vm.pmm.bitmap.buffer, vmas, vmas.table
    {
      Listed() && Coalesced(blocks) && Backed()
    }

    /** What a valid heap consists of besides its page tables. */
    ghost predicate Intact()
      reads this`blocks, this`committedEnd, this`hdr, this`head, this`frames, vmas, vmas.table
    {
      && Listed() && Coalesced(blocks) && committedEnd == HEAP_START + GROW_SIZE * |frames|
      && vmas.Valid() && area < vmas.count && vmas.table as object != vm.pmm.bitmap.buffer
    }

    lemma WhenValid()
      ensures Valid() <==> vm.Valid() && Intact() && PagesBacked(vm.Snap(), frames)
    {
      hide AddressSpaces.Valid, PagesBacked, Unambiguous, Listed, Coalesced;
    }

    lemma Tiled()
      requires Valid()
      ensures Tiles(blocks, HEAP_START, committedEnd)
    {
    }

    method WriteHeader(a: nat, h: Header)
      modifies this`hdr, this`data
      ensures hdr == old(hdr)[a := h] && data == Overwrite(old(data), a)
    {
      hdr := hdr[a := h];
      data := Overwrite(data, a);
    }

    /** The state that `heap_init` leaves once its first page is taken and mapped and its area is found. */
    constructor (vm: AddressSpaces, vmas: VmaTable, area: nat, ghost frame: nat)
      requires vm.Valid() && PagesBacked(vm.Snap(), [frame]) && vmas.Valid() && area < vmas.count
      ensures Valid() && this.vm == vm && this.vmas == vmas && this.area == area && Live(blocks) == {}
      ensures committedEnd == HEAP_START + 4096 && frames == [frame]
    {
      vm.IsSound();
      this.vm, this.vmas, this.area := vm, vmas, area;
      head, committedEnd, data := HEAP_START, HEAP_START + GROW_SIZE, map[];
      hdr := map[HEAP_START := Header(GROW_SIZE - HEADER, true, 0, 0)];
      blocks := [Block(HEAP_START, GROW_SIZE - HEADER, true)];
      frames := [frame];
    }

    /** `find_free_block` */
    method FindFreeBlock(size: nat) returns (b: nat, ghost i: nat)
      requires Listed()
      ensures i == FirstFit(blocks, size, 0)
      ensures b == if FirstFit(blocks, size, 0) < |blocks| then blocks[FirstFit(blocks, size, 0)].addr else 0
    {
      NonNull(blocks, committedEnd);
      b, i := head, 0;
      while b != 0
        invariant i <= |blocks| && FirstFit(blocks, size, 0) == FirstFit(blocks, size, i)
        invariant b == if i < |blocks| then blocks[i].addr else 0
        decreases |blocks| - i
      {
        HeaderAt(hdr, blocks, i);
        if hdr[b].free && hdr[b].size >= size {
          return;
        }
        b := hdr[b].next;
        i := i + 1;
      }
    }

    /** `split_block` on a free block */
    method SplitBlock(b: nat, size: nat, ghost i: nat)
      requires Listed() && i < |blocks| && blocks[i].addr == b && blocks[i].free
      requires size <= blocks[i].size && size % ALIGNMENT == 0
      modifies this`hdr, this`data, this`blocks
      ensures Listed() && blocks == Split(old(blocks), i, size) && Keeps(Live(old(blocks)), old(data), data)
    {
      HeaderAt(hdr, blocks, i);
      if hdr[b].size <= size + HEADER {
        return;
      }
      ghost var bs := blocks;
      assert i + 1 < |bs| ==> bs[i + 1].addr in hdr && bs[i + 1].addr > 0 by {
        NonNull(bs, committedEnd);
        if i + 1 < |bs| {
          HeaderAt(hdr, bs, i + 1);
        }
      }
      ghost var g := CutHeaders(hdr, b, size);
      assert Spells(g, Split(bs, i, size)) by {
        CutSpells(hdr, bs, i, size);
      }
      var n := b + HEADER + size;
      var next := hdr[b].next;
      WriteHeader(n, Header(hdr[b].size - size - HEADER, true, next, b));
      ghost var d1 := data;
      if next != 0 {
        WriteHeader(next, hdr[next].(prev := n));
      }
      WriteHeader(b, hdr[b].(next := n, size := size));
      assert hdr == g;
      assert Keeps(Live(bs), old(data), data) by {
        InsideFree(bs, i, n, old(data));
        HeaderOutside(bs, i, d1);
        if next != 0 {
          TwoOutside(bs, i + 1, i, d1);
        }
        KeepsTransitive(Live(bs), Live(bs), old(data), d1, data);
      }
      blocks := Split(bs, i, size);
      assert Tiles(blocks, HEAP_START, committedEnd) by {
        SplitTiles(bs, i, size, HEAP_START, committedEnd);
      }
    }

    /** `merge_with_next` */
    method MergeWithNext(b: nat, ghost i: nat)
      requires Listed() && i < |blocks| && blocks[i].addr == b
      modifies this`hdr, this`data, this`blocks
      ensures Listed() && blocks == MergeNext(old(blocks), i) && Keeps(Live(old(blocks)), old(data), data)
    {
      NonNull(blocks, committedEnd);
      HeaderAt(hdr, blocks, i);
      if i + 1 < |blocks| {
        HeaderAt(hdr, blocks, i + 1);
      }
      var next := hdr[b].next;
      if next == 0 || !hdr[next].free {
        return;
      }
      Link(b, next, i);
    }

    /** The relinking that both merges share: block `i` at `b` takes over the free block after it. */
    method Link(b: nat, next: nat, ghost i: nat)
      requires Listed() && i + 1 < |blocks| && blocks[i].addr == b && blocks[i + 1].addr == next && blocks[i + 1].free
      modifies this`hdr, this`data, this`blocks
      ensures Listed() && blocks == MergeNext(old(blocks), i) && Keeps(Live(old(blocks)), old(data), data)
    {
      ghost var bs := blocks;
      HeaderAt(hdr, bs, i);
      HeaderAt(hdr, bs, i + 1);
      assert i + 2 < |bs| ==> bs[i + 2].addr in hdr && bs[i + 2].addr > 0 by {
        NonNull(bs, committedEnd);
        if i + 2 < |bs| {
          HeaderAt(hdr, bs, i + 2);
        }
      }
      ghost var g := LinkHeaders(hdr, b, next);
      assert Spells(g, MergeNext(bs, i)) by {
        LinkSpells(hdr, bs, i);
      }
      var after := hdr[next].next;
      WriteHeader(b, hdr[b].(size := hdr[b].size + HEADER + hdr[next].size, next := after));
      if after != 0 {
        WriteHeader(after, hdr[after].(prev := b));
      }
      assert hdr == g;
      assert Keeps(Live(bs), old(data), data) by {
        HeaderOutside(bs, i, old(data));
        if after != 0 {
          TwoOutside(bs, i, i + 2, old(data));
        }
      }
      blocks := MergeNext(bs, i);
      assert Tiles(blocks, HEAP_START, committedEnd) by {
        MergeNextTiles(bs, i, HEAP_START, committedEnd);
      }
    }

    /** `merge_with_previous` on a free block */
    method MergeWithPrevious(b: nat, ghost i: nat)
      requires Listed() && i < |blocks| && blocks[i].addr == b && blocks[i].free
      modifies this`hdr, this`data, this`blocks
      ensures Listed() && blocks == MergePrevious(old(blocks), i) && Keeps(Live(old(blocks)), old(data), data)
    {
      NonNull(blocks, committedEnd);
      HeaderAt(hdr, blocks, i);
      if i > 0 {
        HeaderAt(hdr, blocks, i - 1);
      }
      var prev := hdr[b].prev;
      if prev == 0 || !hdr[prev].free {
        return;
      }
      MergePreviousIsMergeNext(blocks, i);
      Link(prev, b, i - 1);
    }

    /** `coalesce_free_blocks`, on any block list. */
    method Coalesce()
      requires Listed()
      modifies this`hdr, this`data, this`blocks
      ensures Listed() && blocks == CoalesceFrom(old(blocks), 0)
      ensures Live(blocks) == Live(old(blocks)) && Keeps(Live(old(blocks)), old(data), data)
    {
      NonNull(blocks, committedEnd);
      var current := head;
      ghost var i := 0;
      while current != 0
        invariant Listed() && i <= |blocks| && current == (if i < |blocks| then blocks[i].addr else 0)
        invariant CoalesceFrom(old(blocks), 0) == CoalesceFrom(blocks, i)
        invariant Live(blocks) == Live(old(blocks)) && Keeps(Live(old(blocks)), old(data), data)
        decreases |blocks| - i
      {
        AbsorbFrom(current, i, old(data));
        NonNull(blocks, committedEnd);
        HeaderAt(hdr, blocks, i);
        current := hdr[current].next;
        i := i + 1;
      }
      NonNull(blocks, committedEnd);
    }

    /** The inner loop of `coalesce_free_blocks`. */
    method AbsorbFrom(current: nat, ghost i: nat, ghost before: map<nat, u8>)
      requires Listed() && i < |blocks| && blocks[i].addr == current && Keeps(Live(blocks), before, data)
      modifies this`hdr, this`data, this`blocks
      ensures Listed() && blocks == Absorb(old(blocks), i)
      ensures Live(blocks) == Live(old(blocks)) && Keeps(Live(blocks), before, data)
      ensures i < |blocks| <= |old(blocks)| && blocks[i].addr == current
    {
      var more := AbsorbsNext(current, i);
      while more
        invariant Listed() && i < |blocks| <= |old(blocks)| && blocks[i].addr == current
        invariant more <==> blocks[i].free && i + 1 < |blocks| && blocks[i + 1].free
        invariant Absorb(blocks, i) == Absorb(old(blocks), i)
        invariant Live(blocks) == Live(old(blocks)) && Keeps(Live(blocks), before, data)
        decreases |blocks|
      {
        LiveAfterMerge(blocks, i);
        ghost var d := data;
        MergeWithNext(current, i);
        KeepsTransitive(Live(blocks), Live(blocks), before, d, data);
        more := AbsorbsNext(current, i);
      }
    }

    /** The guard of that loop: heap.c:145. */
    method AbsorbsNext(current: nat, ghost i: nat) returns (more: bool)
      requires Listed() && i < |blocks| && blocks[i].addr == current
      ensures more <==> blocks[i].free && i + 1 < |blocks| && blocks[i + 1].free
    {
      NonNull(blocks, committedEnd);
      HeaderAt(hdr, blocks, i);
      if i + 1 < |blocks| {
        HeaderAt(hdr, blocks, i + 1);
      }
      more := hdr[current].free && hdr[current].next != 0 && hdr[hdr[current].next].free;
    }

    /** `heap_commit_page`: a frame behind the next page. */
    method CommitPage() returns (ok: bool, ghost growth: Growth)
      requires Backed()
      modifies this`committedEnd, this`frames, vm`tables, vm`node
      modifies vm.pmm`freePages, vm.pmm`usedPages, vm.pmm`nextFree, vm.pmm.bitmap`clear, vm.pmm.bitmap.buffer
      ensures Backed() && GrewBy(old(vm.Snap()), old(frames), vm.Snap(), frames, growth, !ok)
      ensures growth.pages == (if ok then 1 else 0) && (ok <==> CanCommit(old(vm.Snap()), IndexOf(old(committedEnd))))
      ensures committedEnd == old(committedEnd) + GROW_SIZE * growth.pages
      ensures ok ==> |vm.pmm.Free()| < |old(vm.pmm.Free())|
      ensures !ok ==> Stuck()
    {
      hide AddressSpaces.Valid, Unambiguous, PagesBacked, CommitStep, CanCommit, GrewBy, Large, Sound;
      ghost var s := vm.Snap();
      assert Sound(s) by { vm.IsSound(); }
      CommittedFits(s, frames);
      GrewNothing(s, frames);
      var page;
      ghost var lost;
      page, lost := CommitFrame(vm, committedEnd);
      PagesBackedNext(s, vm.Snap(), frames, page, lost);
      CommitFacts(s, vm.Snap(), IndexOf(committedEnd), page, lost);
      growth := GrewPage(s, frames, vm.Snap(), page, lost);
      if page == 0 {
        return false, growth;
      }
      committedEnd := committedEnd + GROW_SIZE;
      frames := frames + [page];
      return true, growth;
    }

    /** No frame is left, or the next heap page lies in a large page. */
    ghost predicate Stuck()
      reads this`committedEnd, vm, vm.pmm, vm.pmm.bitmap
    {
      vm.pmm.Free() == {} || Large(vm.tables, vm.kernelRoot, IndexOf(committedEnd))
    }

    /** `find_last_block` */
    method FindLastBlock(ghost end: nat) returns (last: nat)
      requires Tiles(blocks, HEAP_START, end) && Spells(hdr, blocks) && head == HEAP_START
      ensures last == blocks[|blocks| - 1].addr
    {
      NonNull(blocks, end);
      last := head;
      ghost var i := 0;
      HeaderAt(hdr, blocks, 0);
      while hdr[last].next != 0
        invariant i < |blocks| && last == blocks[i].addr && last in hdr && hdr[last] == HeaderOf(blocks, i)
        decreases |blocks| - i
      {
        last := hdr[last].next;
        i := i + 1;
        HeaderAt(hdr, blocks, i);
      }
    }

    /** The new block of `heap_expand`, before the merge: heap.c:254-261. */
    method AppendPage(end: nat) returns (last: nat)
      requires Tiles(blocks, HEAP_START, end) && Spells(hdr, blocks) && head == HEAP_START
      requires committedEnd == end + GROW_SIZE && end % ALIGNMENT == 0
      modifies this`hdr, this`data, this`blocks
      ensures Listed() && blocks == old(blocks) + [Block(end, GROW_SIZE - HEADER, true)]
      ensures last == old(blocks)[|old(blocks)| - 1].addr
      ensures Live(blocks) == Live(old(blocks)) && Keeps(Live(old(blocks)), old(data), data)
    {
      ghost var bs := blocks;
      ghost var page := Block(end, GROW_SIZE - HEADER, true);
      last := FindLastBlock(end);
      HeaderAt(hdr, bs, |bs| - 1);
      forall k | 0 <= k < |bs| ensures bs[k].addr < end {
        BelowEnd(bs, HEAP_START, end, k);
      }
      WriteHeader(end, Header(GROW_SIZE - HEADER, true, 0, 0));
      WriteHeader(last, hdr[last].(next := end));
      WriteHeader(end, hdr[end].(prev := last));
      blocks := bs + [page];
      assert Spells(hdr, blocks) by {
        forall k | 0 <= k < |bs|
          ensures bs[k].addr in hdr
          ensures hdr[bs[k].addr] == if k == |bs| - 1 then HeaderOf(bs, k).(next := end) else HeaderOf(bs, k)
        {
          HeaderAt(old(hdr), bs, k);
          if k < |bs| - 1 {
            AddressesDiffer(bs, k, |bs| - 1);
          }
        }
        AppendSpells(old(hdr), bs, page, hdr);
      }
      assert Listed() && Live(blocks) == Live(bs) by {
        PageTiles(bs, HEAP_START, end);
      }
      assert Keeps(Live(bs), old(data), data) by {
        BeyondEnd(bs, end, old(data));
        HeaderOutside(bs, |bs| - 1, Overwrite(old(data), end));
        BeyondEnd(bs, end, Overwrite(Overwrite(old(data), end), last));
        KeepsTransitive(Live(bs), Live(bs), old(data), Overwrite(old(data), end),
            Overwrite(Overwrite(old(data), end), last));
        KeepsTransitive(Live(bs), Live(bs), old(data), Overwrite(Overwrite(old(data), end), last), data);
      }
    }

    /** The list part of `heap_expand`: heap.c:254-266. */
    method GrowList(end: nat)
      requires Tiles(blocks, HEAP_START, end) && Spells(hdr, blocks) && head == HEAP_START && Coalesced(blocks)
      requires committedEnd == end + GROW_SIZE && end % ALIGNMENT == 0
      modifies this`hdr, this`data, this`blocks
      ensures Listed() && Coalesced(blocks) && blocks == Grown(old(blocks), end)
      ensures Live(blocks) == Live(old(blocks)) && Keeps(Live(old(blocks)), old(data), data)
    {
      ghost var bs := blocks;
      var last := AppendPage(end);
      ghost var d := data;
      HeaderAt(hdr, blocks, |bs| - 1);
      if hdr[last].free {
        MergeWithNext(last, |bs| - 1);
      }
      KeepsTransitive(Live(bs), Live(bs), old(data), d, data);
      ExpandKeeps(bs, HEAP_START, end);
    }

    /** The start of the heap's area. */
    ghost function AreaStart(): u64
      requires area < vmas.count <= vmas.table.Length
      reads vmas, vmas.table
    {
      vmas.Areas()[area].start
    }

    lemma Whole()
      requires Tiles(blocks, HEAP_START, committedEnd) && Spells(hdr, blocks) && head == HEAP_START
      ensures Listed()
    {
    }

    lemma Parts()
      requires Listed() && Backed()
      ensures Tiles(blocks, HEAP_START, committedEnd) && Spells(hdr, blocks) && head == HEAP_START
      ensures committedEnd % ALIGNMENT == 0 && vmas.table as object != vm.pmm.bitmap.buffer
      ensures area < vmas.count <= vmas.table.Length
    {
    }

    /** `heap_expand`: one more page, merged into a free last block. A resize of the area that is refused
        does not stop it. */
    method Expand() returns (ok: bool, ghost growth: Growth)
      requires Valid()
      modifies this`committedEnd, this`frames, this`hdr, this`data, this`blocks, vm`tables, vm`node, vmas.table
      modifies vm.pmm`freePages, vm.pmm`usedPages, vm.pmm`nextFree, vm.pmm.bitmap`clear, vm.pmm.bitmap.buffer
      ensures Valid() && Live(blocks) == Live(old(blocks)) && Keeps(Live(old(blocks)), old(data), data)
      ensures GrewBy(old(vm.Snap()), old(frames), vm.Snap(), frames, growth, !ok)
      ensures growth.pages == (if ok then 1 else 0) && (ok <==> CanCommit(old(vm.Snap()), IndexOf(old(committedEnd))))
      ensures committedEnd == old(committedEnd) + GROW_SIZE * growth.pages
      ensures ok ==> blocks == Grown(old(blocks), old(committedEnd)) && |vm.pmm.Free()| < |old(vm.pmm.Free())|
      ensures !ok ==> blocks == old(blocks) && Stuck()
      ensures if ok then AreaResized(old(vmas.Areas()), vmas.Areas(), old(AreaStart()), committedEnd - HEAP_START)
              else vmas.Areas() == old(vmas.Areas())
      ensures AreaStart() == old(AreaStart())
    {
      hide Tiles, Spells, Keeps, Live, Coalesced, AddressSpaces.Valid, Grown, GrewBy, CanCommit, PagesBacked,
          Unambiguous;
      hide AreaResized, Stuck, Listed, Backed, MayResize;
      KeepsSelf(Live(blocks), data);
      Parts();
      var end := committedEnd;
      ok, growth := CommitPage();
      if !ok {
        Whole();
        return;
      }
      GrowList(end);
      ResizeArea();
    }

    /** The call of vma_resize in `heap_expand`: heap.c:274-277. */
    method ResizeArea()
      requires Backed()
      modifies vmas.table
      ensures Backed() && AreaStart() == old(AreaStart())
      ensures AreaResized(old(vmas.Areas()), vmas.Areas(), old(AreaStart()), committedEnd - HEAP_START)
    {
      hide AddressSpaces.Valid, PagesBacked, Unambiguous, MayResize;
      CommittedFits(vm.Snap(), frames);
      ghost var areas := vmas.Areas();
      var start := vmas.table[area].start;
      var resized := vmas.Resize(start, committedEnd - HEAP_START);
      ResizedOnly(areas, vmas.Areas(), start, committedEnd - HEAP_START);
    }

    /** `heap_grow`: pages are added until the heap has the size asked for. */
    method Grow(bytes: nat) returns (ok: bool, ghost growth: Growth)
      requires Valid()
      modifies this`committedEnd, this`frames, this`hdr, this`data, this`blocks, vm`tables, vm`node, vmas.table
      modifies vm.pmm`freePages, vm.pmm`usedPages, vm.pmm`nextFree, vm.pmm.bitmap`clear, vm.pmm.bitmap.buffer
      ensures Valid() && Live(blocks) == Live(old(blocks)) && Keeps(Live(old(blocks)), old(data), data)
      ensures GrewBy(old(vm.Snap()), old(frames), vm.Snap(), frames, growth, !ok)
      ensures committedEnd == old(committedEnd) + GROW_SIZE * growth.pages
      ensures growth.pages > 0 ==> committedEnd - GROW_SIZE - HEAP_START < bytes
      ensures ok <==> committedEnd - HEAP_START >= bytes
      ensures blocks == GrownBy(old(blocks), old(committedEnd), growth.pages)
      ensures |vm.pmm.Free()| + growth.pages <= |old(vm.pmm.Free())|
      ensures !ok ==> Stuck()
      ensures OnlyArea(old(vmas.Areas()), vmas.Areas(), old(AreaStart())) && AreaStart() == old(AreaStart())
    {
      hide Tiles, Spells, Keeps, Live, Coalesced, AddressSpaces.Valid, Unambiguous, Grown, GrownBy, GrewBy;
      hide CanCommit, PagesBacked, OnlyArea, AreaResized, Sound;
      ghost var bs, end, s, was := blocks, committedEnd, vm.Snap(), frames;
      KeepsSelf(Live(blocks), data);
      NotEmpty(blocks, end);
      GrewNothing(s, frames);
      OnlyAreaSelf(vmas.Areas(), AreaStart());
      vm.IsSound();
      ok, growth := true, Growth(0, s, {});
      while ok && committedEnd - HEAP_START < bytes
        invariant Valid() && Live(blocks) == Live(bs) && Keeps(Live(bs), old(data), data)
        invariant GrewBy(s, was, vm.Snap(), frames, growth, !ok)
        invariant committedEnd == end + GROW_SIZE * growth.pages
        invariant growth.pages > 0 ==> committedEnd - GROW_SIZE - HEAP_START < bytes
        invariant blocks == GrownBy(bs, end, growth.pages)
        invariant |vm.pmm.Free()| + growth.pages <= |s.free|
        invariant !ok ==> Stuck() && committedEnd - HEAP_START < bytes
        invariant OnlyArea(old(vmas.Areas()), vmas.Areas(), old(AreaStart())) && AreaStart() == old(AreaStart())
        decreases ok, |vm.pmm.Free()|
      {
        ghost var cs, u, before, d, areas := blocks, vm.Snap(), frames, data, vmas.Areas();
        ghost var page;
        vm.IsSound();
        ok, page := Expand();
        KeepsTransitive(Live(bs), Live(bs), old(data), d, data);
        GrewMore(s, was, u, before, vm.Snap(), frames, growth, page, !ok);
        GrownByNext(bs, end, growth.pages);
        OnlyAreaNext(old(vmas.Areas()), areas, vmas.Areas(), AreaStart(), committedEnd - HEAP_START, ok);
        GrewShrinks(u, before, vm.Snap(), frames, page, !ok);
        growth := Growth(growth.pages + page.pages, page.before, page.lost);
      }
    }

    /** Cutting and taking the block found: heap.c:358-361. */
    method TakeBlock(b: nat, size: nat, ghost i: nat) returns (p: nat, ghost block: Block)
      requires Listed() && Coalesced(blocks) && i < |blocks| && blocks[i].addr == b && blocks[i].free
      requires size <= blocks[i].size && size % ALIGNMENT == 0
      modifies this`hdr, this`data, this`blocks
      ensures Listed() && Coalesced(blocks) && Keeps(Live(old(blocks)), old(data), data)
      ensures block in blocks && !block.free && block.Payload() == p == b + HEADER && block.size >= size
      ensures Carved(old(blocks), i, size, blocks) && block.size <= size + HEADER
      ensures Live(blocks) == Live(old(blocks)) + {block} && block !in Live(old(blocks))
    {
      ghost var bs := blocks;
      SplitBlock(b, size, i);
      ghost var cut, d := blocks, data;
      assert i < |cut| && cut[i].addr == b && cut[i].free;
      HeaderAt(hdr, cut, i);
      SetFreeSpells(hdr, cut, i, false);
      WriteHeader(b, hdr[b].(free := false));
      blocks := SetFree(cut, i, false);
      AllocateKeeps(bs, i, size, HEAP_START, committedEnd);
      AllocateCarves(bs, i, size);
      CarvedSize(bs, i, size, blocks);
      assert Keeps(Live(bs), old(data), data) by {
        LiveAfterSplit(bs, i, size);
        HeaderOutside(cut, i, d);
        KeepsTransitive(Live(bs), Live(cut), old(data), d, data);
      }
      block := blocks[i];
      return b + HEADER, block;
    }

    /** No block comes near 2^64 bytes. */
    lemma BlockBelow(block: Block)
      requires Listed() && Backed() && block in blocks
      ensures block.size + ALIGNMENT < U64_LIMIT
    {
      hide AddressSpaces.Valid, PagesBacked, Unambiguous;
      CommittedFits(vm.Snap(), frames);
      var i := IndexOfBlock(blocks, block);
      BelowEnd(blocks, HEAP_START, committedEnd, i);
      NonNull(blocks, committedEnd);
    }

    lemma SomeBlock(size: nat)
      requires Listed()
      ensures |blocks| > 0 && Searching(blocks, committedEnd, size, 0, blocks)
    {
      NotEmpty(blocks, committedEnd);
    }

    /** `kmalloc`, for any size word. A non-NULL result is a new live block, 16-aligned, and at least as large
        as asked if and only if rounding the size up does not wrap; nothing that was live moves or changes.
        NULL for a non-zero size means that no page could be added. */
    method Kmalloc(n: u64) returns (p: nat, ghost block: Block, ghost growth: Growth)
      requires Valid()
      modifies this`committedEnd, this`frames, this`hdr, this`data, this`blocks, vm`tables, vm`node, vmas.table
      modifies vm.pmm`freePages, vm.pmm`usedPages, vm.pmm`nextFree, vm.pmm.bitmap`clear, vm.pmm.bitmap.buffer
      ensures Valid() && Keeps(Live(old(blocks)), old(data), data)
      ensures p != 0 ==> block in blocks && !block.free && block.Payload() == p && p % 16 == 0
      ensures p != 0 ==> (block.size >= n <==> n + 16 <= U64_LIMIT) && block.size <= AlignSize(n) + HEADER
      ensures p != 0 ==> Live(blocks) == Live(old(blocks)) + {block} && block !in Live(old(blocks))
      ensures p == 0 ==> Live(blocks) == Live(old(blocks)) && (n == 0 || Stuck())
      ensures n == 0 ==> p == 0 && blocks == old(blocks) && growth.pages == 0
      ensures growth.pages <= PagesFor(AlignSize(n)) && committedEnd == old(committedEnd) + GROW_SIZE * growth.pages
      ensures n > 0 ==> KmallocBlocks(old(blocks), old(committedEnd), AlignSize(n), growth.pages, p != 0, blocks)
      ensures GrewBy(old(vm.Snap()), old(frames), vm.Snap(), frames, growth, p == 0 && n > 0)
      ensures OnlyArea(old(vmas.Areas()), vmas.Areas(), old(AreaStart())) && AreaStart() == old(AreaStart())
    {
      hide Coalesced, Tiles, Spells, Keeps, Live, Grown, GrownBy, KmallocBlocks, Carved, FirstFit, OnlyArea,
          Searching;
      hide PagesFor, AlignSize, Stuck, AddressSpaces.Valid, Unambiguous, PagesBacked, GrewBy, Sound, Listed;
      p, block, growth := 0, Block(0, 0, true), Growth(0, vm.Snap(), {});
      KeepsSelf(Live(blocks), data);
      GrewNothing(vm.Snap(), frames);
      OnlyAreaSelf(vmas.Areas(), AreaStart());
      if n == 0 {
        return;
      }
      var size := AlignSize(n);
      AlignWraps(n);
      SomeBlock(size);
      vm.IsSound();
      ghost var bs, end, s, were := blocks, committedEnd, vm.Snap(), frames;
      while true
        invariant Valid() && Live(blocks) == Live(old(blocks)) && Keeps(Live(old(blocks)), old(data), data)
        invariant Searching(bs, end, size, growth.pages, blocks)
        invariant committedEnd == end + GROW_SIZE * growth.pages
        invariant GrewBy(s, were, vm.Snap(), frames, growth, false)
        invariant OnlyArea(old(vmas.Areas()), vmas.Areas(), old(AreaStart())) && AreaStart() == old(AreaStart())
        decreases |vm.pmm.Free()|
      {
        ghost var was := blocks;
        p, block := TryAllocate(size, old(data));
        SearchStep(bs, end, size, growth.pages, was, p != 0, blocks);
        if p != 0 {
          BlockBelow(block);
          return;
        }
        ghost var d, u, mid, areas := data, vm.Snap(), frames, vmas.Areas();
        ghost var page;
        vm.IsSound();
        var grown;
        grown, page := Grow(committedEnd - HEAP_START + GROW_SIZE);
        assert page.pages == if grown then 1 else 0;
        KeepsTransitive(Live(was), Live(was), old(data), d, data);
        GrewMore(s, were, u, mid, vm.Snap(), frames, growth, page, !grown);
        OnlyAreaTransitive(old(vmas.Areas()), areas, vmas.Areas(), AreaStart());
        SearchOn(bs, end, size, growth.pages, was, page.pages, blocks);
        growth := Growth(growth.pages + page.pages, page.before, page.lost);
        if !grown {
          return;
        }
      }
    }

    /** One round of kmalloc over the blocks at hand: heap.c:353-362. */
    method TryAllocate(size: nat, ghost before: map<nat, u8>) returns (p: nat, ghost block: Block)
      requires Listed() && Coalesced(blocks) && size % ALIGNMENT == 0 && Keeps(Live(blocks), before, data)
      modifies this`hdr, this`data, this`blocks
      ensures Listed() && Coalesced(blocks) && Keeps(Live(old(blocks)), before, data)
      ensures p == 0 ==> blocks == old(blocks) && FirstFit(blocks, size, 0) == |blocks|
      ensures p != 0 ==> block in blocks && !block.free && block.Payload() == p && p % ALIGNMENT == 0
      ensures p != 0 ==> size <= block.size <= size + HEADER
      ensures p != 0 ==> Live(blocks) == Live(old(blocks)) + {block} && block !in Live(old(blocks))
      ensures p != 0 ==> FirstFit(old(blocks), size, 0) < |old(blocks)|
                         && Carved(old(blocks), FirstFit(old(blocks), size, 0), size, blocks)
    {
      hide Tiles, Keeps, Live, Carved, Coalesced;
      ghost var bs, d := blocks, data;
      CoalesceIdle(blocks, 0);
      Coalesce();
      KeepsTransitive(Live(bs), Live(bs), before, d, data);
      NonNull(blocks, committedEnd);
      var b, i := FindFreeBlock(size);
      if b == 0 {
        return 0, Block(0, 0, true);
      }
      BlockAligned(blocks, committedEnd, i);
      ghost var e := data;
      p, block := TakeBlock(b, size, i);
      KeepsTransitive(Live(bs), Live(bs), before, e, data);
    }

    ghost predicate IsLive(p: nat, i: nat)
      reads this
    {
      i < |blocks| && !blocks[i].free && blocks[i].Payload() == p
    }

    /** `kfree`. NULL or a live pointer; exactly that block stops being live. */
    method Kfree(p: nat, ghost i: nat)
      requires Listed() && Coalesced(blocks) && (p != 0 ==> IsLive(p, i))
      modifies this`hdr, this`data, this`blocks
      ensures Listed() && Coalesced(blocks) && Keeps(Live(blocks), old(data), data)
      ensures Live(blocks) == if p == 0 then Live(old(blocks)) else Live(old(blocks)) - {old(blocks)[i]}
      ensures blocks == if p == 0 then old(blocks) else Release(old(blocks), i)
    {
      if p == 0 {
        return;
      }
      ghost var bs := blocks;
      var b := p - HEADER;
      HeaderAt(hdr, bs, i);
      SetFreeSpells(hdr, bs, i, true);
      SetFreeTiles(bs, i, true, HEAP_START, committedEnd);
      WriteHeader(b, hdr[b].(free := true));
      ghost var d1 := data;
      HeaderOutside(bs, i, old(data));
      ghost var s := SetFree(bs, i, true);
      blocks := s;
      MergeWithNext(b, i);
      ghost var t, d2 := blocks, data;
      MergeWithPrevious(b, i);
      assert Keeps(Live(blocks), old(data), data) by {
        FreedLive(bs, i, s, t);
        KeepsSubset(Live(bs), Live(s), old(data), d1);
        KeepsTransitive(Live(s), Live(s), old(data), d1, d2);
        KeepsTransitive(Live(s), Live(s), old(data), d2, data);
        ReleaseKeeps(bs, i, HEAP_START, committedEnd);
      }
      ReleaseKeeps(bs, i, HEAP_START, committedEnd);
    }

    /** `krealloc`. Growing moves the block: the new one holds the old contents and no other live byte changes. */
    method Krealloc(p: nat, n: u64, ghost i: nat) returns (r: nat, ghost block: Block, ghost growth: Growth)
      requires Valid() && (p != 0 ==> IsLive(p, i))
      modifies this`committedEnd, this`frames, this`hdr, this`data, this`blocks, vm`tables, vm`node, vmas.table
      modifies vm.pmm`freePages, vm.pmm`usedPages, vm.pmm`nextFree, vm.pmm.bitmap`clear, vm.pmm.bitmap.buffer
      ensures Valid()
      ensures r != 0 ==> block in blocks && !block.free && block.Payload() == r
      ensures r != 0 ==> (block.size >= n <==> n + 16 <= U64_LIMIT)
      ensures r != 0 && (p == 0 || old(blocks)[i].size < AlignSize(n)) ==> block.size <= AlignSize(n) + HEADER
      ensures p == 0 ==> Live(blocks) == (if r == 0 then Live(old(blocks)) else Live(old(blocks)) + {block})
      ensures p == 0 ==> Keeps(Live(old(blocks)), old(data), data)
      ensures p != 0 && n == 0 ==> r == 0
      ensures n > 0 && r == 0 ==> Stuck()
      ensures GrewBy(old(vm.Snap()), old(frames), vm.Snap(), frames, growth, r == 0 && n > 0)
      ensures growth.pages <= PagesFor(AlignSize(n)) && committedEnd == old(committedEnd) + GROW_SIZE * growth.pages
      ensures OnlyArea(old(vmas.Areas()), vmas.Areas(), old(AreaStart()))
      ensures p != 0 && n > 0 && old(blocks)[i].size >= AlignSize(n) ==>
          r == p && blocks == old(blocks) && data == old(data) && vm.Snap() == old(vm.Snap())
      ensures p != 0 ==>
        var was := old(blocks)[i];
        && Live(blocks) == (if n == 0 then Live(old(blocks)) - {was}
                            else if r == 0 then Live(old(blocks)) else Live(old(blocks)) - {was} + {block})
        && Keeps(Live(old(blocks)) - {was}, old(data), data)
        && (n > 0 && r == 0 ==> Keeps(Live(old(blocks)), old(data), data))
        && (r != 0 ==> forall k: nat :: k < was.size ==> Moved(old(data), p, data, r, k))
    {
      hide AddressSpaces.Valid, Unambiguous, PagesBacked, GrewBy, OnlyArea, PagesFor, AlignSize, KmallocBlocks, Stuck;
      block, growth := Block(0, 0, true), Growth(0, vm.Snap(), {});
      GrewNothing(vm.Snap(), frames);
      OnlyAreaSelf(vmas.Areas(), AreaStart());
      if p == 0 {
        r, block, growth := Kmalloc(n);
        return;
      }
      ghost var was := blocks[i];
      if n == 0 {
        Kfree(p, i);
        return 0, block, growth;
      }
      var size := AlignSize(n);
      AlignWraps(n);
      var b := p - HEADER;
      HeaderAt(hdr, blocks, i);
      BlockBelow(was);
      if hdr[b].size >= size {
        return p, was, growth;
      }
      AlignAgain(n);
      r, block, growth := Move(p, size, i);
    }

    /** `k_memcpy` between disjoint ranges: known bytes are copied, unknown ones become unknown. */
    method Memcpy(dst: nat, src: nat, len: nat)
      requires dst + len <= src || src + len <= dst
      modifies this`data
      ensures forall k: nat :: k < len ==> Moved(old(data), src, data, dst, k)
      ensures forall p: nat :: !(dst <= p < dst + len) ==> SameAt(old(data), data, p)
    {
      for i := 0 to len
        invariant forall k: nat :: k < i ==> Moved(old(data), src, data, dst, k)
        invariant forall p: nat :: !(dst <= p < dst + i) ==> SameAt(old(data), data, p)
      {
        ghost var d := data;
        assert SameAt(old(data), d, src + i);
        if src + i in data {
          data := data[dst + i := data[src + i]];
        } else {
          data := data - {dst + i};
        }
        forall k: nat | k < i + 1 ensures Moved(old(data), src, data, dst, k) {
          assert k < i ==> Moved(old(data), src, d, dst, k);
        }
        forall p: nat | !(dst <= p < dst + i + 1) ensures SameAt(old(data), data, p) {
          assert SameAt(old(data), d, p);
        }
      }
    }

    /** `k_memcpy` of file bytes into a live block. */
    method CopyIn(dst: nat, src: seq<u8>, from: nat, n: nat, ghost block: Block)
      requires from + n <= |src| && block in Live(blocks) && block.Payload() <= dst && dst + n <= block.End()
      modifies this`data
      ensures forall p: nat :: dst <= p < dst + n ==> p in data && data[p] == src[from + (p - dst)]
      ensures forall p: nat :: !(dst <= p < dst + n) ==> SameAt(old(data), data, p)
    {
      for i := 0 to n
        invariant forall p: nat :: dst <= p < dst + i ==> p in data && data[p] == src[from + (p - dst)]
        invariant forall p: nat :: !(dst <= p < dst + i) ==> SameAt(old(data), data, p)
      {
        ghost var d := data;
        data := data[dst + i := src[from + i]];
        forall p: nat | !(dst <= p < dst + i + 1) ensures SameAt(old(data), data, p) {
          assert SameAt(old(data), d, p);
        }
      }
    }

    /** `k_memset` with zero inside a live block. */
    method ZeroFill(dst: nat, n: nat, ghost block: Block)
      requires block in Live(blocks) && block.Payload() <= dst && dst + n <= block.End()
      modifies this`data
      ensures forall p: nat :: dst <= p < dst + n ==> p in data && data[p] == 0
      ensures forall p: nat :: !(dst <= p < dst + n) ==> SameAt(old(data), data, p)
    {
      for i := 0 to n
        invariant forall p: nat :: dst <= p < dst + i ==> p in data && data[p] == 0
        invariant forall p: nat :: !(dst <= p < dst + i) ==> SameAt(old(data), data, p)
      {
        ghost var d := data;
        data := data[dst + i := 0];
        forall p: nat | !(dst <= p < dst + i + 1) ensures SameAt(old(data), data, p) {
          assert SameAt(old(data), d, p);
        }
      }
    }

    /** The moving half of `krealloc`: heap.c:418-427. */
    method Move(p: nat, size: u64, ghost i: nat) returns (r: nat, ghost block: Block, ghost growth: Growth)
      requires Valid() && AlignSize(size) == size && IsLive(p, i) && blocks[i].size < size
      modifies this`committedEnd, this`frames, this`hdr, this`data, this`blocks, vm`tables, vm`node, vmas.table
      modifies vm.pmm`freePages, vm.pmm`usedPages, vm.pmm`nextFree, vm.pmm.bitmap`clear, vm.pmm.bitmap.buffer
      ensures Valid()
      ensures r == 0 ==> Live(blocks) == Live(old(blocks)) && Keeps(Live(old(blocks)), old(data), data) && Stuck()
      ensures GrewBy(old(vm.Snap()), old(frames), vm.Snap(), frames, growth, r == 0)
      ensures growth.pages <= PagesFor(size) && committedEnd == old(committedEnd) + GROW_SIZE * growth.pages
      ensures OnlyArea(old(vmas.Areas()), vmas.Areas(), old(AreaStart()))
      ensures r != 0 ==> block in blocks && !block.free && block.Payload() == r
      ensures r != 0 ==> size <= block.size <= size + HEADER
      ensures r != 0 ==> Live(blocks) == Live(old(blocks)) - {old(blocks)[i]} + {block}
      ensures Keeps(Live(old(blocks)) - {old(blocks)[i]}, old(data), data)
      ensures r != 0 ==> forall k: nat :: k < old(blocks)[i].size ==> Moved(old(data), p, data, r, k)
    {
      hide Backed, Listed, Tiles, Spells, Keeps, Coalesced, Moved, KmallocBlocks, GrewBy, OnlyArea, Stuck, AreaStart,
          PagesFor, AlignSize;
      ghost var was, live := blocks[i], Live(blocks);
      AlignWraps(size);
      r, block, growth := Kmalloc(size);
      if r == 0 {
        KeepsSubset(live, live - {was}, old(data), data);
        return;
      }
      assert was in Live(blocks);
      ghost var d1 := data;
      CopyAndFree(p, r, was, block);
      assert block in Live(blocks);
      MoveKeeps(live, was, block, p, r, old(data), d1, data);
    }

    /** heap.c:424-425: the old block's bytes go to the new one and the old one is freed. */
    method CopyAndFree(p: nat, r: nat, ghost was: Block, ghost block: Block)
      requires Listed() && Coalesced(blocks) && was in Live(blocks) && block in Live(blocks) && was != block
      requires was.Payload() == p && block.Payload() == r && was.size <= block.size
      modifies this`hdr, this`data, this`blocks
      ensures Listed() && Coalesced(blocks) && Live(blocks) == Live(old(blocks)) - {was}
      ensures Keeps(Live(old(blocks)) - {was, block}, old(data), data)
      ensures forall m: nat :: m < was.size ==> Moved(old(data), p, data, r, m)
    {
      ghost var j := IndexOfBlock(blocks, was);
      ghost var k := IndexOfBlock(blocks, block);
      HeaderAt(hdr, blocks, j);
      ApartBlocks(blocks, j, k);
      var b := p - HEADER;
      Memcpy(r, p, hdr[b].size);
      ghost var d := data;
      CopyKeeps(blocks, k, was.size, old(data), d);
      Kfree(p, j);
      FreeKeeps(Live(old(blocks)), was, block, p, r, old(data), d, data);
    }
  }
}
