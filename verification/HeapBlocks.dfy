/** The block list of kernel/src/mm/heap.c as a sequence, and what split, merge, growth, allocation and
    release do to it. */
module HeapBlocks {
  const HEADER: nat := 32
  const ALIGNMENT: nat := 16
  const GROW_SIZE: nat := 4096

  datatype Block = Block(addr: nat, size: nat, free: bool) {
    function Payload(): nat { addr + HEADER }
    function End(): nat { addr + HEADER + size }
    predicate Holds(p: nat) { Payload() <= p < End() }
  }

  /** Rounding up to a multiple of 16. */
  function Align(size: nat): (r: nat)
    ensures size <= r < size + ALIGNMENT && r % ALIGNMENT == 0
  {
    (size + (ALIGNMENT - 1)) / ALIGNMENT * ALIGNMENT
  }

  ghost predicate Shape(bs: seq<Block>) {
    forall i :: 0 <= i < |bs| ==> bs[i].addr % ALIGNMENT == 0 && bs[i].size % ALIGNMENT == 0
  }

  /** Block `i` ends where the next one starts. */
  predicate Joins(bs: seq<Block>, i: int)
    requires 0 <= i < |bs| - 1
  {
    bs[i + 1].addr == bs[i].End()
  }

  ghost predicate Chained(bs: seq<Block>) {
    forall i :: 0 <= i < |bs| - 1 ==> Joins(bs, i)
  }

  /** The blocks cover [start, end) exactly, in order, without gap or overlap. */
  ghost predicate Tiles(bs: seq<Block>, start: nat, end: nat) {
    |bs| > 0 && bs[0].addr == start && bs[|bs| - 1].End() == end && Chained(bs) && Shape(bs)
  }

  /** No two neighbours are both free. */
  ghost predicate Coalesced(bs: seq<Block>) {
    forall i :: 0 <= i < |bs| - 1 ==> !(bs[i].free && bs[i + 1].free)
  }

  ghost function Live(bs: seq<Block>): set<Block> {
    set b | b in bs && !b.free
  }

  lemma {:induction false} Ordered(bs: seq<Block>, i: nat, j: nat)
    requires Chained(bs) && i < j < |bs|
    ensures bs[i].End() <= bs[j].addr
  {
    if j > i + 1 {
      Ordered(bs, i, j - 1);
    }
    assert Joins(bs, j - 1);
  }

  /** Different blocks of a tiling share no byte, headers included. */
  lemma Disjoint(bs: seq<Block>, i: nat, j: nat, p: nat)
    requires Chained(bs) && i < |bs| && j < |bs| && i != j && bs[i].addr <= p < bs[i].End()
    ensures !(bs[j].addr <= p < bs[j].End())
  {
    if i < j {
      Ordered(bs, i, j);
    } else {
      Ordered(bs, j, i);
    }
  }

  /** A block of a tiling is known by its address. */
  lemma AddressUnique(bs: seq<Block>, i: nat, j: nat)
    requires Chained(bs) && i < |bs| && j < |bs| && bs[i].addr == bs[j].addr
    ensures i == j
  {
    if i < j {
      Ordered(bs, i, j);
    } else if j < i {
      Ordered(bs, j, i);
    }
  }

  function SetFree(bs: seq<Block>, i: nat, free: bool): seq<Block>
    requires i < |bs|
  {
    bs[i := bs[i].(free := free)]
  }

  /** `split_block` on block `i`. */
  function Split(bs: seq<Block>, i: nat, size: nat): seq<Block>
    requires i < |bs|
  {
    var b := bs[i];
    if b.size <= size + HEADER then bs
    else bs[..i] + [b.(size := size), Block(b.addr + HEADER + size, b.size - size - HEADER, true)] + bs[i + 1..]
  }

  /** `merge_with_next` on block `i`. */
  function MergeNext(bs: seq<Block>, i: nat): (r: seq<Block>)
    requires i < |bs|
    ensures |bs| - 1 <= |r| <= |bs| && i < |r|
  {
    if i + 1 < |bs| && bs[i + 1].free
    then bs[..i] + [bs[i].(size := bs[i].size + HEADER + bs[i + 1].size)] + bs[i + 2..]
    else bs
  }

  /** `merge_with_previous` on block `i`. */
  function MergePrevious(bs: seq<Block>, i: nat): seq<Block>
    requires i < |bs|
  {
    if i > 0 && bs[i - 1].free
    then bs[..i - 1] + [bs[i - 1].(size := bs[i - 1].size + HEADER + bs[i].size)] + bs[i + 1..]
    else bs
  }

  /** The inner loop of `coalesce_free_blocks`: absorb the free blocks after `i`. */
  function Absorb(bs: seq<Block>, i: nat): (r: seq<Block>)
    requires i < |bs|
    ensures i < |r| <= |bs|
    decreases |bs|
  {
    if bs[i].free && i + 1 < |bs| && bs[i + 1].free then Absorb(MergeNext(bs, i), i) else bs
  }

  /** `coalesce_free_blocks` from block `i` on. */
  function CoalesceFrom(bs: seq<Block>, i: nat): seq<Block>
    decreases |bs| - i
  {
    if i >= |bs| then bs else CoalesceFrom(Absorb(bs, i), i + 1)
  }

  /** `find_free_block`: the first free block that is large enough, or the length of the list. */
  function FirstFit(bs: seq<Block>, size: nat, from: nat): (i: nat)
    requires from <= |bs|
    ensures from <= i <= |bs|
    ensures i < |bs| ==> bs[i].free && bs[i].size >= size
    ensures forall k :: from <= k < i ==> !(bs[k].free && bs[k].size >= size)
    decreases |bs| - from
  {
    if from == |bs| then from
    else if bs[from].free && bs[from].size >= size then from
    else FirstFit(bs, size, from + 1)
  }

  function Allocate(bs: seq<Block>, i: nat, size: nat): seq<Block>
    requires i < |bs|
  {
    SetFree(Split(bs, i, size), i, false)
  }

  function Release(bs: seq<Block>, i: nat): seq<Block>
    requires i < |bs|
  {
    MergePrevious(MergeNext(SetFree(bs, i, true), i), i)
  }

  /** The list part of `heap_expand`: a new page at `end`, merged into a free last block. */
  function Grown(bs: seq<Block>, end: nat): seq<Block>
    requires |bs| > 0
  {
    var longer := bs + [Block(end, GROW_SIZE - HEADER, true)];
    if bs[|bs| - 1].free then MergeNext(longer, |bs| - 1) else longer
  }

  lemma SplitChained(bs: seq<Block>, i: nat, size: nat)
    requires Chained(bs) && i < |bs| && size <= bs[i].size
    ensures Chained(Split(bs, i, size))
  {
    var r := Split(bs, i, size);
    if r != bs {
      forall k | 0 <= k < |r| - 1 ensures Joins(r, k) {
        if k < i - 1 {
          assert Joins(bs, k);
        } else if k == i - 1 {
          assert Joins(bs, i - 1);
        } else if k > i {
          assert Joins(bs, k - 1);
        }
      }
    }
  }

  lemma AlignedRest(addr: nat, whole: nat, size: nat)
    requires addr % ALIGNMENT == 0 && whole % ALIGNMENT == 0 && size % ALIGNMENT == 0 && whole > size + HEADER
    ensures (addr + HEADER + size) % ALIGNMENT == 0 && (whole - size - HEADER) % ALIGNMENT == 0
  {
  }

  lemma SplitTiles(bs: seq<Block>, i: nat, size: nat, start: nat, end: nat)
    requires Tiles(bs, start, end) && i < |bs| && size <= bs[i].size && size % ALIGNMENT == 0
    ensures Tiles(Split(bs, i, size), start, end)
  {
    SplitChained(bs, i, size);
    var r := Split(bs, i, size);
    if r != bs {
      AlignedRest(bs[i].addr, bs[i].size, size);
      forall k | 0 <= k < |r|
        ensures r[k].addr % ALIGNMENT == 0 && r[k].size % ALIGNMENT == 0
      {
        if k > i + 1 {
          assert r[k] == bs[k - 1];
        }
      }
    }
  }

  lemma SetFreeTiles(bs: seq<Block>, i: nat, free: bool, start: nat, end: nat)
    requires Tiles(bs, start, end) && i < |bs|
    ensures Tiles(SetFree(bs, i, free), start, end)
  {
    var r := SetFree(bs, i, free);
    forall k | 0 <= k < |r| - 1 ensures Joins(r, k) {
      assert Joins(bs, k);
    }
  }

  lemma MergeNextTiles(bs: seq<Block>, i: nat, start: nat, end: nat)
    requires Tiles(bs, start, end) && i < |bs|
    ensures Tiles(MergeNext(bs, i), start, end)
  {
    var r := MergeNext(bs, i);
    if r != bs {
      assert Joins(bs, i);
      forall k | 0 <= k < |r| - 1 ensures Joins(r, k) {
        if k < i {
          assert Joins(bs, k);
        } else {
          assert Joins(bs, k + 1);
        }
      }
    }
  }

  lemma MergePreviousIsMergeNext(bs: seq<Block>, i: nat)
    requires 0 < i < |bs| && bs[i - 1].free && bs[i].free
    ensures MergePrevious(bs, i) == MergeNext(bs, i - 1)
  {
  }

  /** Allocation keeps the tiling and the coalescing, and adds exactly one live block: the front of block `i`. */
  lemma AllocateKeeps(bs: seq<Block>, i: nat, size: nat, start: nat, end: nat)
    requires Tiles(bs, start, end) && Coalesced(bs) && i < |bs| && bs[i].free
    requires size <= bs[i].size && size % ALIGNMENT == 0
    ensures
      var r := Allocate(bs, i, size);
      && Tiles(r, start, end) && Coalesced(r) && i < |r|
      && r[i].addr == bs[i].addr && size <= r[i].size && r[i].End() <= bs[i].End() && !r[i].free
      && Live(r) == Live(bs) + {r[i]} && r[i] !in Live(bs)
  {
    SplitTiles(bs, i, size, start, end);
    SetFreeTiles(Split(bs, i, size), i, false, start, end);
    AllocateLive(bs, i, size);
    AllocateCoalesced(bs, i, size);
  }

  /** The list after `size` bytes have been taken from block `i`, in full: the block in use is cut to the size
      whenever a header fits behind it, the rest of it is then one free block, and every other block stays. */
  ghost predicate Carved(bs: seq<Block>, i: nat, size: nat, r: seq<Block>)
    requires i < |bs|
  {
    && i < |r| && r[..i] == bs[..i] && r[i].addr == bs[i].addr && !r[i].free
    && if bs[i].size <= size + HEADER
       then r[i].size == bs[i].size && r[i + 1..] == bs[i + 1..]
       else
         && r[i].size == size && i + 1 < |r| && r[i + 1].free
         && r[i + 1].addr == r[i].End() && r[i + 1].End() == bs[i].End() && r[i + 2..] == bs[i + 1..]
  }

  lemma AllocateCarves(bs: seq<Block>, i: nat, size: nat)
    requires i < |bs| && size <= bs[i].size
    ensures Carved(bs, i, size, Allocate(bs, i, size))
  {
    var r := Allocate(bs, i, size);
    if bs[i].size > size + HEADER {
      assert r == bs[..i] + [Block(bs[i].addr, size, false),
                             Block(bs[i].addr + HEADER + size, bs[i].size - size - HEADER, true)] + bs[i + 1..];
    }
  }

  /** The block in use is never more than a header larger than asked. */
  lemma CarvedSize(bs: seq<Block>, i: nat, size: nat, r: seq<Block>)
    requires i < |bs| && size <= bs[i].size && Carved(bs, i, size, r)
    ensures size <= r[i].size <= size + HEADER
  {
  }

  // ----- the live blocks determine the list -----

  /** A list without gaps and without free neighbours is known by its live blocks alone. */
  lemma LiveDetermines(a: seq<Block>, b: seq<Block>, start: nat, end: nat)
    requires Tiles(a, start, end) && Coalesced(a) && Tiles(b, start, end) && Coalesced(b) && Live(a) == Live(b)
    ensures a == b
  {
    SamePrefix(a, b, start, end, |a|);
    if |a| < |b| {
      Ordered(b, |a| - 1, |a|);
      BelowEnd(b, start, end, |a|);
    }
  }

  lemma {:induction false} SamePrefix(a: seq<Block>, b: seq<Block>, start: nat, end: nat, n: nat)
    requires Tiles(a, start, end) && Coalesced(a) && Tiles(b, start, end) && Coalesced(b) && Live(a) == Live(b)
    requires n <= |a|
    ensures n <= |b| && a[..n] == b[..n]
  {
    if n > 0 {
      SamePrefix(a, b, start, end, n - 1);
      var k := n - 1;
      NextStarts(a, b, start, end, k);
      SameBlock(a, b, start, end, k);
    }
  }

  /** After equal prefixes both lists go on, at the same address. */
  lemma NextStarts(a: seq<Block>, b: seq<Block>, start: nat, end: nat, k: nat)
    requires Tiles(a, start, end) && Tiles(b, start, end) && k < |a| && k <= |b| && a[..k] == b[..k]
    ensures k < |b| && a[k].addr == b[k].addr
  {
    if k > 0 {
      assert a[k - 1] == a[..k][k - 1] == b[..k][k - 1] == b[k - 1];
      assert Joins(a, k - 1);
      if k == |b| {
        BelowEnd(a, start, end, k);
      } else {
        assert Joins(b, k - 1);
      }
    }
  }

  lemma SameBlock(a: seq<Block>, b: seq<Block>, start: nat, end: nat, k: nat)
    requires Tiles(a, start, end) && Coalesced(a) && Tiles(b, start, end) && Coalesced(b) && Live(a) == Live(b)
    requires k < |a| && k < |b| && a[k].addr == b[k].addr
    ensures a[k] == b[k]
  {
    if !a[k].free {
      LiveAt(a, b, k, k);
    } else if !b[k].free {
      LiveAt(b, a, k, k);
    } else if a[k].size < b[k].size {
      NoShorter(a, b, start, end, k);
    } else if b[k].size < a[k].size {
      NoShorter(b, a, start, end, k);
    }
  }

  /** A live block of one list is the block of the other that holds its address. */
  lemma LiveAt(a: seq<Block>, b: seq<Block>, i: nat, k: nat)
    requires Chained(b) && Live(a) == Live(b) && i < |a| && !a[i].free && k < |b|
    requires b[k].addr <= a[i].addr < b[k].End()
    ensures b[k] == a[i]
  {
    assert a[i] in Live(b);
    var j :| 0 <= j < |b| && b[j] == a[i];
    if j != k {
      Disjoint(b, k, j, a[i].addr);
    }
  }

  lemma NoShorter(a: seq<Block>, b: seq<Block>, start: nat, end: nat, k: nat)
    requires Tiles(a, start, end) && Coalesced(a) && Tiles(b, start, end) && Live(a) == Live(b)
    requires k < |a| && k < |b| && a[k].addr == b[k].addr && a[k].free && b[k].free
    ensures a[k].size >= b[k].size
  {
    if a[k].size < b[k].size {
      BelowEnd(b, start, end, k);
      assert k + 1 < |a|;
      assert Joins(a, k);
      LiveAt(a, b, k + 1, k);
    }
  }

  lemma AllocateCoalesced(bs: seq<Block>, i: nat, size: nat)
    requires Coalesced(bs) && i < |bs| && bs[i].free
    ensures Coalesced(Allocate(bs, i, size))
  {
    var s := Split(bs, i, size);
    var r := Allocate(bs, i, size);
    forall k | 0 <= k < |r| - 1 ensures !(r[k].free && r[k + 1].free) {
      if s != bs && k > i {
        assert r[k + 1] == bs[k];
        assert !(bs[k - 1].free && bs[k].free);
      }
    }
  }

  lemma AllocateLive(bs: seq<Block>, i: nat, size: nat)
    requires Chained(bs) && i < |bs| && bs[i].free
    ensures var r := Allocate(bs, i, size); i < |r| && Live(r) == Live(bs) + {r[i]} && r[i] !in Live(bs)
  {
    var s := Split(bs, i, size);
    var r := Allocate(bs, i, size);
    forall b ensures b in Live(r) <==> b in Live(bs) || b == r[i] {
      if b in Live(r) && b != r[i] {
        var k :| 0 <= k < |r| && r[k] == b;
        assert b == if k < i || s == bs then bs[k] else bs[k - 1];
      }
      if b in Live(bs) {
        var k :| 0 <= k < |bs| && bs[k] == b;
        assert b == if k < i || s == bs then r[k] else r[k + 1];
      }
    }
    if r[i] in bs {
      var k :| 0 <= k < |bs| && bs[k] == r[i];
      AddressUnique(bs, i, k);
    }
  }

  /** Release keeps the tiling and the coalescing, and removes exactly the released block from the live ones. */
  lemma ReleaseKeeps(bs: seq<Block>, i: nat, start: nat, end: nat)
    requires Tiles(bs, start, end) && Coalesced(bs) && i < |bs| && !bs[i].free
    ensures
      var r := Release(bs, i);
      Tiles(r, start, end) && Coalesced(r) && Live(r) == Live(bs) - {bs[i]}
  {
    ReleaseTiles(bs, i, start, end);
    ReleaseCoalesced(bs, i);
    ReleaseLive(bs, i);
  }

  lemma ReleaseTiles(bs: seq<Block>, i: nat, start: nat, end: nat)
    requires Tiles(bs, start, end) && i < |bs|
    ensures Tiles(Release(bs, i), start, end)
  {
    var s := SetFree(bs, i, true);
    SetFreeTiles(bs, i, true, start, end);
    var t := MergeNext(s, i);
    MergeNextTiles(s, i, start, end);
    var r := MergePrevious(t, i);
    if r != t {
      MergePreviousIsMergeNext(t, i);
      MergeNextTiles(t, i - 1, start, end);
    }
  }

  /** Only the block before the released one and the block after it can be free neighbours. */
  lemma ReleaseCoalesced(bs: seq<Block>, i: nat)
    requires Coalesced(bs) && i < |bs| && !bs[i].free
    ensures Coalesced(Release(bs, i))
  {
    var s := SetFree(bs, i, true);
    var t := MergeNext(s, i);
    assert forall k :: 0 <= k < |t| - 1 && k != i - 1 ==> !(t[k].free && t[k + 1].free) by {
      forall k | 0 <= k < |t| - 1 && k != i - 1 ensures !(t[k].free && t[k + 1].free) {
        if k < i - 1 {
          assert t[k] == bs[k] && t[k + 1] == bs[k + 1];
        } else if t == s {
          assert t[k + 1] == bs[k + 1];
        } else {
          assert t[k + 1] == bs[k + 2];
          assert !(bs[k + 1].free && bs[k + 2].free);
        }
      }
    }
    var r := MergePrevious(t, i);
    if r != t {
      forall k | 0 <= k < |r| - 1 ensures !(r[k].free && r[k + 1].free) {
        if k < i - 1 {
          assert !(t[k].free && t[k + 1].free);
        } else {
          assert r[k + 1] == t[k + 2];
          assert !(t[k + 1].free && t[k + 2].free);
        }
      }
    }
  }

  lemma ReleaseLive(bs: seq<Block>, i: nat)
    requires Chained(bs) && i < |bs| && !bs[i].free
    ensures Live(Release(bs, i)) == Live(bs) - {bs[i]}
  {
    var s := SetFree(bs, i, true);
    var t := MergeNext(s, i);
    var r := MergePrevious(t, i);
    if r != t {
      MergePreviousIsMergeNext(t, i);
    }
    LiveAfterFree(bs, i);
    LiveAfterMerge(s, i);
    if r != t {
      LiveAfterMerge(t, i - 1);
    }
  }

  lemma LiveAfterFree(bs: seq<Block>, i: nat)
    requires Chained(bs) && i < |bs| && !bs[i].free
    ensures Live(SetFree(bs, i, true)) == Live(bs) - {bs[i]}
  {
    var s := SetFree(bs, i, true);
    forall b ensures b in Live(s) <==> b in Live(bs) && b != bs[i] {
      if b in Live(s) {
        var k :| 0 <= k < |s| && s[k] == b;
        assert k != i && bs[k] == b;
        if b == bs[i] { AddressUnique(bs, i, k); }
      }
      if b in Live(bs) && b != bs[i] {
        var k :| 0 <= k < |bs| && bs[k] == b;
        assert s[k] == b;
      }
    }
  }

  lemma LiveAfterMerge(bs: seq<Block>, i: nat)
    requires i < |bs| && bs[i].free
    ensures Live(MergeNext(bs, i)) == Live(bs)
  {
    var r := MergeNext(bs, i);
    if r != bs {
      forall b ensures b in Live(r) <==> b in Live(bs) {
        if b in Live(r) {
          var k :| 0 <= k < |r| && r[k] == b;
          assert b == if k < i then bs[k] else bs[k + 1];
        }
        if b in Live(bs) {
          var k :| 0 <= k < |bs| && bs[k] == b;
          assert b == if k < i then r[k] else r[k - 1];
        }
      }
    }
  }

  lemma PageTiles(bs: seq<Block>, start: nat, end: nat)
    requires Tiles(bs, start, end) && end % ALIGNMENT == 0
    ensures
      var longer := bs + [Block(end, GROW_SIZE - HEADER, true)];
      Tiles(longer, start, end + GROW_SIZE) && Live(longer) == Live(bs)
  {
    var longer := bs + [Block(end, GROW_SIZE - HEADER, true)];
    forall k | 0 <= k < |longer| - 1 ensures Joins(longer, k) {
      if k < |bs| - 1 {
        assert Joins(bs, k);
      }
    }
  }

  lemma BelowEnd(bs: seq<Block>, start: nat, end: nat, i: nat)
    requires Tiles(bs, start, end) && i < |bs|
    ensures bs[i].End() <= end && bs[i].addr < end
  {
    if i < |bs| - 1 {
      Ordered(bs, i, |bs| - 1);
    }
  }

  /** Growth keeps the tiling and the coalescing, touches no live block, and leaves a free last block
      that gained a whole page. */
  lemma ExpandKeeps(bs: seq<Block>, start: nat, end: nat)
    requires Tiles(bs, start, end) && Coalesced(bs) && end % ALIGNMENT == 0
    ensures
      var r := Grown(bs, end);
      var last, last' := bs[|bs| - 1], r[|r| - 1];
      && Tiles(r, start, end + GROW_SIZE) && Coalesced(r) && Live(r) == Live(bs)
      && last'.free && last'.size == (if last.free then last.size + GROW_SIZE else GROW_SIZE - HEADER)
  {
    PageTiles(bs, start, end);
    var longer := bs + [Block(end, GROW_SIZE - HEADER, true)];
    if bs[|bs| - 1].free {
      MergeNextTiles(longer, |bs| - 1, start, end + GROW_SIZE);
      LiveAfterMerge(longer, |bs| - 1);
    }
  }

  /** On a coalesced list the pass of kmalloc over all blocks changes nothing. */
  lemma {:induction false} CoalesceIdle(bs: seq<Block>, i: nat)
    requires Coalesced(bs)
    ensures CoalesceFrom(bs, i) == bs
    decreases |bs| - i
  {
    if i < |bs| {
      assert Absorb(bs, i) == bs;
      CoalesceIdle(bs, i + 1);
    }
  }
}
