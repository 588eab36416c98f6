/** Block headers and user bytes as values: the linked list in memory spells a list of blocks, and header
    writes spare the bytes of live blocks. */
module HeapLinks {
  import opened Machine
  import opened PageTables
  import opened HeapBlocks
  import opened HeapPages

  /** `heap_block_t`; an address of 0 is NULL. */
  datatype Header = Header(size: nat, free: bool, next: nat, prev: nat)

  function HeaderOf(bs: seq<Block>, i: nat): Header
    requires i < |bs|
  {
    Header(bs[i].size, bs[i].free, if i + 1 < |bs| then bs[i + 1].addr else 0, if i > 0 then bs[i - 1].addr else 0)
  }

  /** The headers in memory spell the list, with `prev` the inverse of `next`. */
  ghost predicate Spells(hdr: map<nat, Header>, bs: seq<Block>) {
    forall i {:trigger HeaderOf(bs, i)} :: 0 <= i < |bs| ==> bs[i].addr in hdr && hdr[bs[i].addr] == HeaderOf(bs, i)
  }

  lemma HeaderAt(hdr: map<nat, Header>, bs: seq<Block>, i: nat)
    requires Spells(hdr, bs) && i < |bs|
    ensures bs[i].addr in hdr && hdr[bs[i].addr] == HeaderOf(bs, i)
  {
  }

  /** Writing a header at `a` destroys whatever user data lay there. */
  function Overwrite(d: map<nat, u8>, a: nat): map<nat, u8> {
    map p | p in d && !(a <= p < a + HEADER) :: d[p]
  }

  ghost predicate SameAt(d: map<nat, u8>, e: map<nat, u8>, p: nat) {
    (p in d <==> p in e) && (p in d ==> d[p] == e[p])
  }

  /** The payload bytes of these blocks are the same in both memories. */
  ghost predicate Keeps(live: set<Block>, d: map<nat, u8>, e: map<nat, u8>) {
    forall b, p: nat :: b in live && b.Holds(p) ==> SameAt(d, e, p)
  }

  lemma KeepsTransitive(live: set<Block>, more: set<Block>, d: map<nat, u8>, e: map<nat, u8>, f: map<nat, u8>)
    requires Keeps(live, d, e) && Keeps(more, e, f) && live <= more
    ensures Keeps(live, d, f)
  {
    forall b, p: nat | b in live && b.Holds(p) ensures SameAt(d, f, p) {
      assert SameAt(d, e, p) && SameAt(e, f, p);
    }
  }

  /** A header lies in no payload, whichever block it belongs to. */
  lemma HeaderOutside(bs: seq<Block>, i: nat, d: map<nat, u8>)
    requires Chained(bs) && i < |bs|
    ensures Keeps(Live(bs), d, Overwrite(d, bs[i].addr))
  {
    forall b, p: nat | b in Live(bs) && b.Holds(p) ensures !(bs[i].addr <= p < bs[i].addr + HEADER) {
      var j :| 0 <= j < |bs| && bs[j] == b;
      if i < j {
        Ordered(bs, i, j);
      } else if j < i {
        Ordered(bs, j, i);
      }
    }
  }

  /** A header placed inside a free block lies in no live payload. */
  lemma InsideFree(bs: seq<Block>, i: nat, a: nat, d: map<nat, u8>)
    requires Chained(bs) && i < |bs| && bs[i].free && bs[i].addr <= a && a + HEADER <= bs[i].End()
    ensures Keeps(Live(bs), d, Overwrite(d, a))
  {
    forall b, p: nat | b in Live(bs) && b.Holds(p) ensures !(a <= p < a + HEADER) {
      var j :| 0 <= j < |bs| && bs[j] == b;
      if i < j {
        Ordered(bs, i, j);
      } else if j < i {
        Ordered(bs, j, i);
      }
    }
  }

  /** The header that the split list asks for at index `k`, in terms of the list before. */
  lemma SplitHeader(bs: seq<Block>, i: nat, size: nat, k: nat)
    requires i < |bs| && bs[i].size > size + HEADER && k <= |bs|
    ensures
      var r := Split(bs, i, size);
      var n := bs[i].addr + HEADER + size;
      && |r| == |bs| + 1
      && r[k].addr == (if k <= i then bs[k].addr else if k == i + 1 then n else bs[k - 1].addr)
      && HeaderOf(r, k) == if k < i then HeaderOf(bs, k)
                           else if k == i then HeaderOf(bs, i).(next := n, size := size)
                           else if k == i + 1 then Header(bs[i].size - size - HEADER, true, HeaderOf(bs, i).next,
                               bs[i].addr)
                           else if k == i + 2 then HeaderOf(bs, k - 1).(prev := n)
                           else HeaderOf(bs, k - 1)
  {
  }

  /** The three header writes of split_block spell the split list. */
  lemma SplitSpells(hdr: map<nat, Header>, bs: seq<Block>, i: nat, size: nat, g: map<nat, Header>)
    requires Chained(bs) && Spells(hdr, bs) && i < |bs| && bs[i].size > size + HEADER
    requires var b := bs[i].addr;
             var n := b + HEADER + size;
             && n in g && g[n] == Header(bs[i].size - size - HEADER, true, HeaderOf(bs, i).next, b)
             && b in g && g[b] == HeaderOf(bs, i).(next := n, size := size)
             && (forall k :: 0 <= k < |bs| && k != i ==>
                   && bs[k].addr in g
                   && g[bs[k].addr] == (if k == i + 1 then HeaderOf(bs, k).(prev := n) else HeaderOf(bs, k)))
    ensures Spells(g, Split(bs, i, size))
  {
    var r := Split(bs, i, size);
    forall k | 0 <= k < |r| ensures r[k].addr in g && g[r[k].addr] == HeaderOf(r, k) {
      SplitHeader(bs, i, size, k);
    }
  }

  /** The header writes of merge_with_next spell the merged list. */
  lemma MergeSpells(hdr: map<nat, Header>, bs: seq<Block>, i: nat, g: map<nat, Header>)
    requires Chained(bs) && Spells(hdr, bs) && i + 1 < |bs| && bs[i + 1].free
    requires var b := bs[i].addr;
             && b in g && g[b] == HeaderOf(bs, i).(size := bs[i].size + HEADER + bs[i + 1].size,
                                                  next := HeaderOf(bs, i + 1).next)
             && (forall k :: 0 <= k < |bs| && k != i && k != i + 1 ==>
                   && bs[k].addr in g
                   && g[bs[k].addr] == (if k == i + 2 then HeaderOf(bs, k).(prev := b) else HeaderOf(bs, k)))
    ensures Spells(g, MergeNext(bs, i))
  {
    var r := MergeNext(bs, i);
    forall k | 0 <= k < |r| ensures r[k].addr in g && g[r[k].addr] == HeaderOf(r, k) {
      MergeHeader(bs, i, k);
    }
  }

  lemma MergeHeader(bs: seq<Block>, i: nat, k: nat)
    requires i + 1 < |bs| && bs[i + 1].free && k < |bs| - 1
    ensures
      var r := MergeNext(bs, i);
      && |r| == |bs| - 1
      && r[k].addr == (if k <= i then bs[k].addr else bs[k + 1].addr)
      && HeaderOf(r, k) == if k < i then HeaderOf(bs, k)
                           else if k == i then HeaderOf(bs, i).(size := bs[i].size + HEADER + bs[i + 1].size,
                                                                next := HeaderOf(bs, i + 1).next)
                           else if k == i + 1 then HeaderOf(bs, k + 1).(prev := bs[i].addr)
                           else HeaderOf(bs, k + 1)
  {
  }

  lemma AddressesDiffer(bs: seq<Block>, i: nat, j: nat)
    requires Chained(bs) && i < |bs| && j < |bs| && i != j
    ensures bs[i].addr != bs[j].addr
  {
    if i < j {
      Ordered(bs, i, j);
    } else {
      Ordered(bs, j, i);
    }
  }

  /** The headers after block `b` has taken over the block at `next`. */
  function LinkHeaders(hdr: map<nat, Header>, b: nat, next: nat): map<nat, Header>
    requires b in hdr && next in hdr && (hdr[next].next != 0 ==> hdr[next].next in hdr)
  {
    var after := hdr[next].next;
    var h := hdr[b := hdr[b].(size := hdr[b].size + HEADER + hdr[next].size, next := after)];
    if after != 0 then h[after := h[after].(prev := b)] else h
  }

  lemma LinkSpells(hdr: map<nat, Header>, bs: seq<Block>, i: nat)
    requires Chained(bs) && Spells(hdr, bs) && i + 1 < |bs| && bs[i + 1].free
    requires bs[i].addr in hdr && hdr[bs[i].addr] == HeaderOf(bs, i)
    requires bs[i + 1].addr in hdr && hdr[bs[i + 1].addr] == HeaderOf(bs, i + 1)
    requires i + 2 < |bs| ==> bs[i + 2].addr in hdr && bs[i + 2].addr > 0
    ensures Spells(LinkHeaders(hdr, bs[i].addr, bs[i + 1].addr), MergeNext(bs, i))
  {
    var g := LinkHeaders(hdr, bs[i].addr, bs[i + 1].addr);
    if i + 2 < |bs| {
      AddressesDiffer(bs, i, i + 2);
    }
    forall k | 0 <= k < |bs| && k != i && k != i + 1
      ensures bs[k].addr in g
      ensures g[bs[k].addr] == if k == i + 2 then HeaderOf(bs, k).(prev := bs[i].addr) else HeaderOf(bs, k)
    {
      HeaderAt(hdr, bs, k);
      AddressesDiffer(bs, i, k);
      if i + 2 < |bs| && k != i + 2 {
        AddressesDiffer(bs, i + 2, k);
      }
    }
    MergeSpells(hdr, bs, i, g);
  }

  /** The headers after block `b` has been cut to `size`. */
  function CutHeaders(hdr: map<nat, Header>, b: nat, size: nat): map<nat, Header>
    requires b in hdr && hdr[b].size > size + HEADER && (hdr[b].next != 0 ==> hdr[b].next in hdr)
  {
    var n := b + HEADER + size;
    var next := hdr[b].next;
    var h := hdr[n := Header(hdr[b].size - size - HEADER, true, next, b)];
    var h' := if next != 0 then h[next := h[next].(prev := n)] else h;
    h'[b := h'[b].(next := n, size := size)]
  }

  lemma CutSpells(hdr: map<nat, Header>, bs: seq<Block>, i: nat, size: nat)
    requires Chained(bs) && Spells(hdr, bs) && i < |bs| && bs[i].size > size + HEADER
    requires bs[i].addr in hdr && hdr[bs[i].addr] == HeaderOf(bs, i)
    requires i + 1 < |bs| ==> bs[i + 1].addr in hdr && bs[i + 1].addr > 0
    ensures Spells(CutHeaders(hdr, bs[i].addr, size), Split(bs, i, size))
  {
    var n := bs[i].addr + HEADER + size;
    var g := CutHeaders(hdr, bs[i].addr, size);
    forall k | 0 <= k < |bs| && k != i ensures bs[k].addr != n && bs[k].addr != bs[i].addr {
      Disjoint(bs, i, k, n);
      AddressesDiffer(bs, i, k);
    }
    forall k | 0 <= k < |bs| && k != i
      ensures bs[k].addr in g
      ensures g[bs[k].addr] == if k == i + 1 then HeaderOf(bs, k).(prev := n) else HeaderOf(bs, k)
    {
      HeaderAt(hdr, bs, k);
      if i + 1 < |bs| && k != i + 1 {
        AddressesDiffer(bs, i + 1, k);
      }
    }
    SplitSpells(hdr, bs, i, size, g);
  }

  /** Overwriting headers of the list, one after the other, spares every live payload. */
  lemma TwoOutside(bs: seq<Block>, i: nat, j: nat, d: map<nat, u8>)
    requires Chained(bs) && i < |bs| && j < |bs|
    ensures Keeps(Live(bs), d, Overwrite(Overwrite(d, bs[i].addr), bs[j].addr))
  {
    HeaderOutside(bs, i, d);
    HeaderOutside(bs, j, Overwrite(d, bs[i].addr));
    KeepsTransitive(Live(bs), Live(bs), d, Overwrite(d, bs[i].addr), Overwrite(Overwrite(d, bs[i].addr), bs[j].addr));
  }

  lemma SetFreeSpells(hdr: map<nat, Header>, bs: seq<Block>, i: nat, free: bool)
    requires Chained(bs) && Spells(hdr, bs) && i < |bs|
    requires bs[i].addr in hdr && hdr[bs[i].addr] == HeaderOf(bs, i)
    ensures var b := bs[i].addr; Spells(hdr[b := hdr[b].(free := free)], SetFree(bs, i, free))
  {
    var r := SetFree(bs, i, free);
    var g := hdr[bs[i].addr := hdr[bs[i].addr].(free := free)];
    forall k | 0 <= k < |r| ensures r[k].addr in g && g[r[k].addr] == HeaderOf(r, k) {
      HeaderAt(hdr, bs, k);
      if k != i {
        AddressesDiffer(bs, i, k);
      }
    }
  }

  /** The new page of heap_expand, before any merge. */
  lemma AppendSpells(hdr: map<nat, Header>, bs: seq<Block>, page: Block, g: map<nat, Header>)
    requires Spells(hdr, bs) && |bs| > 0
    requires
      var last := |bs| - 1;
      && page.addr in g && g[page.addr] == Header(page.size, page.free, 0, bs[last].addr)
      && (forall k :: 0 <= k < |bs| ==>
            && bs[k].addr in g
            && g[bs[k].addr] == (if k == last then HeaderOf(bs, k).(next := page.addr) else HeaderOf(bs, k)))
    ensures Spells(g, bs + [page])
  {
    var r := bs + [page];
    forall k | 0 <= k < |r| ensures r[k].addr in g && g[r[k].addr] == HeaderOf(r, k) {
    }
  }

  /** Byte `src + k` of one memory and byte `dst + k` of the other are both unknown or the same. */
  ghost predicate Moved(d: map<nat, u8>, src: nat, e: map<nat, u8>, dst: nat, k: nat) {
    (src + k in d <==> dst + k in e) && (src + k in d ==> d[src + k] == e[dst + k])
  }

  lemma FreeKeeps(live: set<Block>, was: Block, block: Block, p: nat, r: nat,
                  d0: map<nat, u8>, d1: map<nat, u8>, d2: map<nat, u8>)
    requires was in live && block in live && was != block && r == block.Payload() && was.size <= block.size
    requires Keeps(live - {block}, d0, d1) && Keeps(live - {was}, d1, d2)
    requires forall m: nat :: m < was.size ==> Moved(d0, p, d1, r, m)
    ensures Keeps(live - {was, block}, d0, d2)
    ensures forall m: nat :: m < was.size ==> Moved(d0, p, d2, r, m)
  {
    forall b, q: nat | b in live - {was, block} && b.Holds(q) ensures SameAt(d0, d2, q) {
      assert SameAt(d0, d1, q) && SameAt(d1, d2, q);
    }
    forall m: nat | m < was.size ensures Moved(d0, p, d2, r, m) {
      assert block.Holds(r + m);
      assert Moved(d0, p, d1, r, m) && SameAt(d1, d2, r + m);
    }
  }

  lemma ApartBlocks(bs: seq<Block>, j: nat, k: nat)
    requires Chained(bs) && j < |bs| && k < |bs| && j != k
    ensures bs[j].End() <= bs[k].Payload() || bs[k].End() <= bs[j].Payload()
  {
    if j < k {
      Ordered(bs, j, k);
    } else {
      Ordered(bs, k, j);
    }
  }

  lemma IndexOfBlock(bs: seq<Block>, b: Block) returns (i: nat)
    requires b in bs
    ensures i < |bs| && bs[i] == b
  {
    i :| 0 <= i < |bs| && bs[i] == b;
  }

  /** Writing only inside the new block changes no other live byte. */
  lemma CopyKeeps(bs: seq<Block>, k: nat, len: nat, d: map<nat, u8>, e: map<nat, u8>)
    requires Chained(bs) && k < |bs| && len <= bs[k].size
    requires forall p: nat :: !(bs[k].Payload() <= p < bs[k].Payload() + len) ==> SameAt(d, e, p)
    ensures Keeps(Live(bs) - {bs[k]}, d, e)
  {
    forall b, p: nat | b in Live(bs) - {bs[k]} && b.Holds(p) ensures SameAt(d, e, p) {
      var m := IndexOfBlock(bs, b);
      Disjoint(bs, m, k, p);
    }
  }

  /** Following one live byte through kmalloc, then the copy and kfree. */
  lemma MoveKeeps(live: set<Block>, was: Block, block: Block, p: nat, r: nat,
                  d0: map<nat, u8>, d1: map<nat, u8>, d2: map<nat, u8>)
    requires was in live && block !in live && p == was.Payload()
    requires Keeps(live, d0, d1) && Keeps(live + {block} - {was, block}, d1, d2)
    requires forall m: nat :: m < was.size ==> Moved(d1, p, d2, r, m)
    ensures Keeps(live - {was}, d0, d2)
    ensures forall m: nat :: m < was.size ==> Moved(d0, p, d2, r, m)
  {
    forall b, q: nat | b in live - {was} && b.Holds(q) ensures SameAt(d0, d2, q) {
      assert SameAt(d0, d1, q) && SameAt(d1, d2, q);
    }
    forall m: nat | m < was.size ensures Moved(d0, p, d2, r, m) {
      assert was.Holds(p + m);
      assert SameAt(d0, d1, p + m) && Moved(d1, p, d2, r, m);
    }
  }

  lemma KeepsSubset(more: set<Block>, live: set<Block>, d: map<nat, u8>, e: map<nat, u8>)
    requires Keeps(more, d, e) && live <= more
    ensures Keeps(live, d, e)
  {
  }

  lemma FreedLive(bs: seq<Block>, i: nat, s: seq<Block>, t: seq<Block>)
    requires Chained(bs) && i < |bs| && !bs[i].free && s == SetFree(bs, i, true) && t == MergeNext(s, i)
    ensures Live(s) <= Live(bs) && Live(t) == Live(s) && Live(Release(bs, i)) == Live(s)
  {
    LiveAfterFree(bs, i);
    LiveAfterMerge(s, i);
    ReleaseLive(bs, i);
  }

  /** The pages that a request can need at most: the size and one header, rounded up. */
  function PagesFor(size: nat): nat {
    (size + HEADER + GROW_SIZE - 1) / GROW_SIZE
  }

  /** The block list after `k` pages have been added. */
  function GrownBy(bs: seq<Block>, end: nat, k: nat): (r: seq<Block>)
    requires |bs| > 0
    ensures |r| > 0
  {
    if k == 0 then bs else Grown(GrownBy(bs, end, k - 1), end + GROW_SIZE * (k - 1))
  }

  ghost predicate FullAfter(bs: seq<Block>, end: nat, size: nat, k: nat) {
    |bs| > 0 && FirstFit(GrownBy(bs, end, k), size, 0) == |GrownBy(bs, end, k)|
  }

  /** The blocks after kmalloc: the least number of pages that makes room has been added and the first block
      that fits is taken; or so many pages were added, and still none fits. */
  ghost predicate KmallocBlocks(bs: seq<Block>, end: nat, size: nat, k: nat, taken: bool, r: seq<Block>) {
    && |bs| > 0 && (forall j: nat :: j < k ==> FullAfter(bs, end, size, j))
    && var g := GrownBy(bs, end, k);
       if taken then FirstFit(g, size, 0) < |g| && Carved(g, FirstFit(g, size, 0), size, r)
       else r == g && FullAfter(bs, end, size, k)
  }

  lemma GrownByNext(bs: seq<Block>, end: nat, k: nat)
    requires |bs| > 0
    ensures GrownBy(bs, end, k + 1) == Grown(GrownBy(bs, end, k), end + GROW_SIZE * k) && GrownBy(bs, end, 0) == bs
  {
  }

  lemma NotEmpty(bs: seq<Block>, end: nat)
    requires Tiles(bs, HEAP_START, end)
    ensures |bs| > 0 && GrownBy(bs, end, 0) == bs
  {
  }

  lemma KeepsSelf(live: set<Block>, d: map<nat, u8>)
    ensures Keeps(live, d, d)
  {
  }

  lemma BlockAligned(bs: seq<Block>, end: nat, i: nat)
    requires Tiles(bs, HEAP_START, end) && i < |bs|
    ensures bs[i].addr % ALIGNMENT == 0
  {
  }

  /** `align_size` on a 64-bit word: the addition may wrap. */
  function AlignSize(n: u64): u64 {
    Wrap(n + ALIGNMENT - 1) / ALIGNMENT * ALIGNMENT
  }

  /** It rounds up if and only if the addition does not wrap; otherwise it gives 0. */
  lemma AlignWraps(n: u64)
    ensures AlignSize(n) % ALIGNMENT == 0 && AlignSize(n) + ALIGNMENT <= U64_LIMIT
    ensures AlignSize(n) == if n + ALIGNMENT <= U64_LIMIT then Align(n) else 0
    ensures n + ALIGNMENT <= U64_LIMIT <==> AlignSize(n) >= n
  {
  }

  lemma AlignAgain(n: u64)
    ensures AlignSize(AlignSize(n)) == AlignSize(n)
  {
    AlignWraps(n);
    AlignWraps(AlignSize(n));
  }

  /** After `k` expansions the list ends in a free block of nearly `k` pages. */
  ghost predicate LastGrew(bs: seq<Block>, k: nat) {
    |bs| > 0 && bs[|bs| - 1].free && bs[|bs| - 1].size + HEADER >= GROW_SIZE * k
  }

  lemma NotYet(bs: seq<Block>, size: nat, k: nat)
    requires FirstFit(bs, size, 0) == |bs| && (k > 0 ==> LastGrew(bs, k))
    ensures k + 1 <= PagesFor(size)
  {
    if k > 0 {
      assert bs[|bs| - 1].size < size;
    }
  }

  lemma GrewAgain(bs: seq<Block>, r: seq<Block>, k: nat)
    requires |bs| > 0 && (k > 0 ==> LastGrew(bs, k)) && exists e :: r == Grown(bs, e)
    ensures LastGrew(r, k + 1)
  {
  }

  /** kmalloc after `k` expansions: the block list so far, on which nothing has fitted yet. */
  ghost predicate Searching(bs: seq<Block>, end: nat, size: nat, k: nat, blocks: seq<Block>) {
    && |bs| > 0 && blocks == GrownBy(bs, end, k) && k <= PagesFor(size) && (k > 0 ==> LastGrew(blocks, k))
    && forall j: nat :: j < k ==> FullAfter(bs, end, size, j)
  }

  /** One round: the first fit is taken, or the list is full and one more page is within the bound. */
  lemma SearchStep(bs: seq<Block>, end: nat, size: nat, k: nat, was: seq<Block>, taken: bool, r: seq<Block>)
    requires Searching(bs, end, size, k, was)
    requires if taken then FirstFit(was, size, 0) < |was| && Carved(was, FirstFit(was, size, 0), size, r)
             else r == was && FirstFit(was, size, 0) == |was|
    ensures KmallocBlocks(bs, end, size, k, taken, r) && k <= PagesFor(size) && |was| > 0
  {
    hide GrownBy, FirstFit, Carved, PagesFor, LastGrew;
  }

  lemma SearchOn(bs: seq<Block>, end: nat, size: nat, k: nat, was: seq<Block>, more: nat, r: seq<Block>)
    requires Searching(bs, end, size, k, was) && FirstFit(was, size, 0) == |was| && |was| > 0 && more <= 1
    requires r == GrownBy(was, end + GROW_SIZE * k, more)
    ensures Searching(bs, end, size, k + more, r) && k + more <= PagesFor(size)
    ensures more == 0 ==> KmallocBlocks(bs, end, size, k, false, r)
  {
    hide FirstFit, PagesFor, LastGrew, Grown, GrownBy;
    GrownByNext(bs, end, k);
    GrownByNext(was, end + GROW_SIZE * k, 0);
    NotYet(was, size, k);
    if more == 1 {
      GrewAgain(was, r, k);
    }
  }

  lemma LiveAfterSplit(bs: seq<Block>, i: nat, size: nat)
    requires i < |bs| && bs[i].free
    ensures Live(bs) == Live(Split(bs, i, size))
  {
    var r := Split(bs, i, size);
    if r != bs {
      forall b ensures b in Live(r) <==> b in Live(bs) {
        if b in Live(r) {
          var k :| 0 <= k < |r| && r[k] == b;
          assert b == if k < i then bs[k] else bs[k - 1];
        }
        if b in Live(bs) {
          var k :| 0 <= k < |bs| && bs[k] == b;
          assert b == if k < i then r[k] else r[k + 1];
        }
      }
    }
  }

  lemma NonNull(bs: seq<Block>, end: nat)
    requires Tiles(bs, HEAP_START, end)
    ensures forall i :: 0 <= i < |bs| ==> bs[i].addr >= HEAP_START
  {
    forall i | 0 < i < |bs| ensures bs[i].addr >= HEAP_START {
      Ordered(bs, 0, i);
    }
  }

  /** Nothing live lies beyond the end of the list. */
  lemma BeyondEnd(bs: seq<Block>, end: nat, d: map<nat, u8>)
    requires Tiles(bs, HEAP_START, end)
    ensures Keeps(Live(bs), d, Overwrite(d, end))
  {
    forall b, p: nat | b in Live(bs) && b.Holds(p) ensures p < end {
      var j :| 0 <= j < |bs| && bs[j] == b;
      BelowEnd(bs, HEAP_START, end, j);
    }
  }
}
