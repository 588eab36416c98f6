/** kernel/src/vmm/page_table.c: the walker that allocates tables, and the map, unmap and translate calls
    over it. Physical memory is a map from frame to contents, reached through a fixed HHDM. */
module PageTables {
  import opened Options
  import opened Machine
  import opened Pmms
  import opened PageBits
  import opened PageTrees

  type u8 = x: int | 0 <= x < 256

  datatype WalkError = MissingPml4 | MissingPdpt | MissingPd | MissingPt | HugePdpt | HugePd | AllocationFailed

  /** Where a walk ends: the entry `index` of `table`, which is a leaf of the given level. */
  datatype WalkResult = Found(table: nat, index: nat, level: nat) | Failed(error: WalkError)

  /** The walk without `create`, as a function of the tables. */
  function ReadWalk(t: Tables, root: nat, x: Index): WalkResult {
    var e4 := At(t, root, x.i4);
    if !e4.present then Failed(MissingPml4) else
    var e3 := At(t, e4.frame, x.i3);
    if !e3.present then Failed(MissingPdpt) else if e3.huge then Found(e4.frame, x.i3, 3) else
    var e2 := At(t, e3.frame, x.i2);
    if !e2.present then Failed(MissingPd) else if e2.huge then Found(e3.frame, x.i2, 2) else
    if !At(t, e2.frame, x.i1).present then Failed(MissingPt) else Found(e2.frame, x.i1, 1)
  }

  /** The read walk finds an entry exactly where the tables map the address, and it is that mapping. */
  lemma ReadWalkIsLookup(t: Tables, root: nat, x: Index)
    ensures match ReadWalk(t, root, x)
            case Found(f, i, level) => Lookup(t, root, x) == Some(Leaf(At(t, f, i), level))
            case Failed(_) => Lookup(t, root, x) == None
  {
  }

  function PageSizeFor(level: nat): nat {
    if level == 1 then 0x1000 else if level == 2 then 0x20_0000 else if level == 3 then 0x4000_0000 else 0
  }

  /** The physical address lies in the frames of the mapping, at the offset that `va` has in its page of
      4 KiB, 2 MiB or 1 GiB. */
  ghost predicate Translates(leaf: Leaf, va: nat, physical: nat) {
    match leaf.level
    case 1 => physical / 0x1000 == leaf.entry.frame && physical % 0x1000 == va % 0x1000
    case 2 => physical / 0x20_0000 * 0x200 == leaf.entry.frame && physical % 0x20_0000 == va % 0x20_0000
    case 3 => physical / 0x4000_0000 * 0x4_0000 == leaf.entry.frame && physical % 0x4000_0000 == va % 0x4000_0000
    case _ => false
  }

  lemma FrameAndOffset(leaf: Leaf, va: nat)
    requires 1 <= leaf.level <= 3 && leaf.entry.frame % (PageSizeFor(leaf.level) / PAGE_SIZE) == 0
    ensures Translates(leaf, va, leaf.entry.frame * PAGE_SIZE + va % PageSizeFor(leaf.level))
  {
    if leaf.level == 1 {
      Quotient(0x1000, leaf.entry.frame, va % 0x1000);
    } else if leaf.level == 2 {
      Quotient(0x20_0000, leaf.entry.frame / 0x200, va % 0x20_0000);
    } else {
      Quotient(0x4000_0000, leaf.entry.frame / 0x4_0000, va % 0x4000_0000);
    }
  }

  lemma Quotient(size: nat, q: nat, r: nat)
    requires r < size
    ensures (size * q + r) / size == q && (size * q + r) % size == r
  {
    var n := size * q + r;
    assert n == size * (n / size) + n % size;
    SameQuotient(size, q, r, n / size, n % size);
  }

  lemma SameQuotient(size: nat, q: nat, r: nat, p: nat, m: nat)
    requires r < size && m < size && size * q + r == size * p + m
    ensures q == p && r == m
  {
    assert q < p ==> size * p >= size * (q + 1);
    assert p < q ==> size * q >= size * (p + 1);
  }

  /** Large pages are aligned to their size. */
  lemma LeafAligned(s: Snapshot, root: nat, x: Index)
    requires Sound(s) && IsRoot(s.node, root) && Lookup(s.tables, root, x).Some?
    ensures var leaf := Lookup(s.tables, root, x).value;
            1 <= leaf.level <= 3 && leaf.entry.frame % (PageSizeFor(leaf.level) / PAGE_SIZE) == 0
  {
    var e4 := At(s.tables, root, x.i4);
    var e3 := At(s.tables, e4.frame, x.i3);
    assert Link(s.tables, s.node, s.kernel, root, x.i4);
    assert Link(s.tables, s.node, s.kernel, e4.frame, x.i3);
    if !e3.huge {
      assert Link(s.tables, s.node, s.kernel, e3.frame, x.i2);
    }
  }

  /** Every level of the walk of `x` is present and open to user mode. */
  ghost predicate UserPath(t: Tables, root: nat, x: Index) {
    var e4 := At(t, root, x.i4);
    var e3 := At(t, e4.frame, x.i3);
    var e2 := At(t, e3.frame, x.i2);
    var e1 := At(t, e2.frame, x.i1);
    && e4.present && e4.user && e3.present && e3.user && !e3.huge
    && e2.present && e2.user && !e2.huge && e1.present && e1.user
  }

  /** The effect that mapping `x` to `leaf` under `root` must have on every address of every root. */
  ghost predicate MapsExactly(t: Tables, node: map<nat, Node>, u: Tables, root: nat, x: Index, leaf: Option<Leaf>) {
    forall s, y :: IsRoot(node, s) ==>
      Lookup(u, s, y) == (if y == x && (s == root || Shares(u, s, root, x.i4)) then leaf else Lookup(t, s, y))
  }

  /** The address already belongs to a 1 GiB or 2 MiB mapping. */
  ghost predicate Large(t: Tables, root: nat, x: Index) {
    Lookup(t, root, x).Some? && Lookup(t, root, x).value.level > 1
  }

  /** The tables that a creating walk of `x` has to add. */
  function Missing(t: Tables, root: nat, x: Index): nat {
    var e4 := At(t, root, x.i4);
    if !e4.present then 3 else
    var e3 := At(t, e4.frame, x.i3);
    if !e3.present then 2 else if e3.huge then 0 else
    if !At(t, e3.frame, x.i2).present then 1 else 0
  }

  /** A creating walk can succeed: no large page is in the way and the frames suffice. */
  ghost predicate Room(s: Snapshot, root: nat, x: Index) {
    !Large(s.tables, root, x) && Missing(s.tables, root, x) <= |s.free|
  }

  /** A frame of one's own can be mapped: room for the walk and one frame more. */
  ghost predicate RoomForPage(s: Snapshot, root: nat, x: Index) {
    !Large(s.tables, root, x) && Missing(s.tables, root, x) < |s.free|
  }

  /** The frames that a creating walk takes, successful or not. */
  function TablesTaken(s: Snapshot, root: nat, x: Index): (n: nat)
    ensures n <= 3 && n <= |s.free|
  {
    if Missing(s.tables, root, x) <= |s.free| then Missing(s.tables, root, x) else |s.free|
  }

  /** The outcome of a walk. A read walk changes nothing. A creating walk remaps nothing, succeeds exactly
      when there is room, and takes exactly the frames of the missing tables, or all there are. */
  ghost predicate WalkStep(s: Snapshot, u: Snapshot, root: nat, x: Index, create: bool, r: WalkResult) {
    && Grows(s, u)
    && (!create ==> u == s && r == ReadWalk(s.tables, root, x))
    && (create ==>
          && |u.free| == |s.free| - TablesTaken(s, root, x) && (r.Found? <==> Room(s, root, x))
          && match r
             case Found(f, i, level) =>
               level == 1 && i == x.i1 && f in u.tables && Reach(u.tables, root, x) == Some(f)
             case Failed(error) => error == AllocationFailed || Large(s.tables, root, x))
  }

  /** The walk of `x` has reached table `f` of level `level`, and nothing was remapped on the way. */
  ghost predicate Reached(s: Snapshot, u: Snapshot, root: nat, x: Index, create: bool, level: nat, f: nat) {
    var e4 := At(u.tables, root, x.i4);
    var e3 := At(u.tables, e4.frame, x.i3);
    var e2 := At(u.tables, e3.frame, x.i2);
    && Sound(u) && Grows(s, u) && (!create ==> u == s) && IsRoot(u.node, root)
    && 1 <= level <= 3 && |s.free| + Missing(u.tables, root, x) == |u.free| + Missing(s.tables, root, x)
    && e4.present && f in u.node
    && (level == 3 ==> e4.frame == f && u.node[f].Pdpt?)
    && (level <= 2 ==> e4.frame in u.node && u.node[e4.frame].Pdpt? && e3.present && !e3.huge)
    && (level == 2 ==> e3.frame == f && u.node[f].Pd?)
    && (level == 1 ==> e3.frame in u.node && u.node[e3.frame].Pd? && e2.present && !e2.huge && e2.frame == f)
  }

  lemma ReachedFirst(s: Snapshot, u: Snapshot, root: nat, x: Index, create: bool, child: nat)
    requires Sound(s) && IsRoot(s.node, root) && x.i4 < ENTRIES
    requires EnsureStep(s, u, root, x.i4, create, Some(child))
    ensures Reached(s, u, root, x, create, 3, child)
  {
    EnsureStepKeeps(s, u, root, x.i4, create, Some(child));
  }

  lemma ReachedNext(s: Snapshot, u: Snapshot, v: Snapshot, root: nat, x: Index, create: bool, level: nat, f: nat,
      child: nat)
    requires Reached(s, u, root, x, create, level, f) && level >= 2 && x.i3 < ENTRIES && x.i2 < ENTRIES
    requires var i := if level == 3 then x.i3 else x.i2;
             && (At(u.tables, f, i).present ==> !At(u.tables, f, i).huge)
             && EnsureStep(u, v, f, i, create, Some(child))
    ensures Reached(s, v, root, x, create, level - 1, child)
  {
    EnsureStepKeeps(u, v, f, if level == 3 then x.i3 else x.i2, create, Some(child));
    GrowsTransitive(s, u, v);
  }

  lemma WalkStopped(s: Snapshot, u: Snapshot, root: nat, x: Index, create: bool, level: nat, f: nat)
    requires Reached(s, u, root, x, create, level, f) && IsRoot(s.node, root)
    ensures Grows(s, u)
    ensures level == 1 ==> Reach(u.tables, root, x) == Some(f)
    ensures Lookup(s.tables, root, x) == (if level == 3 then Lookup3(u.tables, f, x) else
                                          if level == 2 then Lookup2(u.tables, f, x) else Lookup1(u.tables, f, x))
  {
  }

  /** The walk found its last table. */
  lemma WalkEnded(s: Snapshot, u: Snapshot, root: nat, x: Index, f: nat)
    requires Reached(s, u, root, x, true, 1, f) && IsRoot(s.node, root)
    ensures WalkStep(s, u, root, x, true, Found(f, x.i1, 1))
  {
  }

  /** The walk found a large page at level 3 or 2. */
  lemma WalkBlocked(s: Snapshot, u: Snapshot, root: nat, x: Index, level: nat, f: nat)
    requires Reached(s, u, root, x, true, level, f) && IsRoot(s.node, root) && level >= 2
    requires var e := At(u.tables, f, if level == 3 then x.i3 else x.i2); e.present && e.huge
    ensures WalkStep(s, u, root, x, true, Failed(if level == 3 then HugePdpt else HugePd))
  {
    WalkStopped(s, u, root, x, true, level, f);
  }

  /** The walk found no frame for a missing table. */
  lemma WalkStarved(s: Snapshot, u: Snapshot, root: nat, x: Index, level: nat, f: nat)
    requires Reached(s, u, root, x, true, level, f) && IsRoot(s.node, root) && level >= 2
    requires !At(u.tables, f, if level == 3 then x.i3 else x.i2).present && u.free == {}
    ensures WalkStep(s, u, root, x, true, Failed(AllocationFailed))
  {
    WalkStopped(s, u, root, x, true, level, f);
  }

  function LeafAt(e: PageEntry): Option<Leaf> {
    if e.present then Some(Leaf(e, 1)) else None
  }

  /** The outcome of mapping `x` to the entry `e` under `root`. It succeeds exactly when there is room, and
      then changes exactly that page, for exactly the roots that share the slot; a failure changes no
      mapping. Either way the frames taken are the missing tables, or all there are. */
  ghost predicate MapStep(s: Snapshot, u: Snapshot, root: nat, x: Index, e: PageEntry, ok: bool) {
    && Evolves(s.tables, s.node, u.tables, u.node) && UppersKept(s, u) && u.kernel == s.kernel
    && u.free <= s.free && u.node.Keys == s.node.Keys + (s.free - u.free)
    && |u.free| == |s.free| - TablesTaken(s, root, x) && (ok <==> Room(s, root, x))
    && (if ok then MapsExactly(s.tables, s.node, u.tables, root, x, LeafAt(e))
        else SameView(s.tables, s.node, u.tables))
  }

  lemma WalkReached(s: Snapshot, root: nat, x: Index)
    ensures var r := ReadWalk(s.tables, root, x);
            r.Found? && r.level == 1 ==> Reach(s.tables, root, x) == Some(r.table) && r.index == x.i1
  {
  }

  lemma EvolvesItself(s: Snapshot)
    ensures Evolves(s.tables, s.node, s.tables, s.node) && UppersKept(s, s)
  {
  }

  lemma UnmapEffect(s: Snapshot, u: Snapshot, root: nat, x: Index)
    requires MapStep(s, u, root, x, ZERO, true)
    ensures Evolves(s.tables, s.node, u.tables, u.node) && UppersKept(s, u)
    ensures MapsExactly(s.tables, s.node, u.tables, root, x, None)
  {
  }

  lemma MappedHasRoom(s: Snapshot, root: nat, x: Index)
    requires Reach(s.tables, root, x).Some?
    ensures Room(s, root, x) && TablesTaken(s, root, x) == 0
  {
  }

  lemma FailedWalk(s: Snapshot, u: Snapshot, root: nat, x: Index, r: WalkResult, e: PageEntry)
    requires WalkStep(s, u, root, x, true, r) && r.Failed?
    ensures MapStep(s, u, root, x, e, false)
  {
  }

  /** A walk that reached its last table, then a write there: exactly the addresses of that page change. */
  lemma WalkThenWrite(s: Snapshot, u: Snapshot, root: nat, x: Index, e: PageEntry)
    requires Sound(u) && Grows(s, u) && IsRoot(s.node, root) && x.i1 < ENTRIES
    requires Room(s, root, x) && |u.free| == |s.free| - TablesTaken(s, root, x)
    requires Reach(u.tables, root, x).Some? && Reach(u.tables, root, x).value in u.tables
    ensures var w := Write(u.tables, Reach(u.tables, root, x).value, x.i1, e);
            && Tree(w, u.node, u.kernel) && MapStep(s, u.(tables := w), root, x, e, true)
            && Reach(w, root, x) == Reach(u.tables, root, x)
  {
    var p := Reach(u.tables, root, x).value;
    var w := Write(u.tables, p, x.i1, e);
    ReachPlace(u.tables, u.node, u.kernel, root, x);
    WriteLeaf(u.tables, u.node, u.kernel, root, x, e);
    UpperWalk(u.tables, u.node, u.kernel, p, x.i1, e, root, x);
    WriteKeepsRoots(u, root, x, e);
    EvolvesTransitive(s.tables, s.node, u.tables, u.node, w, u.node);
    forall q, y | IsRoot(s.node, q)
      ensures Lookup(w, q, y) == if y == x && (q == root || Shares(w, q, root, x.i4)) then LeafAt(e)
          else Lookup(s.tables, q, y)
    {
      assert IsRoot(u.node, q);
      assert Shares(w, q, root, x.i4) == Shares(u.tables, q, root, x.i4);
    }
  }

  lemma WriteKeepsRoots(u: Snapshot, root: nat, x: Index, e: PageEntry)
    requires Sound(u) && IsRoot(u.node, root) && x.i1 < ENTRIES
    requires Reach(u.tables, root, x).Some? && Reach(u.tables, root, x).value in u.tables
    ensures var w := Write(u.tables, Reach(u.tables, root, x).value, x.i1, e);
            && Evolves(u.tables, u.node, w, u.node)
            && forall r, i :: IsRoot(u.node, r) ==> At(w, r, i) == At(u.tables, r, i)
  {
    ReachPlace(u.tables, u.node, u.kernel, root, x);
  }

  /** Opening one upper entry to user mode keeps every mapping and every walk. */
  lemma OpenOne(u: Snapshot, f: nat, i: nat)
    requires Sound(u) && f in u.node && !u.node[f].Pt? && i < ENTRIES
    requires At(u.tables, f, i).present && (u.node[f].Root? || !At(u.tables, f, i).huge)
    ensures f in u.tables && |u.tables[f]| == ENTRIES
    ensures var v := u.(tables := WithUser(u.tables, f, i));
            && Sound(v) && Grows(u, v)
            && (forall r, y :: Reach(v.tables, r, y) == Reach(u.tables, r, y))
            && (forall g, j :: At(v.tables, g, j) ==
                  if g == f && j == i then At(u.tables, g, j).(user := true) else At(u.tables, g, j))
  {
    hide Link, Lookup, Evolves, SameView, Reach;
    SetUser(u.tables, u.node, u.kernel, f, i);
  }

  /** Opening the three upper entries of a walk to user mode keeps every mapping and the walk itself. */
  lemma OpenPath(u: Snapshot, root: nat, x: Index)
    requires Sound(u) && IsRoot(u.node, root) && x.i4 < ENTRIES && x.i3 < ENTRIES && x.i2 < ENTRIES
    requires Reach(u.tables, root, x).Some?
    ensures
      var f3 := At(u.tables, root, x.i4).frame;
      var f2 := At(u.tables, f3, x.i3).frame;
      && root in u.tables && f3 in u.tables && f2 in u.tables && f3 != root && f2 != f3 && f2 != root
      && |u.tables[root]| == |u.tables[f3]| == |u.tables[f2]| == ENTRIES
      && var t := WithUser(WithUser(WithUser(u.tables, root, x.i4), f3, x.i3), f2, x.i2);
      && Sound(u.(tables := t)) && Grows(u, u.(tables := t)) && Reach(t, root, x) == Reach(u.tables, root, x)
      && At(t, root, x.i4).user && At(t, f3, x.i3).user && At(t, f2, x.i2).user
      && At(t, root, x.i4).frame == f3 && At(t, f3, x.i3).frame == f2
  {
    hide Link, Lookup, Grows, Tree, WithUser;
    ReachPlace(u.tables, u.node, u.kernel, root, x);
    var f3 := At(u.tables, root, x.i4).frame;
    var f2 := At(u.tables, f3, x.i3).frame;
    OpenOne(u, root, x.i4);
    var u1 := u.(tables := WithUser(u.tables, root, x.i4));
    OpenOne(u1, f3, x.i3);
    var u2 := u.(tables := WithUser(u1.tables, f3, x.i3));
    OpenOne(u2, f2, x.i2);
    var u3 := u.(tables := WithUser(u2.tables, f2, x.i2));
    GrowsTransitive(u, u1, u2);
    GrowsTransitive(u, u2, u3);
    SameTables(u, f3, f2);
  }

  lemma SameTables(u: Snapshot, f: nat, g: nat)
    requires Sound(u) && f in u.node && g in u.node
    ensures f in u.tables && g in u.tables && |u.tables[f]| == |u.tables[g]| == ENTRIES
  {
  }

  lemma UserLeaf(s: Snapshot, u: Snapshot, root: nat, x: Index, e: PageEntry)
    requires Sound(u) && Grows(s, u) && IsRoot(s.node, root) && x.i1 < ENTRIES && e.present && e.user
    requires Room(s, root, x) && |u.free| == |s.free| - TablesTaken(s, root, x)
    requires Reach(u.tables, root, x).Some?
    requires var e4 := At(u.tables, root, x.i4); var e3 := At(u.tables, e4.frame, x.i3);
             e4.user && e3.user && At(u.tables, e3.frame, x.i2).user
    ensures Reach(u.tables, root, x).value in u.tables
    ensures var w := Write(u.tables, Reach(u.tables, root, x).value, x.i1, e);
            && Tree(w, u.node, u.kernel) && MapStep(s, u.(tables := w), root, x, e, true)
            && UserPath(w, root, x)
  {
    ReachPlace(u.tables, u.node, u.kernel, root, x);
    WalkThenWrite(s, u, root, x, e);
  }

  /** The page is mapped by a 4 KiB leaf with exactly this access. */
  ghost predicate MappedAs(t: Tables, root: nat, x: Index, writable: bool, user: bool) {
    var leaf := Lookup(t, root, x);
    leaf.Some? && leaf.value.level == 1 && leaf.value.entry.writable == writable && leaf.value.entry.user == user
  }

  /** The page is mapped to this frame. */
  ghost predicate MappedTo(t: Tables, root: nat, x: Index, frame: nat) {
    var leaf := Lookup(t, root, x);
    leaf.Some? && leaf.value.level == 1 && leaf.value.entry.frame == frame
  }

  lemma MappedLeaf(s: Snapshot, u: Snapshot, root: nat, x: Index, e: PageEntry)
    requires MapStep(s, u, root, x, e, true) && IsRoot(s.node, root) && e.present
    ensures MappedAs(u.tables, root, x, e.writable, e.user) && MappedTo(u.tables, root, x, e.frame)
  {
    hide Lookup, Evolves;
  }

  // ----- which translations change -----

  /** The root is the one written to, or sees the slot of `y` through the same table. */
  ghost predicate Affected(t: Tables, r: nat, root: nat, y: Index) {
    r == root || Shares(t, r, root, y.i4)
  }

  /** Only the addresses in `pages` may translate differently, and only under the roots affected; roots,
      their present slots and the absence of sharing are kept. */
  ghost predicate Remaps(s: Snapshot, u: Snapshot, root: nat, pages: set<Index>) {
    && u.kernel == s.kernel && Evolves(s.tables, s.node, u.tables, u.node)
    && (forall r, y :: IsRoot(s.node, r) && (y !in pages || !Affected(u.tables, r, root, y)) ==>
          Lookup(u.tables, r, y) == Lookup(s.tables, r, y))
  }

  lemma RemapsNothing(s: Snapshot, root: nat, pages: set<Index>)
    ensures Remaps(s, s, root, pages)
  {
  }

  lemma RemapsTransitive(s: Snapshot, u: Snapshot, v: Snapshot, root: nat, x: set<Index>, y: set<Index>)
    requires Remaps(s, u, root, x) && Remaps(u, v, root, y) && IsRoot(s.node, root)
    ensures Remaps(s, v, root, x + y)
  {
    hide Lookup, Evolves;
    EvolvesTransitive(s.tables, s.node, u.tables, u.node, v.tables, v.node);
    forall r, z | IsRoot(s.node, r) && (z !in x + y || !Affected(v.tables, r, root, z))
      ensures Lookup(v.tables, r, z) == Lookup(s.tables, r, z)
    {
      SharingStays(s, u, r, root, z);
      SharingStays(u, v, r, root, z);
    }
  }

  /** Two roots share a slot after a call exactly when they did before. */
  lemma SharingStays(s: Snapshot, u: Snapshot, r: nat, root: nat, y: Index)
    requires Evolves(s.tables, s.node, u.tables, u.node) && IsRoot(s.node, r) && IsRoot(s.node, root)
    ensures IsRoot(u.node, r) && IsRoot(u.node, root)
    ensures Affected(s.tables, r, root, y) <==> Affected(u.tables, r, root, y)
  {
  }

  /** A map step remaps its page alone, or nothing. */
  lemma MapRemaps(s: Snapshot, u: Snapshot, root: nat, x: Index, e: PageEntry, ok: bool)
    requires MapStep(s, u, root, x, e, ok)
    ensures Remaps(s, u, root, {x})
  {
    hide Lookup, Evolves;
  }

  // ----- where frames go -----

  function Elements(frames: seq<nat>): set<nat> {
    set f | f in frames
  }

  ghost predicate NoRepeats(frames: seq<nat>) {
    forall p, q :: 0 <= p < q < |frames| ==> frames[p] != frames[q]
  }

  /** Where the frames went: the new page tables, the frames that back pages, and the lost ones. */
  ghost predicate Accounts(s: Snapshot, u: Snapshot, backing: set<nat>, lost: set<nat>) {
    && u.kernel == s.kernel && s.node.Keys <= u.node.Keys && u.free <= s.free
    && (forall f :: f in s.free && f !in u.free <==> (f in u.node && f !in s.node) || f in backing || f in lost)
    && backing !! lost && backing !! u.node.Keys && lost !! u.node.Keys
  }

  lemma AccountsNothing(s: Snapshot)
    ensures Accounts(s, s, {}, {})
  {
  }

  lemma AccountsTransitive(s: Snapshot, u: Snapshot, v: Snapshot, b: set<nat>, c: set<nat>, lost: set<nat>)
    requires Accounts(s, u, b, {}) && Accounts(u, v, c, lost) && s.node.Keys !! s.free && u.node.Keys !! u.free
    ensures Accounts(s, v, b + c, lost)
  {
  }

  lemma RoomWithout(s: Snapshot, root: nat, x: Index, page: nat)
    requires page in s.free
    ensures Room(s.(free := s.free - {page}), root, x) <==> RoomForPage(s, root, x)
    ensures |s.free - {page}| == |s.free| - 1
  {
    hide Large, Missing;
  }

  lemma KernelRoot(s: Snapshot)
    requires Sound(s)
    ensures IsRoot(s.node, s.kernel)
  {
  }

  lemma TakenFrames(s: Snapshot, u: Snapshot, page: nat)
    requires s.node.Keys !! s.free && page in s.free
    requires u.free <= s.free - {page} && u.node.Keys == s.node.Keys + (s.free - {page} - u.free)
    requires u.kernel == s.kernel
    ensures Accounts(s, u, {page}, {}) && Accounts(s, u, {}, {page}) && |u.free| < |s.free|
    ensures Accounts(s, u.(free := u.free + {page}), {}, {})
  {
    Smaller(u.free, s.free - {page});
  }

  lemma Smaller(a: set<nat>, b: set<nat>)
    requires a <= b
    ensures |a| <= |b|
  {
    CardinalitySplit(b, a);
  }

  class AddressSpaces {
    const pmm: Pmm
    var tables: Tables
    var kernelRoot: nat
    /** The bytes of every physical frame, for frames used as data. */
    var data: map<nat, seq<u8>>
    ghost var node: map<nat, Node>

    ghost predicate Valid()
      reads this, pmm, pmm.bitmap, pmm.bitmap.buffer
    {
      && pmm.Valid() && pmm.Accounted() && Tree(tables, node, kernelRoot) && node.Keys !! pmm.Free()
      && (forall f :: f in pmm.Free() ==> f in data)
      && (forall f :: f in data ==> |data[f]| == PAGE_SIZE)
    }

    /** The bootloader's tables as `page_table_init` takes them over: a tree of frames that are not free. */
    constructor (pmm: Pmm, tables: Tables, kernelRoot: nat, data: map<nat, seq<u8>>, ghost node: map<nat, Node>)
      requires pmm.Valid() && pmm.Accounted() && Tree(tables, node, kernelRoot) && node.Keys !! pmm.Free()
      requires pmm.Free() <= data.Keys && forall f :: f in data ==> |data[f]| == PAGE_SIZE
      ensures Valid() && this.pmm == pmm && this.tables == tables && this.kernelRoot == kernelRoot
      ensures this.data == data && this.node == node
    {
      this.pmm, this.tables, this.kernelRoot, this.data := pmm, tables, kernelRoot, data;
      this.node := node;
    }

    lemma IsSound()
      requires Valid()
      ensures Sound(Snap()) && pmm.bitmap.buffer.Length == BITMAP_MAX_SIZE
    {
    }

    ghost function Snap(): Snapshot
      reads this, pmm, pmm.bitmap
    {
      Snapshot(tables, node, kernelRoot, pmm.Free())
    }

    /** `ensure_next_table` */
    method EnsureNextTable(f: nat, i: nat, create: bool) returns (child: Option<nat>)
      requires Valid() && f in node && !node[f].Pt? && i < ENTRIES
      requires At(tables, f, i).present ==> node[f].Root? || !At(tables, f, i).huge
      modifies this`tables, this`node
      modifies pmm`freePages, pmm`usedPages, pmm`nextFree, pmm.bitmap`clear, pmm.bitmap.buffer
      ensures Valid() && EnsureStep(old(Snap()), Snap(), f, i, create, child)
    {
      hide Pmm.Valid, Pmm.Accounted, Link, EntryOf, TableEntry, TableWord, FrameAddress;
      var entry := tables[f][i];
      if entry.present {
        return Some(entry.frame);
      }
      if !create {
        return None;
      }
      var page := TakeFrame();
      if page == 0 {
        return None;
      }
      LinkFreshTree(tables, node, kernelRoot, f, i, page);
      node := node[page := Child(node, f, i)];
      tables := tables[page := Zeros()];
      TableOfFrame(page);
      tables := tables[f := tables[f][i := EntryOf(TableWord(FrameAddress(page)))]];
      return Some(page);
    }

    /** `page_walk_internal` */
    method PageWalk(root: nat, va: u64, create: bool) returns (r: WalkResult)
      requires Valid() && IsRoot(node, root)
      modifies this`tables, this`node
      modifies pmm`freePages, pmm`usedPages, pmm`nextFree, pmm.bitmap`clear, pmm.bitmap.buffer
      ensures Valid() && WalkStep(old(Snap()), Snap(), root, IndexOf(va), create, r)
    {
      hide Pmm.Valid, Pmm.Accounted, Link, IndexOf;
      var x := IndexOf(va);
      ghost var s := Snap();
      var pdpt := EnsureNextTable(root, x.i4, create);
      if pdpt == None {
        GrowsReflexive(s);
        return Failed(if create then AllocationFailed else MissingPml4);
      }
      ghost var s3 := Snap();
      ReachedFirst(s, s3, root, x, create, pdpt.value);
      r := WalkFrom(root, x, create, pdpt.value, s);
    }

    /** The rest of `page_walk_internal`, from the PDPT down. */
    method WalkFrom(root: nat, x: Index, create: bool, pdpt: nat, ghost s: Snapshot) returns (r: WalkResult)
      requires Valid() && IsRoot(s.node, root) && Reached(s, Snap(), root, x, create, 3, pdpt)
      requires x.i3 < ENTRIES && x.i2 < ENTRIES && x.i1 < ENTRIES
      modifies this`tables, this`node
      modifies pmm`freePages, pmm`usedPages, pmm`nextFree, pmm.bitmap`clear, pmm.bitmap.buffer
      ensures Valid() && WalkStep(s, Snap(), root, x, create, r)
    {
      hide Pmm.Valid, Pmm.Accounted, Link;
      ghost var s3 := Snap();
      WalkStopped(s, s3, root, x, create, 3, pdpt);
      var e3 := tables[pdpt][x.i3];
      if e3.present {
        if e3.huge {
          if create {
            WalkBlocked(s, s3, root, x, 3, pdpt);
          }
          return if create then Failed(HugePdpt) else Found(pdpt, x.i3, 3);
        }
      } else if !create {
        return Failed(MissingPdpt);
      }
      var pd := EnsureNextTable(pdpt, x.i3, create);
      if pd == None {
        if create {
          WalkStarved(s, s3, root, x, 3, pdpt);
        }
        return Failed(if create then AllocationFailed else MissingPdpt);
      }
      ReachedNext(s, s3, Snap(), root, x, create, 3, pdpt, pd.value);
      r := WalkLast(root, x, create, pd.value, s);
    }

    /** The rest of `page_walk_internal`, from the page directory down. */
    method WalkLast(root: nat, x: Index, create: bool, pd: nat, ghost s: Snapshot) returns (r: WalkResult)
      requires Valid() && IsRoot(s.node, root) && Reached(s, Snap(), root, x, create, 2, pd)
      requires x.i3 < ENTRIES && x.i2 < ENTRIES && x.i1 < ENTRIES
      modifies this`tables, this`node
      modifies pmm`freePages, pmm`usedPages, pmm`nextFree, pmm.bitmap`clear, pmm.bitmap.buffer
      ensures Valid() && WalkStep(s, Snap(), root, x, create, r)
    {
      hide Pmm.Valid, Pmm.Accounted, Link;
      ghost var s2 := Snap();
      WalkStopped(s, s2, root, x, create, 2, pd);
      var e2 := tables[pd][x.i2];
      if e2.present {
        if e2.huge {
          if create {
            WalkBlocked(s, s2, root, x, 2, pd);
          }
          return if create then Failed(HugePd) else Found(pd, x.i2, 2);
        }
      } else if !create {
        return Failed(MissingPd);
      }
      var pt := EnsureNextTable(pd, x.i2, create);
      if pt == None {
        if create {
          WalkStarved(s, s2, root, x, 2, pd);
        }
        return Failed(if create then AllocationFailed else MissingPd);
      }
      ReachedNext(s, s2, Snap(), root, x, create, 2, pd, pt.value);
      WalkStopped(s, Snap(), root, x, create, 1, pt.value);
      if create {
        WalkEnded(s, Snap(), root, x, pt.value);
      }
      if !create && !tables[pt.value][x.i1].present {
        return Failed(MissingPt);
      }
      return Found(pt.value, x.i1, 1);
    }

    /** The write of a last-level entry after a walk that reached its table. */
    method WriteLeafEntry(root: nat, x: Index, table: nat, leaf: PageEntry, ghost s: Snapshot)
      requires Valid() && Grows(s, Snap()) && IsRoot(s.node, root) && x.i1 < ENTRIES
      requires Room(s, root, x) && |pmm.Free()| == |s.free| - TablesTaken(s, root, x)
      requires Reach(tables, root, x) == Some(table) && table in tables
      modifies this`tables
      ensures Valid() && MapStep(s, Snap(), root, x, leaf, true)
    {
      hide Pmm.Valid, Pmm.Accounted, MapStep, Link, Lookup, Evolves, SameView, Reach, Room, TablesTaken, Grows;
      WalkThenWrite(s, Snap(), root, x, leaf);
      tables := tables[table := tables[table][x.i1 := leaf]];
    }

    /** `page_table_map` on the active (kernel) root, for any words. */
    method Map(va: u64, physical: bv64, flags: bv64) returns (ok: bool)
      requires Valid()
      modifies this`tables, this`node
      modifies pmm`freePages, pmm`usedPages, pmm`nextFree, pmm.bitmap`clear, pmm.bitmap.buffer
      ensures Valid()
      ensures MapStep(old(Snap()), Snap(), kernelRoot, IndexOf(va), EntryOf(MapWord(physical, flags)), ok)
      ensures ok ==> MappedAs(tables, kernelRoot, IndexOf(va), flags & 2 != 0, flags & 4 != 0)
      ensures ok && flags & ADDRESS_MASK & !physical == 0 ==>
        MappedTo(tables, kernelRoot, IndexOf(va), FrameNumber(physical))
    {
      hide Valid, MapStep, EntryOf, MapWord, FrameNumber, MappedAs, MappedTo, Lookup, Evolves, SameView, Room;
      hide TablesTaken, Reach;
      var leaf := EntryOf(MapWord(physical, flags));
      KernelIsRoot();
      var r := PageWalk(kernelRoot, va, true);
      if r.Failed? {
        FailedWalk(old(Snap()), Snap(), kernelRoot, IndexOf(va), r, leaf);
        return false;
      }
      WriteLeafEntry(kernelRoot, IndexOf(va), r.table, leaf, old(Snap()));
      MapEntry(physical, flags);
      MappedLeaf(old(Snap()), Snap(), kernelRoot, IndexOf(va), leaf);
      return true;
    }

    lemma KernelIsRoot()
      requires Valid()
      ensures IsRoot(node, kernelRoot)
    {
    }

    /** `page_table_map_page` */
    method MapPage(va: u64, physical: bv64, writable: bool) returns (ok: bool)
      requires Valid()
      modifies this`tables, this`node
      modifies pmm`freePages, pmm`usedPages, pmm`nextFree, pmm.bitmap`clear, pmm.bitmap.buffer
      ensures Valid()
      ensures MapStep(old(Snap()), Snap(), kernelRoot, IndexOf(va),
                      EntryOf(MapWord(physical, if writable then WRITABLE else 0)), ok)
      ensures ok ==> MappedAs(tables, kernelRoot, IndexOf(va), writable, false)
      ensures ok ==> MappedTo(tables, kernelRoot, IndexOf(va), FrameNumber(physical))
    {
      hide MapStep, EntryOf, MapWord, FrameNumber, MappedAs, MappedTo, Valid;
      ok := Map(va, physical, if writable then WRITABLE else 0);
    }

    /** The three upper entries on the way to `x` become open to user mode: page_table.c:559-578. */
    method OpenToUser(root: nat, x: Index)
      requires Valid() && IsRoot(node, root) && x.i4 < ENTRIES && x.i3 < ENTRIES && x.i2 < ENTRIES
      requires Reach(tables, root, x).Some?
      modifies this`tables
      ensures Valid() && Grows(old(Snap()), Snap()) && Reach(tables, root, x) == old(Reach(tables, root, x))
      ensures node == old(node) && pmm.Free() == old(pmm.Free())
      ensures var e4 := At(tables, root, x.i4); var e3 := At(tables, e4.frame, x.i3);
              e4.user && e3.user && At(tables, e3.frame, x.i2).user
    {
      hide Pmm.Valid, Pmm.Accounted, Link, Grows, Reach;
      OpenPath(Snap(), root, x);
      var pdpt := tables[root][x.i4].frame;
      tables := tables[root := tables[root][x.i4 := tables[root][x.i4].(user := true)]];
      var pd := tables[pdpt][x.i3].frame;
      tables := tables[pdpt := tables[pdpt][x.i3 := tables[pdpt][x.i3].(user := true)]];
      tables := tables[pd := tables[pd][x.i2 := tables[pd][x.i2].(user := true)]];
    }

    /** The writes of `page_table_map_user` after its walk has succeeded. */
    method WriteUserLeaf(root: nat, x: Index, table: nat, leaf: PageEntry, ghost s: Snapshot)
      requires Valid() && Grows(s, Snap()) && IsRoot(s.node, root) && leaf.present && leaf.user
      requires Room(s, root, x) && |pmm.Free()| == |s.free| - TablesTaken(s, root, x)
      requires x.i4 < ENTRIES && x.i3 < ENTRIES && x.i2 < ENTRIES && x.i1 < ENTRIES
      requires Reach(tables, root, x) == Some(table)
      modifies this`tables
      ensures Valid() && MapStep(s, Snap(), root, x, leaf, true) && UserPath(tables, root, x)
    {
      hide Pmm.Valid, Pmm.Accounted, MapStep, Link, Lookup, Evolves, SameView, UserPath, Reach, Room, TablesTaken, At;
      OpenToUser(root, x);
      GrowsTransitive(s, old(Snap()), Snap());
      UserLeaf(s, Snap(), root, x, leaf);
      tables := tables[table := tables[table][x.i1 := leaf]];
    }

    /** `page_table_map_user` on any root, for any physical address word. */
    method MapUser(root: nat, va: u64, physical: bv64, writable: bool) returns (ok: bool)
      requires Valid() && IsRoot(node, root)
      modifies this`tables, this`node
      modifies pmm`freePages, pmm`usedPages, pmm`nextFree, pmm.bitmap`clear, pmm.bitmap.buffer
      ensures Valid()
      ensures MapStep(old(Snap()), Snap(), root, IndexOf(va), EntryOf(UserWord(physical, writable)), ok)
      ensures ok ==> UserPath(tables, root, IndexOf(va))
      ensures ok ==> MappedAs(tables, root, IndexOf(va), writable || physical & 2 != 0, true)
      ensures ok ==> MappedTo(tables, root, IndexOf(va), FrameNumber(physical))
    {
      hide AddressSpaces.Valid, MapStep, UserPath, Lookup, Evolves, SameView, Room, TablesTaken, FrameNumber, Tree;
      hide MappedAs, MappedTo, EntryOf;
      var x := IndexOf(va);
      var leaf := EntryOf(UserWord(physical, writable));
      UserEntry(physical, writable);
      var r := PageWalk(root, va, true);
      if r.Failed? {
        FailedWalk(old(Snap()), Snap(), root, x, r, leaf);
        return false;
      }
      WriteUserLeaf(root, x, r.table, leaf, old(Snap()));
      MappedLeaf(old(Snap()), Snap(), root, x, leaf);
      return true;
    }

    /** `page_table_unmap` */
    method Unmap(va: u64) returns (ok: bool)
      requires Valid()
      modifies this`tables, this`node
      modifies pmm`freePages, pmm`usedPages, pmm`nextFree, pmm.bitmap`clear, pmm.bitmap.buffer
      ensures Valid() && Evolves(old(tables), old(node), tables, node) && UppersKept(old(Snap()), Snap())
      ensures node == old(node) && pmm.Free() == old(pmm.Free())
      ensures ok <==> var was := Lookup(old(tables), kernelRoot, IndexOf(va)); was.Some? && was.value.level == 1
      ensures ok ==> MapsExactly(old(tables), old(node), tables, kernelRoot, IndexOf(va), None)
      ensures !ok ==> tables == old(tables)
    {
      hide Valid, MapStep, Lookup, MapsExactly, Evolves, UppersKept, SameView, Room, TablesTaken, Missing, Reach;
      KernelIsRoot();
      var r := PageWalk(kernelRoot, va, false);
      ReadWalkIsLookup(tables, kernelRoot, IndexOf(va));
      if r.Failed? || r.level != 1 {
        EvolvesItself(Snap());
        return false;
      }
      WalkReached(Snap(), kernelRoot, IndexOf(va));
      TableThere(kernelRoot, IndexOf(va));
      GrowsReflexive(Snap());
      MappedHasRoom(Snap(), kernelRoot, IndexOf(va));
      WriteLeafEntry(kernelRoot, IndexOf(va), r.table, ZERO, old(Snap()));
      UnmapEffect(old(Snap()), Snap(), kernelRoot, IndexOf(va));
      return true;
    }

    lemma TableThere(root: nat, x: Index)
      requires Valid() && IsRoot(node, root) && Reach(tables, root, x).Some?
      ensures Reach(tables, root, x).value in tables
    {
      ReachPlace(tables, node, kernelRoot, root, x);
    }

    /** `page_table_translate`; 0 also stands for "not mapped". */
    method Translate(va: u64) returns (physical: nat)
      requires Valid()
      modifies this`tables, this`node
      modifies pmm`freePages, pmm`usedPages, pmm`nextFree, pmm.bitmap`clear, pmm.bitmap.buffer
      ensures Valid() && Snap() == old(Snap())
      ensures match Lookup(tables, kernelRoot, IndexOf(va))
              case None => physical == 0
              case Some(leaf) => Translates(leaf, va, physical)
    {
      hide Lookup, Translates, Tree, Valid, IndexOf;
      KernelIsRoot();
      IsSound();
      var r := PageWalk(kernelRoot, va, false);
      ReadWalkIsLookup(tables, kernelRoot, IndexOf(va));
      if r.Failed? {
        return 0;
      }
      LeafAligned(Snap(), kernelRoot, IndexOf(va));
      FrameAndOffset(Leaf(At(tables, r.table, r.index), r.level), va);
      return At(tables, r.table, r.index).frame * PAGE_SIZE + va % PageSizeFor(r.level);
    }

    /** `page_table_create`: a new root that copies the kernel root. */
    method Create() returns (root: Option<nat>)
      requires Valid()
      modifies this`tables, this`node
      modifies pmm`freePages, pmm`usedPages, pmm`nextFree, pmm.bitmap`clear, pmm.bitmap.buffer
      ensures Valid() && SameView(old(tables), old(node), tables) && Evolves(old(tables), old(node), tables, node)
      ensures UppersKept(old(Snap()), Snap())
      ensures root.None? ==> Snap() == old(Snap()) && pmm.Free() == {}
      ensures root.Some? ==> root.value in old(pmm.Free()) && IsRoot(node, root.value)
      ensures root.Some? ==> forall y :: Lookup(tables, root.value, y) == Lookup(tables, kernelRoot, y)
      ensures root.Some? ==> forall i :: Shares(tables, root.value, kernelRoot, i) <==>
          At(tables, kernelRoot, i).present
    {
      hide Pmm.Valid, Pmm.Accounted, Link, Lookup;
      var page := TakeFrame();
      if page == 0 {
        return None;
      }
      CopyRoot(tables, node, kernelRoot, page);
      tables := tables[page := tables[kernelRoot]];
      node := node[page := Root];
      return Some(page);
    }

    /** A frame for data: `pmm_alloc_page` as the callers of the paging code use it. 0 stands for NULL. */
    method TakeFrame() returns (page: nat)
      requires Valid()
      modifies pmm`freePages, pmm`usedPages, pmm`nextFree, pmm.bitmap`clear, pmm.bitmap.buffer
      ensures Valid() && Snap() == old(Snap()).(free := old(pmm.Free()) - {page})
      ensures page == 0 <==> old(pmm.Free()) == {}
      ensures page != 0 ==> page in old(pmm.Free()) && page in data && page !in node && page in pmm.usable
      ensures page != 0 ==> page < pmm.totalPages <= BITMAP_MAX_BITS
    {
      page := pmm.AllocPage();
    }

    /** `pmm_free_page` on a frame that is no page table. */
    method GiveFrame(page: nat)
      requires Valid() && page !in node && page in data && page in pmm.usable && 0 < page < pmm.totalPages
      modifies pmm`freePages, pmm`usedPages, pmm`nextFree, pmm.bitmap`clear, pmm.bitmap.buffer
      ensures Valid() && Snap() == old(Snap()).(free := old(pmm.Free()) + {page})
    {
      pmm.FreePage(page);
    }

    /** Writing a data frame through the HHDM. */
    method FillFrame(page: nat, bytes: seq<u8>)
      requires Valid() && |bytes| == PAGE_SIZE
      modifies this`data
      ensures Valid() && data == old(data)[page := bytes]
    {
      data := data[page := bytes];
    }
  }
}
