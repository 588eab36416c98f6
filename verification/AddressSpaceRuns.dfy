/** Whole runs of the paging calls: coherence of the shared slots, isolation of the private ones, and where
    user access comes from. */
module AddressSpaceRuns {
  import opened Options
  import opened Machine
  import opened PageBits
  import opened PageTrees
  import opened PageTables

  /** One call, with the words passed and the answer. */
  datatype Call =
    | Map(x: Index, physical: bv64, flags: bv64, ok: bool)
    | MapUser(root: nat, x: Index, physical: bv64, writable: bool, ok: bool)
    | Unmap(x: Index, ok: bool)
    | Create(root: nat)
    | OtherFrames  // the allocator serves someone else

  ghost predicate Step(s: Snapshot, u: Snapshot, call: Call) {
    && Sound(u) && u.kernel == s.kernel
    && match call
       case Map(x, physical, flags, ok) => MapStep(s, u, s.kernel, x, EntryOf(MapWord(physical, flags)), ok)
       case MapUser(root, x, physical, writable, ok) =>
         && IsRoot(s.node, root) && MapStep(s, u, root, x, EntryOf(UserWord(physical, writable)), ok)
         && (ok ==> UserPath(u.tables, root, x))
       case Unmap(x, ok) =>
         && Evolves(s.tables, s.node, u.tables, u.node) && UppersKept(s, u) && u.node == s.node
         && (if ok then MapsExactly(s.tables, s.node, u.tables, s.kernel, x, None) else u.tables == s.tables)
       case Create(root) =>
         && SameView(s.tables, s.node, u.tables) && Evolves(s.tables, s.node, u.tables, u.node)
         && UppersKept(s, u) && IsRoot(u.node, root) && root !in s.node
         && (forall y :: Lookup(u.tables, root, y) == Lookup(u.tables, s.kernel, y))
         && (forall i :: Shares(u.tables, root, s.kernel, i) <==> At(u.tables, s.kernel, i).present)
       case OtherFrames => u.tables == s.tables && u.node == s.node
  }

  // ----- every call of the class is a step -----

  method StepMap(vm: AddressSpaces, va: u64, physical: bv64, flags: bv64) returns (ok: bool)
    requires vm.Valid()
    modifies vm`tables, vm`node
    modifies vm.pmm`freePages, vm.pmm`usedPages, vm.pmm`nextFree, vm.pmm.bitmap`clear, vm.pmm.bitmap.buffer
    ensures vm.Valid()
    ensures Step(old(vm.Snap()), vm.Snap(), Map(IndexOf(va), physical, flags, ok))
  {
    hide MapStep, Tree, EntryOf, MapWord, IndexOf;
    ok := vm.Map(va, physical, flags);
  }

  method StepMapUser(vm: AddressSpaces, root: nat, va: u64, physical: bv64, writable: bool) returns (ok: bool)
    requires vm.Valid() && IsRoot(vm.node, root)
    modifies vm`tables, vm`node
    modifies vm.pmm`freePages, vm.pmm`usedPages, vm.pmm`nextFree, vm.pmm.bitmap`clear, vm.pmm.bitmap.buffer
    ensures vm.Valid()
    ensures Step(old(vm.Snap()), vm.Snap(), MapUser(root, IndexOf(va), physical, writable, ok))
  {
    hide MapStep, Tree, EntryOf, UserWord, IndexOf, UserPath;
    ok := vm.MapUser(root, va, physical, writable);
  }

  method StepUnmap(vm: AddressSpaces, va: u64) returns (ok: bool)
    requires vm.Valid()
    modifies vm`tables, vm`node
    modifies vm.pmm`freePages, vm.pmm`usedPages, vm.pmm`nextFree, vm.pmm.bitmap`clear, vm.pmm.bitmap.buffer
    ensures vm.Valid() && Step(old(vm.Snap()), vm.Snap(), Unmap(IndexOf(va), ok))
  {
    hide MapsExactly, Evolves, UppersKept, Tree, IndexOf, Lookup;
    ok := vm.Unmap(va);
  }

  /** Without a frame nothing happens; otherwise the new root is a step. */
  method StepCreate(vm: AddressSpaces) returns (root: Option<nat>)
    requires vm.Valid()
    modifies vm`tables, vm`node
    modifies vm.pmm`freePages, vm.pmm`usedPages, vm.pmm`nextFree, vm.pmm.bitmap`clear, vm.pmm.bitmap.buffer
    ensures vm.Valid()
    ensures match root
            case None => vm.Snap() == old(vm.Snap())
            case Some(r) => Step(old(vm.Snap()), vm.Snap(), Create(r))
  {
    hide Evolves, UppersKept, SameView, Tree, Lookup;
    root := vm.Create();
  }

  ghost predicate Run(states: seq<Snapshot>, calls: seq<Call>) {
    && |states| == |calls| + 1 && Sound(states[0])
    && forall i :: 0 <= i < |calls| ==> Step(states[i], states[i + 1], calls[i])
  }

  /** Roots, their present slots and the absence of sharing survive any number of calls. */
  lemma {:induction false} RunEvolves(states: seq<Snapshot>, calls: seq<Call>, n: nat)
    requires Run(states, calls) && n <= |calls|
    ensures Sound(states[n]) && states[n].kernel == states[0].kernel
    ensures Evolves(states[0].tables, states[0].node, states[n].tables, states[n].node)
  {
    if n > 0 {
      RunEvolves(states, calls, n - 1);
      assert Step(states[n - 1], states[n], calls[n - 1]);
      EvolvesTransitive(states[0].tables, states[0].node, states[n - 1].tables, states[n - 1].node,
                        states[n].tables, states[n].node);
    }
  }

  /** Coherence: a process root and the kernel root translate every address of a slot that they share
      identically, in every later state of every run. */
  lemma Coherence(states: seq<Snapshot>, calls: seq<Call>, n: nat, root: nat, x: Index)
    requires Run(states, calls) && n <= |calls|
    requires IsRoot(states[0].node, root) && Shares(states[0].tables, root, states[0].kernel, x.i4)
    ensures Lookup(states[n].tables, root, x) == Lookup(states[n].tables, states[0].kernel, x)
  {
    RunEvolves(states, calls, n);
    SharedReach(states[n].tables, root, states[0].kernel, x);
  }

  /** A slot that a process root does not share with the kernel at some point is never shared later. */
  lemma StaysPrivate(states: seq<Snapshot>, calls: seq<Call>, n: nat, root: nat, slot: nat)
    requires Run(states, calls) && n <= |calls|
    requires IsRoot(states[0].node, root) && root != states[0].kernel
    requires !Shares(states[0].tables, root, states[0].kernel, slot)
    ensures !Shares(states[n].tables, root, states[0].kernel, slot)
  {
    RunEvolves(states, calls, n);
  }

  /** Isolation outward: mapping a user page in a private slot changes the process's own page and nothing
      else, for any root and any address, at any point of any run. */
  lemma IsolatedMapUser(states: seq<Snapshot>, calls: seq<Call>, n: nat, root: nat, x: Index, r: nat, y: Index)
    requires Run(states, calls) && n < |calls|
    requires IsRoot(states[0].node, root) && root != states[0].kernel
    requires !Shares(states[0].tables, root, states[0].kernel, x.i4)
    requires calls[n].MapUser? && calls[n].root == root && calls[n].x == x
    requires IsRoot(states[n].node, r) && (r != root || y != x)
    ensures Lookup(states[n + 1].tables, r, y) == Lookup(states[n].tables, r, y)
  {
    StaysPrivate(states, calls, n + 1, root, x.i4);
    RunEvolves(states, calls, n);
    RunEvolves(states, calls, n + 1);
    var s, u := states[n], states[n + 1];
    assert Step(s, u, calls[n]);
    if r != root && Shares(u.tables, r, root, x.i4) {
      SharedWithKernel(u.tables, u.node, u.kernel, root, x.i4, r);
    }
  }

  /** Isolation inward: in a private slot, no call but the process's own map_user changes a translation. */
  lemma IsolatedSlot(states: seq<Snapshot>, calls: seq<Call>, n: nat, root: nat, y: Index)
    requires Run(states, calls) && n < |calls|
    requires IsRoot(states[0].node, root) && root != states[0].kernel
    requires !Shares(states[0].tables, root, states[0].kernel, y.i4)
    requires !(calls[n].MapUser? && calls[n].root == root && calls[n].x == y)
    ensures Lookup(states[n + 1].tables, root, y) == Lookup(states[n].tables, root, y)
  {
    StaysPrivate(states, calls, n + 1, root, y.i4);
    RunEvolves(states, calls, n);
    RunEvolves(states, calls, n + 1);
    var s, u, call := states[n], states[n + 1], calls[n];
    assert Step(s, u, call);
    if call.MapUser? && call.root != root && Shares(u.tables, root, call.root, y.i4) {
      SharedSymmetric(u.tables, root, call.root, y.i4);
      if call.root == s.kernel {
      } else {
        SharedWithKernel(u.tables, u.node, u.kernel, root, y.i4, call.root);
      }
    }
  }

  lemma SharedSymmetric(t: Tables, r: nat, s: nat, slot: nat)
    ensures Shares(t, r, s, slot) == Shares(t, s, r, slot)
  {
  }

  // ----- from the creation of a root on -----

  lemma Suffix(states: seq<Snapshot>, calls: seq<Call>, i: nat)
    requires Run(states, calls) && i <= |calls|
    ensures Run(states[i..], calls[i..])
  {
    hide Step;
    assert Sound(states[i]) by {
      if i > 0 {
        SoundAfter(states[i - 1], states[i], calls[i - 1]);
      }
    }
    forall j | 0 <= j < |calls[i..]| ensures Step(states[i..][j], states[i..][j + 1], calls[i..][j]) {
      assert Step(states[i + j], states[i + j + 1], calls[i + j]);
    }
  }

  lemma SoundAfter(s: Snapshot, u: Snapshot, call: Call)
    requires Step(s, u, call)
    ensures Sound(u) && u.kernel == s.kernel
  {
  }

  /** A root made in the run shares with the kernel, in every later state, exactly the slots that the kernel
      had when the root was made; in those the two translate every address identically. */
  lemma CoherentSinceCreation(states: seq<Snapshot>, calls: seq<Call>, i: nat, n: nat, root: nat, x: Index)
    requires Run(states, calls) && i < n <= |calls| && calls[i] == Create(root)
    ensures var kernel := states[0].kernel;
            && IsRoot(states[n].node, root)
            && (Shares(states[n].tables, root, kernel, x.i4) <==> At(states[i + 1].tables, kernel, x.i4).present)
            && (At(states[i + 1].tables, kernel, x.i4).present ==>
                  Lookup(states[n].tables, root, x) == Lookup(states[n].tables, kernel, x))
  {
    hide Lookup, Evolves;
    var later, rest := states[i + 1..], calls[i + 1..];
    assert Step(states[i], states[i + 1], calls[i]);
    RunEvolves(states, calls, i);
    RunEvolves(states, calls, i + 1);
    RunEvolves(states, calls, n);
    KernelRoot(states[i]);
    Suffix(states, calls, i + 1);
    assert later[0] == states[i + 1] && later[n - i - 1] == states[n];
    RunEvolves(later, rest, n - i - 1);
    RootStill(later[0], states[n], root);
    if At(states[i + 1].tables, states[0].kernel, x.i4).present {
      Coherence(later, rest, n - i - 1, root, x);
      StillShares(later[0], states[n], root, states[0].kernel, x.i4);
    } else {
      StaysPrivate(later, rest, n - i - 1, root, x.i4);
    }
  }

  lemma RootStill(s: Snapshot, u: Snapshot, root: nat)
    requires Evolves(s.tables, s.node, u.tables, u.node) && IsRoot(s.node, root)
    ensures IsRoot(u.node, root)
  {
  }

  lemma StillShares(s: Snapshot, u: Snapshot, r: nat, root: nat, slot: nat)
    requires Evolves(s.tables, s.node, u.tables, u.node) && IsRoot(s.node, r) && IsRoot(s.node, root)
    requires Shares(s.tables, r, root, slot)
    ensures Shares(u.tables, r, root, slot)
  {
  }

  // ----- user access -----

  /** An entry lets user mode read through it, or write. */
  predicate Lets(e: PageEntry, write: bool) {
    e.present && e.user && (write ==> e.writable)
  }

  /** User mode may read the page, or write it: every entry on its walk, down to a leaf of any size, lets it. */
  ghost predicate UserAccess(t: Tables, root: nat, x: Index, write: bool) {
    var e4 := At(t, root, x.i4);
    var e3 := At(t, e4.frame, x.i3);
    var e2 := At(t, e3.frame, x.i2);
    var e1 := At(t, e2.frame, x.i1);
    Lets(e4, write) && Lets(e3, write) && (e3.huge || (Lets(e2, write) && (e2.huge || Lets(e1, write))))
  }

  /** The leaf of the page lets user mode read, or write. */
  ghost predicate HasUserLeaf(t: Tables, root: nat, x: Index, write: bool) {
    Lookup(t, root, x).Some? && Lets(Lookup(t, root, x).value.entry, write)
  }

  /** Access needs a leaf that lets it, and a path that is open at all four levels lets user mode read. */
  lemma AccessByPath(t: Tables, root: nat, x: Index)
    ensures forall write :: UserAccess(t, root, x, write) ==> HasUserLeaf(t, root, x, write)
    ensures UserPath(t, root, x) ==> UserAccess(t, root, x, false)
  {
  }

  /** The call asks for such a leaf for the page, under this root or one that shares the slot. */
  ghost predicate Grants(u: Snapshot, call: Call, r: nat, y: Index, write: bool) {
    match call
    case Map(x, physical, flags, ok) =>
      ok && x == y && flags & 4 != 0 && (write ==> flags & 2 != 0) && Affected(u.tables, r, u.kernel, y)
    case MapUser(root, x, physical, writable, ok) =>
      ok && x == y && (write ==> writable || physical & 2 != 0) && Affected(u.tables, r, root, y)
    case _ => false
  }

  /** One call gives user access to the leaf of a page only by granting it. */
  lemma StepGrants(s: Snapshot, u: Snapshot, call: Call, r: nat, y: Index, write: bool)
    requires Sound(s) && Step(s, u, call) && IsRoot(s.node, r) && HasUserLeaf(u.tables, r, y, write)
    ensures HasUserLeaf(s.tables, r, y, write) || Grants(u, call, r, y, write)
  {
    hide Evolves, Tree, EntryOf, MapWord, UserWord;
    if Lookup(u.tables, r, y) != Lookup(s.tables, r, y) {
      match call
      case Map(x, physical, flags, ok) =>
        MapEntry(physical, flags);
        assert ok && Lookup(u.tables, r, y) == LeafAt(EntryOf(MapWord(physical, flags)));
      case MapUser(root, x, physical, writable, ok) =>
        UserEntry(physical, writable);
        assert ok && Lookup(u.tables, r, y) == LeafAt(EntryOf(UserWord(physical, writable)));
      case Unmap(x, ok) =>
      case Create(root) =>
      case OtherFrames =>
    }
  }

  /** Where user access comes from, over any run: a page that user mode can read (or write) had a leaf that
      let it at the start, or some call asked for that on exactly that page, under that root or one that
      shared the slot. Opening the upper levels for one page never opens another whose leaf was not granted. */
  lemma AccessGranted(states: seq<Snapshot>, calls: seq<Call>, n: nat, r: nat, y: Index, write: bool)
    requires Run(states, calls) && n <= |calls| && IsRoot(states[0].node, r)
    requires UserAccess(states[n].tables, r, y, write)
    ensures || HasUserLeaf(states[0].tables, r, y, write)
            || exists i :: 0 <= i < n && Grants(states[i + 1], calls[i], r, y, write)
  {
    AccessByPath(states[n].tables, r, y);
    LeafGranted(states, calls, n, r, y, write);
  }

  lemma {:induction false} LeafGranted(states: seq<Snapshot>, calls: seq<Call>, n: nat, r: nat, y: Index, write: bool)
    requires Run(states, calls) && n <= |calls| && IsRoot(states[0].node, r)
    requires HasUserLeaf(states[n].tables, r, y, write)
    ensures || HasUserLeaf(states[0].tables, r, y, write)
            || exists i :: 0 <= i < n && Grants(states[i + 1], calls[i], r, y, write)
  {
    hide Step, HasUserLeaf, Grants, Evolves;
    if n > 0 {
      RunEvolves(states, calls, n - 1);
      RootStill(states[0], states[n - 1], r);
      StepGrants(states[n - 1], states[n], calls[n - 1], r, y, write);
      if HasUserLeaf(states[n - 1].tables, r, y, write) {
        LeafGranted(states, calls, n - 1, r, y, write);
      }
    }
  }

  /** In a private slot user mode gets to read (or write) a page only by the process's own map_user of that
      page, with `writable` (or bit 1 in the physical word) if it can write; and each such call that succeeds
      lets user mode read. */
  lemma AccessPrivate(states: seq<Snapshot>, calls: seq<Call>, n: nat, root: nat, y: Index, write: bool)
    requires Run(states, calls) && n <= |calls| && IsRoot(states[0].node, root) && root != states[0].kernel
    requires !Shares(states[0].tables, root, states[0].kernel, y.i4)
    requires UserAccess(states[n].tables, root, y, write) && !HasUserLeaf(states[0].tables, root, y, write)
    ensures exists i :: 0 <= i < n && OwnGrant(calls[i], root, y, write)
                        && UserAccess(states[i + 1].tables, root, y, false)
  {
    AccessByPath(states[n].tables, root, y);
    FirstGrant(states, calls, n, root, y, write);
  }

  ghost predicate OwnGrant(call: Call, root: nat, y: Index, write: bool) {
    && call.MapUser? && call.root == root && call.x == y && call.ok
    && (write ==> call.writable || call.physical & 2 != 0)
  }

  lemma {:induction false} FirstGrant(states: seq<Snapshot>, calls: seq<Call>, n: nat, root: nat, y: Index,
                                      write: bool)
    requires Run(states, calls) && n <= |calls| && IsRoot(states[0].node, root) && root != states[0].kernel
    requires !Shares(states[0].tables, root, states[0].kernel, y.i4)
    requires HasUserLeaf(states[n].tables, root, y, write) && !HasUserLeaf(states[0].tables, root, y, write)
    ensures exists i :: 0 <= i < n && OwnGrant(calls[i], root, y, write)
                        && UserAccess(states[i + 1].tables, root, y, false)
  {
    hide UserAccess, Lookup, Evolves, Tree, EntryOf, UserWord, MapWord;
    if HasUserLeaf(states[n - 1].tables, root, y, write) {
      FirstGrant(states, calls, n - 1, root, y, write);
    } else {
      var call := calls[n - 1];
      assert Step(states[n - 1], states[n], call);
      if !(call.MapUser? && call.root == root && call.x == y) {
        IsolatedSlot(states, calls, n - 1, root, y);
      }
      RunEvolves(states, calls, n - 1);
      RootStill(states[0], states[n - 1], root);
      UserEntry(call.physical, call.writable);
      AccessByPath(states[n].tables, root, y);
    }
  }

  // ----- access is kept -----

  lemma StepUppers(s: Snapshot, u: Snapshot, call: Call)
    requires Step(s, u, call)
    ensures UppersKept(s, u)
  {
    hide Evolves, Lookup, Sound;
  }

  /** While the upper entries are kept and the leaf stays, what user mode may do with the page it may still do. */
  lemma AccessKept(s: Snapshot, u: Snapshot, root: nat, y: Index, write: bool)
    requires Sound(s) && IsRoot(s.node, root) && UppersKept(s, u)
    requires Lookup(u.tables, root, y) == Lookup(s.tables, root, y) && UserAccess(s.tables, root, y, write)
    ensures UserAccess(u.tables, root, y, write)
  {
    var e4 := At(s.tables, root, y.i4);
    assert Link(s.tables, s.node, s.kernel, root, y.i4);
    assert Widens(e4, At(u.tables, root, y.i4));
    var e3 := At(s.tables, e4.frame, y.i3);
    assert Widens(e3, At(u.tables, e4.frame, y.i3));
    if !e3.huge {
      assert Link(s.tables, s.node, s.kernel, e4.frame, y.i3);
      assert Widens(At(s.tables, e3.frame, y.i2), At(u.tables, e3.frame, y.i2));
    }
  }

  /** In a private slot a process keeps the access it has to a page, over any run, until it maps that page anew. */
  lemma {:induction false} AccessStays(states: seq<Snapshot>, calls: seq<Call>, n: nat, root: nat, y: Index,
                                       write: bool)
    requires Run(states, calls) && n <= |calls| && IsRoot(states[0].node, root) && root != states[0].kernel
    requires !Shares(states[0].tables, root, states[0].kernel, y.i4)
    requires UserAccess(states[0].tables, root, y, write)
    requires forall i :: 0 <= i < n ==> !(calls[i].MapUser? && calls[i].root == root && calls[i].x == y)
    ensures UserAccess(states[n].tables, root, y, write)
    ensures Lookup(states[n].tables, root, y) == Lookup(states[0].tables, root, y)
  {
    hide Lookup, UserAccess, Evolves, Shares;
    if n > 0 {
      AccessStays(states, calls, n - 1, root, y, write);
      IsolatedSlot(states, calls, n - 1, root, y);
      RunEvolves(states, calls, n - 1);
      RootStill(states[0], states[n - 1], root);
      StepUppers(states[n - 1], states[n], calls[n - 1]);
      AccessKept(states[n - 1], states[n], root, y, write);
    }
  }
}
