/** Four-level tables as a value: what a walk finds, the ownership tree behind it, and what the three
    kinds of write of kernel/src/vmm/page_table.c do to every address of every address space. */
module PageTrees {
  import opened Options
  import opened PageBits

  type PageEntry = Entry<nat>

  /** Physical memory as seen by the walker: frame to 512 entries. */
  type Tables = map<nat, seq<PageEntry>>

  const ENTRIES: nat := 512
  const ZERO: PageEntry := Entry(false, false, false, false, 0, 0)

  /** The four table indices of a virtual address, PML4 first. */
  datatype Index = Index(i4: nat, i3: nat, i2: nat, i1: nat)

  /** PML4_INDEX, PDPT_INDEX, PD_INDEX and PT_INDEX: a shift is a division, `& 0x1FF` a remainder. */
  function IndexOf(va: nat): (x: Index)
    ensures x.i4 < ENTRIES && x.i3 < ENTRIES && x.i2 < ENTRIES && x.i1 < ENTRIES
  {
    Index((va / 0x80_0000_0000) % 512, (va / 0x4000_0000) % 512, (va / 0x20_0000) % 512, (va / 0x1000) % 512)
  }

  /** Bits 12 to 47 of the address. */
  function PageBitsOf(va: nat): nat {
    (va / 0x1000) % 0x10_0000_0000
  }

  lemma PageBitsFromIndex(va: nat)
    ensures var x := IndexOf(va);
            PageBitsOf(va) == x.i4 * 0x800_0000 + x.i3 * 0x4_0000 + x.i2 * 0x200 + x.i1
  {
    var n := va / 0x1000;
    assert va / 0x20_0000 == n / 0x200 by { NestedQuotient(va); }
    assert va / 0x4000_0000 == n / 0x200 / 0x200 by { NestedQuotient(va); }
    assert va / 0x80_0000_0000 == n / 0x200 / 0x200 / 0x200 by { NestedQuotient(va); }
    FourDigits(n);
  }

  lemma NestedQuotient(va: nat)
    ensures va / 0x20_0000 == va / 0x1000 / 0x200
    ensures va / 0x4000_0000 == va / 0x20_0000 / 0x200
    ensures va / 0x80_0000_0000 == va / 0x4000_0000 / 0x200
  {
  }

  /** A number below 2^36 in base 512. */
  lemma FourDigits(n: nat)
    ensures var a := n / 0x200; var b := a / 0x200; var c := b / 0x200;
            n % 0x10_0000_0000 == (c % 0x200) * 0x800_0000 + (b % 0x200) * 0x4_0000 + (a % 0x200) * 0x200 + n % 0x200
  {
    var a := n / 0x200;
    var b := a / 0x200;
    var c := b / 0x200;
    var d := c / 0x200;
    Remainder(n, d, (c % 0x200) * 0x800_0000 + (b % 0x200) * 0x4_0000 + (a % 0x200) * 0x200 + n % 0x200);
  }

  lemma Remainder(n: nat, q: nat, r: nat)
    requires n == q * 0x10_0000_0000 + r && r < 0x10_0000_0000
    ensures n % 0x10_0000_0000 == r
  {
  }

  function Digits(x: Index): nat {
    x.i4 * 0x800_0000 + x.i3 * 0x4_0000 + x.i2 * 0x200 + x.i1
  }

  lemma DigitsUnique(x: Index, y: Index)
    requires x.i4 < ENTRIES && x.i3 < ENTRIES && x.i2 < ENTRIES && x.i1 < ENTRIES
    requires y.i4 < ENTRIES && y.i3 < ENTRIES && y.i2 < ENTRIES && y.i1 < ENTRIES
    requires Digits(x) == Digits(y)
    ensures x == y
  {
    assert x.i4 == y.i4;
    assert x.i3 == y.i3;
    assert x.i2 == y.i2;
  }

  /** Two addresses use the same four indices exactly when they agree on bits 12 to 47. */
  lemma SamePage(a: nat, b: nat)
    ensures IndexOf(a) == IndexOf(b) <==> PageBitsOf(a) == PageBitsOf(b)
  {
    hide IndexOf, PageBitsOf;
    PageBitsFromIndex(a);
    PageBitsFromIndex(b);
    if PageBitsOf(a) == PageBitsOf(b) {
      DigitsUnique(IndexOf(a), IndexOf(b));
    }
  }

  function At(t: Tables, f: nat, i: nat): PageEntry {
    if f in t && i < |t[f]| then t[f][i] else ZERO
  }

  /** A mapping: the entry found and the level of the table that holds it (1 = 4 KiB, 2 = 2 MiB, 3 = 1 GiB). */
  datatype Leaf = Leaf(entry: PageEntry, level: nat)

  /** What the tables map: the partial map from (root, page) to (frame, flags). */
  function Lookup(t: Tables, root: nat, x: Index): Option<Leaf> {
    var e4 := At(t, root, x.i4);
    if !e4.present then None else Lookup3(t, e4.frame, x)
  }

  function Lookup3(t: Tables, f: nat, x: Index): Option<Leaf> {
    var e3 := At(t, f, x.i3);
    if !e3.present then None else if e3.huge then Some(Leaf(e3, 3)) else Lookup2(t, e3.frame, x)
  }

  function Lookup2(t: Tables, f: nat, x: Index): Option<Leaf> {
    var e2 := At(t, f, x.i2);
    if !e2.present then None else if e2.huge then Some(Leaf(e2, 2)) else Lookup1(t, e2.frame, x)
  }

  function Lookup1(t: Tables, f: nat, x: Index): Option<Leaf> {
    var e1 := At(t, f, x.i1);
    if e1.present then Some(Leaf(e1, 1)) else None
  }

  /** The last-level table that the walk of `x` reaches. */
  function Reach(t: Tables, root: nat, x: Index): Option<nat> {
    var e4 := At(t, root, x.i4);
    if !e4.present then None else
    var e3 := At(t, e4.frame, x.i3);
    if !e3.present || e3.huge then None else
    var e2 := At(t, e3.frame, x.i2);
    if !e2.present || e2.huge then None else Some(e2.frame)
  }

  /** The place of a table frame. A PDPT belongs to the root that created it and may be shared by the
      roots copied from that root; every lower table hangs from exactly one entry. */
  datatype Node =
    | Root
    | Pdpt(slot: nat, owner: nat)
    | Pd(parent: nat, slot: nat)
    | Pt(parent: nat, slot: nat)

  /** What a present entry promises about the frame it names. */
  ghost predicate Link(t: Tables, node: map<nat, Node>, kernel: nat, f: nat, i: nat)
    requires f in node
  {
    var e := At(t, f, i);
    var c := e.frame;
    match node[f]
    case Root =>
      && c in node && node[c].Pdpt? && node[c].slot == i
      && (node[c].owner == f || (node[c].owner == kernel && At(t, kernel, i).present && At(t, kernel, i).frame == c))
    case Pdpt(_, _) => if e.huge then c % 0x4_0000 == 0 else c in node && node[c] == Pd(f, i)
    case Pd(_, _) => if e.huge then c % 0x200 == 0 else c in node && node[c] == Pt(f, i)
    case Pt(_, _) => true
  }

  /** The tree invariant: no table is reachable at two levels or through two parents. */
  ghost predicate Tree(t: Tables, node: map<nat, Node>, kernel: nat) {
    && t.Keys == node.Keys
    && (forall f :: f in t ==> |t[f]| == ENTRIES)
    && kernel in node && node[kernel].Root?
    && (forall f, i :: f in node && At(t, f, i).present ==> Link(t, node, kernel, f, i))
  }

  ghost predicate IsRoot(node: map<nat, Node>, r: nat) {
    r in node && node[r].Root?
  }

  /** Two roots run the slot through the same PDPT. */
  ghost predicate Shares(t: Tables, r: nat, s: nat, slot: nat) {
    At(t, r, slot).present && At(t, s, slot).present && At(t, r, slot).frame == At(t, s, slot).frame
  }

  /** The last-level table of a walk sits below the PDPT of its root slot, at the indices of the walk. */
  lemma ReachPlace(t: Tables, node: map<nat, Node>, kernel: nat, r: nat, x: Index)
    requires Tree(t, node, kernel) && IsRoot(node, r) && Reach(t, r, x).Some?
    ensures
      var p := Reach(t, r, x).value;
      var f4 := At(t, r, x.i4).frame;
      var f3 := At(t, f4, x.i3).frame;
      && p in node && node[p] == Pt(f3, x.i2)
      && f3 in node && node[f3] == Pd(f4, x.i3)
      && f4 in node && node[f4].Pdpt? && node[f4].slot == x.i4
  {
    var e4 := At(t, r, x.i4);
    assert Link(t, node, kernel, r, x.i4);
    var e3 := At(t, e4.frame, x.i3);
    assert Link(t, node, kernel, e4.frame, x.i3);
    assert Link(t, node, kernel, e3.frame, x.i2);
  }

  /** Walks meet in a last-level table only when they have the same upper indices and share the slot. */
  lemma ReachUnique(t: Tables, node: map<nat, Node>, kernel: nat, r: nat, x: Index, s: nat, y: Index)
    requires Tree(t, node, kernel) && IsRoot(node, r) && IsRoot(node, s)
    requires Reach(t, r, x).Some? && Reach(t, r, x) == Reach(t, s, y)
    ensures x.i4 == y.i4 && x.i3 == y.i3 && x.i2 == y.i2 && Shares(t, r, s, x.i4)
  {
    ReachPlace(t, node, kernel, r, x);
    ReachPlace(t, node, kernel, s, y);
  }

  /** Conversely, sharing the slot is enough to meet. */
  lemma SharedReach(t: Tables, r: nat, s: nat, x: Index)
    requires r == s || Shares(t, r, s, x.i4)
    ensures Reach(t, r, x) == Reach(t, s, x) && Lookup(t, r, x) == Lookup(t, s, x)
  {
  }

  function Write(t: Tables, f: nat, i: nat, e: PageEntry): Tables
    requires f in t && i < |t[f]|
  {
    t[f := t[f][i := e]]
  }

  /** Writing a last-level entry: the tree stands, and under every root exactly the addresses whose walk
      ends in that entry see the new value. */
  lemma WriteLeaf(t: Tables, node: map<nat, Node>, kernel: nat, root: nat, x: Index, e: PageEntry)
    requires Tree(t, node, kernel) && IsRoot(node, root) && Reach(t, root, x).Some? && x.i1 < ENTRIES
    requires Reach(t, root, x).value in t
    ensures
      var u := Write(t, Reach(t, root, x).value, x.i1, e);
      && Tree(u, node, kernel)
      && forall s, y :: IsRoot(node, s) ==>
           && Lookup(u, s, y) ==
                (if y == x && (s == root || Shares(t, s, root, x.i4))
                 then (if e.present then Some(Leaf(e, 1)) else None) else Lookup(t, s, y))
           && At(u, s, y.i4) == At(t, s, y.i4)
  {
    var p := Reach(t, root, x).value;
    var u := Write(t, p, x.i1, e);
    ReachPlace(t, node, kernel, root, x);
    forall f, i ensures At(u, f, i) == if f == p && i == x.i1 then e else At(t, f, i) {
    }
    WriteLeafTree(t, node, kernel, p, x.i1, e);
    forall s, y | IsRoot(node, s)
      ensures Lookup(u, s, y) ==
                (if y == x && (s == root || Shares(t, s, root, x.i4))
                 then (if e.present then Some(Leaf(e, 1)) else None) else Lookup(t, s, y))
    {
      WriteLeafAt(t, node, kernel, root, x, e, s, y);
    }
  }

  lemma WriteLeafTree(t: Tables, node: map<nat, Node>, kernel: nat, p: nat, i: nat, e: PageEntry)
    requires Tree(t, node, kernel) && p in node && node[p].Pt? && i < ENTRIES
    ensures Tree(Write(t, p, i, e), node, kernel)
  {
    var u := Write(t, p, i, e);
    forall f, j | f in node && At(u, f, j).present ensures Link(u, node, kernel, f, j) {
      if f != p {
        assert At(u, f, j) == At(t, f, j);
        assert Link(t, node, kernel, f, j);
      }
    }
  }

  lemma WriteLeafAt(t: Tables, node: map<nat, Node>, kernel: nat, root: nat, x: Index, e: PageEntry, s: nat, y: Index)
    requires Tree(t, node, kernel) && IsRoot(node, root) && Reach(t, root, x).Some? && x.i1 < ENTRIES
    requires Reach(t, root, x).value in t && IsRoot(node, s)
    ensures Lookup(Write(t, Reach(t, root, x).value, x.i1, e), s, y) ==
              (if y == x && (s == root || Shares(t, s, root, x.i4))
               then (if e.present then Some(Leaf(e, 1)) else None) else Lookup(t, s, y))
  {
    var p := Reach(t, root, x).value;
    var u := Write(t, p, x.i1, e);
    ReachPlace(t, node, kernel, root, x);
    UpperWalk(t, node, kernel, p, x.i1, e, s, y);
    if Reach(t, s, y) == Some(p) {
      ReachUnique(t, node, kernel, s, y, root, x);
    }
    if s == root || Shares(t, s, root, x.i4) {
      SharedReach(t, s, root, x);
    }
  }

  /** A write to a last-level table leaves every walk down to that level alone. */
  lemma UpperWalk(t: Tables, node: map<nat, Node>, kernel: nat, p: nat, i: nat, e: PageEntry, s: nat, y: Index)
    requires Tree(t, node, kernel) && IsRoot(node, s) && p in node && node[p].Pt? && i < ENTRIES
    ensures
      var u := Write(t, p, i, e);
      && Reach(u, s, y) == Reach(t, s, y)
      && (Reach(t, s, y).None? ==> Lookup(u, s, y) == Lookup(t, s, y))
      && (Reach(t, s, y).Some? ==> Lookup(t, s, y) == Lookup1(t, Reach(t, s, y).value, y))
      && (Reach(t, s, y).Some? ==> Lookup(u, s, y) == Lookup1(u, Reach(t, s, y).value, y))
  {
    var e4 := At(t, s, y.i4);
    if e4.present {
      assert Link(t, node, kernel, s, y.i4);
      var e3 := At(t, e4.frame, y.i3);
      if e3.present && !e3.huge {
        assert Link(t, node, kernel, e4.frame, y.i3);
      }
    }
  }

  /** What every write keeps about roots: present slots keep their PDPT, and no two roots start to share. */
  ghost predicate Evolves(t: Tables, node: map<nat, Node>, u: Tables, mode: map<nat, Node>) {
    && (forall r :: IsRoot(node, r) ==> IsRoot(mode, r))
    && (forall r, i :: IsRoot(node, r) && At(t, r, i).present ==>
          At(u, r, i).present && At(u, r, i).frame == At(t, r, i).frame)
    && (forall r, s, i :: IsRoot(node, r) && IsRoot(node, s) && r != s && Shares(u, r, s, i) ==> Shares(t, r, s, i))
  }

  /** Every root maps every address as before. */
  ghost predicate SameView(t: Tables, node: map<nat, Node>, u: Tables) {
    forall r, y :: IsRoot(node, r) ==> Lookup(u, r, y) == Lookup(t, r, y)
  }

  lemma EvolvesTransitive(t: Tables, n: map<nat, Node>, u: Tables, m: map<nat, Node>, v: Tables, k: map<nat, Node>)
    requires Evolves(t, n, u, m) && Evolves(u, m, v, k)
    ensures Evolves(t, n, v, k)
  {
  }

  lemma SameViewTransitive(t: Tables, n: map<nat, Node>, u: Tables, m: map<nat, Node>, v: Tables)
    requires Evolves(t, n, u, m) && SameView(t, n, u) && SameView(u, m, v)
    ensures SameView(t, n, v)
  {
  }

  function Zeros(): (z: seq<PageEntry>)
    ensures |z| == ENTRIES && forall i :: 0 <= i < ENTRIES ==> z[i] == ZERO
  {
    seq(ENTRIES, _ => ZERO)
  }

  /** The place of a table linked at entry `i` of `f`. */
  function Child(node: map<nat, Node>, f: nat, i: nat): Node
    requires f in node && !node[f].Pt?
  {
    match node[f]
    case Root => Pdpt(i, f)
    case Pdpt(_, _) => Pd(f, i)
    case Pd(_, _) => Pt(f, i)
  }

  function Linked(t: Tables, f: nat, i: nat, c: nat): Tables
    requires f in t && i < |t[f]| && c !in t
  {
    Write(t[c := Zeros()], f, i, TableEntry(c))
  }

  /** Linking a fresh zeroed table into an absent entry maps nothing and unmaps nothing, anywhere. */
  lemma LinkFresh(t: Tables, node: map<nat, Node>, kernel: nat, f: nat, i: nat, c: nat)
    requires Tree(t, node, kernel) && f in node && !node[f].Pt? && i < ENTRIES
    requires !At(t, f, i).present && c !in node
    ensures
      var u := Linked(t, f, i, c);
      var mode := node[c := Child(node, f, i)];
      Tree(u, mode, kernel) && SameView(t, node, u) && Evolves(t, node, u, mode)
  {
    var u := Linked(t, f, i, c);
    var mode := node[c := Child(node, f, i)];
    forall g, j
        ensures At(u, g, j) == (if g == f && j == i then TableEntry(c) else if g == c then ZERO else At(t, g, j)) {
    }
    LinkFreshTree(t, node, kernel, f, i, c);
    forall r, y | IsRoot(node, r) ensures Lookup(u, r, y) == Lookup(t, r, y) {
      LinkFreshAt(t, node, kernel, f, i, c, r, y);
    }
    forall r, j | IsRoot(node, r) && At(t, r, j).present ensures At(t, r, j).frame != c {
      assert Link(t, node, kernel, r, j);
    }
  }

  lemma LinkFreshTree(t: Tables, node: map<nat, Node>, kernel: nat, f: nat, i: nat, c: nat)
    requires Tree(t, node, kernel) && f in node && !node[f].Pt? && i < ENTRIES
    requires !At(t, f, i).present && c !in node
    ensures Tree(Linked(t, f, i, c), node[c := Child(node, f, i)], kernel)
  {
    var u := Linked(t, f, i, c);
    var mode := node[c := Child(node, f, i)];
    forall g, j
        ensures At(u, g, j) == (if g == f && j == i then TableEntry(c) else if g == c then ZERO else At(t, g, j)) {
    }
    forall g, j | g in mode && At(u, g, j).present ensures Link(u, mode, kernel, g, j) {
      if g != f || j != i {
        assert Link(t, node, kernel, g, j);
      }
    }
  }

  lemma LinkFreshAt(t: Tables, node: map<nat, Node>, kernel: nat, f: nat, i: nat, c: nat, r: nat, y: Index)
    requires Tree(t, node, kernel) && f in node && !node[f].Pt? && i < ENTRIES
    requires !At(t, f, i).present && c !in node && IsRoot(node, r)
    ensures Lookup(Linked(t, f, i, c), r, y) == Lookup(t, r, y)
  {
    var e4 := At(t, r, y.i4);
    if e4.present {
      assert Link(t, node, kernel, r, y.i4);
      var e3 := At(t, e4.frame, y.i3);
      if e3.present && !e3.huge {
        assert Link(t, node, kernel, e4.frame, y.i3);
        var e2 := At(t, e3.frame, y.i2);
        if e2.present && !e2.huge {
          assert Link(t, node, kernel, e3.frame, y.i2);
        }
      }
    }
  }

  function WithUser(t: Tables, f: nat, i: nat): Tables
    requires f in t && i < |t[f]|
  {
    Write(t, f, i, t[f][i].(user := true))
  }

  /** Setting the user bit of an upper entry changes no mapping. */
  lemma SetUser(t: Tables, node: map<nat, Node>, kernel: nat, f: nat, i: nat)
    requires Tree(t, node, kernel) && f in node && !node[f].Pt? && i < ENTRIES
    requires At(t, f, i).present && (node[f].Root? || !At(t, f, i).huge)
    ensures var u := WithUser(t, f, i);
            Tree(u, node, kernel) && SameView(t, node, u) && Evolves(t, node, u, node)
    ensures forall r, y :: Reach(WithUser(t, f, i), r, y) == Reach(t, r, y)
  {
    var u := WithUser(t, f, i);
    forall g, j ensures At(u, g, j) == if g == f && j == i then At(t, g, j).(user := true) else At(t, g, j) {
    }
    forall g, j | g in node && At(u, g, j).present ensures Link(u, node, kernel, g, j) {
      assert Link(t, node, kernel, g, j);
    }
    forall r, y | IsRoot(node, r) ensures Lookup(u, r, y) == Lookup(t, r, y) {
      SetUserAt(t, node, kernel, f, i, r, y);
    }
  }

  lemma SetUserAt(t: Tables, node: map<nat, Node>, kernel: nat, f: nat, i: nat, r: nat, y: Index)
    requires Tree(t, node, kernel) && f in node && !node[f].Pt? && i < ENTRIES && IsRoot(node, r)
    requires At(t, f, i).present && (node[f].Root? || !At(t, f, i).huge)
    ensures Lookup(WithUser(t, f, i), r, y) == Lookup(t, r, y)
  {
    var e4 := At(t, r, y.i4);
    if e4.present {
      assert Link(t, node, kernel, r, y.i4);
      var e3 := At(t, e4.frame, y.i3);
      if e3.present && !e3.huge {
        assert Link(t, node, kernel, e4.frame, y.i3);
        var e2 := At(t, e3.frame, y.i2);
        if e2.present && !e2.huge {
          assert Link(t, node, kernel, e3.frame, y.i2);
        }
      }
    }
  }

  /** Copying the kernel root into a fresh frame: the new root maps what the kernel maps, through the
      same PDPTs, and no other root notices. */
  lemma CopyRoot(t: Tables, node: map<nat, Node>, kernel: nat, c: nat)
    requires Tree(t, node, kernel) && c !in node
    ensures
      var u := t[c := t[kernel]];
      var mode := node[c := Root];
      && Tree(u, mode, kernel) && SameView(t, node, u) && Evolves(t, node, u, mode)
      && (forall y :: Lookup(u, c, y) == Lookup(t, kernel, y))
      && (forall i :: Shares(u, c, kernel, i) <==> At(t, kernel, i).present)
  {
    var u := t[c := t[kernel]];
    var mode := node[c := Root];
    forall g, j ensures At(u, g, j) == if g == c then At(t, kernel, j) else At(t, g, j) {
    }
    forall g, j | g in mode && At(u, g, j).present ensures Link(u, mode, kernel, g, j) {
      assert Link(t, node, kernel, if g == c then kernel else g, j);
    }
    forall r, y | IsRoot(node, r) ensures Lookup(u, r, y) == Lookup(t, r, y) {
      CopyRootAt(t, node, kernel, c, r, y);
    }
    forall y ensures Lookup(u, c, y) == Lookup(t, kernel, y) {
      CopyRootAt(t, node, kernel, c, kernel, y);
    }
  }

  lemma CopyRootAt(t: Tables, node: map<nat, Node>, kernel: nat, c: nat, r: nat, y: Index)
    requires Tree(t, node, kernel) && c !in node && IsRoot(node, r)
    ensures Lookup(t[c := t[kernel]], r, y) == Lookup(t, r, y)
  {
    var e4 := At(t, r, y.i4);
    if e4.present {
      assert Link(t, node, kernel, r, y.i4);
      var e3 := At(t, e4.frame, y.i3);
      if e3.present && !e3.huge {
        assert Link(t, node, kernel, e4.frame, y.i3);
        var e2 := At(t, e3.frame, y.i2);
        if e2.present && !e2.huge {
          assert Link(t, node, kernel, e3.frame, y.i2);
        }
      }
    }
  }

  /** Whatever two roots share, they share with the kernel: a slot that a process root does not share
      with the kernel is its own. */
  lemma SharedWithKernel(t: Tables, node: map<nat, Node>, kernel: nat, root: nat, slot: nat, r: nat)
    requires Tree(t, node, kernel) && IsRoot(node, root) && IsRoot(node, r) && r != root && root != kernel
    requires Shares(t, r, root, slot)
    ensures Shares(t, root, kernel, slot)
  {
    assert Link(t, node, kernel, r, slot);
    assert Link(t, node, kernel, root, slot);
  }

  /** Everything the walker may change: the tables, their places, and the frames still free. */
  datatype Snapshot = Snapshot(tables: Tables, node: map<nat, Node>, kernel: nat, free: set<nat>)

  ghost predicate Sound(s: Snapshot) {
    Tree(s.tables, s.node, s.kernel) && s.node.Keys !! s.free
  }

  /** The entry is as before, or has been opened to user mode. */
  predicate Widens(e: PageEntry, g: PageEntry) {
    g == e || g == e.(user := true)
  }

  /** Present entries of the upper tables keep all their fields, but may be opened to user mode. */
  ghost predicate UppersKept(s: Snapshot, u: Snapshot) {
    forall f, i :: f in s.node && !s.node[f].Pt? && At(s.tables, f, i).present ==>
      f in u.node && u.node[f] == s.node[f] && Widens(At(s.tables, f, i), At(u.tables, f, i))
  }

  lemma UppersTransitive(s: Snapshot, u: Snapshot, v: Snapshot)
    requires UppersKept(s, u) && UppersKept(u, v)
    ensures UppersKept(s, v)
  {
    forall f, i | f in s.node && !s.node[f].Pt? && At(s.tables, f, i).present
      ensures f in v.node && v.node[f] == s.node[f] && Widens(At(s.tables, f, i), At(v.tables, f, i))
    {
      assert Widens(At(s.tables, f, i), At(u.tables, f, i));
      assert Widens(At(u.tables, f, i), At(v.tables, f, i));
    }
  }

  /** The walker only adds tables, taken from the free frames, and no address notices. */
  ghost predicate Grows(s: Snapshot, u: Snapshot) {
    && SameView(s.tables, s.node, u.tables) && Evolves(s.tables, s.node, u.tables, u.node)
    && u.kernel == s.kernel && (forall g :: g in s.node ==> g in u.node && u.node[g] == s.node[g])
    && u.free <= s.free && u.node.Keys == s.node.Keys + (s.free - u.free) && UppersKept(s, u)
  }

  lemma GrowsReflexive(s: Snapshot)
    ensures Grows(s, s)
  {
  }

  lemma GrowsTransitive(s: Snapshot, u: Snapshot, v: Snapshot)
    requires Grows(s, u) && Grows(u, v)
    ensures Grows(s, v)
  {
    EvolvesTransitive(s.tables, s.node, u.tables, u.node, v.tables, v.node);
    SameViewTransitive(s.tables, s.node, u.tables, u.node, v.tables);
  }

  /** The outcome of ensure_next_table at entry `i` of table `f`. */
  ghost predicate EnsureStep(s: Snapshot, u: Snapshot, f: nat, i: nat, create: bool, child: Option<nat>) {
    if At(s.tables, f, i).present then u == s && child == Some(At(s.tables, f, i).frame)
    else if !create || s.free == {} then u == s && child == None
    else
      && child.Some? && child.value in s.free && child.value !in s.tables && f in s.tables && i < |s.tables[f]|
      && f in s.node && !s.node[f].Pt?
      && u == Snapshot(Linked(s.tables, f, i, child.value), s.node[child.value := Child(s.node, f, i)],
                       s.kernel, s.free - {child.value})
  }

  /** One level down: the tables stay a tree, nothing is remapped, at most one frame is taken, and a
      success leaves the entry pointing to the child that now sits below it. */
  lemma EnsureStepKeeps(s: Snapshot, u: Snapshot, f: nat, i: nat, create: bool, child: Option<nat>)
    requires Sound(s) && f in s.node && !s.node[f].Pt? && i < ENTRIES
    requires At(s.tables, f, i).present ==> s.node[f].Root? || !At(s.tables, f, i).huge
    requires EnsureStep(s, u, f, i, create, child)
    ensures Sound(u) && Grows(s, u)
    ensures child.Some? ==>
      var e := At(u.tables, f, i);
      e.present && e.frame == child.value && child.value in u.node && (s.node[f].Root? || !e.huge)
    ensures child.Some? && !s.node[f].Root? ==> u.node[child.value] == Child(s.node, f, i)
    ensures child.Some? && s.node[f].Root? ==> u.node[child.value].Pdpt?
    ensures forall g, j :: g in s.node && (g != f || j != i) ==> At(u.tables, g, j) == At(s.tables, g, j)
    ensures child.Some? && !At(s.tables, f, i).present ==> forall j :: At(u.tables, child.value, j) == ZERO
    ensures |u.free| == |s.free| - if child.Some? && !At(s.tables, f, i).present then 1 else 0
  {
    hide Evolves, SameView, Lookup;
    if At(s.tables, f, i).present {
      assert Link(s.tables, s.node, s.kernel, f, i);
      GrowsReflexive(s);
    } else if child.None? {
      GrowsReflexive(s);
    } else {
      LinkFresh(s.tables, s.node, s.kernel, f, i, child.value);
      assert s.free - u.free == {child.value};
    }
  }
}
