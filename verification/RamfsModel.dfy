/** The directory tree behind kernel/src/fs/ramfs.c as a value: what a path means, and what adding a node
    does to the meaning of every path. */
module RamfsModel {
  import opened Options
  import opened Paths

  datatype Kind = Directory | File

  datatype Entry<T> = Entry(name: string, kind: Kind, parent: Option<T>, children: seq<T>)

  type Tree<T> = map<T, Entry<T>>

  const RAMFS_MAX_CHILDREN: nat := 64

  /** The first child with this name: one directory lookup. */
  function Find<T>(t: Tree<T>, children: seq<T>, name: string): Option<T> {
    if children == [] then None
    else if children[0] in t && t[children[0]].name == name then Some(children[0])
    else Find(t, children[1..], name)
  }

  function Lookup<T>(t: Tree<T>, dir: T, name: string): Option<T> {
    if dir in t then Find(t, t[dir].children, name) else None
  }

  /** The fold of directory lookup over the components. */
  function Resolve<T>(t: Tree<T>, dir: T, components: seq<string>): Option<T> {
    if components == [] then Some(dir) else
    match Lookup(t, dir, components[0])
    case None => None
    case Some(child) => Resolve(t, child, components[1..])
  }

  datatype Outcome<T> = Found(node: T) | NoEntry | Invalid

  /** The walk of vfs_lookup: a component is measured when it is reached, before it is looked up. */
  function Walk<T>(t: Tree<T>, dir: T, components: seq<string>): Outcome<T> {
    if components == [] then Found(dir)
    else if |components[0]| > VFS_MAX_COMPONENT_LEN - 1 then Invalid
    else
      match Lookup(t, dir, components[0])
      case None => NoEntry
      case Some(child) => Walk(t, child, components[1..])
  }

  predicate Short(components: seq<string>) {
    forall c :: c in components ==> |c| <= VFS_MAX_COMPONENT_LEN - 1
  }

  function Fold<T>(r: Option<T>): Outcome<T> {
    match r case None => NoEntry case Some(n) => Found(n)
  }

  /** Without over-long components, vfs_lookup is exactly the fold. */
  lemma {:induction false} WalkIsFold<T>(t: Tree<T>, dir: T, components: seq<string>)
    requires Short(components)
    ensures Walk(t, dir, components) == Fold(Resolve(t, dir, components))
  {
    if components != [] && Lookup(t, dir, components[0]).Some? {
      WalkIsFold(t, Lookup(t, dir, components[0]).value, components[1..]);
    }
  }

  /** With one, the components before it decide: EINVAL if they resolve, and ENOENT if they do not. */
  lemma {:induction false} WalkTooLong<T>(t: Tree<T>, dir: T, components: seq<string>, k: nat)
    requires k < |components| && Short(components[..k]) && |components[k]| > VFS_MAX_COMPONENT_LEN - 1
    ensures Walk(t, dir, components) == if Resolve(t, dir, components[..k]).Some? then Invalid else NoEntry
  {
    if k > 0 {
      assert components[0] == components[..k][0] && components[0] in components[..k];
      assert components[1..][..k - 1] == components[..k][1..];
      if Lookup(t, dir, components[0]).Some? {
        assert forall c :: c in components[1..][..k - 1] ==> c in components[..k];
        WalkTooLong(t, Lookup(t, dir, components[0]).value, components[1..], k - 1);
      }
    }
  }

  lemma {:induction false} ResolveLast<T>(t: Tree<T>, dir: T, components: seq<string>, name: string)
    ensures Resolve(t, dir, components + [name]) ==
      match Resolve(t, dir, components) case None => None case Some(n) => Lookup(t, n, name)
  {
    var all := components + [name];
    if components == [] {
      assert all[1..] == [];
    } else {
      assert all[1..] == components[1..] + [name];
      if Lookup(t, dir, components[0]).Some? {
        ResolveLast(t, Lookup(t, dir, components[0]).value, components[1..], name);
      }
    }
  }

  /** What every ramfs call keeps: children point back to their parent, names within a directory differ,
      files have no children, and no directory exceeds its array. */
  ghost predicate WellFormed<T>(t: Tree<T>, root: T) {
    && root in t && t[root].parent == None && t[root].kind.Directory?
    && (forall d, i :: d in t && 0 <= i < |t[d].children| ==> Hangs(t, d, t[d].children[i]))
    && (forall d, i, j :: d in t && 0 <= i < j < |t[d].children| ==>
        NameOf(t, t[d].children[i]) != NameOf(t, t[d].children[j]))
    && (forall d :: d in t ==> |t[d].children| <= RAMFS_MAX_CHILDREN)
    && (forall d :: d in t && t[d].kind.File? ==> t[d].children == [])
  }

  predicate Hangs<T(==)>(t: Tree<T>, d: T, c: T) {
    c in t && t[c].parent == Some(d)
  }

  function NameOf<T>(t: Tree<T>, n: T): string {
    if n in t then t[n].name else ""
  }

  lemma {:induction false} FindIsChild<T>(t: Tree<T>, children: seq<T>, name: string)
    ensures match Find(t, children, name)
            case None => forall c :: c in children && c in t ==> t[c].name != name
            case Some(c) => c in children && c in t && t[c].name == name
  {
    if children != [] {
      FindIsChild(t, children[1..], name);
    }
  }

  /** A node has at most one path: no node is reachable under two spellings of components. */
  lemma {:induction false} PathUnique<T>(t: Tree<T>, root: T, a: seq<string>, b: seq<string>)
    requires WellFormed(t, root) && Resolve(t, root, a).Some? && Resolve(t, root, a) == Resolve(t, root, b)
    ensures a == b
    decreases |a| + |b|
  {
    if a != [] {
      LastStep(t, root, a);
    }
    if b != [] {
      LastStep(t, root, b);
    }
    if a != [] && b != [] {
      PathUnique(t, root, a[..|a| - 1], b[..|b| - 1]);
      assert a == a[..|a| - 1] + [a[|a| - 1]];
      assert b == b[..|b| - 1] + [b[|b| - 1]];
    }
  }

  lemma LastStep<T>(t: Tree<T>, root: T, a: seq<string>)
    requires WellFormed(t, root) && a != [] && Resolve(t, root, a).Some?
    ensures var n := Resolve(t, root, a).value;
            n in t && t[n].parent == Resolve(t, root, a[..|a| - 1]) && t[n].parent.Some? && t[n].name == a[|a| - 1]
  {
    var up, last := a[..|a| - 1], a[|a| - 1];
    assert a == up + [last];
    ResolveLast(t, root, up, last);
    var d := Resolve(t, root, up).value;
    FindIsChild(t, t[d].children, last);
    var n := Resolve(t, root, a).value;
    var i :| 0 <= i < |t[d].children| && t[d].children[i] == n;
    assert Hangs(t, d, t[d].children[i]);
  }

  /** The tree after ramfs_mkdir or ramfs_create has appended `child` to `dir`. */
  function Added<T(==)>(t: Tree<T>, dir: T, child: T, name: string, kind: Kind): Tree<T>
    requires dir in t
  {
    t[child := Entry(name, kind, Some(dir), [])][dir := t[dir].(children := t[dir].children + [child])]
  }

  /** The checks that mkdir and create make before they add. */
  ghost predicate MayAdd<T>(t: Tree<T>, dir: T, name: string) {
    dir in t && t[dir].kind.Directory? && Lookup(t, dir, name) == None && |t[dir].children| < RAMFS_MAX_CHILDREN
  }

  /** The new node is what was asked for, empty and below the directory, which has it as its last child; no
      other node changes. */
  lemma AddedNode<T>(t: Tree<T>, dir: T, child: T, name: string, kind: Kind)
    requires dir in t && child !in t
    ensures var u := Added(t, dir, child, name, kind);
            && u.Keys == t.Keys + {child} && u[child] == Entry(name, kind, Some(dir), [])
            && u[dir].children == t[dir].children + [child]
            && u[dir].name == t[dir].name && u[dir].kind == t[dir].kind && u[dir].parent == t[dir].parent
            && forall n :: n in t && n != dir ==> u[n] == t[n]
  {
  }

  /** In a new directory every name can be added next; below a new file none can. */
  lemma AddsInside<T>(t: Tree<T>, dir: T, child: T, name: string, kind: Kind, inner: string)
    requires dir in t && child !in t
    ensures MayAdd(Added(t, dir, child, name, kind), child, inner) <==> kind == Directory
  {
  }

  lemma AddedWellFormed<T>(t: Tree<T>, root: T, dir: T, child: T, name: string, kind: Kind)
    requires WellFormed(t, root) && MayAdd(t, dir, name) && child !in t
    ensures WellFormed(Added(t, dir, child, name, kind), root)
  {
    var u := Added(t, dir, child, name, kind);
    FindIsChild(t, t[dir].children, name);
    forall d, i | d in u && 0 <= i < |u[d].children| ensures Hangs(u, d, u[d].children[i]) {
      if d in t && i < |t[d].children| {
        assert Hangs(t, d, t[d].children[i]);
      }
    }
    forall d, i, j | d in u && 0 <= i < j < |u[d].children|
        ensures NameOf(u, u[d].children[i]) != NameOf(u, u[d].children[j]) {
      assert Hangs(t, d, t[d].children[i]);
      if j < |t[d].children| {
        assert Hangs(t, d, t[d].children[j]);
        assert NameOf(t, t[d].children[i]) != NameOf(t, t[d].children[j]);
      }
    }
  }

  /** Searching a list of old nodes finds the same in the old tree and the new. */
  lemma {:induction false} FindOld<T>(t: Tree<T>, dir: T, child: T, name: string, kind: Kind, list: seq<T>,
      wanted: string)
    requires dir in t && child !in t && forall c :: c in list ==> c in t
    ensures Find(Added(t, dir, child, name, kind), list, wanted) == Find(t, list, wanted)
  {
    if list != [] {
      FindOld(t, dir, child, name, kind, list[1..], wanted);
    }
  }

  lemma {:induction false} FindAppend<T>(t: Tree<T>, list: seq<T>, child: T, wanted: string)
    ensures Find(t, list + [child], wanted) ==
      if Find(t, list, wanted).Some? then Find(t, list, wanted)
      else if child in t && t[child].name == wanted then Some(child) else None
  {
    if list != [] {
      assert (list + [child])[1..] == list[1..] + [child];
      FindAppend(t, list[1..], child, wanted);
    }
  }

  lemma LookupAdded<T>(t: Tree<T>, root: T, dir: T, child: T, name: string, kind: Kind, d: T, wanted: string)
    requires WellFormed(t, root) && MayAdd(t, dir, name) && child !in t && d in t
    ensures Lookup(Added(t, dir, child, name, kind), d, wanted) ==
      if d == dir && wanted == name then Some(child) else Lookup(t, d, wanted)
  {
    var u := Added(t, dir, child, name, kind);
    forall c | c in t[d].children ensures c in t {
      var i :| 0 <= i < |t[d].children| && t[d].children[i] == c;
      assert Hangs(t, d, t[d].children[i]);
    }
    FindOld(t, dir, child, name, kind, t[d].children, wanted);
    if d == dir {
      FindAppend(u, t[d].children, child, wanted);
      FindIsChild(t, t[dir].children, name);
    }
  }

  /** `components` spells a path of `dir` followed by `name`. */
  predicate Spells<T(==)>(t: Tree<T>, root: T, dir: T, name: string, components: seq<string>) {
    && components != [] && components[|components| - 1] == name
    && Resolve(t, root, components[..|components| - 1]) == Some(dir)
  }

  /** Adding a node changes the meaning of exactly the component lists that spell the directory followed
      by the name; those had no meaning before. */
  lemma {:induction false} ResolveAdded<T>(t: Tree<T>, root: T, dir: T, child: T, name: string, kind: Kind, from: T,
      a: seq<string>)
    requires WellFormed(t, root) && MayAdd(t, dir, name) && child !in t && from in t
    ensures Resolve(Added(t, dir, child, name, kind), from, a) ==
      if Spells(t, from, dir, name, a) then Some(child) else Resolve(t, from, a)
    ensures Spells(t, from, dir, name, a) ==> Resolve(t, from, a) == None
    decreases |a|
  {
    var u := Added(t, dir, child, name, kind);
    if a != [] {
      LookupAdded(t, root, dir, child, name, kind, from, a[0]);
      var last := |a| - 1;
      assert last > 0 ==> a[..last][1..] == a[1..][..last - 1] && a[..last][0] == a[0];
      if from == dir && a[0] == name {
        NoChildren(u, child, a[1..]);
        assert |a| == 1 ==> a[..last] == [];
      } else if Lookup(t, from, a[0]).Some? {
        FindIsChild(t, t[from].children, a[0]);
        ResolveAdded(t, root, dir, child, name, kind, Lookup(t, from, a[0]).value, a[1..]);
      }
    }
  }

  lemma NoChildren<T>(t: Tree<T>, n: T, a: seq<string>)
    requires n in t && t[n].children == []
    ensures Resolve(t, n, a) == if a == [] then Some(n) else None
  {
  }

  /** What a path string means: vfs_lookup from `root`. */
  function PathLookup<T>(t: Tree<T>, root: T, path: string): Outcome<T> {
    Walk(t, root, Split(path))
  }

  /** The path goes through `prefix` to a component that is too long. */
  predicate GoesTooLong(components: seq<string>, prefix: seq<string>) {
    |prefix| < |components| && components[..|prefix|] == prefix && |components[|prefix|]| > VFS_MAX_COMPONENT_LEN - 1
  }

  /** The theorem in terms of paths: once `parent` names the directory, adding `name` there makes exactly
      the paths that split into the components of `parent` and then `name` find the new node. No other
      path finds anything else than before; the only other change is that a path which goes on through
      the new node to an over-long component is now refused for that component, not for the missing one. */
  lemma PathAdded<T>(t: Tree<T>, root: T, dir: T, child: T, name: string, kind: Kind, parent: string, path: string)
    requires WellFormed(t, root) && MayAdd(t, dir, name) && child !in t && |name| <= VFS_MAX_COMPONENT_LEN - 1
    requires PathLookup(t, root, parent) == Found(dir)
    ensures PathLookup(Added(t, dir, child, name, kind), root, path) ==
      if Split(path) == Split(parent) + [name] then Found(child)
      else if GoesTooLong(Split(path), Split(parent) + [name]) then Invalid
      else PathLookup(t, root, path)
    ensures Split(path) == Split(parent) + [name] || GoesTooLong(Split(path), Split(parent) + [name]) ==>
      PathLookup(t, root, path) == NoEntry
  {
    hide Split, WellFormed, Added;
    var u := Added(t, dir, child, name, kind);
    var a, q := Split(path), Split(parent) + [name];
    WalkFound(t, root, Split(parent));
    RootIn(t, root);
    if Short(a) {
      WalkIsFold(t, root, a);
      WalkIsFold(u, root, a);
      ResolveAdded(t, root, dir, child, name, kind, root, a);
      SpellsOnce(t, root, dir, name, Split(parent), a);
      assert |q| < |a| ==> a[|q|] in a;
    } else {
      var k := FirstLong(a);
      WalkTooLong(t, root, a, k);
      WalkTooLong(u, root, a, k);
      ResolveAdded(t, root, dir, child, name, kind, root, a[..k]);
      SpellsOnce(t, root, dir, name, Split(parent), a[..k]);
      assert Short(q);
      ShortPrefix(a, q, k);
    }
  }

  /** mkdir and then create inside it: the path of the directory finds the directory, and the path of the file
      the file, which were not there before. */
  lemma MkdirThenCreate<T>(t: Tree<T>, root: T, dir: T, sub: T, file: T, name: string, inner: string,
                           parent: string, path: string, deeper: string)
    requires WellFormed(t, root) && MayAdd(t, dir, name) && sub !in t && file !in t && sub != file
    requires |name| <= VFS_MAX_COMPONENT_LEN - 1 && |inner| <= VFS_MAX_COMPONENT_LEN - 1
    requires PathLookup(t, root, parent) == Found(dir)
    requires Split(path) == Split(parent) + [name] && Split(deeper) == Split(path) + [inner]
    ensures PathLookup(t, root, path) == NoEntry && PathLookup(t, root, deeper) == NoEntry
    ensures var u := Added(t, dir, sub, name, Directory);
            && MayAdd(u, sub, inner) && WellFormed(u, root)
            && var v := Added(u, sub, file, inner, File);
               PathLookup(v, root, path) == Found(sub) && PathLookup(v, root, deeper) == Found(file)
  {
    hide Split, WellFormed, Added, MayAdd, PathLookup;
    MayAddIn(t, dir, name);
    var u := Added(t, dir, sub, name, Directory);
    AddedNode(t, dir, sub, name, Directory);
    AddedWellFormed(t, root, dir, sub, name, Directory);
    AddsInside(t, dir, sub, name, Directory, inner);
    PathAdded(t, root, dir, sub, name, Directory, parent, path);
    PathAdded(t, root, dir, sub, name, Directory, parent, deeper);
    PathAdded(u, root, sub, file, inner, File, path, path);
    PathAdded(u, root, sub, file, inner, File, path, deeper);
  }

  lemma MayAddIn<T>(t: Tree<T>, dir: T, name: string)
    requires MayAdd(t, dir, name)
    ensures dir in t
  {
  }

  lemma RootIn<T>(t: Tree<T>, root: T)
    requires WellFormed(t, root)
    ensures root in t
  {
  }

  /** A walk that finds a node had no over-long component. */
  lemma {:induction false} WalkFound<T>(t: Tree<T>, dir: T, a: seq<string>)
    requires Walk(t, dir, a).Found?
    ensures Short(a) && Resolve(t, dir, a) == Some(Walk(t, dir, a).node)
  {
    if a != [] {
      WalkFound(t, Lookup(t, dir, a[0]).value, a[1..]);
      assert forall c :: c in a ==> c == a[0] || c in a[1..];
    }
  }

  lemma SpellsOnce<T>(t: Tree<T>, root: T, dir: T, name: string, path: seq<string>, a: seq<string>)
    requires WellFormed(t, root) && Resolve(t, root, path) == Some(dir)
    ensures Spells(t, root, dir, name, a) <==> a == path + [name]
  {
    if Spells(t, root, dir, name, a) {
      PathUnique(t, root, path, a[..|a| - 1]);
      assert a == a[..|a| - 1] + [a[|a| - 1]];
    }
  }

  lemma {:induction false} FirstLong(a: seq<string>) returns (k: nat)
    requires !Short(a)
    ensures k < |a| && Short(a[..k]) && |a[k]| > VFS_MAX_COMPONENT_LEN - 1
  {
    k := 0;
    while |a[k]| <= VFS_MAX_COMPONENT_LEN - 1
      invariant k < |a| && Short(a[..k]) && !Short(a[k..])
      decreases |a| - k
    {
      assert forall c :: c in a[..k + 1] ==> c in a[..k] || c == a[k];
      assert forall c :: c in a[k..] ==> c == a[k] || c in a[k + 1..];
      k := k + 1;
    }
  }

  lemma ShortPrefix(a: seq<string>, q: seq<string>, k: nat)
    requires k < |a| && Short(a[..k]) && |a[k]| > VFS_MAX_COMPONENT_LEN - 1 && Short(q)
    ensures GoesTooLong(a, q) <==> a[..k] == q
    ensures a != q
  {
    assert k < |q| ==> q[k] in q;
    assert |q| < k ==> a[|q|] == a[..k][|q|] && a[|q|] in a[..k];
    assert k < |q| <= |a| ==> a[..|q|][k] == a[k];
  }

  /** Adding a node can change the answer for a path that does not spell it. */
  lemma RefusalChanges()
    ensures var t: Tree<nat> := map[0 := Entry("", Directory, None, [])];
            var path := "/a/" + seq(64, _ => 'x');
            && WellFormed(t, 0) && MayAdd(t, 0, "a") && Split(path) != ["a"]
            && PathLookup(t, 0, path) == NoEntry && PathLookup(Added(t, 0, 1, "a", File), 0, path) == Invalid
  {
    hide Split, Join, Added, Walk;
    var t: Tree<nat> := map[0 := Entry("", Directory, None, [])];
    var long := seq(64, _ => 'x');
    TwoComponents("a", long);
    EmptyPath(t, 0);
    assert GoesTooLong(["a", long], [] + ["a"]);
    assert "/" + "a" + "/" + long == "/a/" + long;
    PathAdded(t, 0, 0, 1, "a", File, "", "/a/" + long);
  }

  lemma TwoComponents(a: string, b: string)
    requires IsComponent(a) && IsComponent(b)
    ensures Split("/" + a + "/" + b) == [a, b]
  {
    SplitJoin([a, b]);
    assert [a, b][1..] == [b] && [b][1..] == [];
    assert Join([b]) == "/" + b;
    assert Join([a, b]) == "/" + a + Join([b]);
    assert "/" + a + ("/" + b) == "/" + a + "/" + b;
  }

  lemma EmptyPath<T>(t: Tree<T>, root: T)
    ensures Split("") == [] && PathLookup(t, root, "") == Found(root)
  {
  }
}
