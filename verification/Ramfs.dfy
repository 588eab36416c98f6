/** kernel/src/fs/ramfs.c and the lookup of kernel/src/fs/vfs.c over linked nodes. */
module Ramfses {
  import opened Options
  import opened Paths
  import opened RamfsModel

  datatype Status = Success | EINVAL | ENOMEM | EEXIST | ENOENT | ENOTSUP

  /** `ramfs_node_t` with its vnode. */
  class RamfsNode {
    const name: string
    const kind: Kind
    const parent: RamfsNode?
    var children: seq<RamfsNode>

    constructor (name: string, kind: Kind, parent: RamfsNode?)
      ensures this.name == name && this.kind == kind && this.parent == parent && children == []
    {
      this.name, this.kind, this.parent, children := name, kind, parent, [];
    }
  }

  class Ramfs {
    const root: RamfsNode
    ghost var nodes: set<RamfsNode>

    /** The nodes as a value. */
    ghost function Shape(): Tree<RamfsNode>
      reads this, nodes
    {
      map n | n in nodes :: Entry(n.name, n.kind, if n.parent == null then None else Some(n.parent), n.children)
    }

    ghost predicate Valid()
      reads this, nodes
    {
      WellFormed(Shape(), root)
    }

    /** `ramfs_mount`: an empty root directory. */
    constructor ()
      ensures Valid() && Shape() == map[root := Entry("", Directory, None, [])] && fresh(root)
    {
      var r := new RamfsNode("", Directory, null);
      root, nodes := r, {r};
    }

    /** `ramfs_lookup` */
    method Lookup(dir: RamfsNode, name: string) returns (result: Option<RamfsNode>)
      requires Valid() && dir in nodes
      ensures result == RamfsModel.Lookup(Shape(), dir, name)
      ensures result.Some? ==> result.value in nodes
    {
      var i := 0;
      while i < |dir.children|
        invariant i <= |dir.children|
        invariant RamfsModel.Lookup(Shape(), dir, name) == Find(Shape(), dir.children[i..], name)
      {
        var child := dir.children[i];
        assert Hangs(Shape(), dir, Shape()[dir].children[i]);
        assert dir.children[i..][1..] == dir.children[i + 1..];
        if child.name == name {
          return Some(child);
        }
        i := i + 1;
      }
      return None;
    }

    /** `ramfs_mkdir`: in the new directory every name can be added next. */
    method Mkdir(dir: RamfsNode, name: string, granted: bool) returns (status: Status, ghost child: RamfsNode?)
      requires Valid() && dir in nodes && |name| <= VFS_MAX_COMPONENT_LEN - 1
      modifies this, dir`children
      ensures Valid() && (status != Success ==> Shape() == old(Shape()))
      ensures status == Success <==> granted && MayAdd(old(Shape()), dir, name)
      ensures status == Success ==> child != null && fresh(child) && child in nodes && child.kind == Directory
      ensures status == Success ==> Shape() == Added(old(Shape()), dir, child, name, Directory)
      ensures status == Success ==> forall inner :: MayAdd(Shape(), child, inner)
    {
      hide WellFormed, Added;
      status, child := Add(dir, name, Directory, granted);
      if status == Success {
        forall inner ensures MayAdd(Shape(), child, inner) {
          AddsInside(old(Shape()), dir, child, name, Directory, inner);
        }
        AddedNode(old(Shape()), dir, child, name, Directory);
      }
    }

    /** `ramfs_create`: nothing can be added below the new file. */
    method Create(dir: RamfsNode, name: string, granted: bool) returns (status: Status, ghost child: RamfsNode?)
      requires Valid() && dir in nodes && |name| <= VFS_MAX_COMPONENT_LEN - 1
      modifies this, dir`children
      ensures Valid() && (status != Success ==> Shape() == old(Shape()))
      ensures status == Success <==> granted && MayAdd(old(Shape()), dir, name)
      ensures status == Success ==> child != null && fresh(child) && child in nodes && child.kind == File
      ensures status == Success ==> Shape() == Added(old(Shape()), dir, child, name, File)
      ensures status == Success ==> forall inner :: !MayAdd(Shape(), child, inner)
    {
      hide WellFormed, Added;
      status, child := Add(dir, name, File, granted);
      if status == Success {
        forall inner ensures !MayAdd(Shape(), child, inner) {
          AddsInside(old(Shape()), dir, child, name, File, inner);
        }
        AddedNode(old(Shape()), dir, child, name, File);
      }
    }

    /** The common body of `ramfs_mkdir` and `ramfs_create`; `granted` is the heap's answer. */
    method Add(dir: RamfsNode, name: string, kind: Kind, granted: bool)
        returns (status: Status, ghost child: RamfsNode?)
      requires Valid() && dir in nodes && |name| <= VFS_MAX_COMPONENT_LEN - 1
      modifies this, dir`children
      ensures Valid()
      ensures status == (if dir.kind.File? then ENOTSUP else
                         if RamfsModel.Lookup(old(Shape()), dir, name).Some? then EEXIST else
                         if |old(dir.children)| >= 64 || !granted then ENOMEM else Success)
      ensures status != Success ==> Shape() == old(Shape())
      ensures status == Success ==> child != null && fresh(child) && MayAdd(old(Shape()), dir, name)
      ensures status == Success ==> Shape() == Added(old(Shape()), dir, child, name, kind)
      ensures status == Success ==>
        && child.kind == kind && child.name == name && child.parent == dir && child.children == []
        && dir.children == old(dir.children) + [child]
    {
      hide WellFormed, RamfsModel.Lookup;
      child := null;
      if dir.kind.File? {
        return ENOTSUP, null;
      }
      var existing := Lookup(dir, name);
      if existing.Some? {
        return EEXIST, null;
      }
      if |dir.children| >= RAMFS_MAX_CHILDREN {
        return ENOMEM, null;
      }
      if !granted {
        return ENOMEM, null;
      }
      var node := new RamfsNode(name, kind, dir);
      AddedWellFormed(Shape(), root, dir, node, name, kind);
      dir.children := dir.children + [node];
      nodes := nodes + {node};
      assert Shape() == Added(old(Shape()), dir, node, name, kind);
      return Success, node;
    }
  }

  lemma OnlySlash()
    ensures Split("/") == []
  {
  }

  lemma RootNode(fs: Ramfs)
    requires fs.Valid()
    ensures fs.root in fs.nodes
  {
  }

  /** `vfs_lookup`; the file system is null before anything is mounted at the root. */
  method VfsLookup(fs: Ramfs?, path: string) returns (status: Status, result: RamfsNode?)
    requires fs != null ==> fs.Valid()
    ensures status == Success || status == EINVAL || status == ENOENT
    ensures status == Success <==> result != null
    ensures fs == null ==> status == ENOENT
    ensures fs != null ==> match PathLookup(fs.Shape(), fs.root, path)
                           case Found(n) => status == Success && result == n
                           case NoEntry => status == ENOENT
                           case Invalid => status == EINVAL
  {
    hide Split, RamfsModel.Lookup, WellFormed;
    if fs == null {
      return ENOENT, null;
    }
    RootNode(fs);
    if path == "/" {
      OnlySlash();
      return Success, fs.root;
    }
    var current: RamfsNode := fs.root;
    var cursor := 0;
    assert path[0..] == path;
    while true
      invariant cursor <= |path| && current in fs.nodes
      invariant PathLookup(fs.Shape(), fs.root, path) == Walk(fs.Shape(), current, Split(path[cursor..]))
      decreases |path| - cursor
    {
      var rc := NextComponent(path, cursor);
      if rc.End? {
        break;
      }
      if rc.TooLong? {
        return EINVAL, null;
      }
      var next := fs.Lookup(current, rc.name);
      if next.None? {
        return ENOENT, null;
      }
      current := next.value;
      cursor := rc.next;
    }
    return Success, current;
  }
}
