/** The in-memory file tree (src/tree.rs) as a value: the node arena, the child lists,
    the path index, and the pure meaning of every operation that is not a crawl. */
module TreeModel {
  import opened Paths
  import opened Events
  import Pending

  // ------------------------------------------------------ the file system side

  /** What a path is in a fixed snapshot. `Special` is anything that is neither a
      regular file nor a directory. */
  datatype Stat =
    | Regular(mtime: int, size: nat, inode: nat)
    | Directory(mtime: int, size: nat, inode: nat)
    | Special

  type Snapshot = map<Path, Stat>

  datatype Metadata = Metadata(isDir: bool, mtime: int, size: nat, inode: nat)

  /** `Metadata::for_path` on a snapshot. */
  function ForPath(fs: Snapshot, p: Path): Option<Metadata> {
    if p !in fs then None
    else match fs[p]
      case Regular(m, s, i) => Some(Metadata(false, m, s, i))
      case Directory(m, s, i) => Some(Metadata(true, m, s, i))
      case Special => None
  }

  // --------------------------------------------------------------- the nodes

  datatype NodeMeta = Dir | File(mtime: int, size: nat) | Deleted

  function MetaOf(m: Metadata): NodeMeta {
    if m.isDir then Dir else File(m.mtime, m.size)
  }

  /** Only changes that involve a file are reported. */
  function ChangeType(old_: NodeMeta, new_: NodeMeta, skipCheck: bool): Option<EventType> {
    match (old_, new_)
    case (File(m, s), File(m', s')) => if !skipCheck && m == m' && s == s' then None else Some(Modified)
    case (_, File(_, _)) => Some(Create)
    case (File(_, _), _) => Some(Delete)
    case _ => None
  }

  /** How much below a node is watched. Recursive coverage includes the children bit. */
  datatype Coverage = Uncovered | ChildrenOnly | Recursive

  type NodeId = nat
  type DirId = nat

  datatype Node = Node(
    path: Path,
    meta: NodeMeta,
    inode: nat,
    maybeDeleted: bool,
    coverage: Coverage,
    children: Option<DirId>)

  datatype Tree = Tree(table: map<Path, NodeId>, nodes: seq<Node>, dirs: seq<seq<NodeId>>)

  const EMPTY := Tree(map[], [], [])

  // ------------------------------------------------------------ observations

  function Up(p: Path): Path {
    if p == [] then [] else p[..|p| - 1]
  }

  function Kids(t: Tree, id: NodeId): seq<NodeId> {
    if id < |t.nodes| && t.nodes[id].children.Some? && t.nodes[id].children.value < |t.dirs|
    then t.dirs[t.nodes[id].children.value] else []
  }

  predicate Known(t: Tree, p: Path) {
    p in t.table && t.table[p] < |t.nodes|
  }

  function Meta(t: Tree, p: Path): NodeMeta {
    if Known(t, p) then t.nodes[t.table[p]].meta else Deleted
  }

  predicate IsFile(t: Tree, p: Path) {
    Meta(t, p).File?
  }

  predicate HasList(t: Tree, p: Path) {
    Known(t, p) && t.nodes[t.table[p]].children.Some?
  }

  function CoverageOf(t: Tree, p: Path): Coverage {
    if Known(t, p) then t.nodes[t.table[p]].coverage else Uncovered
  }

  function Inode(t: Tree, p: Path): nat {
    if Known(t, p) then t.nodes[t.table[p]].inode else 0
  }

  /** The child list of the node at `p`. */
  function KidsAt(t: Tree, p: Path): seq<NodeId> {
    if p in t.table then Kids(t, t.table[p]) else []
  }

  /** `p` stands in the child list of its parent. */
  predicate Linked(t: Tree, p: Path) {
    Known(t, p) && Known(t, Up(p)) && t.table[p] in Kids(t, t.table[Up(p)])
  }

  // ------------------------------------------------------- the forest invariant

  /** The path index is a bijection with the nodes. */
  ghost predicate TableOk(t: Tree) {
    && (forall p :: p in t.table ==> p != [] && t.table[p] < |t.nodes| && t.nodes[t.table[p]].path == p)
    && (forall i :: 0 <= i < |t.nodes| ==> t.nodes[i].path in t.table && t.table[t.nodes[i].path] == i)
  }

  /** Directory ids are in range and no two nodes share one. */
  ghost predicate ListsOwned(t: Tree) {
    && (forall i :: 0 <= i < |t.nodes| && t.nodes[i].children.Some? ==> t.nodes[i].children.value < |t.dirs|)
    && (forall i, j :: 0 <= i < j < |t.nodes| && t.nodes[i].children.Some? ==>
        t.nodes[i].children != t.nodes[j].children)
  }

  /** Children come after their owner in the arena, so there are no cycles. */
  ghost predicate Descending(t: Tree) {
    forall i, k :: 0 <= i < |t.nodes| && 0 <= k < |Kids(t, i)| ==> i < Kids(t, i)[k] < |t.nodes|
  }

  /** A child's parent path is its owner's path, and no list has duplicates. */
  ghost predicate KidsBelow(t: Tree)
    requires Descending(t)
  {
    && (forall i, k :: 0 <= i < |t.nodes| && 0 <= k < |Kids(t, i)| ==>
        Up(t.nodes[Kids(t, i)[k]].path) == t.nodes[i].path)
    && (forall i, k, l :: 0 <= i < |t.nodes| && 0 <= k < l < |Kids(t, i)| ==> Kids(t, i)[k] != Kids(t, i)[l])
  }

  ghost predicate Forest(t: Tree) {
    TableOk(t) && ListsOwned(t) && Descending(t) && KidsBelow(t)
  }

  /** Across all child lists every node appears at most once. */
  lemma {:induction false} OneListEntry(t: Tree, i: NodeId, k: nat, j: NodeId, l: nat)
    requires Forest(t) && i < |t.nodes| && j < |t.nodes|
    requires k < |Kids(t, i)| && l < |Kids(t, j)| && Kids(t, i)[k] == Kids(t, j)[l]
    ensures i == j && k == l
  {
    assert t.nodes[i].path == t.nodes[j].path;
    assert t.table[t.nodes[i].path] == i && t.table[t.nodes[j].path] == j;
  }

  /** Two trees that differ only in what the nodes say, not in how they hang together. */
  ghost predicate SameShape(t: Tree, u: Tree) {
    && t.table == u.table && t.dirs == u.dirs && |t.nodes| == |u.nodes|
    && forall i :: 0 <= i < |t.nodes| ==>
       t.nodes[i].path == u.nodes[i].path && t.nodes[i].children == u.nodes[i].children
  }

  /** ... and that differ in nothing but node kinds. */
  ghost predicate SameButMeta(t: Tree, u: Tree) {
    && t.table == u.table && t.dirs == u.dirs && |t.nodes| == |u.nodes|
    && forall i :: 0 <= i < |t.nodes| ==> u.nodes[i] == t.nodes[i].(meta := u.nodes[i].meta)
  }

  lemma {:induction false} ShapeKeepsDescending(t: Tree, u: Tree)
    requires SameShape(t, u) && Descending(t)
    ensures Descending(u)
    ensures forall i {:trigger Kids(u, i)} :: 0 <= i < |t.nodes| ==> Kids(u, i) == Kids(t, i)
  {
    assert forall i :: 0 <= i < |t.nodes| ==> Kids(u, i) == Kids(t, i);
  }

  lemma {:induction false} ShapeKeepsForest(t: Tree, u: Tree)
    requires SameShape(t, u) && Forest(t)
    ensures Forest(u)
  {
    assert forall i :: 0 <= i < |t.nodes| ==> Kids(u, i) == Kids(t, i);
  }

  function SetNode(t: Tree, id: NodeId, n: Node): Tree
    requires id < |t.nodes|
  {
    t.(nodes := t.nodes[id := n])
  }

  function SetMeta(t: Tree, id: NodeId, m: NodeMeta): (r: Tree)
    requires id < |t.nodes|
    ensures SameButMeta(t, r)
    ensures Descending(t) ==> Descending(r)
  {
    assert Descending(t) ==> Descending(SetNode(t, id, t.nodes[id].(meta := m))) by {
      if Descending(t) { ShapeKeepsDescending(t, SetNode(t, id, t.nodes[id].(meta := m))); }
    }
    SetNode(t, id, t.nodes[id].(meta := m))
  }

  // ---------------------------------------------------------------- delete_rec

  datatype Cut = Cut(tree: Tree, events: seq<Event>)

  /** The recursive reading of the delete loop: handle the children of `id` from the
      `k`-th on in order, each file reported, each live directory entered before the
      next sibling. */
  function CutKids(t: Tree, id: NodeId, k: nat): (r: Cut)
    requires Descending(t) && id < |t.nodes| && k <= |Kids(t, id)|
    ensures SameButMeta(t, r.tree) && Descending(r.tree)
    decreases |t.nodes| - id, |Kids(t, id)| - k
  {
    if k == |Kids(t, id)| then Cut(SetMeta(t, id, Deleted), [])
    else
      var c := Kids(t, id)[k];
      var own := if t.nodes[c].meta.File? then [Event(t.nodes[c].path, Delete)] else [];
      var marked := SetMeta(t, c, Deleted);
      var below := if t.nodes[c].meta.Dir? && t.nodes[c].children.Some? then CutKids(marked, c, 0) else Cut(marked, []);
      var rest := CutKids(below.tree, id, k + 1);
      Cut(rest.tree, own + below.events + rest.events)
  }

  function DeleteRec(t: Tree, id: NodeId): (r: Cut)
    requires Descending(t) && id < |t.nodes|
    ensures SameButMeta(t, r.tree) && Descending(r.tree)
  {
    if t.nodes[id].children.None? then Cut(t, [])
    else CutKids(SetMeta(t, id, Deleted), id, 0)
  }

  // --------------------------------------------------------- growing the arena

  function ReserveDir(t: Tree, id: NodeId): Tree
    requires id < |t.nodes|
  {
    Tree(t.table, t.nodes[id := t.nodes[id].(children := Some(|t.dirs|))], t.dirs + [[]])
  }

  function AddChild(t: Tree, id: NodeId, child: NodeId): Tree
    requires id < |t.nodes|
    requires t.nodes[id].children.Some? ==> t.nodes[id].children.value < |t.dirs|
  {
    var u := if t.nodes[id].children.None? then ReserveDir(t, id) else t;
    var d := u.nodes[id].children.value;
    u.(dirs := u.dirs[d := u.dirs[d] + [child]])
  }

  function Push(t: Tree, n: Node): Tree {
    t.(nodes := t.nodes + [n])
  }

  /** Index entry, link from the parent if there is one, and node, for a new path. */
  function Grow(t: Tree, parent: Option<NodeId>, n: Node): Tree
    requires parent.Some? ==> parent.value < |t.nodes|
    requires parent.Some? && t.nodes[parent.value].children.Some? ==> t.nodes[parent.value].children.value < |t.dirs|
  {
    var indexed := t.(table := t.table[n.path := |t.nodes|]);
    Push(if parent.Some? then AddChild(indexed, parent.value, |t.nodes|) else indexed, n)
  }

  // -------------------------------------------------------------- apply_change

  datatype Applied = Applied(tree: Tree, node: Option<NodeId>, recurse: bool, events: seq<Event>)

  function Restat(t: Tree, id: NodeId, m: Metadata, change: Pending.PendingChange): Applied
    requires id < |t.nodes|
  {
    var n := t.nodes[id];
    var coverage := if change.flags.markRecursive then Recursive else n.coverage;
    var inodeChanged := m.inode != n.inode;
    var changed := ChangeType(n.meta, MetaOf(m), inodeChanged || change.flags.originWatcher);
    var recursive := change.flags.recursiveCrawl || change.flags.nonRecursiveCrawl || inodeChanged
        || changed == Some(Create);
    var u := SetNode(t, id, n.(coverage := coverage, inode := m.inode, meta := MetaOf(m)));
    var reserve := m.isDir && n.children.None? && m.size != 0 && coverage != Uncovered;
    Applied(if reserve then ReserveDir(u, id) else u, Some(id), recursive && coverage != Uncovered,
            if changed.Some? then [Event(change.path, changed.value)] else [])
  }

  function Vanish(t: Tree, id: NodeId, change: Pending.PendingChange): Applied
    requires Descending(t) && id < |t.nodes|
  {
    var n := t.nodes[id];
    var coverage := if change.flags.markRecursive then Recursive else n.coverage;
    var u := SetNode(t, id, n.(coverage := coverage, meta := Deleted));
    ShapeKeepsDescending(t, u);
    match n.meta
    case Dir => var cut := DeleteRec(u, id); Applied(cut.tree, Some(id), true, cut.events)
    case File(_, _) => Applied(u, Some(id), true, [Event(change.path, Delete)])
    case Deleted => Applied(u, Some(id), true, [])
  }

  function Discover(t: Tree, parent: NodeId, m: Metadata, change: Pending.PendingChange): Applied
    requires ListsOwned(t) && parent < |t.nodes|
  {
    var id := |t.nodes|;
    var recursive := change.flags.markRecursive || t.nodes[parent].coverage == Recursive;
    var n := Node(change.path, MetaOf(m), m.inode, false, if recursive then Recursive else Uncovered, None);
    var u := Grow(t, Some(parent), n);
    Applied(if m.isDir && recursive && m.size != 0 then ReserveDir(u, id) else u, Some(id), recursive,
            if m.isDir then [] else [Event(change.path, Create)])
  }

  /** One change applied against a snapshot. A path that is unknown and gone, or whose
      parent is unknown, leaves no trace. */
  function ApplyChange(t: Tree, fs: Snapshot, change: Pending.PendingChange): Applied
    requires Forest(t)
  {
    var m := ForPath(fs, change.path);
    if change.path in t.table then
      if m.Some? then Restat(t, t.table[change.path], m.value, change)
      else Vanish(t, t.table[change.path], change)
    else if m.None? || Up(change.path) !in t.table then Applied(t, None, true, [])
    else Discover(t, t.table[Up(change.path)], m.value, change)
  }

  // ----------------------------------------------------------------------- add

  datatype Added = Added(tree: Tree, node: Option<NodeId>)

  function Add(t: Tree, fs: Snapshot, path: Path, recursive: bool, root: bool): Added
    requires Forest(t)
  {
    if path in t.table then
      var id := t.table[path];
      if !recursive || (root && !t.nodes[id].meta.Dir?) || t.nodes[id].coverage == Recursive
      then Added(t, None)
      else Added(SetNode(t, id, t.nodes[id].(coverage := Recursive)), Some(id))
    else
      var stat := ForPath(fs, path);
      if stat.None? then Added(t, None)
      else
        var parent := if Up(path) in t.table then Some(t.table[Up(path)]) else None;
        if parent.None? && !root then Added(t, None)
        else
          var m := stat.value;
          var coverage := if recursive then Recursive else if root then ChildrenOnly else Uncovered;
          var n := Node(path, MetaOf(m), m.inode, false, coverage, None);
          var u := Grow(t, parent, n);
          Added(if m.isDir && (recursive || root) && m.size != 0 then ReserveDir(u, |t.nodes|) else u, Some(|t.nodes|))
  }

  // --------------------------------------------- the invariant is never broken

  lemma {:induction false} KidsKeepForest(t: Tree, u: Tree)
    requires Forest(t) && ListsOwned(u) && u.table == t.table && |u.nodes| == |t.nodes|
    requires forall i :: 0 <= i < |t.nodes| ==> Kids(u, i) == Kids(t, i) && u.nodes[i].path == t.nodes[i].path
    ensures Forest(u)
  {
  }

  lemma {:induction false} ReserveKeepsForest(t: Tree, id: NodeId)
    requires Forest(t) && id < |t.nodes| && t.nodes[id].children.None?
    ensures Forest(ReserveDir(t, id))
    ensures forall i :: 0 <= i < |t.nodes| ==> Kids(ReserveDir(t, id), i) == Kids(t, i)
  {
    var u := ReserveDir(t, id);
    assert u.dirs[|t.dirs|] == [];
    assert forall i :: 0 <= i < |t.nodes| && i != id ==> u.nodes[i] == t.nodes[i];
    assert forall i :: 0 <= i < |t.nodes| ==> Kids(u, i) == Kids(t, i) && u.nodes[i].path == t.nodes[i].path;
    KidsKeepForest(t, u);
  }

  lemma {:induction false} AddChildKids(t: Tree, id: NodeId, child: NodeId)
    requires ListsOwned(t) && id < |t.nodes|
    ensures ListsOwned(AddChild(t, id, child))
    ensures forall i :: 0 <= i < |t.nodes| ==>
              Kids(AddChild(t, id, child), i) == if i == id then Kids(t, id) + [child] else Kids(t, i)
    ensures |AddChild(t, id, child).nodes| == |t.nodes|
    ensures forall i :: 0 <= i < |t.nodes| ==>
              AddChild(t, id, child).nodes[i] == t.nodes[i].(children := AddChild(t, id, child).nodes[i].children)
  {
  }

  lemma {:induction false} GrowKids(t: Tree, parent: Option<NodeId>, n: Node)
    requires ListsOwned(t) && n.children.None?
    requires parent.Some? ==> parent.value < |t.nodes|
    ensures ListsOwned(Grow(t, parent, n))
    ensures |Grow(t, parent, n).nodes| == |t.nodes| + 1 && Grow(t, parent, n).nodes[|t.nodes|] == n
    ensures Kids(Grow(t, parent, n), |t.nodes|) == []
    ensures forall i :: 0 <= i < |t.nodes| ==>
              Kids(Grow(t, parent, n), i) == if Some(i) == parent then Kids(t, i) + [|t.nodes|] else Kids(t, i)
    ensures forall i :: 0 <= i < |t.nodes| ==>
              Grow(t, parent, n).nodes[i] == t.nodes[i].(children := Grow(t, parent, n).nodes[i].children)
  {
    var indexed := t.(table := t.table[n.path := |t.nodes|]);
    assert forall i :: 0 <= i < |t.nodes| ==> Kids(indexed, i) == Kids(t, i);
    if parent.Some? {
      AddChildKids(indexed, parent.value, |t.nodes|);
    }
    var linked := if parent.Some? then AddChild(indexed, parent.value, |t.nodes|) else indexed;
    hide AddChild, Kids, ListsOwned, Push;
    PushKids(linked, n);
  }

  lemma {:induction false} PushKids(t: Tree, n: Node)
    requires ListsOwned(t) && n.children.None?
    ensures ListsOwned(Push(t, n)) && Kids(Push(t, n), |t.nodes|) == []
    ensures |Push(t, n).nodes| == |t.nodes| + 1 && Push(t, n).nodes[|t.nodes|] == n
    ensures forall i :: 0 <= i < |t.nodes| ==> Push(t, n).nodes[i] == t.nodes[i] && Kids(Push(t, n), i) == Kids(t, i)
  {
    var u := Push(t, n);
    assert forall i :: 0 <= i < |t.nodes| ==> u.nodes[i] == t.nodes[i];
  }

  /** What is in the arena afterwards, leaving child lists aside; the same holds once the
      new node has a list of its own. */
  ghost predicate GrownBy(t: Tree, u: Tree, n: Node) {
    && u.table == t.table[n.path := |t.nodes|] && |u.nodes| == |t.nodes| + 1
    && u.nodes[|t.nodes|] == n.(children := u.nodes[|t.nodes|].children)
    && forall i :: 0 <= i < |t.nodes| ==> u.nodes[i] == t.nodes[i].(children := u.nodes[i].children)
  }

  lemma {:induction false} GrowIs(t: Tree, parent: Option<NodeId>, n: Node)
    requires ListsOwned(t) && (parent.Some? ==> parent.value < |t.nodes|)
    ensures GrownBy(t, Grow(t, parent, n), n) && GrownBy(t, ReserveDir(Grow(t, parent, n), |t.nodes|), n)
  {
    var indexed := t.(table := t.table[n.path := |t.nodes|]);
    var linked := if parent.Some? then AddChild(indexed, parent.value, |t.nodes|) else indexed;
    assert |linked.nodes| == |t.nodes| && linked.table == indexed.table;
    assert forall i :: 0 <= i < |t.nodes| ==> linked.nodes[i] == t.nodes[i].(children := linked.nodes[i].children);
    hide AddChild, ListsOwned;
  }

  lemma {:induction false} GrowKeepsForest(t: Tree, parent: Option<NodeId>, n: Node)
    requires Forest(t) && n.path != [] && n.path !in t.table && n.children.None?
    requires parent.Some? ==> parent.value < |t.nodes| && t.nodes[parent.value].path == Up(n.path)
    ensures Forest(Grow(t, parent, n))
  {
    GrowKids(t, parent, n);
    GrowKeepsTable(t, parent, n);
    LeafKeepsKids(t, Grow(t, parent, n), parent);
  }

  /** `u` is `t` with one more node at the end, a leaf, appended to its parent's list. */
  lemma {:induction false} LeafKeepsKids(t: Tree, u: Tree, parent: Option<NodeId>)
    requires Forest(t) && |u.nodes| == |t.nodes| + 1
    requires Kids(u, |t.nodes|) == []
    requires forall i :: 0 <= i < |t.nodes| ==> u.nodes[i].path == t.nodes[i].path
    requires forall i :: 0 <= i < |t.nodes| ==>
               Kids(u, i) == if Some(i) == parent then Kids(t, i) + [|t.nodes|] else Kids(t, i)
    requires parent.Some? ==> parent.value < |t.nodes| && t.nodes[parent.value].path == Up(u.nodes[|t.nodes|].path)
    ensures Descending(u) && KidsBelow(u)
  {
    hide TableOk, ListsOwned, Kids;
    forall i, k | 0 <= i < |u.nodes| && 0 <= k < |Kids(u, i)|
      ensures i < Kids(u, i)[k] < |u.nodes| && Up(u.nodes[Kids(u, i)[k]].path) == u.nodes[i].path
    {
      if k < |Kids(t, i)| { assert Kids(u, i)[k] == Kids(t, i)[k]; }
    }
    forall i, k, l | 0 <= i < |u.nodes| && 0 <= k < l < |Kids(u, i)|
      ensures Kids(u, i)[k] != Kids(u, i)[l]
    {
      assert Kids(u, i)[k] == Kids(t, i)[k] < |t.nodes|;
      if l < |Kids(t, i)| { assert Kids(u, i)[l] == Kids(t, i)[l]; }
    }
  }

  lemma {:induction false} GrowKeepsTable(t: Tree, parent: Option<NodeId>, n: Node)
    requires TableOk(t) && ListsOwned(t) && n.path != [] && n.path !in t.table && n.children.None?
    requires parent.Some? ==> parent.value < |t.nodes|
    ensures TableOk(Grow(t, parent, n))
    ensures Grow(t, parent, n).table == t.table[n.path := |t.nodes|]
  {
    GrowKids(t, parent, n);
    var u := Grow(t, parent, n);
    assert u.table == t.table[n.path := |t.nodes|];
    forall p | p in u.table
      ensures p != [] && u.table[p] < |u.nodes| && u.nodes[u.table[p]].path == p
    {
      if p != n.path { assert u.nodes[t.table[p]].path == p; }
    }
    forall i | 0 <= i < |u.nodes|
      ensures u.nodes[i].path in u.table && u.table[u.nodes[i].path] == i
    {
      if i < |t.nodes| { assert u.nodes[i].path == t.nodes[i].path != n.path; }
    }
  }

  lemma {:induction false} RestatKeepsForest(t: Tree, id: NodeId, m: Metadata, change: Pending.PendingChange)
    requires Forest(t) && id < |t.nodes|
    ensures Forest(Restat(t, id, m, change).tree)
  {
    var n := t.nodes[id];
    var coverage := if change.flags.markRecursive then Recursive else n.coverage;
    var u := SetNode(t, id, n.(coverage := coverage, inode := m.inode, meta := MetaOf(m)));
    ShapeKeepsForest(t, u);
    if n.children.None? { ReserveKeepsForest(u, id); }
  }

  lemma {:induction false} VanishKeepsForest(t: Tree, id: NodeId, change: Pending.PendingChange)
    requires Forest(t) && id < |t.nodes|
    ensures Forest(Vanish(t, id, change).tree)
  {
    var n := t.nodes[id];
    var coverage := if change.flags.markRecursive then Recursive else n.coverage;
    var u := SetNode(t, id, n.(coverage := coverage, meta := Deleted));
    ShapeKeepsForest(t, u);
    ShapeKeepsForest(u, DeleteRec(u, id).tree);
  }

  lemma {:induction false} DiscoverKeepsForest(t: Tree, parent: NodeId, m: Metadata, change: Pending.PendingChange)
    requires Forest(t) && parent < |t.nodes| && t.nodes[parent].path == Up(change.path)
    requires change.path != [] && change.path !in t.table
    ensures Forest(Discover(t, parent, m, change).tree)
  {
    var recursive := change.flags.markRecursive || t.nodes[parent].coverage == Recursive;
    var n := Node(change.path, MetaOf(m), m.inode, false, if recursive then Recursive else Uncovered, None);
    GrowKeepsForest(t, Some(parent), n);
    GrowKids(t, Some(parent), n);
    ReserveKeepsForest(Grow(t, Some(parent), n), |t.nodes|);
  }

  lemma {:induction false} ApplyKeepsForest(t: Tree, fs: Snapshot, change: Pending.PendingChange)
    requires Forest(t)
    ensures Forest(ApplyChange(t, fs, change).tree)
  {
    var m := ForPath(fs, change.path);
    var p := change.path;
    if p in t.table {
      if m.Some? {
        RestatKeepsForest(t, t.table[p], m.value, change);
      } else {
        VanishKeepsForest(t, t.table[p], change);
      }
    } else if m.Some? && Up(p) in t.table {
      DiscoverKeepsForest(t, t.table[Up(p)], m.value, change);
    }
  }

  lemma {:induction false} GrowThenReserve(t: Tree, parent: Option<NodeId>, n: Node)
    requires Forest(t) && n.path != [] && n.path !in t.table && n.children.None?
    requires parent.Some? ==> parent.value < |t.nodes| && t.nodes[parent.value].path == Up(n.path)
    ensures var u := Grow(t, parent, n); Forest(u) && |u.nodes| == |t.nodes| + 1 && Forest(ReserveDir(u, |t.nodes|))
  {
    GrowKeepsForest(t, parent, n);
    GrowKids(t, parent, n);
    hide Forest, Grow;
    ReserveKeepsForest(Grow(t, parent, n), |t.nodes|);
  }

  lemma {:induction false} AddKeepsForest(t: Tree, fs: Snapshot, path: Path, recursive: bool, root: bool)
    requires Forest(t) && path != []
    ensures Forest(Add(t, fs, path, recursive, root).tree)
  {
    hide Grow, ListsOwned, Descending, KidsBelow;
    if path in t.table {
      var id := t.table[path];
      ShapeKeepsForest(t, SetNode(t, id, t.nodes[id].(coverage := Recursive)));
    } else if ForPath(fs, path).Some? {
      var m := ForPath(fs, path).value;
      var parent := if Up(path) in t.table then Some(t.table[Up(path)]) else None;
      var coverage := if recursive then Recursive else if root then ChildrenOnly else Uncovered;
      GrowThenReserve(t, parent, Node(path, MetaOf(m), m.inode, false, coverage, None));
    }
  }

  lemma {:induction false} AddedInArena(t: Tree, fs: Snapshot, path: Path, recursive: bool, root: bool)
    requires Forest(t)
    ensures var r := Add(t, fs, path, recursive, root); r.node.Some? ==> r.node.value < |r.tree.nodes|
  {
    hide Grow, Forest;
    IndexInArena(t);
    if path !in t.table && ForPath(fs, path).Some? {
      var m := ForPath(fs, path).value;
      var parent := if Up(path) in t.table then Some(t.table[Up(path)]) else None;
      var coverage := if recursive then Recursive else if root then ChildrenOnly else Uncovered;
      GrownInArena(t, parent, Node(path, MetaOf(m), m.inode, false, coverage, None));
    }
  }

  lemma {:induction false} GrownInArena(t: Tree, parent: Option<NodeId>, n: Node)
    requires Forest(t) && n.children.None? && (parent.Some? ==> parent.value < |t.nodes|)
    ensures |Grow(t, parent, n).nodes| == |t.nodes| + 1
  {
    GrowKids(t, parent, n);
  }

  lemma {:induction false} IndexInArena(t: Tree)
    requires Forest(t)
    ensures forall p :: p in t.table ==> t.table[p] < |t.nodes|
  {
  }
}
