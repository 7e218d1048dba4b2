/** What adding a path or a root (src/tree.rs, `add`) comes to, for every tree. */
module Adding {
  import opened Paths
  import opened Events
  import opened TreeModel

  // ------------------------------------------------------------- what stays as it is

  /** A known node, as far as it says anything itself: its child list aside. */
  function Says(n: Node): Node {
    n.(children := None)
  }

  /** What is put at the end of the child list of `q` when `p` is added. */
  function Gained(t: Tree, p: Path, q: Path): seq<NodeId> {
    if q == Up(p) && p !in t.table && q in t.table then [|t.nodes|] else []
  }

  /** At `q`, `u` is what `t` is, but for the end of its child list. */
  ghost predicate StaysAt(t: Tree, u: Tree, p: Path, q: Path) {
    && (q in u.table <==> q in t.table)
    && (Known(t, q) ==> Known(u, q) && u.table[q] == t.table[q]
                        && Says(u.nodes[u.table[q]]) == Says(t.nodes[t.table[q]]))
    && KidsAt(u, q) == KidsAt(t, q) + Gained(t, p, q)
    && (HasList(u, q) <==> HasList(t, q) || Gained(t, p, q) != [])
  }

  /** At every path but `p` nothing changes; a new node is put at the end of the list of its
      parent, if that is known. */
  ghost predicate RestStays(t: Tree, u: Tree, p: Path) {
    forall q :: q != p ==> StaysAt(t, u, p, q)
  }

  // ----------------------------------------------------------------------- a new node

  /** `u` has one more node than `t`, with these fields and, if asked for, an empty list. */
  ghost predicate NewAt(t: Tree, u: Tree, n: Node, list: bool) {
    && n.path in u.table && u.table[n.path] == |t.nodes| && |u.nodes| == |t.nodes| + 1
    && Says(u.nodes[|t.nodes|]) == Says(n)
    && (u.nodes[|t.nodes|].children.Some? <==> list) && Kids(u, |t.nodes|) == []
    && (Linked(u, n.path) <==> Up(n.path) in t.table)
    && RestStays(t, u, n.path)
  }

  /** Node by node: table, nodes and lists once `n` is there. */
  ghost predicate Extends(t: Tree, u: Tree, parent: Option<NodeId>, n: Node, list: bool) {
    && u.table == t.table[n.path := |t.nodes|] && |u.nodes| == |t.nodes| + 1
    && Says(u.nodes[|t.nodes|]) == Says(n)
    && (u.nodes[|t.nodes|].children.Some? <==> list) && Kids(u, |t.nodes|) == []
    && forall i :: 0 <= i < |t.nodes| ==> NodeKeeps(t, u, parent, i)
  }

  ghost predicate NodeKeeps(t: Tree, u: Tree, parent: Option<NodeId>, i: NodeId)
    requires i < |t.nodes| && i < |u.nodes|
  {
    && Says(u.nodes[i]) == Says(t.nodes[i])
    && Kids(u, i) == Kids(t, i) + (if Some(i) == parent then [|t.nodes|] else [])
    && (u.nodes[i].children.Some? <==> t.nodes[i].children.Some? || Some(i) == parent)
  }

  lemma {:induction false} GrownExtends(t: Tree, parent: Option<NodeId>, n: Node)
    requires Forest(t) && n.children.None? && (parent.Some? ==> parent.value < |t.nodes|)
    ensures Extends(t, Grow(t, parent, n), parent, n, false)
  {
    hide TableOk, Descending, KidsBelow, Kids, Grow;
    GrowKids(t, parent, n);
    GrowIs(t, parent, n);
    GrownLists(t, parent, n);
    hide Forest;
    GrownParts(t, Grow(t, parent, n), parent, n);
  }

  lemma {:induction false} GrownParts(t: Tree, u: Tree, parent: Option<NodeId>, n: Node)
    requires GrownBy(t, u, n) && n.children.None? && u.nodes[|t.nodes|] == n && Kids(u, |t.nodes|) == []
    requires forall i :: 0 <= i < |t.nodes| ==>
               Kids(u, i) == if Some(i) == parent then Kids(t, i) + [|t.nodes|] else Kids(t, i)
    requires forall i :: 0 <= i < |t.nodes| ==>
               (u.nodes[i].children.Some? <==> t.nodes[i].children.Some? || Some(i) == parent)
    ensures Extends(t, u, parent, n, false)
  {
    hide Kids;
    forall i | 0 <= i < |t.nodes|
      ensures NodeKeeps(t, u, parent, i)
    {
      assert Kids(t, i) + [] == Kids(t, i);
    }
  }

  /** Only the parent can get a list by this. */
  lemma {:induction false} GrownLists(t: Tree, parent: Option<NodeId>, n: Node)
    requires ListsOwned(t) && (parent.Some? ==> parent.value < |t.nodes|)
    ensures var u := Grow(t, parent, n);
            |u.nodes| == |t.nodes| + 1
            && forall i :: 0 <= i < |t.nodes| ==>
                 (u.nodes[i].children.Some? <==> t.nodes[i].children.Some? || Some(i) == parent)
  {
  }

  /** A list for the new node changes nothing else. */
  lemma {:induction false} ReservedExtends(t: Tree, u: Tree, parent: Option<NodeId>, n: Node)
    requires Forest(u) && Extends(t, u, parent, n, false)
    ensures Extends(t, ReserveDir(u, |t.nodes|), parent, n, true)
  {
    var w := ReserveDir(u, |t.nodes|);
    ReserveKeepsForest(u, |t.nodes|);
    assert w.table == u.table && |w.nodes| == |u.nodes| && Says(w.nodes[|t.nodes|]) == Says(u.nodes[|t.nodes|]);
    assert w.nodes[|t.nodes|].children.Some?;
    assert forall i :: 0 <= i < |t.nodes| ==> w.nodes[i] == u.nodes[i];
    hide Forest, Kids, ReserveDir;
    forall i | 0 <= i < |t.nodes|
      ensures NodeKeeps(t, w, parent, i)
    {
      assert NodeKeeps(t, u, parent, i);
    }
  }

  lemma {:induction false} ExtendsAt(t: Tree, u: Tree, n: Node, list: bool, q: Path)
    requires Forest(t) && n.path !in t.table && q != n.path
    requires Extends(t, u, if Up(n.path) in t.table then Some(t.table[Up(n.path)]) else None, n, list)
    ensures StaysAt(t, u, n.path, q)
  {
    hide ListsOwned, Descending, KidsBelow, Kids;
    var parent := if Up(n.path) in t.table then Some(t.table[Up(n.path)]) else None;
    if q in t.table {
      var i := t.table[q];
      assert i < |t.nodes| && t.nodes[i].path == q;
      assert parent.Some? && parent.value == i ==> q == Up(n.path);
      hide Forest;
      assert NodeKeeps(t, u, parent, i);
    }
  }

  lemma {:induction false} ExtendsIsNew(t: Tree, u: Tree, n: Node, list: bool)
    requires Forest(t) && n.path != [] && n.path !in t.table
    requires Extends(t, u, if Up(n.path) in t.table then Some(t.table[Up(n.path)]) else None, n, list)
    ensures NewAt(t, u, n, list)
  {
    var parent := if Up(n.path) in t.table then Some(t.table[Up(n.path)]) else None;
    forall q | q != n.path
      ensures StaysAt(t, u, n.path, q)
    {
      ExtendsAt(t, u, n, list, q);
    }
    assert Up(n.path) != n.path;
    if parent.Some? {
      assert parent.value < |t.nodes|;
      assert NodeKeeps(t, u, parent, parent.value);
    }
    hide Forest, Kids, StaysAt;
    assert RestStays(t, u, n.path);
    if parent.Some? { assert |t.nodes| in Kids(u, parent.value); }
  }

  // ------------------------------------------------------------------------ adding

  /** When `add` hands back a node: for what is known, only if a recursive watch can take it
      over, and for a root only if it is a directory; for what is new, if it is a file or a
      directory whose parent is known, or a root. */
  ghost predicate Addable(t: Tree, fs: Snapshot, p: Path, recursive: bool, root: bool) {
    if p in t.table then recursive && CoverageOf(t, p) != Recursive && (root ==> Meta(t, p).Dir?)
    else ForPath(fs, p).Some? && (root || Up(p) in t.table)
  }

  /** The coverage of a node that is added. */
  function AddedCoverage(recursive: bool, root: bool): Coverage {
    if recursive then Recursive else if root then ChildrenOnly else Uncovered
  }

  /** What adding leaves behind: nothing that was known changes but for the coverage of a node
      that is taken over; a new node is what the snapshot says. */
  ghost predicate AddedAs(t: Tree, fs: Snapshot, p: Path, recursive: bool, root: bool, r: Added) {
    if !Addable(t, fs, p, recursive, root) then r == Added(t, None)
    else
      && p in r.tree.table && r.node == Some(r.tree.table[p])
      && if p in t.table then
           && Known(t, p) && Known(r.tree, p) && r.tree.table[p] == t.table[p]
           && r.tree.nodes[t.table[p]] == t.nodes[t.table[p]].(coverage := Recursive)
           && KidsAt(r.tree, p) == KidsAt(t, p) && RestStays(t, r.tree, p)
         else
           var m := ForPath(fs, p).value;
           NewAt(t, r.tree, Node(p, MetaOf(m), m.inode, false, AddedCoverage(recursive, root), None),
                 m.isDir && (recursive || root) && m.size != 0)
  }

  lemma {:induction false} TakenOver(t: Tree, p: Path)
    requires Forest(t) && p in t.table
    ensures var id := t.table[p]; var u := SetNode(t, id, t.nodes[id].(coverage := Recursive));
            KidsAt(u, p) == KidsAt(t, p) && RestStays(t, u, p)
  {
    var id := t.table[p];
    var u := SetNode(t, id, t.nodes[id].(coverage := Recursive));
    forall q | q != p
      ensures StaysAt(t, u, p, q)
    {
      if q in t.table { assert t.nodes[t.table[q]].path == q && t.nodes[id].path == p; }
    }
  }

  lemma {:induction false} AddedIsNew(t: Tree, fs: Snapshot, p: Path, recursive: bool, root: bool)
    requires Forest(t) && p != [] && p !in t.table && ForPath(fs, p).Some? && (root || Up(p) in t.table)
    ensures var m := ForPath(fs, p).value; var r := Add(t, fs, p, recursive, root);
            && r.node == Some(|t.nodes|)
            && NewAt(t, r.tree, Node(p, MetaOf(m), m.inode, false, AddedCoverage(recursive, root), None),
                     m.isDir && (recursive || root) && m.size != 0)
  {
    var m := ForPath(fs, p).value;
    var n := Node(p, MetaOf(m), m.inode, false, AddedCoverage(recursive, root), None);
    var parent := if Up(p) in t.table then Some(t.table[Up(p)]) else None;
    GrowKeepsForest(t, parent, n);
    GrownExtends(t, parent, n);
    var u := Grow(t, parent, n);
    assert Add(t, fs, p, recursive, root)
        == Added(if m.isDir && (recursive || root) && m.size != 0 then ReserveDir(u, |t.nodes|)
                 else u, Some(|t.nodes|));
    hide Forest, NewAt, Grow, ReserveDir, Extends, Add;
    ReservedExtends(t, u, parent, n);
    if m.isDir && (recursive || root) && m.size != 0 {
      ExtendsIsNew(t, ReserveDir(u, |t.nodes|), n, true);
    } else {
      ExtendsIsNew(t, u, n, false);
    }
  }

  lemma {:induction false} TakenOverIs(t: Tree, fs: Snapshot, p: Path, root: bool)
    requires Forest(t) && p in t.table && Addable(t, fs, p, true, root)
    ensures AddedAs(t, fs, p, true, root, Add(t, fs, p, true, root))
  {
    TakenOver(t, p);
    hide RestStays, KidsAt;
  }

  /** Adding a path or a root to any tree. */
  lemma {:induction false} AddIs(t: Tree, fs: Snapshot, p: Path, recursive: bool, root: bool)
    requires Forest(t) && p != []
    ensures AddedAs(t, fs, p, recursive, root, Add(t, fs, p, recursive, root))
  {
    if Addable(t, fs, p, recursive, root) {
      if p in t.table {
        TakenOverIs(t, fs, p, root);
      } else {
        hide Forest, Add, NewAt;
        AddedIsNew(t, fs, p, recursive, root);
        NewIsThere(t, Add(t, fs, p, recursive, root).tree,
                   Node(p, MetaOf(ForPath(fs, p).value), ForPath(fs, p).value.inode, false,
                        AddedCoverage(recursive, root), None),
                   ForPath(fs, p).value.isDir && (recursive || root) && ForPath(fs, p).value.size != 0);
      }
    } else {
      NotAdded(t, fs, p, recursive, root);
    }
  }

  lemma {:induction false} NotAdded(t: Tree, fs: Snapshot, p: Path, recursive: bool, root: bool)
    requires Forest(t) && !Addable(t, fs, p, recursive, root)
    ensures Add(t, fs, p, recursive, root) == Added(t, None)
  {
    hide Grow, ReserveDir;
  }

  lemma {:induction false} NewIsThere(t: Tree, u: Tree, n: Node, list: bool)
    requires NewAt(t, u, n, list)
    ensures n.path in u.table && u.table[n.path] == |t.nodes|
  {
  }
}
