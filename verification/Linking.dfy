/** Which nodes the sweep of a parent can see: a node is linked from its parent if and only
    if the parent was known first. */
module Linking {
  import opened Paths
  import opened Events
  import opened TreeModel
  import opened CrawlModel
  import opened Runs
  import Pending

  /** Every node whose parent has a smaller id is in the parent's list. */
  ghost predicate ParentsFirst(t: Tree) {
    forall p :: Younger(t, p) ==> Linked(t, p)
  }

  predicate Younger(t: Tree, p: Path) {
    Known(t, p) && Known(t, Up(p)) && t.table[Up(p)] < t.table[p]
  }

  /** `u` has the nodes and links of `t`, and links every new node whose parent it knows. */
  ghost predicate Grows(t: Tree, u: Tree) {
    && (forall p :: p in t.table ==> p in u.table && u.table[p] == t.table[p])
    && (forall i, c :: 0 <= i < |t.nodes| && c in Kids(t, i) ==> i < |u.nodes| && c in Kids(u, i))
    && (forall p :: p in u.table && p !in t.table && Younger(u, p) ==> Linked(u, p))
  }

  lemma {:induction false} GrowsTransitive(t: Tree, u: Tree, w: Tree)
    requires Forest(t) && Forest(u) && Forest(w) && Grows(t, u) && Grows(u, w)
    ensures Grows(t, w)
  {
    forall p | p in w.table && p !in t.table && Younger(w, p)
      ensures Linked(w, p)
    {
      if p in u.table { GrowsLinks(u, w, p); }
    }
  }

  /** Nodes keep their ids. */
  lemma {:induction false} NodeStays(t: Tree, u: Tree, id: NodeId)
    requires Forest(t) && Forest(u) && Grows(t, u) && id < |t.nodes|
    ensures id < |u.nodes| && u.nodes[id].path == t.nodes[id].path
  {
    assert t.nodes[id].path in t.table;
  }

  lemma {:induction false} GrowsLinks(u: Tree, w: Tree, p: Path)
    requires Forest(u) && Forest(w) && Grows(u, w) && p in u.table && Younger(w, p)
    requires Younger(u, p) ==> Linked(u, p)
    ensures Linked(w, p)
  {
    assert w.table[p] == u.table[p] < |u.nodes|;
    var q := Up(p);
    assert u.nodes[w.table[q]].path in u.table;
    assert w.nodes[w.table[q]].path == q;
    assert w.table[u.nodes[w.table[q]].path] == w.table[q];
    assert u.nodes[w.table[q]].path == q;
    assert Younger(u, p);
  }

  lemma {:induction false} GrowsKeeps(t: Tree, u: Tree)
    requires Forest(t) && Forest(u) && Grows(t, u) && ParentsFirst(t)
    ensures ParentsFirst(u)
  {
    forall p | Younger(u, p)
      ensures Linked(u, p)
    {
      if p in t.table { GrowsLinks(t, u, p); }
    }
  }

  // --------------------------------------------------- every operation only grows

  lemma {:induction false} ShapeGrows(t: Tree, u: Tree)
    requires SameShape(t, u) && Descending(t)
    ensures Grows(t, u)
  {
    ShapeKeepsDescending(t, u);
  }

  lemma {:induction false} ReserveGrows(t: Tree, id: NodeId)
    requires Forest(t) && id < |t.nodes| && t.nodes[id].children.None?
    ensures Grows(t, ReserveDir(t, id))
  {
    ReserveKeepsForest(t, id);
  }

  lemma {:induction false} GrowGrows(t: Tree, parent: Option<NodeId>, n: Node)
    requires Forest(t) && n.path != [] && n.path !in t.table && n.children.None?
    requires parent == if Up(n.path) in t.table then Some(t.table[Up(n.path)]) else None
    ensures Grows(t, Grow(t, parent, n))
  {
    GrowKids(t, parent, n);
    GrowKeepsTable(t, parent, n);
    var u := Grow(t, parent, n);
    assert Up(n.path) != n.path;
    forall p | p in u.table && p !in t.table && Younger(u, p)
      ensures Linked(u, p)
    {
      assert p == n.path && parent == Some(t.table[Up(p)]);
      assert Kids(u, parent.value) == Kids(t, parent.value) + [|t.nodes|];
    }
  }

  lemma {:induction false} RestatGrows(t: Tree, id: NodeId, m: Metadata, change: Pending.PendingChange)
    requires Forest(t) && id < |t.nodes|
    ensures Grows(t, Restat(t, id, m, change).tree)
  {
    var n := t.nodes[id];
    var coverage := if change.flags.markRecursive then Recursive else n.coverage;
    var u := SetNode(t, id, n.(coverage := coverage, inode := m.inode, meta := MetaOf(m)));
    ShapeKeepsForest(t, u);
    ShapeGrows(t, u);
    RestatKeepsForest(t, id, m, change);
    hide Grows, Forest;
    if n.children.None? {
      ReserveGrows(u, id);
      if Restat(t, id, m, change).tree != u { GrowsTransitive(t, u, ReserveDir(u, id)); }
    }
  }

  lemma {:induction false} VanishGrows(t: Tree, id: NodeId, change: Pending.PendingChange)
    requires Forest(t) && id < |t.nodes|
    ensures Grows(t, Vanish(t, id, change).tree)
  {
    var n := t.nodes[id];
    var coverage := if change.flags.markRecursive then Recursive else n.coverage;
    var u := SetNode(t, id, n.(coverage := coverage, meta := Deleted));
    ShapeKeepsForest(t, u);
    ShapeGrows(t, Vanish(t, id, change).tree);
  }

  lemma {:induction false} DiscoverGrows(t: Tree, parent: NodeId, m: Metadata, change: Pending.PendingChange)
    requires Forest(t) && change.path != [] && change.path !in t.table && Up(change.path) in t.table
             && parent == t.table[Up(change.path)]
    ensures Grows(t, Discover(t, parent, m, change).tree)
  {
    var recursive := change.flags.markRecursive || t.nodes[parent].coverage == Recursive;
    var n := Node(change.path, MetaOf(m), m.inode, false, if recursive then Recursive else Uncovered, None);
    GrowThenReserve(t, Some(parent), n);
  }

  lemma {:induction false} GrowThenReserve(t: Tree, parent: Option<NodeId>, n: Node)
    requires Forest(t) && n.path != [] && n.path !in t.table && n.children.None?
    requires parent == if Up(n.path) in t.table then Some(t.table[Up(n.path)]) else None
    ensures Grows(t, Grow(t, parent, n)) && Grows(t, ReserveDir(Grow(t, parent, n), |t.nodes|))
  {
    var u := Grow(t, parent, n);
    GrowGrows(t, parent, n);
    GrowKids(t, parent, n);
    GrowKeepsForest(t, parent, n);
    hide Grows, Forest, Grow;
    ReserveGrows(u, |t.nodes|);
    ReserveKeepsForest(u, |t.nodes|);
    GrowsTransitive(t, u, ReserveDir(u, |t.nodes|));
  }

  lemma {:induction false} ApplyGrows(t: Tree, fs: Snapshot, change: Pending.PendingChange)
    requires Forest(t)
    ensures Grows(t, ApplyChange(t, fs, change).tree)
  {
    hide Grows;
    var m := ForPath(fs, change.path);
    if change.path in t.table {
      var id := t.table[change.path];
      if m.Some? { RestatGrows(t, id, m.value, change); } else { VanishGrows(t, id, change); }
    } else if m.Some? && Up(change.path) in t.table {
      DiscoverGrows(t, t.table[Up(change.path)], m.value, change);
    } else {
      ShapeGrows(t, t);
    }
  }

  lemma {:induction false} AddGrows(t: Tree, fs: Snapshot, path: Path, recursive: bool, root: bool)
    requires Forest(t) && path != []
    ensures Grows(t, Add(t, fs, path, recursive, root).tree)
  {
    hide Grows;
    if path in t.table {
      ShapeGrows(t, Add(t, fs, path, recursive, root).tree);
    } else {
      ShapeGrows(t, t);
      if ForPath(fs, path).Some? {
        var m := ForPath(fs, path).value;
        var parent := if Up(path) in t.table then Some(t.table[Up(path)]) else None;
        var coverage := if recursive then Recursive else if root then ChildrenOnly else Uncovered;
        GrowThenReserve(t, parent, Node(path, MetaOf(m), m.inode, false, coverage, None));
      }
    }
  }

  lemma {:induction false} CrawlRootGrows(t: Tree, fs: Snapshot, filter: Filter, recursive: bool, walk: seq<Entry>)
    requires Forest(t) && forall i :: 0 <= i < |walk| ==> walk[i].path != []
    ensures Grows(t, CrawlRoot(t, fs, filter, recursive, walk).tree)
    decreases |walk|
  {
    hide Grows, Forest, Add;
    if walk == [] {
      ForestGrows(t);
    } else {
      var e, rest := walk[0], walk[1..];
      SkipDirMembers(rest, e.path);
      SkipDirMembers(rest, Up(e.path));
      if filter(e.path, Some(e.isDir)) {
        CrawlRootGrows(t, fs, filter, recursive, if e.isDir then SkipDir(rest, e.path) else rest);
      } else {
        var added := Add(t, fs, e.path, recursive, false);
        AddGrows(t, fs, e.path, recursive, false);
        AddKeepsForest(t, fs, e.path, recursive, false);
        var next := if added.node.None? then SkipAfter(rest, e) else rest;
        CrawlRootGrows(added.tree, fs, filter, recursive, next);
        GrowsTransitive(t, added.tree, CrawlRoot(added.tree, fs, filter, recursive, next).tree);
      }
    }
  }

  lemma {:induction false} ForestGrows(t: Tree)
    requires Forest(t)
    ensures Grows(t, t)
  {
    ShapeGrows(t, t);
  }

  /** Beyond applying the entry a visit only changes what nodes say. */
  lemma {:induction false} VisitShape(c: Crawl, fs: Snapshot, recursive: bool, path: Path, depth: nat)
    requires Forest(c.tree) && Listed(c.tree, c.stack)
    ensures SameShape(ApplyEntry(c.tree, fs, recursive, path).tree, Visit(c, fs, recursive, path, depth).tree)
  {
    hide ApplyEntry, PopWhile, Forest, Listed, Enter;
    ApplyKeepsListed(c.tree, fs, recursive, path, c.stack);
    var a := ApplyEntry(c.tree, fs, recursive, path);
    if a.node.Some? {
      var popped := PopWhile(Crawl(a.tree, c.stack, c.events + a.events, c.watches), depth);
      EnterShape(popped, a.node.value, path, depth, recursive);
    }
  }

  lemma {:induction false} EnterShape(c: Crawl, id: NodeId, path: Path, depth: nat, recursive: bool)
    requires Forest(c.tree) && Listed(c.tree, c.stack) && id < |c.tree.nodes|
    ensures SameShape(c.tree, Enter(c, id, path, depth, recursive).tree)
  {
  }

  lemma {:induction false} VisitGrows(c: Crawl, fs: Snapshot, recursive: bool, path: Path, depth: nat)
    requires Forest(c.tree) && Listed(c.tree, c.stack)
    ensures Grows(c.tree, Visit(c, fs, recursive, path, depth).tree)
  {
    hide Visit, Grows, Forest, Listed, SameShape, ApplyEntry;
    var a, v := ApplyEntry(c.tree, fs, recursive, path), Visit(c, fs, recursive, path, depth);
    EntryGrows(c.tree, fs, recursive, path);
    VisitShape(c, fs, recursive, path, depth);
    ForestShapeGrows(a.tree, v.tree);
    GrowsTransitive(c.tree, a.tree, v.tree);
  }

  lemma {:induction false} EntryGrows(t: Tree, fs: Snapshot, recursive: bool, path: Path)
    requires Forest(t)
    ensures Grows(t, ApplyEntry(t, fs, recursive, path).tree)
  {
    var change := Pending.PendingChange(path, CrawlFlags(recursive));
    hide Grows, Forest, ApplyChange;
    ApplyGrows(t, fs, change);
    ApplyKeepsForest(t, fs, change);
    ApplyNodeInArena(t, fs, change);
    var a := ApplyChange(t, fs, change);
    ForestShapeGrows(a.tree, ApplyEntry(t, fs, recursive, path).tree);
    GrowsTransitive(t, a.tree, ApplyEntry(t, fs, recursive, path).tree);
  }

  lemma {:induction false} ForestShapeGrows(t: Tree, u: Tree)
    requires Forest(t) && SameShape(t, u)
    ensures Grows(t, u)
  {
    ShapeGrows(t, u);
  }

  lemma {:induction false} WalkGrows(c: Crawl, fs: Snapshot, filter: Filter, recursive: bool, root: Path,
                                     walk: seq<Entry>)
    requires Forest(c.tree) && Listed(c.tree, c.stack)
    ensures Grows(c.tree, RunWalk(c, fs, filter, recursive, root, walk).tree)
    decreases |walk|
  {
    hide Visit, Grows, Forest, Listed;
    if walk == [] {
      ForestGrows(c.tree);
    } else {
      var e := walk[0];
      if filter(e.path, Some(e.isDir)) {
        WalkGrows(c, fs, filter, recursive, root, if e.isDir then SkipDir(walk[1..], e.path) else walk[1..]);
      } else {
        var v := Visit(c, fs, recursive, e.path, DepthOf(root, e.path));
        VisitGrows(c, fs, recursive, e.path, DepthOf(root, e.path));
        WalkGrows(v, fs, filter, recursive, root, walk[1..]);
        GrowsTransitive(c.tree, v.tree, RunWalk(v, fs, filter, recursive, root, walk[1..]).tree);
      }
    }
  }

  lemma {:induction false} CrawlGrows(t: Tree, fs: Snapshot, filter: Filter, root: NodeId, walk: seq<Entry>)
    requires Forest(t) && root < |t.nodes|
    ensures Grows(t, RunCrawl(t, fs, filter, root, [], walk).tree)
  {
    var recursive := t.nodes[root].coverage == Recursive;
    var path := t.nodes[root].path;
    var w := if recursive then walk else Shallow(path, walk);
    var s := Start(t, root, []);
    var m := RunWalk(s, fs, filter, recursive, path, w);
    var u := RunCrawl(t, fs, filter, root, [], walk).tree;
    assert SameShape(t, s.tree) && SameShape(m.tree, u);
    hide Forest, Grows, RunWalk, RunCrawl, Start;
    WalkGrows(s, fs, filter, recursive, path, w);
    ForestShapeGrows(t, s.tree);
    ForestShapeGrows(m.tree, u);
    GrowsTransitive(t, s.tree, m.tree);
    GrowsTransitive(t, m.tree, u);
  }

  lemma {:induction false} StepGrows(s: State, op: Op)
    requires Forest(s.tree) && Enabled(s.tree, op)
    ensures Grows(s.tree, Step(s, op).tree)
  {
    hide Grows, RunCrawl, ApplyChange, Add, CrawlRoot;
    match op {
      case AddRoot(fs, p, rec) => AddGrows(s.tree, fs, p, rec, true);
      case Populate(fs, filter, rec, walk) => CrawlRootGrows(s.tree, fs, filter, rec, walk);
      case Change(fs, change) => ApplyGrows(s.tree, fs, change);
      case Recrawl(fs, filter, root, walk) => CrawlGrows(s.tree, fs, filter, root, walk);
      case Settle => ShapeGrows(s.tree, s.tree);
    }
  }

  /** In every run, a known path whose parent is known is linked from it if and only if the
      parent became known first: roots added before their parent are never linked. */
  lemma {:induction false} LinkedIffParentFirst(ops: seq<Op>, p: Path)
    requires Known(After(ops).tree, p) && Known(After(ops).tree, Up(p))
    ensures var t := After(ops).tree; Linked(t, p) <==> t.table[Up(p)] < t.table[p]
  {
    RunKeepsParentsFirst(ops);
  }

  lemma {:induction false} RunKeepsParentsFirst(ops: seq<Op>)
    ensures ParentsFirst(After(ops).tree)
  {
    hide Forest, Step, ParentsFirst;
    if ops == [] {
      NothingYounger();
    } else {
      var s := After(ops[..|ops| - 1]);
      RunKeepsParentsFirst(ops[..|ops| - 1]);
      if Enabled(s.tree, ops[|ops| - 1]) {
        StepGrows(s, ops[|ops| - 1]);
        GrowsKeeps(s.tree, After(ops).tree);
      }
    }
  }

  lemma {:induction false} NothingYounger()
    ensures ParentsFirst(EMPTY)
  {
  }
}
