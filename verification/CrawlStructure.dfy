/** What a crawl, recursive or not, keeps intact while it runs: the forest, the work stack and
    the temporary flags. Nothing is assumed about node kinds here. */
module CrawlStructure {
  import opened Paths
  import opened Events
  import opened TreeModel
  import opened Deletion
  import opened CrawlModel
  import Pending

  /** The tree before the crawl, the snapshot it runs against, the crawled root, and whether
      the crawl is recursive. */
  datatype Ctx = Ctx(t0: Tree, fs: Snapshot, root: Path, recursive: bool)

  // ------------------------------------------------------------ pre-order walks

  /** Entry `i` continues a pre-order listing: its parent is the root, or the entry just
      listed (then a directory), or an ancestor of it. */
  ghost predicate Follows(root: Path, v: seq<Entry>, i: nat)
    requires i < |v|
  {
    && v[i].path != [] && root <= Up(v[i].path)
    && Up(v[i].path) <= (if i == 0 then root else v[i - 1].path)
    && (i > 0 && Up(v[i].path) == v[i - 1].path ==> v[i - 1].isDir)
  }

  ghost predicate Preorder(root: Path, v: seq<Entry>) {
    && (forall i, j :: 0 <= i < j < |v| ==> v[i].path != v[j].path)
    && (forall i :: 0 <= i < |v| ==> Follows(root, v, i))
  }

  ghost predicate Agrees(fs: Snapshot, v: seq<Entry>) {
    forall i :: 0 <= i < |v| ==> v[i].path in fs && v[i].isDir == fs[v[i].path].Directory?
  }

  /** What a walk limited to depth one yields. */
  ghost predicate Flat(root: Path, v: seq<Entry>) {
    forall i :: 0 <= i < |v| ==> Up(v[i].path) == root
  }

  /** A listing of the snapshot, as deep as the crawl goes. */
  ghost predicate Listing(ctx: Ctx, v: seq<Entry>) {
    Preorder(ctx.root, v) && Agrees(ctx.fs, v) && (ctx.recursive || Flat(ctx.root, v))
  }

  lemma {:induction false} ListingPrefix(ctx: Ctx, v: seq<Entry>, n: nat)
    requires Listing(ctx, v) && n <= |v|
    ensures Listing(ctx, v[..n])
  {
    PreorderPrefix(ctx.root, v, n);
  }

  function Seen(v: seq<Entry>): set<Path> {
    if v == [] then {} else Seen(v[..|v| - 1]) + {v[|v| - 1].path}
  }

  lemma {:induction false} SeenMembers(v: seq<Entry>, p: Path)
    ensures p in Seen(v) <==> exists i :: 0 <= i < |v| && v[i].path == p
  {
    if v != [] {
      SeenMembers(v[..|v| - 1], p);
      assert v == v[..|v| - 1] + [v[|v| - 1]];
    }
  }

  /** Visited paths are closed upwards, and what has something visited below it is a
      directory of the snapshot. */
  ghost predicate Closed(ctx: Ctx, seen: set<Path>) {
    forall q :: q in seen ==> ClosedAt(ctx, seen, q)
  }

  ghost predicate ClosedAt(ctx: Ctx, seen: set<Path>, q: Path) {
    && ctx.root < q && q in ctx.fs && (ctx.recursive || Up(q) == ctx.root)
    && IsDirIn(ctx, seen, Up(q))
  }

  /** The root, or a visited directory. */
  ghost predicate IsDirIn(ctx: Ctx, seen: set<Path>, a: Path) {
    a == ctx.root || (a in seen && a in ctx.fs && ctx.fs[a].Directory?)
  }

  /** A directory whose children the crawl looks at. */
  ghost predicate IsCrawled(ctx: Ctx, seen: set<Path>, a: Path) {
    IsDirIn(ctx, seen, a) && (ctx.recursive || a == ctx.root)
  }

  predicate SeenFile(ctx: Ctx, seen: set<Path>, a: Path) {
    a in seen && a in ctx.fs && ctx.fs[a].Regular?
  }

  /** Seen, but what lies below is not looked at: a file, or, unless the crawl is
      recursive, a directory. */
  predicate Passed(ctx: Ctx, seen: set<Path>, a: Path) {
    SeenFile(ctx, seen, a) || (!ctx.recursive && a in seen && a in ctx.fs && ctx.fs[a].Directory?)
  }

  lemma {:induction false} ClosedPrefix(ctx: Ctx, seen: set<Path>, x: Path, q: Path)
    requires Closed(ctx, seen) && q in seen && ctx.root <= x <= q
    ensures x == ctx.root || x in seen
    ensures x < q ==> IsDirIn(ctx, seen, x)
    decreases |q|
  {
    assert ClosedAt(ctx, seen, q);
    if |x| == |q| {
      assert x == q;
    } else if x != Up(q) {
      assert x < Up(q);
      ClosedPrefix(ctx, seen, x, Up(q));
    }
  }

  lemma {:induction false} PreorderPrefix(root: Path, v: seq<Entry>, n: nat)
    requires Preorder(root, v) && n <= |v|
    ensures Preorder(root, v[..n])
  {
    forall i | 0 <= i < n
      ensures Follows(root, v[..n], i)
    {
      assert Follows(root, v, i);
    }
  }

  lemma {:induction false} ClosedMore(ctx: Ctx, seen: set<Path>, e: Path)
    requires Closed(ctx, seen) && e in ctx.fs && ctx.root < e && IsDirIn(ctx, seen, Up(e))
    requires ctx.recursive || Up(e) == ctx.root
    ensures Closed(ctx, seen + {e})
  {
    forall q | q in seen + {e}
      ensures ClosedAt(ctx, seen + {e}, q)
    {
      if q in seen { assert ClosedAt(ctx, seen, q); }
    }
  }

  lemma {:induction false} PreorderClosed(ctx: Ctx, v: seq<Entry>)
    requires Listing(ctx, v)
    ensures Closed(ctx, Seen(v))
    ensures v != [] ==> v[|v| - 1].path !in Seen(v[..|v| - 1])
    ensures v != [] ==> ctx.root < v[|v| - 1].path && IsDirIn(ctx, Seen(v[..|v| - 1]), Up(v[|v| - 1].path))
  {
    if v != [] {
      var init := v[..|v| - 1];
      ListingPrefix(ctx, v, |v| - 1);
      PreorderClosed(ctx, init);
      LastIsNew(ctx, v);
      ClosedMore(ctx, Seen(init), v[|v| - 1].path);
    }
  }

  lemma {:induction false} LastIsNew(ctx: Ctx, v: seq<Entry>)
    requires v != [] && Preorder(ctx.root, v) && Agrees(ctx.fs, v) && Closed(ctx, Seen(v[..|v| - 1]))
    ensures v[|v| - 1].path !in Seen(v[..|v| - 1])
    ensures ctx.root < v[|v| - 1].path && IsDirIn(ctx, Seen(v[..|v| - 1]), Up(v[|v| - 1].path))
  {
    var n := |v| - 1;
    var init, e := v[..n], v[n].path;
    SeenMembers(init, e);
    assert Follows(ctx.root, v, n);
    if n > 0 {
      assert init[n - 1] == v[n - 1];
      SeenMembers(init, v[n - 1].path);
      PreviousIsOpen(ctx, Seen(init), Up(e), v[n - 1]);
    }
  }

  lemma {:induction false} PreviousIsOpen(ctx: Ctx, seen: set<Path>, x: Path, prev: Entry)
    requires Closed(ctx, seen) && prev.path in seen && ctx.root <= x <= prev.path
    requires prev.isDir ==> prev.path in ctx.fs && ctx.fs[prev.path].Directory?
    requires x == prev.path ==> prev.isDir
    ensures IsDirIn(ctx, seen, x)
  {
    ClosedPrefix(ctx, seen, x, prev.path);
    if |x| == |prev.path| { assert x == prev.path; }
  }

  lemma {:induction false} PrefixOfParent(a: Path, y: Path)
    ensures a <= y && a != y ==> a <= Up(y)
  {
    assert a <= y && |a| == |y| ==> a == y;
  }

  /** The last entry that has a node: frames are ancestors of it. */
  function Cursor(ctx: Ctx, v: seq<Entry>): Path {
    if v == [] then ctx.root
    else if v[|v| - 1].path in ctx.fs && ctx.fs[v[|v| - 1].path].Special? && !Known(ctx.t0, v[|v| - 1].path)
    then Cursor(ctx, v[..|v| - 1])
    else v[|v| - 1].path
  }

  lemma {:induction false} CursorAhead(ctx: Ctx, v: seq<Entry>, q: Path)
    requires Preorder(ctx.root, v) && Agrees(ctx.fs, v) && ctx.root <= q
    requires q <= (if v == [] then ctx.root else v[|v| - 1].path)
    requires v != [] && q == v[|v| - 1].path ==> v[|v| - 1].isDir
    ensures q <= Cursor(ctx, v)
  {
    if v != [] && Cursor(ctx, v) != v[|v| - 1].path {
      var n := |v| - 1;
      assert Follows(ctx.root, v, n);
      PreorderPrefix(ctx.root, v, n);
      assert q <= Up(v[n].path);
      CursorAhead(ctx, v[..n], q);
    }
  }

  // --------------------------------------------------------------- invariants

  ghost predicate Synced(fs: Snapshot, recursive: bool, t: Tree, p: Path) {
    && p in fs
    && match ForPath(fs, p)
       case None => Meta(t, p) == Deleted
       case Some(m) =>
         && Known(t, p)
         && t.nodes[t.table[p]].meta == MetaOf(m)
         && t.nodes[t.table[p]].inode == m.inode
         && (recursive ==> t.nodes[t.table[p]].coverage == Recursive)
  }

  /** An old node: only visited nodes, and the lists of visited directories, change; a
      recursive crawl covers what it visits. */
  ghost predicate Kept(ctx: Ctx, seen: set<Path>, old_: Node, new_: Node) {
    && new_.path == old_.path
    && (old_.children.Some? ==> new_.children == old_.children)
    && (old_.path !in seen ==> new_.inode == old_.inode)
    && new_.coverage == (if ctx.recursive && old_.path in seen then Recursive else old_.coverage)
    && (old_.path !in seen && old_.path != ctx.root ==> new_.children == old_.children)
  }

  ghost predicate Grown(ctx: Ctx, seen: set<Path>, t: Tree) {
    && (forall p :: p in ctx.t0.table ==> p in t.table && t.table[p] == ctx.t0.table[p])
    && (forall p :: p in t.table && p !in ctx.t0.table ==> p in seen)
    && |ctx.t0.nodes| <= |t.nodes|
    && (forall i :: 0 <= i < |ctx.t0.nodes| ==> Kept(ctx, seen, ctx.t0.nodes[i], t.nodes[i]))
    && (forall p :: p in seen ==> Synced(ctx.fs, ctx.recursive, t, p))
    && SameLinks(ctx.t0, t)
    && (forall p :: p in t.table && p !in ctx.t0.table ==> Linked(t, p))
  }

  /** What was known is linked exactly if it was. */
  ghost predicate SameLinks(t: Tree, u: Tree) {
    forall p :: p in t.table ==> (Linked(u, p) <==> Linked(t, p))
  }

  ghost predicate FrameOk(ctx: Ctx, seen: set<Path>, t: Tree, f: Frame) {
    && f.node < |t.nodes| && t.nodes[f.node].children.Some?
    && IsCrawled(ctx, seen, t.nodes[f.node].path)
    && f.depth == DepthOf(ctx.root, t.nodes[f.node].path)
  }

  /** Frames are the root and visited directories, at strictly increasing depths. */
  ghost predicate Frames(ctx: Ctx, seen: set<Path>, t: Tree, stack: seq<Frame>) {
    && (forall k :: 0 <= k < |stack| ==> FrameOk(ctx, seen, t, stack[k]))
    && (forall k, l :: 0 <= k < l < |stack| ==> stack[k].depth < stack[l].depth)
  }

  /** Below a frame, the temporary flag says exactly "not visited yet". */
  ghost predicate FlagOk(t: Tree, seen: set<Path>, c: NodeId)
    requires c < |t.nodes|
  {
    t.nodes[c].maybeDeleted <==> t.nodes[c].path !in seen
  }

  ghost predicate Flagged(t: Tree, seen: set<Path>, stack: seq<Frame>)
    requires Forest(t)
  {
    forall k, j :: 0 <= k < |stack| && stack[k].node < |t.nodes| && 0 <= j < |Kids(t, stack[k].node)| ==>
      FlagOk(t, seen, Kids(t, stack[k].node)[j])
  }

  ghost predicate Structure(ctx: Ctx, seen: set<Path>, c: Crawl) {
    && Forest(c.tree) && Listed(c.tree, c.stack)
    && Grown(ctx, seen, c.tree) && Frames(ctx, seen, c.tree, c.stack) && Flagged(c.tree, seen, c.stack)
  }

  ghost predicate Within(t: Tree, stack: seq<Frame>, bound: Path) {
    forall k :: 0 <= k < |stack| && stack[k].node < |t.nodes| ==> t.nodes[stack[k].node].path <= bound
  }

  ghost predicate OnStack(t: Tree, stack: seq<Frame>, a: Path) {
    exists k :: 0 <= k < |stack| && stack[k].node < |t.nodes| && t.nodes[stack[k].node].path == a
  }

  /** A directory that is crawled and had a child list when the crawl began. */
  ghost predicate Losable(ctx: Ctx, a: Path) {
    HasList(ctx.t0, a) && (a == ctx.root || (ctx.recursive && a in ctx.fs && ctx.fs[a].Directory?))
  }

  /** Every ancestor of the cursor that had children to lose is on the stack. */
  ghost predicate Complete(ctx: Ctx, t: Tree, stack: seq<Frame>, cursor: Path) {
    forall a :: ctx.root <= a <= cursor && Losable(ctx, a) ==> OnStack(t, stack, a)
  }

  // --------------------------------------------------- one entry applied to a tree

  /** `u` is `t` after something was applied at `e` alone. */
  ghost predicate Touched(t: Tree, u: Tree, e: Path) {
    && (forall p :: p in t.table ==> p in u.table && u.table[p] == t.table[p])
    && (forall p :: p in u.table && p !in t.table ==> p == e && u.table[p] == |t.nodes| < |u.nodes|)
    && |t.nodes| <= |u.nodes|
    && (forall i :: 0 <= i < |t.nodes| ==> NodeTouched(e, t.nodes[i], u.nodes[i]))
    && (forall i :: 0 <= i < |t.nodes| ==> KidsTouched(t, u, e, i))
    && (forall p :: !(e <= p) ==> Meta(u, p) == Meta(t, p))
  }

  ghost predicate NodeTouched(e: Path, n: Node, m: Node) {
    && m.path == n.path
    && (n.path != e ==> m.inode == n.inode && m.coverage == n.coverage && m.maybeDeleted == n.maybeDeleted)
    && (n.children.Some? ==> m.children == n.children)
    && (n.path != e && n.path != Up(e) ==> m.children == n.children)
  }

  ghost predicate KidsTouched(t: Tree, u: Tree, e: Path, i: NodeId)
    requires i < |t.nodes|
  {
    || Kids(u, i) == Kids(t, i)
    || (t.nodes[i].path == Up(e) && e !in t.table && e in u.table && u.table[e] == |t.nodes|
        && Kids(u, i) == Kids(t, i) + [|t.nodes|])
  }

  lemma {:induction false} RestatTouched(t: Tree, fs: Snapshot, rec: bool, e: Path)
    requires Forest(t) && e in t.table && ForPath(fs, e).Some?
    ensures var r := Restat(t, t.table[e], ForPath(fs, e).value, Pending.PendingChange(e, CrawlFlags(rec)));
            Touched(t, r.tree, e) && Synced(fs, rec, r.tree, e)
  {
    var id := t.table[e];
    var r := Restat(t, id, ForPath(fs, e).value, Pending.PendingChange(e, CrawlFlags(rec))).tree;
    RestatFacts(t, id, ForPath(fs, e).value, Pending.PendingChange(e, CrawlFlags(rec)));
    assert t.nodes[id].path == e;
    hide Restat, ListsOwned, Descending, KidsBelow, Kids;
    OtherMeta(t, r, id, e);
    hide Meta;
  }

  /** Looking again changes one node, and leaves the child lists as they are. */
  lemma {:induction false} RestatFacts(t: Tree, id: NodeId, m: Metadata, change: Pending.PendingChange)
    requires Forest(t) && id < |t.nodes|
    ensures var r := Restat(t, id, m, change).tree; var n := t.nodes[id];
            && r.table == t.table && |r.nodes| == |t.nodes|
            && r.nodes[id].path == n.path && r.nodes[id].meta == MetaOf(m) && r.nodes[id].inode == m.inode
            && r.nodes[id].coverage == (if change.flags.markRecursive then Recursive else n.coverage)
            && (n.children.Some? ==> r.nodes[id].children == n.children)
            && (forall i :: 0 <= i < |t.nodes| && i != id ==> r.nodes[i] == t.nodes[i])
            && (forall i :: 0 <= i < |t.nodes| ==> Kids(r, i) == Kids(t, i))
  {
    var n := t.nodes[id];
    var coverage := if change.flags.markRecursive then Recursive else n.coverage;
    var u := SetNode(t, id, n.(coverage := coverage, inode := m.inode, meta := MetaOf(m)));
    var r := Restat(t, id, m, change).tree;
    assert r == u || (n.children.None? && r == ReserveDir(u, id));
    hide Restat;
    ShapeKeepsForest(t, u);
    ShapeKeepsDescending(t, u);
    if n.children.None? { ReserveKeepsForest(u, id); }
  }

  lemma {:induction false} OtherMeta(t: Tree, u: Tree, id: NodeId, e: Path)
    requires TableOk(t) && id < |t.nodes| && t.nodes[id].path == e && u.table == t.table && |u.nodes| == |t.nodes|
    requires forall i :: 0 <= i < |t.nodes| && i != id ==> u.nodes[i] == t.nodes[i]
    ensures forall p :: !(e <= p) ==> Meta(u, p) == Meta(t, p)
  {
    forall p | !(e <= p)
      ensures Meta(u, p) == Meta(t, p)
    {
      if p in t.table { assert t.nodes[t.table[p]].path == p; }
    }
  }

  lemma {:induction false} VanishTouched(t: Tree, fs: Snapshot, rec: bool, e: Path)
    requires Forest(t) && e in t.table && e in fs && ForPath(fs, e).None?
    ensures var r := Vanish(t, t.table[e], Pending.PendingChange(e, CrawlFlags(rec)));
            Touched(t, r.tree, e) && Synced(fs, rec, r.tree, e)
  {
    var id := t.table[e];
    var r := Vanish(t, id, Pending.PendingChange(e, CrawlFlags(rec))).tree;
    hide Vanish, ListsOwned, Descending, KidsBelow, Kids, Meta;
    VanishFacts(t, rec, e);
    VanishMeta(t, rec, e);
    forall i | 0 <= i < |t.nodes|
      ensures NodeTouched(e, t.nodes[i], r.nodes[i]) && KidsTouched(t, r, e, i)
    {
      assert i != id ==> t.nodes[i].path != e;
    }
    hide TableOk, NodeTouched, KidsTouched;
  }

  /** Losing a node changes kinds, and its own coverage. */
  lemma {:induction false} VanishFacts(t: Tree, rec: bool, e: Path)
    requires Forest(t) && e in t.table
    ensures var r := Vanish(t, t.table[e], Pending.PendingChange(e, CrawlFlags(rec))).tree;
            && r.table == t.table && |r.nodes| == |t.nodes|
            && (forall i :: 0 <= i < |t.nodes| ==> Kids(r, i) == Kids(t, i))
            && (forall i :: 0 <= i < |t.nodes| ==>
                  r.nodes[i]
                  == t.nodes[i].(meta := r.nodes[i].meta,
                                 coverage := if i == t.table[e] && rec then Recursive else t.nodes[i].coverage))
  {
    var id := t.table[e];
    var n := t.nodes[id];
    var u := SetNode(t, id, n.(coverage := if rec then Recursive else n.coverage, meta := Deleted));
    var r := Vanish(t, id, Pending.PendingChange(e, CrawlFlags(rec))).tree;
    assert SameButMeta(u, r);
    hide Vanish;
    ShapeKeepsDescending(t, u);
    ShapeKeepsDescending(u, r);
  }

  lemma {:induction false} VanishMeta(t: Tree, rec: bool, e: Path)
    requires Forest(t) && e in t.table
    ensures var r := Vanish(t, t.table[e], Pending.PendingChange(e, CrawlFlags(rec))).tree;
            Meta(r, e) == Deleted && forall p :: !(e <= p) ==> Meta(r, p) == Meta(t, p)
  {
    var id := t.table[e];
    var n := t.nodes[id];
    var u := SetNode(t, id, n.(coverage := if rec then Recursive else n.coverage, meta := Deleted));
    var r := Vanish(t, id, Pending.PendingChange(e, CrawlFlags(rec))).tree;
    ShapeKeepsForest(t, u);
    assert r == if n.meta.Dir? then DeleteRec(u, id).tree else u;
    hide Vanish, DeleteRec, ListsOwned, Descending, KidsBelow, Reached;
    OtherMeta(t, u, id, e);
    forall p
      ensures !(e <= p) || p == e ==> Meta(r, p) == if p == e then Deleted else Meta(t, p)
    {
      DeleteRecEffect(u, id, p);
      if e <= p { assert p == e || e < p; }
      ReachedIsBelow(u, e, p);
    }
  }

  lemma {:induction false} ReachedIsBelow(t: Tree, base: Path, p: Path)
    ensures Reached(t, base, p) ==> base < p
  {
  }

  lemma {:induction false} GrowTouched(t: Tree, parent: NodeId, n: Node)
    requires Forest(t) && n.path !in t.table && parent < |t.nodes| && t.nodes[parent].path == Up(n.path)
             && n.children.None?
    requires Forest(Grow(t, Some(parent), n))
    ensures var u := Grow(t, Some(parent), n);
            Touched(t, u, n.path) && u.table == t.table[n.path := |t.nodes|] && Linked(u, n.path)
  {
    hide TableOk, Descending, KidsBelow, Grow, Linked, Meta, NodeTouched, KidsTouched, Touched;
    var u := Grow(t, Some(parent), n);
    GrowFacts(t, parent, n);
    forall i | 0 <= i < |t.nodes|
      ensures NodeTouched(n.path, t.nodes[i], u.nodes[i]) && KidsTouched(t, u, n.path, i)
    {
      GrowTouchesNode(t, parent, n, i);
    }
    TouchedBy(t, u, n.path);
  }

  lemma {:induction false} TouchedBy(t: Tree, u: Tree, e: Path)
    requires e !in t.table && u.table == t.table[e := |t.nodes|] && |u.nodes| == |t.nodes| + 1
    requires forall i :: 0 <= i < |t.nodes| ==> NodeTouched(e, t.nodes[i], u.nodes[i]) && KidsTouched(t, u, e, i)
    requires forall p :: !(e <= p) ==> Meta(u, p) == Meta(t, p)
    ensures Touched(t, u, e)
  {
    hide NodeTouched, KidsTouched, Meta;
  }

  lemma {:induction false} GrowFacts(t: Tree, parent: NodeId, n: Node)
    requires Forest(t) && n.path !in t.table && parent < |t.nodes| && t.nodes[parent].path == Up(n.path)
             && n.children.None?
    ensures var u := Grow(t, Some(parent), n);
            && u.table == t.table[n.path := |t.nodes|] && |u.nodes| == |t.nodes| + 1 && Linked(u, n.path)
            && forall p :: !(n.path <= p) ==> Meta(u, p) == Meta(t, p)
  {
    hide Grow, Descending, KidsBelow, Kids, Meta, Linked;
    var u := Grow(t, Some(parent), n);
    GrowKids(t, Some(parent), n);
    GrownIndex(t, parent, n, parent);
    assert t.table[t.nodes[parent].path] == parent;
    assert u.table[Up(n.path)] == parent by { assert Up(n.path) != n.path; }
    hide TableOk;
    GrownLinked(t, u, parent, n.path);
    assert forall i :: 0 <= i < |t.nodes| ==> u.nodes[i].meta == t.nodes[i].meta;
    GrownMeta(t, u, n.path);
  }

  lemma {:induction false} GrownLinked(t: Tree, u: Tree, parent: NodeId, e: Path)
    requires parent < |t.nodes| && Kids(u, parent) == Kids(t, parent) + [|t.nodes|] && |u.nodes| == |t.nodes| + 1
    requires e in u.table && u.table[e] == |t.nodes| && Up(e) in u.table && u.table[Up(e)] == parent
    ensures Linked(u, e)
  {
    assert Kids(u, parent)[|Kids(t, parent)|] == |t.nodes|;
  }

  lemma {:induction false} GrowTouchesNode(t: Tree, parent: NodeId, n: Node, i: NodeId)
    requires Forest(t) && n.path !in t.table && parent < |t.nodes| && t.nodes[parent].path == Up(n.path)
             && n.children.None?
    requires i < |t.nodes|
    ensures var u := Grow(t, Some(parent), n);
            i < |u.nodes| && NodeTouched(n.path, t.nodes[i], u.nodes[i]) && KidsTouched(t, u, n.path, i)
  {
    hide Grow, Kids, TableOk, Descending, KidsBelow, NodeTouched, KidsTouched;
    GrowKids(t, Some(parent), n);
    GrowOthers(t, parent, n, i);
    GrownIndex(t, parent, n, i);
    hide Forest;
    GrownNode(t, Grow(t, Some(parent), n), parent, n.path, i);
  }

  lemma {:induction false} GrownIndex(t: Tree, parent: NodeId, n: Node, i: NodeId)
    requires Forest(t) && parent < |t.nodes| && i < |t.nodes|
    ensures t.nodes[i].path in t.table && Grow(t, Some(parent), n).table == t.table[n.path := |t.nodes|]
  {
  }

  lemma {:induction false} GrownNode(t: Tree, u: Tree, parent: NodeId, e: Path, i: NodeId)
    requires i < |t.nodes| < |u.nodes| && parent < |t.nodes| && t.nodes[parent].path == Up(e)
    requires u.nodes[i] == t.nodes[i].(children := u.nodes[i].children)
    requires t.nodes[i].children.Some? || i != parent ==> u.nodes[i].children == t.nodes[i].children
    requires Kids(u, i) == if i == parent then Kids(t, i) + [|t.nodes|] else Kids(t, i)
    requires e !in t.table && u.table == t.table[e := |t.nodes|]
    ensures NodeTouched(e, t.nodes[i], u.nodes[i]) && KidsTouched(t, u, e, i)
  {
    hide Kids;
  }

  lemma {:induction false} GrownMeta(t: Tree, u: Tree, e: Path)
    requires TableOk(t) && u.table == t.table[e := |t.nodes|] && |u.nodes| == |t.nodes| + 1
    requires forall i :: 0 <= i < |t.nodes| ==> u.nodes[i].meta == t.nodes[i].meta
    ensures forall p :: !(e <= p) ==> Meta(u, p) == Meta(t, p)
  {
    assert forall p :: p in t.table ==> t.table[p] < |t.nodes|;
  }

  lemma {:induction false} GrowOthers(t: Tree, parent: NodeId, n: Node, i: NodeId)
    requires ListsOwned(t) && parent < |t.nodes| && i < |t.nodes|
    ensures var u := Grow(t, Some(parent), n);
            && (t.nodes[i].children.Some? ==> u.nodes[i].children == t.nodes[i].children)
            && (i != parent ==> u.nodes[i].children == t.nodes[i].children)
  {
  }

  lemma {:induction false} ReserveTouched(t: Tree, u: Tree, fs: Snapshot, rec: bool, e: Path)
    requires Forest(u) && Touched(t, u, e) && Synced(fs, rec, u, e) && Known(u, e) && u.nodes[u.table[e]].children.None?
    ensures Touched(t, ReserveDir(u, u.table[e]), e) && Synced(fs, rec, ReserveDir(u, u.table[e]), e)
    ensures Linked(u, e) ==> Linked(ReserveDir(u, u.table[e]), e)
  {
    var id := u.table[e];
    var w := ReserveDir(u, id);
    ReserveKeepsForest(u, id);
    assert forall i :: 0 <= i < |u.nodes| ==> w.nodes[i] == u.nodes[i].(children := w.nodes[i].children);
    assert forall p :: Meta(w, p) == Meta(u, p);
    forall i | 0 <= i < |t.nodes|
      ensures NodeTouched(e, t.nodes[i], w.nodes[i]) && KidsTouched(t, w, e, i)
    {
      assert NodeTouched(e, t.nodes[i], u.nodes[i]) && KidsTouched(t, u, e, i);
      if i == id { assert u.nodes[i].path == e; }
    }
  }

  lemma {:induction false} DiscoverTouched(t: Tree, fs: Snapshot, rec: bool, e: Path)
    requires Forest(t) && e !in t.table && Up(e) in t.table && ForPath(fs, e).Some?
    ensures var r := Discover(t, t.table[Up(e)], ForPath(fs, e).value, Pending.PendingChange(e, CrawlFlags(rec)));
            && Touched(t, r.tree, e) && Synced(fs, rec, r.tree, e)
            && r.node == Some(|t.nodes|) && Known(r.tree, e) && r.tree.table[e] == |t.nodes|
            && Linked(r.tree, e)
  {
    hide Grow, ReserveDir, Descending, KidsBelow, Linked, Meta, Touched, Kids;
    var m := ForPath(fs, e).value;
    var parent := t.table[Up(e)];
    var deep := rec || t.nodes[parent].coverage == Recursive;
    var n := Node(e, MetaOf(m), m.inode, false, if deep then Recursive else Uncovered, None);
    GrowKids(t, Some(parent), n);
    GrowKeepsForest(t, Some(parent), n);
    GrowTouched(t, parent, n);
    NewIsSynced(t, Grow(t, Some(parent), n), fs, rec, e, n);
    if m.isDir && deep && m.size != 0 { ReserveTouched(t, Grow(t, Some(parent), n), fs, rec, e); }
    ReserveKnown(Grow(t, Some(parent), n), |t.nodes|);
  }

  lemma {:induction false} NewIsSynced(t: Tree, u: Tree, fs: Snapshot, rec: bool, e: Path, n: Node)
    requires e in fs && ForPath(fs, e).Some? && n.path == e && n.children.None?
    requires u.table == t.table[e := |t.nodes|] && |u.nodes| == |t.nodes| + 1 && u.nodes[|t.nodes|] == n
    requires var m := ForPath(fs, e).value;
             n.meta == MetaOf(m) && n.inode == m.inode && (rec ==> n.coverage == Recursive)
    ensures Synced(fs, rec, u, e) && Known(u, e)
  {
  }

  lemma {:induction false} ReserveKnown(u: Tree, id: NodeId)
    requires id < |u.nodes|
    ensures ReserveDir(u, id).table == u.table && |ReserveDir(u, id).nodes| == |u.nodes|
  {
  }

  lemma {:induction false} ApplyTouched(t: Tree, fs: Snapshot, rec: bool, e: Path)
    requires Forest(t) && e in fs && Up(e) in t.table
    ensures var r := ApplyChange(t, fs, Pending.PendingChange(e, CrawlFlags(rec)));
            && Touched(t, r.tree, e) && Synced(fs, rec, r.tree, e)
            && (r.node.None? <==> e !in t.table && fs[e].Special?)
            && (r.node.None? ==> r.tree == t && r.events == [])
            && (r.node.Some? ==> Known(r.tree, e) && r.node.value == r.tree.table[e])
            && (e !in t.table && r.node.Some? ==> Linked(r.tree, e))
  {
    if e in t.table {
      if ForPath(fs, e).Some? { RestatTouched(t, fs, rec, e); } else { VanishTouched(t, fs, rec, e); }
    } else if ForPath(fs, e).Some? {
      DiscoverTouched(t, fs, rec, e);
    }
  }

  /** Applying a walked entry: its node is in line with the snapshot and unflagged, and
      nothing that is not at or below it changes, except that its parent may gain it. */
  lemma {:induction false} AppliedTouched(t: Tree, fs: Snapshot, rec: bool, e: Path)
    requires Forest(t) && e in fs && Up(e) in t.table
    ensures var r := ApplyEntry(t, fs, rec, e);
            && Touched(t, r.tree, e) && Synced(fs, rec, r.tree, e)
            && (r.node.None? <==> e !in t.table && fs[e].Special?)
            && (r.node.None? ==> r.tree == t && r.events == [])
            && (r.node.Some? ==>
                Known(r.tree, e) && r.node.value == r.tree.table[e] && !r.tree.nodes[r.node.value].maybeDeleted)
            && (e !in t.table && r.node.Some? ==> Linked(r.tree, e))
  {
    var change := Pending.PendingChange(e, CrawlFlags(rec));
    var a := ApplyChange(t, fs, change);
    ApplyTouched(t, fs, rec, e);
    ApplyKeepsForest(t, fs, change);
    if a.node.Some? { UnflagTouched(t, a.tree, fs, rec, e, a.node.value); }
  }

  lemma {:induction false} UnflagIs(u: Tree, id: NodeId)
    requires id < |u.nodes|
    ensures var w := WithoutFlag(u, id);
            && w.table == u.table && |w.nodes| == |u.nodes|
            && (forall i :: 0 <= i < |u.nodes| && i != id ==> w.nodes[i] == u.nodes[i])
            && w.nodes[id] == u.nodes[id].(maybeDeleted := false)
            && (forall i :: Kids(w, i) == Kids(u, i))
            && (forall p :: Meta(w, p) == Meta(u, p))
            && (forall p :: Linked(w, p) <==> Linked(u, p))
  {
  }

  lemma {:induction false} UnflagTouched(t: Tree, u: Tree, fs: Snapshot, rec: bool, e: Path, id: NodeId)
    requires Forest(t) && Forest(u) && Touched(t, u, e) && Synced(fs, rec, u, e) && Known(u, e) && u.table[e] == id
    ensures Touched(t, WithoutFlag(u, id), e) && Synced(fs, rec, WithoutFlag(u, id), e)
    ensures Linked(u, e) ==> Linked(WithoutFlag(u, id), e)
  {
    var w := WithoutFlag(u, id);
    assert u.nodes[id].path == e;
    UnflagIs(u, id);
    hide Forest, WithoutFlag, Kids, Meta, Linked;
    forall i | 0 <= i < |t.nodes|
      ensures NodeTouched(e, t.nodes[i], w.nodes[i]) && KidsTouched(t, w, e, i)
    {
      assert NodeTouched(e, t.nodes[i], u.nodes[i]) && KidsTouched(t, u, e, i);
    }
  }

  lemma {:induction false} TouchedLinks(t: Tree, u: Tree, e: Path)
    requires Forest(t) && Forest(u) && Touched(t, u, e)
    ensures SameLinks(t, u)
  {
    hide NodeTouched, ListsOwned, KidsBelow, KidsTouched, Kids, Meta;
    forall p | p in t.table
      ensures Linked(u, p) <==> Linked(t, p)
    {
      TouchedLinksAt(t, u, e, p);
    }
  }

  lemma {:induction false} TouchedLinksAt(t: Tree, u: Tree, e: Path, p: Path)
    requires TableOk(t) && Descending(u) && TableOk(u) && Touched(t, u, e) && p in t.table
    ensures Linked(u, p) <==> Linked(t, p)
  {
    hide NodeTouched, Kids;
    assert u.table[p] == t.table[p] < |t.nodes|;
    if Up(p) in t.table {
      assert KidsTouched(t, u, e, t.table[Up(p)]);
    } else if Up(p) in u.table {
      NothingOlderListed(u, u.table[Up(p)], t.table[p]);
    }
  }

  lemma {:induction false} NothingOlderListed(u: Tree, i: NodeId, c: NodeId)
    requires Descending(u) && i < |u.nodes| && c < i
    ensures c !in Kids(u, i)
  {
  }

  lemma {:induction false} SameShapeSameLinks(t: Tree, u: Tree)
    requires SameShape(t, u) && Descending(t)
    ensures SameLinks(t, u)
    ensures forall p :: Linked(u, p) <==> Linked(t, p)
  {
    ShapeKeepsDescending(t, u);
  }

  /** Applying an entry changes the coverage of its own node, if the crawl is recursive. */
  ghost predicate CoversOnly(t: Tree, u: Tree, rec: bool, e: Path) {
    && |t.nodes| <= |u.nodes|
    && forall i :: 0 <= i < |t.nodes| ==>
         u.nodes[i].coverage == if rec && t.nodes[i].path == e then Recursive else t.nodes[i].coverage
  }

  lemma {:induction false} DiscoverCovers(t: Tree, fs: Snapshot, rec: bool, e: Path)
    requires Forest(t) && e !in t.table && Up(e) in t.table && ForPath(fs, e).Some?
    ensures CoversOnly(t,
                       Discover(t, t.table[Up(e)], ForPath(fs, e).value,
                                Pending.PendingChange(e, CrawlFlags(rec))).tree, rec, e)
  {
    hide Grow, ReserveDir, Descending, KidsBelow;
    var m := ForPath(fs, e).value;
    var parent := t.table[Up(e)];
    var deep := rec || t.nodes[parent].coverage == Recursive;
    GrowIs(t, Some(parent), Node(e, MetaOf(m), m.inode, false, if deep then Recursive else Uncovered, None));
    assert forall i :: 0 <= i < |t.nodes| ==> t.nodes[i].path in t.table;
  }

  lemma {:induction false} OnlyNode(t: Tree, e: Path)
    requires TableOk(t) && e in t.table
    ensures t.table[e] < |t.nodes| && forall i :: 0 <= i < |t.nodes| ==> (t.nodes[i].path == e <==> i == t.table[e])
  {
  }

  lemma {:induction false} ApplyCovers(t: Tree, fs: Snapshot, rec: bool, e: Path)
    requires Forest(t) && (e in t.table || Up(e) in t.table)
    ensures CoversOnly(t, ApplyEntry(t, fs, rec, e).tree, rec, e)
  {
    hide ListsOwned, Descending, KidsBelow, Restat, Vanish, Discover;
    var change := Pending.PendingChange(e, CrawlFlags(rec));
    ApplyNodeInArena(t, fs, change);
    var a := ApplyChange(t, fs, change);
    var m := ForPath(fs, e);
    assert CoversOnly(t, a.tree, rec, e) by {
      if e in t.table {
        OnlyNode(t, e);
        if m.Some? { RestatFacts(t, t.table[e], m.value, change); } else { VanishFacts(t, rec, e); }
      } else if m.Some? {
        DiscoverCovers(t, fs, rec, e);
      } else {
        NothingCovered(t, rec, e);
      }
    }
  }

  lemma {:induction false} NothingCovered(t: Tree, rec: bool, e: Path)
    requires TableOk(t) && e !in t.table
    ensures CoversOnly(t, t, rec, e)
  {
  }
}
