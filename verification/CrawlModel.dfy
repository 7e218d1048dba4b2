/** The crawl (src/tree.rs, `crawl`) as a value-level machine: a tree, the shared work
    stack, and what was emitted so far. Its input is the listing a directory walk
    yields, in pre-order. */
module CrawlModel {
  import opened Paths
  import opened Events
  import opened TreeModel
  import opened Deletion
  import Pending

  /** One item of a walk. Its depth is how much longer its path is than the root's. */
  datatype Entry = Entry(path: Path, isDir: bool)

  type Filter = (Path, Option<bool>) -> bool

  /** A directory being crawled, and its depth. */
  datatype Frame = Frame(node: NodeId, depth: nat)

  datatype Crawl = Crawl(tree: Tree, stack: seq<Frame>, events: seq<Event>, watches: seq<Path>)

  // ------------------------------------------------------------------- flags

  function WithFlag(t: Tree, ids: seq<NodeId>): (r: Tree)
    ensures SameShape(t, r)
  {
    t.(nodes := seq(|t.nodes|, i requires 0 <= i < |t.nodes| =>
                      if i in ids then t.nodes[i].(maybeDeleted := true) else t.nodes[i]))
  }

  function WithoutFlag(t: Tree, id: NodeId): (r: Tree)
    requires id < |t.nodes|
    ensures SameShape(t, r)
  {
    SetNode(t, id, t.nodes[id].(maybeDeleted := false))
  }

  // ------------------------------------------------------------------- sweep

  function SweepOne(t: Tree, c: NodeId): (r: Cut)
    requires Descending(t) && c < |t.nodes|
    ensures SameButMeta(t, r.tree) && Descending(r.tree)
  {
    if t.nodes[c].maybeDeleted then
      var cut := DeleteRec(t, c);
      Cut(cut.tree, OwnEvent(t, c) + cut.events)
    else Cut(t, [])
  }

  ghost predicate InArena(t: Tree, ids: seq<NodeId>) {
    forall k :: 0 <= k < |ids| ==> ids[k] < |t.nodes|
  }

  function Sweep(t: Tree, ids: seq<NodeId>): (r: Cut)
    requires Descending(t) && InArena(t, ids)
    ensures SameButMeta(t, r.tree) && Descending(r.tree)
    decreases |ids|
  {
    if ids == [] then Cut(t, [])
    else
      var first := SweepOne(t, ids[0]);
      var rest := Sweep(first.tree, ids[1..]);
      Cut(rest.tree, first.events + rest.events)
  }

  // ------------------------------------------------------------------- frames

  /** Every frame is a node with a child list, so looking its list up is safe. */
  ghost predicate Listed(t: Tree, stack: seq<Frame>) {
    forall k :: 0 <= k < |stack| ==> stack[k].node < |t.nodes| && t.nodes[stack[k].node].children.Some?
  }

  function PopFrame(c: Crawl): (r: Crawl)
    requires Forest(c.tree) && Listed(c.tree, c.stack) && c.stack != []
    ensures Forest(r.tree) && Listed(r.tree, r.stack) && SameButMeta(c.tree, r.tree)
  {
    var top := c.stack[|c.stack| - 1];
    var swept := Sweep(c.tree, Kids(c.tree, top.node));
    ShapeKeepsForest(c.tree, swept.tree);
    Crawl(swept.tree, c.stack[..|c.stack| - 1], c.events + swept.events, c.watches)
  }

  /** Finishes every frame at or below `depth`. */
  function PopWhile(c: Crawl, depth: nat): (r: Crawl)
    requires Forest(c.tree) && Listed(c.tree, c.stack)
    ensures Forest(r.tree) && Listed(r.tree, r.stack) && SameButMeta(c.tree, r.tree)
    ensures |r.stack| <= |c.stack| && r.watches == c.watches
    decreases |c.stack|
  {
    if c.stack == [] || c.stack[|c.stack| - 1].depth < depth then c
    else
      var d := PopFrame(c);
      var r := PopWhile(d, depth);
      SameTransitive(c.tree, d.tree, r.tree);
      r
  }

  lemma {:induction false} SameTransitive(t: Tree, u: Tree, w: Tree)
    requires SameButMeta(t, u) && SameButMeta(u, w)
    ensures SameButMeta(t, w)
  {
  }

  /** Starts a frame for `id`: all its children count as deleted until visited. */
  function PushFrame(c: Crawl, id: NodeId, depth: nat): (r: Crawl)
    requires Forest(c.tree) && Listed(c.tree, c.stack)
    requires id < |c.tree.nodes|
    ensures Forest(r.tree) && Listed(r.tree, r.stack) && SameShape(c.tree, r.tree)
  {
    if c.tree.nodes[id].children.Some? then
      var flagged := WithFlag(c.tree, Kids(c.tree, id));
      ShapeKeepsForest(c.tree, flagged);
      c.(tree := flagged, stack := c.stack + [Frame(id, depth)])
    else c
  }

  lemma {:induction false} PopFrameIs(c: Crawl)
    requires Forest(c.tree) && Listed(c.tree, c.stack) && c.stack != []
    ensures var node := c.stack[|c.stack| - 1].node; var kids := Kids(c.tree, node);
            && node < |c.tree.nodes| && c.tree.nodes[node].children.Some?
            && c.tree.nodes[node].children.value < |c.tree.dirs|
               && kids == c.tree.dirs[c.tree.nodes[node].children.value]
            && Descending(c.tree) && InArena(c.tree, kids)
            && PopFrame(c)
               == Crawl(Sweep(c.tree, kids).tree, c.stack[..|c.stack| - 1], c.events + Sweep(c.tree, kids).events,
                        c.watches)
            && Forest(PopFrame(c).tree) && Listed(PopFrame(c).tree, PopFrame(c).stack)
  {
  }

  lemma {:induction false} PopWhileIs(c: Crawl, depth: nat)
    requires Forest(c.tree) && Listed(c.tree, c.stack)
    ensures PopWhile(c, depth)
         == if c.stack == [] || c.stack[|c.stack| - 1].depth < depth then c else PopWhile(PopFrame(c), depth)
  {
    hide Forest, Listed, PopFrame, SameButMeta;
  }

  lemma {:induction false} PushFrameIs(c: Crawl, id: NodeId, depth: nat)
    requires Forest(c.tree) && Listed(c.tree, c.stack) && id < |c.tree.nodes|
    ensures var r := PushFrame(c, id, depth);
            && r.watches == c.watches && r.events == c.events && SameShape(c.tree, r.tree)
            && (c.tree.nodes[id].children.None? ==> r == c)
            && (c.tree.nodes[id].children.Some? ==> r.stack == c.stack + [Frame(id, depth)])
            && (forall i :: 0 <= i < |c.tree.nodes| ==>
                r.tree.nodes[i] == c.tree.nodes[i].(maybeDeleted := r.tree.nodes[i].maybeDeleted))
            && (forall i :: 0 <= i < |c.tree.nodes| ==>
                r.tree.nodes[i].maybeDeleted == (i in Kids(c.tree, id) || c.tree.nodes[i].maybeDeleted))
  {
  }

  // -------------------------------------------------------------------- visit

  function CrawlFlags(recursive: bool): Pending.Flags {
    Pending.Flags(true, false, recursive, false)
  }

  /** The tree after applying one walked entry; the flag of its node is cleared. */
  function ApplyEntry(t: Tree, fs: Snapshot, recursive: bool, path: Path): (r: Applied)
    requires Forest(t)
    ensures Forest(r.tree)
    ensures r.node.Some? ==> r.node.value < |r.tree.nodes|
  {
    ApplyKeepsForest(t, fs, Pending.PendingChange(path, CrawlFlags(recursive)));
    var a := ApplyChange(t, fs, Pending.PendingChange(path, CrawlFlags(recursive)));
    ApplyNodeInArena(t, fs, Pending.PendingChange(path, CrawlFlags(recursive)));
    if a.node.None? then a
    else
      ShapeKeepsForest(a.tree, WithoutFlag(a.tree, a.node.value));
      a.(tree := WithoutFlag(a.tree, a.node.value))
  }

  lemma {:induction false} ApplyNodeInArena(t: Tree, fs: Snapshot, change: Pending.PendingChange)
    requires Forest(t)
    ensures var a := ApplyChange(t, fs, change);
            && |a.tree.nodes| >= |t.nodes|
            && (a.node.Some? ==> a.node.value < |a.tree.nodes|)
            && (forall i :: 0 <= i < |t.nodes| && t.nodes[i].children.Some? ==>
                a.tree.nodes[i].children == t.nodes[i].children)
            && (a.node.None? ==> a.tree == t && a.events == [])
  {
    hide TableOk, ListsOwned, Descending, KidsBelow, Restat, Vanish, Discover;
    var m := ForPath(fs, change.path);
    if change.path in t.table {
      assert t.table[change.path] < |t.nodes| by { IndexInArena(t, change.path); }
      if m.Some? {
        RestatInArena(t, t.table[change.path], m.value, change);
      } else {
        VanishInArena(t, t.table[change.path], change);
      }
    } else if m.Some? && Up(change.path) in t.table {
      assert t.table[Up(change.path)] < |t.nodes| by { IndexInArena(t, Up(change.path)); }
      DiscoverInArena(t, t.table[Up(change.path)], m.value, change);
    }
  }

  lemma {:induction false} IndexInArena(t: Tree, p: Path)
    requires TableOk(t) && p in t.table
    ensures t.table[p] < |t.nodes|
  {
  }

  lemma {:induction false} RestatInArena(t: Tree, id: NodeId, m: Metadata, change: Pending.PendingChange)
    requires id < |t.nodes|
    ensures var a := Restat(t, id, m, change);
            && |a.tree.nodes| == |t.nodes| && a.node == Some(id)
            && (forall i :: 0 <= i < |t.nodes| && t.nodes[i].children.Some? ==>
                a.tree.nodes[i].children == t.nodes[i].children)
  {
  }

  lemma {:induction false} VanishInArena(t: Tree, id: NodeId, change: Pending.PendingChange)
    requires Forest(t) && id < |t.nodes|
    ensures var a := Vanish(t, id, change);
            && |a.tree.nodes| == |t.nodes| && a.node == Some(id)
            && (forall i :: 0 <= i < |t.nodes| && t.nodes[i].children.Some? ==>
                a.tree.nodes[i].children == t.nodes[i].children)
  {
  }

  lemma {:induction false} DiscoverInArena(t: Tree, parent: NodeId, m: Metadata, change: Pending.PendingChange)
    requires ListsOwned(t) && parent < |t.nodes|
    ensures var a := Discover(t, parent, m, change);
            && |a.tree.nodes| == |t.nodes| + 1 && a.node == Some(|t.nodes|)
            && (forall i :: 0 <= i < |t.nodes| && t.nodes[i].children.Some? ==>
                a.tree.nodes[i].children == t.nodes[i].children)
  {
    var recursive := change.flags.markRecursive || t.nodes[parent].coverage == Recursive;
    GrowIs(t, Some(parent),
           Node(change.path, MetaOf(m), m.inode, false, if recursive then Recursive else Uncovered, None));
  }

  lemma {:induction false} ApplyKeepsListed(t: Tree, fs: Snapshot, recursive: bool, path: Path, stack: seq<Frame>)
    requires Forest(t) && Listed(t, stack)
    ensures Listed(ApplyEntry(t, fs, recursive, path).tree, stack)
  {
    ApplyNodeInArena(t, fs, Pending.PendingChange(path, CrawlFlags(recursive)));
  }

  function Enter(c: Crawl, id: NodeId, path: Path, depth: nat, recursive: bool): (r: Crawl)
    requires Forest(c.tree) && Listed(c.tree, c.stack) && id < |c.tree.nodes|
    ensures Forest(r.tree) && Listed(r.tree, r.stack)
  {
    if c.tree.nodes[id].meta.Dir? && recursive
    then PushFrame(c.(watches := c.watches + [path]), id, depth)
    else c
  }

  function Visit(c: Crawl, fs: Snapshot, recursive: bool, path: Path, depth: nat): (r: Crawl)
    requires Forest(c.tree) && Listed(c.tree, c.stack)
    ensures Forest(r.tree) && Listed(r.tree, r.stack)
  {
    ApplyKeepsListed(c.tree, fs, recursive, path, c.stack);
    var a := ApplyEntry(c.tree, fs, recursive, path);
    var applied := Crawl(a.tree, c.stack, c.events + a.events, c.watches);
    if a.node.None? then applied
    else Enter(PopWhile(applied, depth), a.node.value, path, depth, recursive)
  }

  // --------------------------------------------------------------------- walk

  function DepthOf(root: Path, p: Path): nat {
    if |root| <= |p| then |p| - |root| else 0
  }

  /** What a walk limited to depth one yields. */
  function Shallow(root: Path, walk: seq<Entry>): seq<Entry> {
    if walk == [] then []
    else (if DepthOf(root, walk[0].path) <= 1 then [walk[0]] else []) + Shallow(root, walk[1..])
  }

  /** A walk stops at depth one unless the root is recursive. */
  function RootWalk(recursive: bool, root: Path, walk: seq<Entry>): seq<Entry> {
    if recursive then walk else Shallow(root, walk)
  }

  /** `skip_current_dir` after a directory: drop what lies deeper. */
  function SkipDir(walk: seq<Entry>, dir: Path): (r: seq<Entry>)
    ensures |r| <= |walk|
  {
    if walk != [] && |walk[0].path| > |dir| then SkipDir(walk[1..], dir) else walk
  }

  function RunWalk(c: Crawl, fs: Snapshot, filter: Filter, recursive: bool, root: Path, walk: seq<Entry>): (r: Crawl)
    requires Forest(c.tree) && Listed(c.tree, c.stack)
    ensures Forest(r.tree) && Listed(r.tree, r.stack)
    decreases |walk|
  {
    if walk == [] then c
    else
      var e := walk[0];
      if filter(e.path, Some(e.isDir)) then
        RunWalk(c, fs, filter, recursive, root, if e.isDir then SkipDir(walk[1..], e.path) else walk[1..])
      else
        RunWalk(Visit(c, fs, recursive, e.path, DepthOf(root, e.path)), fs, filter, recursive, root, walk[1..])
  }

  function Start(t: Tree, root: NodeId, stack: seq<Frame>): (r: Crawl)
    requires Forest(t) && root < |t.nodes| && Listed(t, stack)
    ensures Forest(r.tree) && Listed(r.tree, r.stack)
  {
    PushFrame(Crawl(t, stack, [], [t.nodes[root].path]), root, 0)
  }

  /** The whole crawl of `root`. */
  function RunCrawl(t: Tree, fs: Snapshot, filter: Filter, root: NodeId, stack: seq<Frame>,
                    walk: seq<Entry>): (r: Crawl)
    requires Forest(t) && root < |t.nodes| && Listed(t, stack)
    ensures Forest(r.tree) && Listed(r.tree, r.stack)
  {
    var recursive := t.nodes[root].coverage == Recursive;
    var path := t.nodes[root].path;
    PopWhile(RunWalk(Start(t, root, stack), fs, filter, recursive, path, RootWalk(recursive, path, walk)), 0)
  }
}
