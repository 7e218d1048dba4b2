/** What one change (src/tree.rs, `apply_change`) does at its own path, and what a change with
    the crawl it may ask for asks to watch: for every tree, snapshot and flags. */
module Changed {
  import opened Paths
  import opened Events
  import opened TreeModel
  import opened CrawlModel
  import opened CrawlStructure
  import opened CrawlClaims
  import opened CrawlResult
  import opened Filters
  import opened Transactions
  import opened Skipping
  import opened Adding
  import opened Order
  import Pending

  // --------------------------------------------------------- what there is to say

  /** What the change reports at its own path: a file that is new, gone, or different. One that
      a backend says has changed counts as different, whatever its time and size say. */
  ghost function OwnReport(t: Tree, fs: Snapshot, change: Pending.PendingChange): seq<EventType> {
    var p := change.path;
    if p in fs && fs[p].Regular? then
      if IsFile(t, p) then
        (if change.flags.originWatcher || Differs(t, fs, p) then [Modified] else [])
      else if p in t.table || Up(p) in t.table then [Create] else []
    else if IsFile(t, p) then [Delete] else []
  }

  /** The file is another one, or its time or size is. */
  ghost predicate Differs(t: Tree, fs: Snapshot, p: Path)
    requires p in fs && fs[p].Regular?
  {
    Inode(t, p) != fs[p].inode || Meta(t, p) != File(fs[p].mtime, fs[p].size)
  }

  /** How the node is covered afterwards, if there is one. */
  ghost function CoverageThen(t: Tree, change: Pending.PendingChange): Coverage {
    var p := change.path;
    if change.flags.markRecursive then Recursive
    else if p in t.table then CoverageOf(t, p)
    else if CoverageOf(t, Up(p)) == Recursive then Recursive
    else Uncovered
  }

  /** Whether what lies below is to be looked at: always if nothing is there or nothing can be
      added; for a node that is still there, if it is watched and a crawl is asked for, its
      inode differs, or a file appeared; for a new one, if it is covered recursively. */
  ghost predicate Recurses(t: Tree, fs: Snapshot, change: Pending.PendingChange) {
    var p := change.path;
    if ForPath(fs, p).None? then true
    else if p in t.table then
      && CoverageThen(t, change) != Uncovered
      && (change.flags.recursiveCrawl || change.flags.nonRecursiveCrawl
          || Inode(t, p) != ForPath(fs, p).value.inode || (fs[p].Regular? && !IsFile(t, p)))
    else Up(p) !in t.table || CoverageThen(t, change) == Recursive
  }

  /** The change leaves a node at its path. */
  ghost predicate Stands(t: Tree, fs: Snapshot, p: Path) {
    p in t.table || (ForPath(fs, p).Some? && Up(p) in t.table)
  }

  /** The node at the path of the change, in line with the snapshot. */
  ghost predicate StandsAs(t: Tree, u: Tree, fs: Snapshot, change: Pending.PendingChange) {
    var p, m := change.path, ForPath(fs, change.path);
    && Known(u, p) && u.table[p] == (if p in t.table then t.table[p] else |t.nodes|)
    && Meta(u, p) == (if m.Some? then MetaOf(m.value) else Deleted)
    && Inode(u, p) == (if m.Some? then m.value.inode else Inode(t, p))
    && CoverageOf(u, p) == CoverageThen(t, change)
    && KidsAt(u, p) == KidsAt(t, p)
    && (u.nodes[u.table[p]].maybeDeleted <==> Known(t, p) && t.nodes[t.table[p]].maybeDeleted)
    && (HasList(u, p) <==> HasList(t, p)
                           || (m.Some? && m.value.isDir && m.value.size != 0 && CoverageThen(t, change) != Uncovered))
    && (Linked(u, p) <==> p !in t.table || Linked(t, p))
  }

  /** At another path nothing changes, but for the end of the parent's list if the node is new,
      and for what hung from a directory that is gone. */
  ghost predicate OtherAs(t: Tree, u: Tree, fs: Snapshot, p: Path, q: Path) {
    && Meta(u, q) == (if Takes(t, fs, p, q) then Deleted else Meta(t, q))
    && (q in u.table <==> q in t.table)
    && (Known(t, q) ==> Known(u, q) && u.table[q] == t.table[q]
                        && KindAside(u.nodes[u.table[q]]) == KindAside(t.nodes[t.table[q]]))
    && KidsAt(u, q) == KidsAt(t, q) + (if Stands(t, fs, p) then Gained(t, p, q) else [])
    && (HasList(u, q) <==> HasList(t, q) || (Stands(t, fs, p) && Gained(t, p, q) != []))
  }

  function KindAside(n: Node): Node {
    n.(meta := Deleted, children := None)
  }

  // -------------------------------------------------------------------- the three cases

  lemma {:induction false} RestatStands(t: Tree, fs: Snapshot, change: Pending.PendingChange)
    requires Forest(t) && change.path in t.table && ForPath(fs, change.path).Some?
    ensures StandsAs(t, ApplyChange(t, fs, change).tree, fs, change)
  {
    var p, id := change.path, t.table[change.path];
    var u := ApplyChange(t, fs, change).tree;
    RestatKeepsKids(t, id, ForPath(fs, p).value, change);
    assert t.nodes[id].path == p && u.table == t.table;
    if Up(p) in t.table { assert t.nodes[t.table[Up(p)]].path == Up(p); }
    hide Forest, Kids;
  }

  /** Nothing but the node itself. */
  lemma {:induction false} RestatKeepsKids(t: Tree, id: NodeId, m: Metadata, change: Pending.PendingChange)
    requires Forest(t) && id < |t.nodes|
    ensures var u := Restat(t, id, m, change).tree;
            && u.table == t.table && |u.nodes| == |t.nodes|
            && (forall i :: 0 <= i < |t.nodes| ==> Kids(u, i) == Kids(t, i))
            && (forall i :: 0 <= i < |t.nodes| && i != id ==> u.nodes[i] == t.nodes[i])
  {
    var u := Restat(t, id, m, change).tree;
    assert forall i :: 0 <= i < |t.nodes| && i != id ==> u.nodes[i] == t.nodes[i];
    forall i | 0 <= i < |t.nodes|
      ensures Kids(u, i) == Kids(t, i)
    {
    }
  }

  /** Only kinds differ away from `p`, which is known. */
  lemma {:induction false} SameNodesOther(t: Tree, u: Tree, fs: Snapshot, p: Path, q: Path)
    requires p in t.table && u.table == t.table && |u.nodes| == |t.nodes|
    requires forall i :: 0 <= i < |t.nodes| && i != t.table[p] ==> u.nodes[i] == t.nodes[i].(meta := u.nodes[i].meta)
    requires forall i :: 0 <= i < |t.nodes| ==> Kids(u, i) == Kids(t, i)
    requires Meta(u, q) == if Takes(t, fs, p, q) then Deleted else Meta(t, q)
    requires q in t.table ==> t.table[q] < |t.nodes| && t.table[q] != t.table[p]
    ensures OtherAs(t, u, fs, p, q)
  {
    hide Kids, Takes, Meta;
  }

  lemma {:induction false} RestatOther(t: Tree, fs: Snapshot, change: Pending.PendingChange, q: Path)
    requires Forest(t) && change.path in t.table && ForPath(fs, change.path).Some? && q != change.path
    ensures OtherAs(t, ApplyChange(t, fs, change).tree, fs, change.path, q)
  {
    hide ListsOwned, Descending, KidsBelow, Kids, Restat, Takes, OtherAs;
    var p := change.path;
    RestatKeepsKids(t, t.table[p], ForPath(fs, p).value, change);
    NothingTaken(t, fs, p, q);
    if q in t.table { assert t.nodes[t.table[q]].path == q && t.nodes[t.table[p]].path == p; }
    assert Meta(ApplyChange(t, fs, change).tree, q) == Meta(t, q);
    hide Forest, Meta;
    SameNodesOther(t, ApplyChange(t, fs, change).tree, fs, p, q);
  }

  lemma {:induction false} VanishKeepsNodes(t: Tree, change: Pending.PendingChange)
    requires Forest(t) && change.path in t.table
    ensures var id := t.table[change.path]; var u := Vanish(t, id, change).tree;
            && id < |t.nodes| && u.table == t.table && u.dirs == t.dirs && |u.nodes| == |t.nodes|
            && (forall i :: 0 <= i < |t.nodes| && i != id ==> u.nodes[i] == t.nodes[i].(meta := u.nodes[i].meta))
            && u.nodes[id] == t.nodes[id].(
                 meta := Deleted, coverage := if change.flags.markRecursive then Recursive else t.nodes[id].coverage)
            && (forall i :: Kids(u, i) == Kids(t, i))
  {
    VanishedNode(t, change);
    hide DeleteRec;
  }

  lemma {:induction false} VanishStands(t: Tree, fs: Snapshot, change: Pending.PendingChange)
    requires Forest(t) && change.path in t.table && ForPath(fs, change.path).None?
    ensures StandsAs(t, ApplyChange(t, fs, change).tree, fs, change)
  {
    var p := change.path;
    VanishKeepsNodes(t, change);
    if Up(p) in t.table { assert t.nodes[t.table[Up(p)]].path == Up(p); }
    hide Forest, Kids, Vanish;
  }

  lemma {:induction false} VanishOther(t: Tree, fs: Snapshot, change: Pending.PendingChange, q: Path)
    requires Forest(t) && change.path in t.table && ForPath(fs, change.path).None? && q != change.path
    ensures OtherAs(t, ApplyChange(t, fs, change).tree, fs, change.path, q)
  {
    hide ListsOwned, Descending, KidsBelow, Kids, Vanish, Takes, Meta, OtherAs;
    VanishKeepsNodes(t, change);
    ChangeBelow(t, fs, change, q);
    if q in t.table { assert t.nodes[t.table[q]].path == q && t.nodes[t.table[change.path]].path == change.path; }
    hide Forest;
    SameNodesOther(t, ApplyChange(t, fs, change).tree, fs, change.path, q);
  }

  lemma {:induction false} DiscoverIsNew(t: Tree, fs: Snapshot, change: Pending.PendingChange)
    requires Forest(t) && change.path != [] && change.path !in t.table
    requires ForPath(fs, change.path).Some? && Up(change.path) in t.table
    ensures var p, m := change.path, ForPath(fs, change.path).value;
            NewAt(t, ApplyChange(t, fs, change).tree,
                  Node(p, MetaOf(m), m.inode, false, CoverageThen(t, change), None),
                  m.isDir && m.size != 0 && CoverageThen(t, change) != Uncovered)
  {
    var p, m := change.path, ForPath(fs, change.path).value;
    var parent := t.table[Up(p)];
    var n := Node(p, MetaOf(m), m.inode, false, CoverageThen(t, change), None);
    GrowKeepsForest(t, Some(parent), n);
    GrownExtends(t, Some(parent), n);
    var u := Grow(t, Some(parent), n);
    var list := m.isDir && m.size != 0 && CoverageThen(t, change) != Uncovered;
    assert ApplyChange(t, fs, change).tree == if list then ReserveDir(u, |t.nodes|) else u;
    hide Forest, NewAt, Grow, ReserveDir, Extends, ApplyChange;
    ReservedExtends(t, u, Some(parent), n);
    if list {
      ExtendsIsNew(t, ReserveDir(u, |t.nodes|), n, true);
    } else {
      ExtendsIsNew(t, u, n, false);
    }
  }

  lemma {:induction false} StaysIsOther(t: Tree, u: Tree, fs: Snapshot, p: Path, q: Path)
    requires Forest(t) && StaysAt(t, u, p, q) && Stands(t, fs, p) && ForPath(fs, p).Some?
    ensures OtherAs(t, u, fs, p, q)
  {
    NothingTaken(t, fs, p, q);
    assert Known(t, q) ==> t.table[q] < |t.nodes|;
    hide KidsAt, Takes, Gained, HasList;
  }

  lemma {:induction false} NewStands(t: Tree, u: Tree, fs: Snapshot, change: Pending.PendingChange)
    requires Forest(t) && change.path !in t.table && ForPath(fs, change.path).Some? && Up(change.path) in t.table
    requires var p, m := change.path, ForPath(fs, change.path).value;
             NewAt(t, u, Node(p, MetaOf(m), m.inode, false, CoverageThen(t, change), None),
                   m.isDir && m.size != 0 && CoverageThen(t, change) != Uncovered)
    ensures StandsAs(t, u, fs, change)
  {
    hide RestStays, Kids, Linked, Forest;
  }

  lemma {:induction false} NewLeavesOthers(t: Tree, u: Tree, fs: Snapshot, n: Node, list: bool)
    requires Forest(t) && Stands(t, fs, n.path) && ForPath(fs, n.path).Some? && NewAt(t, u, n, list)
    ensures forall q :: q != n.path ==> OtherAs(t, u, fs, n.path, q)
  {
    hide Forest, OtherAs, StaysAt, Kids, Linked;
    forall q | q != n.path
      ensures OtherAs(t, u, fs, n.path, q)
    {
      StaysIsOther(t, u, fs, n.path, q);
    }
  }

  // --------------------------------------------------------------------- one change

  /** The node a change leaves at its own path, and everywhere else what was there. */
  ghost predicate ChangedAs(t: Tree, fs: Snapshot, change: Pending.PendingChange, a: Applied) {
    && a.recurse == Recurses(t, fs, change)
    && (if Stands(t, fs, change.path) then
          && StandsAs(t, a.tree, fs, change) && a.node == Some(a.tree.table[change.path])
          && forall q :: q != change.path ==> OtherAs(t, a.tree, fs, change.path, q)
        else a.tree == t && a.node == None)
    && At(a.events, change.path) == OwnReport(t, fs, change)
  }

  lemma {:induction false} TreeIs(t: Tree, fs: Snapshot, change: Pending.PendingChange)
    requires Forest(t) && change.path != []
    ensures var u := ApplyChange(t, fs, change).tree;
            if Stands(t, fs, change.path) then
              StandsAs(t, u, fs, change) && forall q :: q != change.path ==> OtherAs(t, u, fs, change.path, q)
            else u == t
  {
    hide Forest, StandsAs, OtherAs, NewAt, Vanish, Restat, Discover;
    var p := change.path;
    if Stands(t, fs, p) {
      if p !in t.table {
        DiscoverIsNew(t, fs, change);
        NewStands(t, ApplyChange(t, fs, change).tree, fs, change);
        var m := ForPath(fs, p).value;
        NewLeavesOthers(t, ApplyChange(t, fs, change).tree, fs,
                        Node(p, MetaOf(m), m.inode, false, CoverageThen(t, change), None),
                        m.isDir && m.size != 0 && CoverageThen(t, change) != Uncovered);
      } else if ForPath(fs, p).Some? {
        RestatStands(t, fs, change);
        forall q | q != p
          ensures OtherAs(t, ApplyChange(t, fs, change).tree, fs, p, q)
        {
          RestatOther(t, fs, change, q);
        }
      } else {
        VanishStands(t, fs, change);
        forall q | q != p
          ensures OtherAs(t, ApplyChange(t, fs, change).tree, fs, p, q)
        {
          VanishOther(t, fs, change, q);
        }
      }
    }
  }

  lemma {:induction false} OwnEvents(t: Tree, fs: Snapshot, change: Pending.PendingChange)
    requires Forest(t)
    ensures At(ApplyChange(t, fs, change).events, change.path) == OwnReport(t, fs, change)
  {
    var p := change.path;
    var a := ApplyChange(t, fs, change);
    if p in t.table {
      assert t.table[p] < |t.nodes|;
      if ForPath(fs, p).None? {
        hide Forest, Vanish;
        VanishAt(t, change, p);
      } else {
        SingleAt(a.events, p);
      }
    } else if ForPath(fs, p).Some? && Up(p) in t.table {
      assert t.table[Up(p)] < |t.nodes|;
      SingleAt(a.events, p);
    }
  }

  lemma {:induction false} NodeIs(t: Tree, fs: Snapshot, change: Pending.PendingChange)
    requires Forest(t)
    ensures var a := ApplyChange(t, fs, change); var p := change.path;
            && a.recurse == Recurses(t, fs, change)
            && a.node == if !Stands(t, fs, p) then None else if p in t.table then Some(t.table[p]) else Some(|t.nodes|)
  {
    hide DeleteRec, Grow, ReserveDir;
  }

  /** A change, for every tree, snapshot and flags: what it reports at its own path, which
      node it leaves there, whether what lies below is to be looked at, and that all other
      nodes stay as they are, but for what hung from a directory that is gone. */
  lemma {:induction false} ChangeIs(t: Tree, fs: Snapshot, change: Pending.PendingChange)
    requires Forest(t) && change.path != []
    ensures ChangedAs(t, fs, change, ApplyChange(t, fs, change))
  {
    hide Forest, ApplyChange, OtherAs, OwnReport, Recurses;
    TreeIs(t, fs, change);
    OwnEvents(t, fs, change);
    NodeIs(t, fs, change);
  }

  // ---------------------------------------------------------------- the crawl after it

  /** A change is followed by a crawl exactly if it asks for one, a directory that is not
      ignored itself is there, and the tree knows it or its parent. */
  lemma {:induction false} CrawlsIff(t: Tree, fs: Snapshot, filter: Filter, change: Pending.PendingChange)
    requires Forest(t) && change.path != []
    ensures var p := change.path;
            Crawls(t, fs, filter, change)
            <==> p in fs && fs[p].Directory? && Stands(t, fs, p) && Recurses(t, fs, change) && !filter(p, Some(true))
  {
    hide ApplyChange, OtherAs, OwnReport, Recurses, Forest;
    ChangeIs(t, fs, change);
  }

  /** The path is asked to be watched when the change is applied: the directory itself if it is
      crawled, and every directory that a recursive crawl sees. */
  ghost predicate Asked(t: Tree, fs: Snapshot, filter: Filter, change: Pending.PendingChange, p: Path)
    requires Forest(t)
  {
    Crawls(t, fs, filter, change)
    && (p == change.path || (Deep(t, change) && VisibleDir(CrawlScope(t, fs, filter, change), p)))
  }

  /** One change with the crawl it may ask for: what it reports at its own path, and exactly
      what it asks to watch. */
  lemma {:induction false} OneIs(t: Tree, fs: Snapshot, filter: Filter, walker: Walker, change: Pending.PendingChange,
                                 p: Path)
    requires Forest(t) && (Crawls(t, fs, filter, change) ==> Lists(fs, change.path, walker(change.path)))
    ensures var one := ApplyOne(t, fs, filter, walker, change);
            && At(one.events, change.path) == OwnReport(t, fs, change)
            && (p in one.watches <==> Asked(t, fs, filter, change, p))
            && one.recurse == Recurses(t, fs, change)
  {
    OwnEvents(t, fs, change);
    NodeIs(t, fs, change);
    hide Forest, ApplyChange, RunCrawl, Lists, OwnReport, Recurses, Deep;
    if Crawls(t, fs, filter, change) {
      OneCrawls(t, fs, filter, walker, change, p);
    }
  }

  lemma {:induction false} OneCrawls(t: Tree, fs: Snapshot, filter: Filter, walker: Walker,
                                     change: Pending.PendingChange, p: Path)
    requires Forest(t) && Crawls(t, fs, filter, change) && Lists(fs, change.path, walker(change.path))
    ensures var one := ApplyOne(t, fs, filter, walker, change);
            && At(one.events, change.path) == At(ApplyChange(t, fs, change).events, change.path)
            && (p in one.watches <==> Asked(t, fs, filter, change, p)) && one.recurse
  {
    hide Forest, ApplyChange, RunCrawl, Lists, Deep, ApplyOne, Crawls, Visible, Swept;
    CrawlIsOf(t, fs, filter, walker, change);
    WatchesOfCrawl(t, fs, filter, walker, change);
    var a := ApplyChange(t, fs, change);
    var s := CrawlScope(t, fs, filter, change);
    var walk := walker(change.path);
    CrawlReports(a.tree, fs, filter, a.node.value, walk, change.path);
    OnlyBelowRoot(s, a.tree, change.path);
    AtAppend(a.events, RunCrawl(a.tree, fs, filter, a.node.value, [], walk).events, change.path);
    CrawlResynchronises(a.tree, fs, filter, a.node.value, walk, p);
  }

  lemma {:induction false} WatchesOfCrawl(t: Tree, fs: Snapshot, filter: Filter, walker: Walker,
                                          change: Pending.PendingChange)
    requires Forest(t) && Crawls(t, fs, filter, change)
    ensures var a := ApplyChange(t, fs, change);
            && Forest(a.tree) && a.node.Some? && a.node.value < |a.tree.nodes|
            && ApplyOne(t, fs, filter, walker, change).watches
               == RunCrawl(a.tree, fs, filter, a.node.value, [], walker(change.path)).watches
  {
    hide ListsOwned, Descending, KidsBelow, RunCrawl, DeleteRec;
    ApplyKeepsForest(t, fs, change);
    ApplyNodeInArena(t, fs, change);
    NodeOfChange(t, fs, change);
  }

  /** And what it leaves: everything that its crawl sees is known as the snapshot has it. */
  lemma {:induction false} OneLeaves(t: Tree, fs: Snapshot, filter: Filter, walker: Walker,
                                     change: Pending.PendingChange, p: Path)
    requires Forest(t) && Crawls(t, fs, filter, change) && Lists(fs, change.path, walker(change.path))
    requires Visible(CrawlScope(t, fs, filter, change), p).Some?
    ensures Synced(fs, Deep(t, change), ApplyOne(t, fs, filter, walker, change).tree, p)
  {
    hide Forest, ApplyChange, RunCrawl, Lists, Deep, ApplyOne, Crawls, Visible, Synced;
    CrawlIsOf(t, fs, filter, walker, change);
    var a := ApplyChange(t, fs, change);
    CrawlResynchronises(a.tree, fs, filter, a.node.value, walker(change.path), p);
  }

  // ------------------------------------------------------------------- a transaction

  lemma {:induction false} OneReports(t: Tree, fs: Snapshot, filter: Filter, walker: Walker,
                                      change: Pending.PendingChange, p: Path)
    requires Forest(t) && Listings(fs, walker)
    ensures var one := ApplyOne(t, fs, filter, walker, change);
            && At(one.events, change.path) == OwnReport(t, fs, change)
            && (p in one.watches <==> Asked(t, fs, filter, change, p))
  {
    hide Forest, ApplyOne, ListsAt, Crawls, OwnReport, Asked;
    assert ListsAt(fs, walker, change.path);
    ListedWhereCrawled(t, fs, filter, walker, change);
    OneIs(t, fs, filter, walker, change, p);
  }

  /** The change is processed, finds its path as it was at the start, and what the transaction
      reports there is what this change does. */
  ghost predicate ReportsOwn(t: Tree, fs: Snapshot, filter: Filter, walker: Walker,
                             changes: seq<Pending.PendingChange>, k: nat)
    requires Forest(t) && k < |changes|
  {
    var p, before := changes[k].path, TreeBefore(t, fs, filter, walker, changes, k);
    && SameAt(t, before, p)
    && At(Transact(t, fs, filter, walker, changes).events, p) == OwnReport(before, fs, changes[k])
  }

  lemma {:induction false} FirstReportsOwn(t: Tree, fs: Snapshot, filter: Filter, walker: Walker,
                                           changes: seq<Pending.PendingChange>)
    requires Forest(t) && Pending.StrictlySorted(changes) && Listings(fs, walker) && changes != []
    ensures ReportsOwn(t, fs, filter, walker, changes, 0)
  {
    hide Forest, ApplyOne, Run, Pending.StrictlySorted, ListsAt, At, SameAt, OwnReport, Asked;
    var one := ApplyOne(t, fs, filter, walker, changes[0]);
    var n := if one.recurse then Run(changes[0].path, changes[1..]) else 0;
    var later := changes[1 + n..];
    var p := changes[0].path;
    forall i | 0 <= i < |later|
      ensures !(later[i].path <= p)
    {
      NotAboveLater(changes, 0, 1 + n + i);
    }
    TransactElsewhere(one.tree, fs, filter, walker, later, p);
    AtAppend(one.events, Transact(one.tree, fs, filter, walker, later).events, p);
    OneReports(t, fs, filter, walker, changes[0], p);
    SameAsItself(t, p);
    assert At(one.events, p) + [] == At(one.events, p);
  }

  lemma {:induction false} LaterReportsOwn(t: Tree, fs: Snapshot, filter: Filter, walker: Walker,
                                           changes: seq<Pending.PendingChange>, n: nat, k: nat)
    requires Forest(t) && Pending.StrictlySorted(changes) && Listings(fs, walker) && 1 + n + k < |changes|
    requires n == if ApplyOne(t, fs, filter, walker, changes[0]).recurse then Run(changes[0].path, changes[1..]) else 0
    requires ReportsOwn(ApplyOne(t, fs, filter, walker, changes[0]).tree, fs, filter, walker, changes[1 + n..], k)
    ensures ReportsOwn(t, fs, filter, walker, changes, 1 + n + k)
  {
    hide Forest, ApplyOne, Run, OwnReport, Pending.StrictlySorted, Listings, At, SameAt, TreeBefore, Transact;
    var one := ApplyOne(t, fs, filter, walker, changes[0]);
    var later := changes[1 + n..];
    var p := changes[1 + n + k].path;
    assert later[k] == changes[1 + n + k];
    AfterFirst(t, fs, filter, walker, changes, n, k);
    FirstElsewhere(t, fs, filter, walker, changes, n, 1 + n + k);
    SameAtAgain(t, one.tree, TreeBefore(one.tree, fs, filter, walker, later, k), p);
    AtAppend(one.events, Transact(one.tree, fs, filter, walker, later).events, p);
    assert [] + At(Transact(one.tree, fs, filter, walker, later).events, p)
           == At(Transact(one.tree, fs, filter, walker, later).events, p);
  }

  /** Every processed change of a transaction is reported at its own path exactly as it would be
      alone, in the tree it comes to. */
  lemma {:induction false} ProcessedIsReported(t: Tree, fs: Snapshot, filter: Filter, walker: Walker,
                                               changes: seq<Pending.PendingChange>, k: nat)
    requires Forest(t) && Pending.StrictlySorted(changes) && Listings(fs, walker)
    requires k < |Transact(t, fs, filter, walker, changes).log|
             && Transact(t, fs, filter, walker, changes).log[k].Processed?
    ensures |Transact(t, fs, filter, walker, changes).log| == |changes|
    ensures ReportsOwn(t, fs, filter, walker, changes, k)
    decreases |changes|
  {
    hide Forest, ApplyOne, Run, Pending.StrictlySorted, Listings, ReportsOwn, Transact, SkipsExactly;
    LogHasAll(t, fs, filter, walker, changes);
    var one := ApplyOne(t, fs, filter, walker, changes[0]);
    var n := if one.recurse then Run(changes[0].path, changes[1..]) else 0;
    LogIs(t, fs, filter, walker, changes, k);
    if k == 0 {
      FirstReportsOwn(t, fs, filter, walker, changes);
    } else {
      SortedTail(changes, 1 + n);
      ProcessedIsReported(one.tree, fs, filter, walker, changes[1 + n..], k - 1 - n);
      LaterReportsOwn(t, fs, filter, walker, changes, n, k - 1 - n);
    }
  }

  /** Change `k` is processed and asks to watch the path. */
  ghost predicate AskedBy(t: Tree, fs: Snapshot, filter: Filter, walker: Walker, changes: seq<Pending.PendingChange>,
                          k: nat, p: Path)
    requires Forest(t) && k < |changes| && k < |Transact(t, fs, filter, walker, changes).log|
  {
    && Transact(t, fs, filter, walker, changes).log[k].Processed?
    && Asked(TreeBefore(t, fs, filter, walker, changes, k), fs, filter, changes[k], p)
  }

  lemma {:induction false} AskedByLater(t: Tree, fs: Snapshot, filter: Filter, walker: Walker,
                                        changes: seq<Pending.PendingChange>, n: nat, k: nat, p: Path)
    requires Forest(t) && Pending.StrictlySorted(changes) && k < |changes|
    requires n == if ApplyOne(t, fs, filter, walker, changes[0]).recurse then Run(changes[0].path, changes[1..]) else 0
    ensures var u := ApplyOne(t, fs, filter, walker, changes[0]).tree;
            && |Transact(t, fs, filter, walker, changes).log| == |changes| && 1 + n <= |changes|
            && |Transact(u, fs, filter, walker, changes[1 + n..]).log| == |changes| - 1 - n
            && (AskedBy(t, fs, filter, walker, changes, k, p)
                <==> if k == 0 then Asked(t, fs, filter, changes[0], p)
                     else k > n && AskedBy(u, fs, filter, walker, changes[1 + n..], k - 1 - n, p))
  {
    hide Forest, ApplyOne, Run, Pending.StrictlySorted, Transact, Asked, SkipsExactly, TreeBefore;
    LogHasAll(t, fs, filter, walker, changes);
    var u := ApplyOne(t, fs, filter, walker, changes[0]).tree;
    SortedTail(changes, 1 + n);
    LogHasAll(u, fs, filter, walker, changes[1 + n..]);
    LogIs(t, fs, filter, walker, changes, k);
    if k > n {
      AfterFirst(t, fs, filter, walker, changes, n, k - 1 - n);
      assert changes[1 + n..][k - 1 - n] == changes[k];
    }
    if k == 0 { BeforeFirst(t, fs, filter, walker, changes); }
  }

  lemma {:induction false} BeforeFirst(t: Tree, fs: Snapshot, filter: Filter, walker: Walker,
                                       changes: seq<Pending.PendingChange>)
    requires Forest(t) && changes != []
    ensures TreeBefore(t, fs, filter, walker, changes, 0) == t
  {
    hide Forest;
  }

  /** A transaction asks to watch exactly what its processed changes ask for, each in the tree
      it comes to. */
  lemma {:induction false} TransactionAsks(t: Tree, fs: Snapshot, filter: Filter, walker: Walker,
                                           changes: seq<Pending.PendingChange>, p: Path)
    requires Forest(t) && Pending.StrictlySorted(changes) && Listings(fs, walker)
    ensures |Transact(t, fs, filter, walker, changes).log| == |changes|
    ensures p in Transact(t, fs, filter, walker, changes).watches
       <==> exists k :: 0 <= k < |changes| && AskedBy(t, fs, filter, walker, changes, k, p)
    decreases |changes|
  {
    hide Forest, ApplyOne, Run, Pending.StrictlySorted, Listings, AskedBy, Asked, SkipsExactly;
    LogHasAll(t, fs, filter, walker, changes);
    if changes != [] {
      var one := ApplyOne(t, fs, filter, walker, changes[0]);
      var n := if one.recurse then Run(changes[0].path, changes[1..]) else 0;
      var later := changes[1 + n..];
      SortedTail(changes, 1 + n);
      TransactionAsks(one.tree, fs, filter, walker, later, p);
      OneReports(t, fs, filter, walker, changes[0], p);
      assert Transact(t, fs, filter, walker, changes).watches
          == one.watches + Transact(one.tree, fs, filter, walker, later).watches;
      hide Transact;
      forall k | 0 <= k < |changes|
        ensures AskedBy(t, fs, filter, walker, changes, k, p)
           <==> if k == 0 then Asked(t, fs, filter, changes[0], p)
                else k > n && AskedBy(one.tree, fs, filter, walker, later, k - 1 - n, p)
      {
        AskedByLater(t, fs, filter, walker, changes, n, k, p);
      }
      AskedShift(t, one.tree, fs, filter, walker, changes, later, n, p);
    }
  }

  lemma {:induction false} AskedShift(t: Tree, u: Tree, fs: Snapshot, filter: Filter, walker: Walker,
                                      changes: seq<Pending.PendingChange>, later: seq<Pending.PendingChange>, n: nat,
                                      p: Path)
    requires Forest(t) && Forest(u) && |changes| == 1 + n + |later|
    requires |Transact(t, fs, filter, walker, changes).log| == |changes|
    requires |Transact(u, fs, filter, walker, later).log| == |later|
    requires forall k :: 0 <= k < |changes| ==>
               (AskedBy(t, fs, filter, walker, changes, k, p)
                <==> if k == 0 then Asked(t, fs, filter, changes[0], p)
                     else k > n && AskedBy(u, fs, filter, walker, later, k - 1 - n, p))
    ensures (exists k :: 0 <= k < |changes| && AskedBy(t, fs, filter, walker, changes, k, p))
       <==> || Asked(t, fs, filter, changes[0], p)
            || exists k :: 0 <= k < |later| && AskedBy(u, fs, filter, walker, later, k, p)
  {
    hide Forest, Transact, AskedBy, Asked;
    if k :| 0 <= k < |later| && AskedBy(u, fs, filter, walker, later, k, p) {
      assert AskedBy(t, fs, filter, walker, changes, 1 + n + k, p);
    }
    if Asked(t, fs, filter, changes[0], p) { assert AskedBy(t, fs, filter, walker, changes, 0, p); }
  }

  // ------------------------------------------------------------------- in which order

  /** What a change reports at its own path is one event, and nothing comes before it. */
  lemma {:induction false} OwnIsAlone(t: Tree, fs: Snapshot, change: Pending.PendingChange)
    requires Forest(t) && At(ApplyChange(t, fs, change).events, change.path) != []
    ensures var es := ApplyChange(t, fs, change).events; |es| == 1 && es[0].path == change.path
  {
    var p := change.path;
    if p in t.table && ForPath(fs, p).None? {
      hide DeleteRec;
      OwnEvents(t, fs, change);
      assert IsFile(t, p) <==> Meta(t, p).File?;
    }
  }

  lemma {:induction false} OneStartsWithOwn(t: Tree, fs: Snapshot, filter: Filter, walker: Walker,
                                            change: Pending.PendingChange)
    requires Forest(t)
    ensures ApplyChange(t, fs, change).events <= ApplyOne(t, fs, filter, walker, change).events
  {
    hide Forest, ApplyChange, RunCrawl;
  }

  lemma {:induction false} FirstEventFirst(es: seq<Event>, p: Path, q: Path)
    requires es != [] && es[0].path == p && |At(es, p)| == 1 && q != p
    ensures Precedes(es, p, q)
  {
    assert es == es[..1] + es[1..] && es[..1] == [es[0]];
    AtAppend(es[..1], es[1..], p);
    AtOne(es[0], p);
    AtOne(es[0], q);
    assert At(es[1..], p) == [];
  }

  lemma {:induction false} SilentPrecedes(es: seq<Event>, p: Path, q: Path)
    requires At(es, p) == []
    ensures Precedes(es, p, q)
  {
    assert es[0..] == es && es[..0] == [];
  }

  lemma {:induction false} PrecedesLater(d: seq<Event>, es: seq<Event>, p: Path, q: Path)
    requires Precedes(es, p, q) && At(d, p) == [] && At(d, q) == []
    ensures Precedes(d + es, p, q)
  {
    var n :| 0 <= n <= |es| && At(es[n..], p) == [] && At(es[..n], q) == [];
    assert (d + es)[|d| + n..] == es[n..] && (d + es)[..|d| + n] == d + es[..n];
    AtAppend(d, es[..n], q);
  }

  lemma {:induction false} FirstInOrder(t: Tree, fs: Snapshot, filter: Filter, walker: Walker,
                                        changes: seq<Pending.PendingChange>, q: Path)
    requires Forest(t) && Pending.StrictlySorted(changes) && Listings(fs, walker) && changes != []
    requires q != changes[0].path
    ensures Precedes(Transact(t, fs, filter, walker, changes).events, changes[0].path, q)
  {
    hide Forest, ApplyOne, Run, Pending.StrictlySorted, Listings, At, SameAt, ApplyChange, Precedes;
    var es := Transact(t, fs, filter, walker, changes).events;
    var p := changes[0].path;
    FirstReportsOwn(t, fs, filter, walker, changes);
    BeforeFirst(t, fs, filter, walker, changes);
    if At(es, p) == [] {
      SilentPrecedes(es, p, q);
    } else {
      OwnEvents(t, fs, changes[0]);
      OwnIsAlone(t, fs, changes[0]);
      OneStartsWithOwn(t, fs, filter, walker, changes[0]);
      OneFirst(t, fs, filter, walker, changes);
      FirstEventFirst(es, p, q);
    }
  }

  lemma {:induction false} OneFirst(t: Tree, fs: Snapshot, filter: Filter, walker: Walker,
                                    changes: seq<Pending.PendingChange>)
    requires Forest(t) && changes != []
    ensures ApplyOne(t, fs, filter, walker, changes[0]).events <= Transact(t, fs, filter, walker, changes).events
  {
    hide Forest, ApplyOne, Run;
  }

  /** What a transaction reports at the path of a processed change comes before all that it
      reports at the paths of later ones, skipped or not. */
  lemma {:induction false} TransactionInOrder(t: Tree, fs: Snapshot, filter: Filter, walker: Walker,
                                              changes: seq<Pending.PendingChange>, j: nat, k: nat)
    requires Forest(t) && Pending.StrictlySorted(changes) && Listings(fs, walker) && j < k < |changes|
    requires j < |Transact(t, fs, filter, walker, changes).log|
             && Transact(t, fs, filter, walker, changes).log[j].Processed?
    ensures Precedes(Transact(t, fs, filter, walker, changes).events, changes[j].path, changes[k].path)
    decreases |changes|
  {
    hide Forest, ApplyOne, Run, Pending.StrictlySorted, Listings, Transact, SkipsExactly, Precedes, At, SameAt;
    var one := ApplyOne(t, fs, filter, walker, changes[0]);
    var n := if one.recurse then Run(changes[0].path, changes[1..]) else 0;
    LogIs(t, fs, filter, walker, changes, j);
    if j == 0 {
      SortedApart(changes, k);
      FirstInOrder(t, fs, filter, walker, changes, changes[k].path);
    } else {
      var later := changes[1 + n..];
      SortedTail(changes, 1 + n);
      TransactionInOrder(one.tree, fs, filter, walker, later, j - 1 - n, k - 1 - n);
      AfterFirst(t, fs, filter, walker, changes, n, j - 1 - n);
      FirstElsewhere(t, fs, filter, walker, changes, n, j);
      FirstElsewhere(t, fs, filter, walker, changes, n, k);
      PrecedesLater(one.events, Transact(one.tree, fs, filter, walker, later).events, changes[j].path, changes[k].path);
    }
  }
}
