/** A recrawl as a whole (src/worker.rs:129-148): every root is crawled in turn, in path order,
    here against one snapshot and with one filter. */
module Recrawl {
  import opened Paths
  import opened Events
  import opened TreeModel
  import opened Deletion
  import opened CrawlModel
  import opened CrawlStructure
  import opened CrawlDiscipline
  import opened CrawlClaims
  import opened CrawlReport
  import opened CrawlTheorem
  import opened CrawlResult
  import opened Filters
  import opened Legality
  import opened Transactions
  import Linking

  lemma {:induction false} CrawlStays(t: Tree, fs: Snapshot, filter: Filter, id: NodeId, walk: seq<Entry>, i: NodeId)
    requires Forest(t) && id < |t.nodes| && i < |t.nodes|
    ensures var u := RunCrawl(t, fs, filter, id, [], walk).tree; i < |u.nodes| && u.nodes[i].path == t.nodes[i].path
  {
    hide Forest, RunCrawl, Linking.Grows;
    Linking.CrawlGrows(t, fs, filter, id, walk);
    Linking.NodeStays(t, RunCrawl(t, fs, filter, id, [], walk).tree, i);
  }

  lemma {:induction false} ArenaStays(t: Tree, fs: Snapshot, filter: Filter, id: NodeId, walk: seq<Entry>,
                                      ids: seq<NodeId>)
    requires Forest(t) && id < |t.nodes| && InArena(t, ids)
    ensures InArena(RunCrawl(t, fs, filter, id, [], walk).tree, ids)
  {
    hide Forest, RunCrawl;
    forall k | 0 <= k < |ids|
      ensures ids[k] < |RunCrawl(t, fs, filter, id, [], walk).tree.nodes|
    {
      CrawlStays(t, fs, filter, id, walk, ids[k]);
    }
  }

  /** The tree after crawling these nodes in turn, and all events. */
  ghost function CrawlEach(t: Tree, fs: Snapshot, filter: Filter, walker: Walker, ids: seq<NodeId>): (r: Cut)
    requires Forest(t) && InArena(t, ids)
    ensures Forest(r.tree)
    decreases |ids|
  {
    if ids == [] then Cut(t, [])
    else
      var walk := walker(t.nodes[ids[0]].path);
      var c := RunCrawl(t, fs, filter, ids[0], [], walk);
      ArenaStays(t, fs, filter, ids[0], walk, ids[1..]);
      var rest := CrawlEach(c.tree, fs, filter, walker, ids[1..]);
      Cut(rest.tree, c.events + rest.events)
  }

  /** Nodes to crawl, each with a listing, and none strictly above one before it. */
  ghost predicate Plan(t: Tree, fs: Snapshot, walker: Walker, ids: seq<NodeId>) {
    && Forest(t) && InArena(t, ids)
    && (forall k :: 0 <= k < |ids| ==> Lists(fs, t.nodes[ids[k]].path, walker(t.nodes[ids[k]].path)))
    && (forall j, k :: 0 <= j < k < |ids| ==> NotAbove(t, ids[k], ids[j]))
  }

  ghost predicate NotAbove(t: Tree, i: NodeId, j: NodeId)
    requires i < |t.nodes| && j < |t.nodes|
  {
    !(t.nodes[i].path < t.nodes[j].path)
  }

  lemma {:induction false} PlanGoesOn(t: Tree, fs: Snapshot, filter: Filter, walker: Walker, ids: seq<NodeId>)
    requires Plan(t, fs, walker, ids) && ids != []
    ensures var walk := walker(t.nodes[ids[0]].path);
            && Ready(t, fs, ids[0], walk)
            && Plan(RunCrawl(t, fs, filter, ids[0], [], walk).tree, fs, walker, ids[1..])
  {
    hide Forest, RunCrawl, Lists;
    var walk := walker(t.nodes[ids[0]].path);
    var u := RunCrawl(t, fs, filter, ids[0], [], walk).tree;
    var rest := ids[1..];
    forall k | 0 <= k < |rest|
      ensures rest[k] == ids[k + 1] && rest[k] < |u.nodes| && u.nodes[rest[k]].path == t.nodes[rest[k]].path
    {
      CrawlStays(t, fs, filter, ids[0], walk, rest[k]);
    }
    forall j, k | 0 <= j < k < |rest|
      ensures NotAbove(u, rest[k], rest[j])
    {
      assert NotAbove(t, ids[k + 1], ids[j + 1]);
    }
  }

  // -------------------------------------------------------------- one crawl, as a step

  /** What a crawl makes of the coverage of the nodes there were. */
  lemma {:induction false} CoverageAfter(t: Tree, fs: Snapshot, filter: Filter, id: NodeId, walk: seq<Entry>, i: NodeId)
    requires Ready(t, fs, id, walk) && i < |t.nodes|
    ensures var s := ScopeOf(t, fs, filter, id); var u := RunCrawl(t, fs, filter, id, [], walk).tree;
            && i < |u.nodes| && u.nodes[i].path == t.nodes[i].path
            && u.nodes[i].coverage
               == (if s.recursive && Visible(s, t.nodes[i].path).Some? then Recursive else t.nodes[i].coverage)
  {
    hide RunCrawl, Forest, Lists, Visits, Visible, Finished, SameLinks, Linked;
    var s := ScopeOf(t, fs, filter, id);
    CrawlIsFinished(t, fs, filter, id, walk);
    FinalStructure(CtxOf(t, s), Visits(s, walk));
    VisibleIsSighting(t, s, walk, t.nodes[i].path);
    hide Walkable;
    assert Kept(CtxOf(t, s), Seen(Visits(s, walk)), t.nodes[i], RunCrawl(t, fs, filter, id, [], walk).tree.nodes[i]);
  }

  lemma {:induction false} KeepsIndex(t: Tree, fs: Snapshot, filter: Filter, id: NodeId, walk: seq<Entry>, p: Path)
    requires Ready(t, fs, id, walk) && p in t.table
    ensures var u := RunCrawl(t, fs, filter, id, [], walk).tree; p in u.table && u.table[p] == t.table[p]
  {
    hide RunCrawl, Forest, Lists, Visits, Finished, SameLinks, Linked;
    var s := ScopeOf(t, fs, filter, id);
    CrawlIsFinished(t, fs, filter, id, walk);
    FinalStructure(CtxOf(t, s), Visits(s, walk));
  }

  /** What is in line with the snapshot stays so, unless the crawl gets at it unseen. */
  lemma {:induction false} KeepsSynced(t: Tree, fs: Snapshot, filter: Filter, id: NodeId, walk: seq<Entry>, rec: bool,
                                       p: Path)
    requires Ready(t, fs, id, walk) && Synced(fs, rec, t, p) && !Swept(ScopeOf(t, fs, filter, id), t, p)
    ensures Synced(fs, rec, RunCrawl(t, fs, filter, id, [], walk).tree, p)
  {
    hide RunCrawl, TableOk, ListsOwned, Descending, KidsBelow, Lists, Visible, Swept;
    var s := ScopeOf(t, fs, filter, id);
    var u := RunCrawl(t, fs, filter, id, [], walk).tree;
    CrawlLeavesAt(t, fs, filter, id, walk, p);
    if Visible(s, p).None? { CrawlKeepsInode(t, fs, filter, id, walk, p); }
    if Known(t, p) {
      KeepsIndex(t, fs, filter, id, walk, p);
      CoverageAfter(t, fs, filter, id, walk, t.table[p]);
    }
    hide Forest;
    StillSynced(t, u, fs, rec, s.recursive, p, Visible(s, p).Some?);
  }

  lemma {:induction false} StillSynced(t: Tree, u: Tree, fs: Snapshot, rec: bool, deep: bool, p: Path, seen: bool)
    requires Synced(fs, rec, t, p)
    requires if seen then Synced(fs, deep, u, p) else Meta(u, p) == Meta(t, p) && Inode(u, p) == Inode(t, p)
    requires Known(t, p) ==> Known(u, p) && u.table[p] == t.table[p]
    requires Known(t, p) && t.nodes[t.table[p]].coverage == Recursive ==> u.nodes[u.table[p]].coverage == Recursive
    ensures Synced(fs, rec, u, p)
  {
  }

  // -------------------------------------------------------------------- nested roots

  /** What is visible from a root is not got at unseen from a root inside it. */
  lemma {:induction false} InnerNotSwept(outer: Scope, inner: Scope, walk: seq<Entry>, t: Tree, p: Path)
    requires Lists(outer.fs, outer.root, walk) && inner.fs == outer.fs && inner.filter == outer.filter
    requires outer.root <= inner.root && Visible(outer, p).Some?
    ensures !Swept(inner, t, p)
  {
    if Swept(inner, t, p) {
      var a, h := SeenAbove(inner, p), Toward(inner.root, p);
      hide Reached, Linked, Meta, Lists, Admit, Seen;
      TowardIs(inner.root, p);
      StillVisible(outer, inner, p);
      assert Up(p) != inner.root && h != p && outer.recursive;
      VisibleUpwards(outer, walk, h, p);
      StillVisible(outer, inner, h);
      assert VisibleDir(inner, h);
      OnWayDown(inner.root, a, h, p);
      if a == inner.root { SeenAboveGap(inner, p, h); } else { SeenAboveSeen(inner, p); }
    }
  }

  lemma {:induction false} StillVisible(outer: Scope, inner: Scope, p: Path)
    requires inner.fs == outer.fs && inner.filter == outer.filter && outer.root <= inner.root < p
    requires Visible(outer, p).Some?
    ensures inner.recursive || Up(p) == inner.root ==> Visible(inner, p) == Visible(outer, p)
    ensures outer.root < inner.root ==> outer.recursive
  {
  }

  /** Two roots above one path are nested, one in the other. */
  lemma {:induction false} RootsAreNested(a: Path, b: Path, p: Path)
    requires a < p && b < p
    ensures a <= b || b < a
  {
    assert p[..|a|] == a && p[..|b|] == b;
    if |a| <= |b| {
      assert b[..|a|] == a;
    } else {
      assert a[..|b|] == b;
    }
  }

  // --------------------------------------------------------------- all roots in step

  /** What is visible from the node is in line with the snapshot. */
  ghost predicate InStep(t: Tree, fs: Snapshot, filter: Filter, id: NodeId)
    requires id < |t.nodes|
  {
    forall p :: InStepAt(t, ScopeOf(t, fs, filter, id), p)
  }

  ghost predicate InStepAt(t: Tree, s: Scope, p: Path) {
    Visible(s, p).Some? ==> Synced(s.fs, s.recursive, t, p)
  }

  lemma {:induction false} ScopeStays(t: Tree, fs: Snapshot, filter: Filter, id: NodeId, walk: seq<Entry>, i: NodeId)
    requires Ready(t, fs, id, walk) && i < |t.nodes| && NotAbove(t, id, i)
    ensures var u := RunCrawl(t, fs, filter, id, [], walk).tree;
            i < |u.nodes| && ScopeOf(u, fs, filter, i) == ScopeOf(t, fs, filter, i)
  {
    hide RunCrawl, Forest, Lists;
    CoverageAfter(t, fs, filter, id, walk, i);
  }

  /** Later crawls leave in step what an earlier root sees. */
  lemma {:induction false} StaysInStep(t: Tree, fs: Snapshot, filter: Filter, walker: Walker, ids: seq<NodeId>,
                                       i: NodeId, walk: seq<Entry>, p: Path)
    requires Plan(t, fs, walker, ids) && i < |t.nodes| && Lists(fs, t.nodes[i].path, walk)
    requires forall k :: 0 <= k < |ids| ==> NotAbove(t, ids[k], i)
    requires InStepAt(t, ScopeOf(t, fs, filter, i), p)
    ensures var u := CrawlEach(t, fs, filter, walker, ids).tree;
            && i < |u.nodes| && u.nodes[i].path == t.nodes[i].path
               && ScopeOf(u, fs, filter, i) == ScopeOf(t, fs, filter, i)
            && InStepAt(u, ScopeOf(t, fs, filter, i), p)
    decreases |ids|
  {
    hide Forest, RunCrawl, Lists, Visible, InStepAt;
    if ids != [] {
      var mine := walker(t.nodes[ids[0]].path);
      var u := RunCrawl(t, fs, filter, ids[0], [], mine).tree;
      PlanGoesOn(t, fs, filter, walker, ids);
      assert NotAbove(t, ids[0], i);
      ScopeStays(t, fs, filter, ids[0], mine, i);
      CrawlStays(t, fs, filter, ids[0], mine, i);
      OneKeepsInStep(t, fs, filter, ids[0], mine, i, walk, p);
      forall k | 0 <= k < |ids[1..]|
        ensures NotAbove(u, ids[1..][k], i)
      {
        assert ids[1..][k] == ids[k + 1] && NotAbove(t, ids[k + 1], i);
        CrawlStays(t, fs, filter, ids[0], mine, ids[k + 1]);
      }
      StaysInStep(u, fs, filter, walker, ids[1..], i, walk, p);
    }
  }

  lemma {:induction false} OneKeepsInStep(t: Tree, fs: Snapshot, filter: Filter, id: NodeId, mine: seq<Entry>,
                                          i: NodeId, walk: seq<Entry>, p: Path)
    requires Ready(t, fs, id, mine) && i < |t.nodes| && Lists(fs, t.nodes[i].path, walk) && NotAbove(t, id, i)
    requires InStepAt(t, ScopeOf(t, fs, filter, i), p)
    ensures InStepAt(RunCrawl(t, fs, filter, id, [], mine).tree, ScopeOf(t, fs, filter, i), p)
  {
    hide Forest, RunCrawl, Lists, Synced, Swept;
    var outer, inner := ScopeOf(t, fs, filter, i), ScopeOf(t, fs, filter, id);
    if Visible(outer, p).Some? {
      OnlyBelowRoot(outer, t, p);
      if Swept(inner, t, p) {
        OnlyBelowRoot(inner, t, p);
        RootsAreNested(outer.root, inner.root, p);
        InnerNotSwept(outer, inner, walk, t, p);
      }
      KeepsSynced(t, fs, filter, id, mine, outer.recursive, p);
    }
  }

  /** A root's own crawl puts what it sees in step. */
  lemma {:induction false} OwnCrawl(t: Tree, fs: Snapshot, filter: Filter, id: NodeId, walk: seq<Entry>, p: Path)
    requires Ready(t, fs, id, walk)
    ensures var u := RunCrawl(t, fs, filter, id, [], walk).tree;
            && id < |u.nodes| && ScopeOf(u, fs, filter, id) == ScopeOf(t, fs, filter, id)
            && InStepAt(u, ScopeOf(t, fs, filter, id), p)
  {
    hide Forest, RunCrawl, Lists, Synced, Visible;
    CrawlKeepsScope(t, fs, filter, id, walk, walk);
    CrawlResynchronises(t, fs, filter, id, walk, p);
  }

  /** After all roots have been crawled in turn, what is visible from any of them is in line
      with the snapshot, also where they lie inside each other, whatever the tree was. */
  lemma {:induction false} EachIsInStep(t: Tree, fs: Snapshot, filter: Filter, walker: Walker, ids: seq<NodeId>, j: nat)
    requires Plan(t, fs, walker, ids) && j < |ids|
    ensures var u := CrawlEach(t, fs, filter, walker, ids).tree;
            ids[j] < |u.nodes| && u.nodes[ids[j]].path == t.nodes[ids[j]].path && InStep(u, fs, filter, ids[j])
    decreases |ids|
  {
    hide Forest, RunCrawl, Lists, InStepAt;
    var walk := walker(t.nodes[ids[0]].path);
    var u := RunCrawl(t, fs, filter, ids[0], [], walk).tree;
    PlanGoesOn(t, fs, filter, walker, ids);
    CrawlStays(t, fs, filter, ids[0], walk, ids[j]);
    if j == 0 {
      FirstIsInStep(t, fs, filter, walker, ids);
    } else {
      assert ids[1..][j - 1] == ids[j];
      EachIsInStep(u, fs, filter, walker, ids[1..], j - 1);
    }
  }

  lemma {:induction false} FirstIsInStep(t: Tree, fs: Snapshot, filter: Filter, walker: Walker, ids: seq<NodeId>)
    requires Plan(t, fs, walker, ids) && ids != []
    ensures var u := CrawlEach(t, fs, filter, walker, ids).tree;
            ids[0] < |u.nodes| && u.nodes[ids[0]].path == t.nodes[ids[0]].path && InStep(u, fs, filter, ids[0])
  {
    hide Forest, RunCrawl, Lists, InStepAt;
    var walk := walker(t.nodes[ids[0]].path);
    var u := RunCrawl(t, fs, filter, ids[0], [], walk).tree;
    PlanGoesOn(t, fs, filter, walker, ids);
    CrawlStays(t, fs, filter, ids[0], walk, ids[0]);
    forall k | 0 <= k < |ids[1..]|
      ensures NotAbove(u, ids[1..][k], ids[0])
    {
      assert ids[1..][k] == ids[k + 1] && NotAbove(t, ids[k + 1], ids[0]);
      CrawlStays(t, fs, filter, ids[0], walk, ids[k + 1]);
    }
    OwnStaysInStep(t, fs, filter, walker, ids, walk, []);
    forall p
      ensures InStepAt(CrawlEach(t, fs, filter, walker, ids).tree, ScopeOf(t, fs, filter, ids[0]), p)
    {
      OwnStaysInStep(t, fs, filter, walker, ids, walk, p);
    }
  }

  lemma {:induction false} OwnStaysInStep(t: Tree, fs: Snapshot, filter: Filter, walker: Walker, ids: seq<NodeId>,
                                          walk: seq<Entry>, p: Path)
    requires Plan(t, fs, walker, ids) && ids != [] && walk == walker(t.nodes[ids[0]].path)
    ensures var r := CrawlEach(t, fs, filter, walker, ids).tree; var s := ScopeOf(t, fs, filter, ids[0]);
            && ids[0] < |r.nodes| && r.nodes[ids[0]].path == t.nodes[ids[0]].path
            && ScopeOf(r, fs, filter, ids[0]) == s && InStepAt(r, s, p)
  {
    hide Forest, RunCrawl, Lists, InStepAt;
    var u := RunCrawl(t, fs, filter, ids[0], [], walk).tree;
    PlanGoesOn(t, fs, filter, walker, ids);
    CrawlStays(t, fs, filter, ids[0], walk, ids[0]);
    forall k | 0 <= k < |ids[1..]|
      ensures NotAbove(u, ids[1..][k], ids[0])
    {
      assert ids[1..][k] == ids[k + 1] && NotAbove(t, ids[k + 1], ids[0]);
      CrawlStays(t, fs, filter, ids[0], walk, ids[k + 1]);
    }
    OwnCrawl(t, fs, filter, ids[0], walk, p);
    StaysInStep(u, fs, filter, walker, ids[1..], ids[0], walk, p);
  }

  // ------------------------------------------------- an unchanged snapshot once more

  /** The crawl of the node gets at no known file unseen. */
  ghost predicate Quiet(t: Tree, s: Scope) {
    forall p :: IsFile(t, p) ==> !Swept(s, t, p)
  }

  /** What is visible makes no difference. A directory may be marked deleted: a crawl of a
      root around this one, to which it is ignored, does that without an event. */
  ghost predicate Tame(t: Tree, s: Scope) {
    forall p :: TameAt(t, s, p)
  }

  ghost predicate TameAt(t: Tree, s: Scope, p: Path) {
    Visible(s, p).Some? ==>
      && Diff(Meta(t, p), Inode(t, p), Visible(s, p)) == []
      && (s.fs[p].Special? ==> !Meta(t, p).Dir?)
  }

  lemma {:induction false} SyncedIsTame(t: Tree, s: Scope, rec: bool, p: Path)
    requires Visible(s, p).Some? ==> Synced(s.fs, rec, t, p)
    ensures TameAt(t, s, p)
  {
  }

  lemma {:induction false} InStepIsTame(t: Tree, fs: Snapshot, filter: Filter, id: NodeId)
    requires id < |t.nodes| && InStep(t, fs, filter, id)
    ensures Tame(t, ScopeOf(t, fs, filter, id))
  {
    hide TameAt, Synced, Visible;
    var s := ScopeOf(t, fs, filter, id);
    forall p
      ensures TameAt(t, s, p)
    {
      assert InStepAt(t, s, p);
      SyncedIsTame(t, s, s.recursive, p);
    }
  }

  lemma {:induction false} TameIsSilent(t: Tree, s: Scope, p: Path)
    requires TameAt(t, s, p) && Visible(s, p).Some?
    ensures Diff(Meta(t, p), Inode(t, p), Visible(s, p)) == [] && !Swept(s, t, p)
    ensures IsFile(t, p) <==> VisibleFile(s, p)
  {
  }

  /** The crawl of a node that is tame is silent exactly if it is quiet. */
  lemma {:induction false} SilentIff(t: Tree, fs: Snapshot, filter: Filter, id: NodeId, walk: seq<Entry>)
    requires Ready(t, fs, id, walk) && Tame(t, ScopeOf(t, fs, filter, id))
    ensures RunCrawl(t, fs, filter, id, [], walk).events == [] <==> Quiet(t, ScopeOf(t, fs, filter, id))
  {
    hide Forest, RunCrawl, Lists, Swept, TameAt, IsFile;
    var s := ScopeOf(t, fs, filter, id);
    var events := RunCrawl(t, fs, filter, id, [], walk).events;
    QuietMeansSilent(events);
    forall p
      ensures At(events, p) == [] <==> !(IsFile(t, p) && Swept(s, t, p))
    {
      CrawlReports(t, fs, filter, id, walk, p);
      assert TameAt(t, s, p);
      if Visible(s, p).Some? { TameIsSilent(t, s, p); }
      FileMeta(t, p);
    }
  }

  /** What a crawl may do where it sees nothing: mark nodes that it gets at as deleted. */
  lemma {:induction false} UnseenAfter(t: Tree, fs: Snapshot, filter: Filter, id: NodeId, walk: seq<Entry>, p: Path)
    requires Ready(t, fs, id, walk) && Visible(ScopeOf(t, fs, filter, id), p).None?
    ensures var u := RunCrawl(t, fs, filter, id, [], walk).tree; var s := ScopeOf(t, fs, filter, id);
            && (Linked(u, p) <==> Linked(t, p))
            && (Meta(u, p) == Meta(t, p) || (Swept(s, t, p) && Meta(u, p) == Deleted))
  {
    hide RunCrawl, Forest, Lists, Finished, Synced, StaleLeaf, Visible, Visits, Taken, Swept, Meta, Linked;
    var s := ScopeOf(t, fs, filter, id);
    CrawlIsFinished(t, fs, filter, id, walk);
    CrawlLeaves(CtxOf(t, s), Visits(s, walk), p);
    SweptIsTaken(t, s, walk, p);
    VisibleIsSighting(t, s, walk, p);
    FinalLinks(CtxOf(t, s), Visits(s, walk), p);
  }

  /** A quiet crawl changes no file into something else, nor back. */
  lemma {:induction false} QuietKeepsFile(t: Tree, fs: Snapshot, filter: Filter, id: NodeId, walk: seq<Entry>, p: Path)
    requires Ready(t, fs, id, walk) && Tame(t, ScopeOf(t, fs, filter, id)) && Quiet(t, ScopeOf(t, fs, filter, id))
    ensures IsFile(RunCrawl(t, fs, filter, id, [], walk).tree, p) == IsFile(t, p)
  {
    hide Forest, RunCrawl, Lists, Swept, Visible, Linked, TameAt, Synced;
    var s := ScopeOf(t, fs, filter, id);
    var u := RunCrawl(t, fs, filter, id, [], walk).tree;
    FileMeta(t, p);
    FileMeta(u, p);
    if Visible(s, p).Some? {
      assert TameAt(t, s, p);
      CrawlResynchronises(t, fs, filter, id, walk, p);
      SyncedIsTame(u, s, s.recursive, p);
      TameIsSilent(t, s, p);
      TameIsSilent(u, s, p);
    } else {
      UnseenAfter(t, fs, filter, id, walk, p);
    }
  }

  /** And it leaves tame what another root sees, whether it sees that itself or not. */
  lemma {:induction false} QuietKeepsTame(t: Tree, fs: Snapshot, filter: Filter, id: NodeId, walk: seq<Entry>,
                                          other: Scope, p: Path)
    requires Ready(t, fs, id, walk) && Quiet(t, ScopeOf(t, fs, filter, id))
    requires other.fs == fs && other.filter == filter && TameAt(t, other, p)
    ensures TameAt(RunCrawl(t, fs, filter, id, [], walk).tree, other, p)
  {
    hide Forest, RunCrawl, Lists, Swept, Visible, Linked, Synced;
    var s := ScopeOf(t, fs, filter, id);
    var u := RunCrawl(t, fs, filter, id, [], walk).tree;
    if Visible(s, p).Some? {
      CrawlResynchronises(t, fs, filter, id, walk, p);
      SyncedIsTame(u, other, s.recursive, p);
    } else {
      UnseenAfter(t, fs, filter, id, walk, p);
      CrawlKeepsInode(t, fs, filter, id, walk, p);
      FileMeta(t, p);
      if Visible(other, p).Some? { StaysTame(t, u, other, p); }
    }
  }

  lemma {:induction false} StaysTame(t: Tree, u: Tree, s: Scope, p: Path)
    requires TameAt(t, s, p) && Visible(s, p).Some? && Inode(u, p) == Inode(t, p)
    requires Meta(u, p) == Meta(t, p) || (!IsFile(t, p) && Meta(u, p) == Deleted)
    ensures TameAt(u, s, p)
  {
    hide Inode;
    FileMeta(t, p);
  }

  // ------------------------------------------- what is got at, one path at a time

  /** Directly below a linked entry whose parent is crawled: the entry's own kind does not
      matter, its child list is emptied whatever it is. */
  ghost predicate BelowFlagged(s: Scope, p: Path)
    requires s.root < Up(p)
  {
    var a := SeenAbove(s, Up(p));
    Up(Up(p)) == a && (a == s.root || (s.recursive && VisibleDir(s, a)))
  }

  /** Two levels or more below what is seen, a crawl gets at a path from its parent. */
  lemma {:induction false} SweptStep(s: Scope, t: Tree, p: Path)
    requires s.root < p && s.root < Up(p) && Visible(s, p).None? && Visible(s, Up(p)).None?
    ensures Swept(s, t, p) <==> Swept(s, t, Up(p)) && Linked(t, p) && (BelowFlagged(s, p) || Meta(t, Up(p)).Dir?)
  {
    hide Linked, Meta, Visible, VisibleDir;
    var q := Up(p);
    var a := SeenAbove(s, q);
    assert SeenAbove(s, p) == a;
    TowardIs(a, q);
    TowardIs(a, p);
    assert Toward(a, p) == Toward(a, q) && Toward(a, p) != p;
  }

  /** One level below what is seen, it gets at what is linked. */
  lemma {:induction false} SweptBase(s: Scope, t: Tree, p: Path)
    requires s.root < p && Visible(s, p).None? && (Up(p) == s.root || Visible(s, Up(p)).Some?) && TameAt(t, s, Up(p))
    ensures Swept(s, t, p) <==> Linked(t, p) && (Up(p) == s.root || (s.recursive && VisibleDir(s, Up(p))))
  {
    assert SeenAbove(s, p) == Up(p) && Toward(Up(p), p) == p;
  }

  /** What a crawl gets at, an earlier root does not see. */
  lemma {:induction false} SweptUnseen(earlier: Scope, later: Scope, walk: seq<Entry>, t: Tree, p: Path)
    requires Lists(earlier.fs, earlier.root, walk) && later.fs == earlier.fs && later.filter == earlier.filter
    requires !(later.root < earlier.root) && Swept(later, t, p)
    ensures Visible(earlier, p).None?
  {
    hide Lists, Swept;
    if Visible(earlier, p).Some? {
      OnlyBelowRoot(earlier, t, p);
      OnlyBelowRoot(later, t, p);
      RootsAreNested(earlier.root, later.root, p);
      InnerNotSwept(earlier, later, walk, t, p);
    }
  }

  /** A crawl of `id`, and a node `i` that is crawled later. */
  ghost predicate Pair(t: Tree, fs: Snapshot, filter: Filter, id: NodeId, walk: seq<Entry>, i: NodeId) {
    && Ready(t, fs, id, walk) && i < |t.nodes| && NotAbove(t, i, id) && Tame(t, ScopeOf(t, fs, filter, i))
    && var u := RunCrawl(t, fs, filter, id, [], walk).tree;
       i < |u.nodes| && ScopeOf(u, fs, filter, i) == ScopeOf(t, fs, filter, i) && Tame(u, ScopeOf(t, fs, filter, i))
  }

  /** A crawl makes a later one get at nothing new. */
  lemma {:induction false} SweptBack(t: Tree, fs: Snapshot, filter: Filter, id: NodeId, walk: seq<Entry>, i: NodeId,
                                     p: Path)
    requires Pair(t, fs, filter, id, walk, i)
    requires Swept(ScopeOf(t, fs, filter, i), RunCrawl(t, fs, filter, id, [], walk).tree, p)
    ensures Swept(ScopeOf(t, fs, filter, i), t, p)
    decreases |p|
  {
    hide Forest, RunCrawl, Lists, Swept, Visible, Linked, Meta, TameAt, BelowFlagged;
    var u := RunCrawl(t, fs, filter, id, [], walk).tree;
    var first, s := ScopeOf(t, fs, filter, id), ScopeOf(t, fs, filter, i);
    OnlyBelowRoot(s, u, p);
    SweptIsUnseen(s, u, p);
    SweptUnseen(first, s, walk, u, p);
    UnseenAfter(t, fs, filter, id, walk, p);
    if Up(p) == s.root || Visible(s, Up(p)).Some? {
      assert TameAt(t, s, Up(p)) && TameAt(u, s, Up(p));
      SweptBase(s, t, p);
      SweptBase(s, u, p);
    } else {
      SweptStep(s, u, p);
      SweptBack(t, fs, filter, id, walk, i, Up(p));
      SweptUnseen(first, s, walk, u, Up(p));
      UnseenAfter(t, fs, filter, id, walk, Up(p));
      SweptStep(s, t, p);
    }
  }

  lemma {:induction false} SweptIsUnseen(s: Scope, t: Tree, p: Path)
    requires Swept(s, t, p)
    ensures Visible(s, p).None?
  {
  }

  /** What a later crawl would have got at, it still does, or the crawl before it did. */
  lemma {:induction false} SweptForth(t: Tree, fs: Snapshot, filter: Filter, id: NodeId, walk: seq<Entry>, i: NodeId,
                                      p: Path)
    requires Pair(t, fs, filter, id, walk, i) && Swept(ScopeOf(t, fs, filter, i), t, p)
    ensures || Swept(ScopeOf(t, fs, filter, i), RunCrawl(t, fs, filter, id, [], walk).tree, p)
            || Swept(ScopeOf(t, fs, filter, id), t, p)
    decreases |p|
  {
    hide Forest, RunCrawl, Lists, Swept, Visible, Linked, Meta, TameAt, BelowFlagged;
    var u := RunCrawl(t, fs, filter, id, [], walk).tree;
    var first, s := ScopeOf(t, fs, filter, id), ScopeOf(t, fs, filter, i);
    OnlyBelowRoot(s, t, p);
    SweptIsUnseen(s, t, p);
    SweptUnseen(first, s, walk, t, p);
    UnseenAfter(t, fs, filter, id, walk, p);
    if Up(p) == s.root || Visible(s, Up(p)).Some? {
      assert TameAt(t, s, Up(p)) && TameAt(u, s, Up(p));
      SweptBase(s, t, p);
      SweptBase(s, u, p);
    } else {
      SweptStep(s, t, p);
      SweptStep(s, u, p);
      SweptForth(t, fs, filter, id, walk, i, Up(p));
      SweptUnseen(first, s, walk, t, Up(p));
      UnseenAfter(t, fs, filter, id, walk, Up(p));
      if Swept(first, t, Up(p)) {
        OnlyBelowRoot(first, t, Up(p));
        SweptStep(first, t, p);
        if BelowFlagged(s, p) {
          assert TameAt(t, s, Up(Up(p))) && TameAt(u, s, Up(Up(p)));
          FlaggedStays(s, t, u, p);
        }
      }
    }
  }

  /** What is linked directly below what a crawl sees, it gets at, whatever else has changed. */
  lemma {:induction false} FlaggedStays(s: Scope, t: Tree, u: Tree, p: Path)
    requires s.root < p && s.root < Up(p) && Swept(s, t, Up(p)) && BelowFlagged(s, p)
    requires Linked(u, Up(p)) <==> Linked(t, Up(p))
    requires TameAt(t, s, Up(Up(p))) && TameAt(u, s, Up(Up(p)))
    ensures Swept(s, u, Up(p))
  {
    hide Visible, Linked, TameAt;
    SweptIsUnseen(s, t, Up(p));
    hide Swept;
    SweptBase(s, t, Up(p));
    SweptBase(s, u, Up(p));
  }

  /** A quiet crawl leaves a later one as quiet as it was. */
  lemma {:induction false} QuietStays(t: Tree, fs: Snapshot, filter: Filter, id: NodeId, walk: seq<Entry>, i: NodeId)
    requires Pair(t, fs, filter, id, walk, i) && Tame(t, ScopeOf(t, fs, filter, id))
             && Quiet(t, ScopeOf(t, fs, filter, id))
    ensures var u := RunCrawl(t, fs, filter, id, [], walk).tree; var s := ScopeOf(t, fs, filter, i);
            Quiet(u, s) <==> Quiet(t, s)
  {
    hide Forest, RunCrawl, Lists, Swept, IsFile, Tame;
    var u := RunCrawl(t, fs, filter, id, [], walk).tree;
    var s := ScopeOf(t, fs, filter, i);
    forall p
      ensures IsFile(u, p) && Swept(s, u, p) <==> IsFile(t, p) && Swept(s, t, p)
    {
      QuietKeepsFile(t, fs, filter, id, walk, p);
      if Swept(s, u, p) { SweptBack(t, fs, filter, id, walk, i, p); }
      if Swept(s, t, p) { SweptForth(t, fs, filter, id, walk, i, p); }
    }
  }

  // ----------------------------------------------------------- all roots once more

  /** Where one root sees the path of another, that one is covered as it would be. */
  ghost predicate CoveredFrom(t: Tree, s: Scope, i: NodeId)
    requires i < |t.nodes|
  {
    s.recursive && Visible(s, t.nodes[i].path).Some? ==> t.nodes[i].coverage == Recursive
  }

  lemma {:induction false} CoveredKeepsScope(t: Tree, fs: Snapshot, filter: Filter, id: NodeId, walk: seq<Entry>,
                                             i: NodeId)
    requires Ready(t, fs, id, walk) && i < |t.nodes| && CoveredFrom(t, ScopeOf(t, fs, filter, id), i)
    ensures var u := RunCrawl(t, fs, filter, id, [], walk).tree;
            i < |u.nodes| && u.nodes[i].path == t.nodes[i].path && u.nodes[i].coverage == t.nodes[i].coverage
            && ScopeOf(u, fs, filter, i) == ScopeOf(t, fs, filter, i)
  {
    hide RunCrawl, Forest, Lists, Visible;
    CoverageAfter(t, fs, filter, id, walk, i);
  }

  /** All roots are tame and cover each other as far as they see each other. */
  ghost predicate Steady(t: Tree, fs: Snapshot, filter: Filter, ids: seq<NodeId>) {
    && InArena(t, ids)
    && (forall j :: 0 <= j < |ids| ==> Tame(t, ScopeOf(t, fs, filter, ids[j])))
    && (forall j, k :: 0 <= j < |ids| && 0 <= k < |ids| ==> CoveredFrom(t, ScopeOf(t, fs, filter, ids[j]), ids[k]))
  }

  /** A quiet crawl of the first root leaves it so. */
  lemma {:induction false} SteadyGoesOn(t: Tree, fs: Snapshot, filter: Filter, walker: Walker, ids: seq<NodeId>)
    requires Plan(t, fs, walker, ids) && ids != [] && Steady(t, fs, filter, ids)
             && Quiet(t, ScopeOf(t, fs, filter, ids[0]))
    ensures var u := RunCrawl(t, fs, filter, ids[0], [], walker(t.nodes[ids[0]].path)).tree;
            && Steady(u, fs, filter, ids)
            && forall j :: 0 <= j < |ids| ==>
                 && ScopeOf(u, fs, filter, ids[j]) == ScopeOf(t, fs, filter, ids[j])
                 && (Quiet(u, ScopeOf(t, fs, filter, ids[j])) <==> Quiet(t, ScopeOf(t, fs, filter, ids[j])))
  {
    hide RunCrawl, Forest, Lists, Quiet, TameAt, CoveredFrom;
    var walk := walker(t.nodes[ids[0]].path);
    var u := RunCrawl(t, fs, filter, ids[0], [], walk).tree;
    forall j | 0 <= j < |ids|
      ensures ids[j] < |u.nodes| && u.nodes[ids[j]].path == t.nodes[ids[j]].path
              && u.nodes[ids[j]].coverage == t.nodes[ids[j]].coverage
              && ScopeOf(u, fs, filter, ids[j]) == ScopeOf(t, fs, filter, ids[j])
              && Tame(u, ScopeOf(t, fs, filter, ids[j]))
              && (Quiet(u, ScopeOf(t, fs, filter, ids[j])) <==> Quiet(t, ScopeOf(t, fs, filter, ids[j])))
    {
      assert CoveredFrom(t, ScopeOf(t, fs, filter, ids[0]), ids[j]);
      CoveredKeepsScope(t, fs, filter, ids[0], walk, ids[j]);
      forall p
        ensures TameAt(u, ScopeOf(t, fs, filter, ids[j]), p)
      {
        assert TameAt(t, ScopeOf(t, fs, filter, ids[j]), p);
        QuietKeepsTame(t, fs, filter, ids[0], walk, ScopeOf(t, fs, filter, ids[j]), p);
      }
      assert j > 0 ==> NotAbove(t, ids[j], ids[0]);
      QuietStays(t, fs, filter, ids[0], walk, ids[j]);
    }
    forall j, k | 0 <= j < |ids| && 0 <= k < |ids|
      ensures CoveredFrom(u, ScopeOf(u, fs, filter, ids[j]), ids[k])
    {
      assert CoveredFrom(t, ScopeOf(t, fs, filter, ids[j]), ids[k]);
      StillCovered(t, u, ScopeOf(t, fs, filter, ids[j]), ids[k]);
    }
  }

  lemma {:induction false} StillCovered(t: Tree, u: Tree, s: Scope, i: NodeId)
    requires i < |t.nodes| && i < |u.nodes| && CoveredFrom(t, s, i)
    requires u.nodes[i].path == t.nodes[i].path
             && (t.nodes[i].coverage == Recursive ==> u.nodes[i].coverage == Recursive)
    ensures CoveredFrom(u, s, i)
  {
    hide Visible;
  }

  lemma {:induction false} SteadyRest(t: Tree, fs: Snapshot, filter: Filter, ids: seq<NodeId>)
    requires Steady(t, fs, filter, ids) && ids != []
    ensures Steady(t, fs, filter, ids[1..])
  {
    hide Tame, CoveredFrom;
    assert forall j :: 0 <= j < |ids[1..]| ==> ids[1..][j] == ids[j + 1];
  }

  /** Crawling steady roots in turn is silent if and only if none of them gets at a known
      file unseen. */
  lemma {:induction false} EachSilentIff(t: Tree, fs: Snapshot, filter: Filter, walker: Walker, ids: seq<NodeId>)
    requires Plan(t, fs, walker, ids) && Steady(t, fs, filter, ids)
    ensures CrawlEach(t, fs, filter, walker, ids).events == []
       <==> forall j :: 0 <= j < |ids| ==> Quiet(t, ScopeOf(t, fs, filter, ids[j]))
    decreases |ids|
  {
    hide RunCrawl, Forest, Lists, Quiet, Tame, CoveredFrom, NotAbove;
    if ids != [] {
      var walk := walker(t.nodes[ids[0]].path);
      var u := RunCrawl(t, fs, filter, ids[0], [], walk).tree;
      PlanGoesOn(t, fs, filter, walker, ids);
      SilentIff(t, fs, filter, ids[0], walk);
      if Quiet(t, ScopeOf(t, fs, filter, ids[0])) {
        SteadyGoesOn(t, fs, filter, walker, ids);
        SteadyRest(u, fs, filter, ids);
        EachSilentIff(u, fs, filter, walker, ids[1..]);
        RestQuiet(t, u, fs, filter, ids);
      }
    }
  }

  lemma {:induction false} RestQuiet(t: Tree, u: Tree, fs: Snapshot, filter: Filter, ids: seq<NodeId>)
    requires InArena(t, ids) && InArena(u, ids) && ids != [] && Quiet(t, ScopeOf(t, fs, filter, ids[0]))
    requires forall j :: 0 <= j < |ids| ==>
               && ScopeOf(u, fs, filter, ids[j]) == ScopeOf(t, fs, filter, ids[j])
               && (Quiet(u, ScopeOf(t, fs, filter, ids[j])) <==> Quiet(t, ScopeOf(t, fs, filter, ids[j])))
    ensures (forall j :: 0 <= j < |ids[1..]| ==> Quiet(u, ScopeOf(u, fs, filter, ids[1..][j])))
       <==> (forall j :: 0 <= j < |ids| ==> Quiet(t, ScopeOf(t, fs, filter, ids[j])))
  {
    hide Quiet;
    assert forall j :: 0 <= j < |ids[1..]| ==> ids[1..][j] == ids[j + 1];
    assert forall j :: 0 < j < |ids| ==> ids[j] == ids[1..][j - 1];
  }

  // ------------------------------------------------------------- a second recrawl

  lemma {:induction false} CoverageGrows(t: Tree, fs: Snapshot, filter: Filter, walker: Walker, ids: seq<NodeId>,
                                         i: NodeId)
    requires Plan(t, fs, walker, ids) && i < |t.nodes|
    ensures var r := CrawlEach(t, fs, filter, walker, ids).tree;
            && i < |r.nodes| && r.nodes[i].path == t.nodes[i].path
            && (t.nodes[i].coverage == Recursive ==> r.nodes[i].coverage == Recursive)
    decreases |ids|
  {
    hide RunCrawl, Forest, Lists;
    if ids != [] {
      var walk := walker(t.nodes[ids[0]].path);
      PlanGoesOn(t, fs, filter, walker, ids);
      CoverageAfter(t, fs, filter, ids[0], walk, i);
      CoverageGrows(RunCrawl(t, fs, filter, ids[0], [], walk).tree, fs, filter, walker, ids[1..], i);
    }
  }

  lemma {:induction false} FirstCovers(t: Tree, fs: Snapshot, filter: Filter, walker: Walker, ids: seq<NodeId>,
                                       i: NodeId)
    requires Plan(t, fs, walker, ids) && ids != [] && i < |t.nodes|
    ensures var r := CrawlEach(t, fs, filter, walker, ids).tree;
            ids[0] < |r.nodes| && i < |r.nodes| && CoveredFrom(r, ScopeOf(r, fs, filter, ids[0]), i)
  {
    hide RunCrawl, Forest, Lists, Visible, InStepAt;
    var walk := walker(t.nodes[ids[0]].path);
    PlanGoesOn(t, fs, filter, walker, ids);
    OwnStaysInStep(t, fs, filter, walker, ids, walk, []);
    CoverageAfter(t, fs, filter, ids[0], walk, i);
    CoverageGrows(RunCrawl(t, fs, filter, ids[0], [], walk).tree, fs, filter, walker, ids[1..], i);
  }

  lemma {:induction false} EachCovers(t: Tree, fs: Snapshot, filter: Filter, walker: Walker, ids: seq<NodeId>, j: nat,
                                      k: nat)
    requires Plan(t, fs, walker, ids) && j < |ids| && k < |ids|
    ensures var r := CrawlEach(t, fs, filter, walker, ids).tree;
            ids[j] < |r.nodes| && ids[k] < |r.nodes| && CoveredFrom(r, ScopeOf(r, fs, filter, ids[j]), ids[k])
    decreases |ids|
  {
    hide RunCrawl, Forest, Lists, CoveredFrom, InStep;
    EachIsInStep(t, fs, filter, walker, ids, j);
    EachIsInStep(t, fs, filter, walker, ids, k);
    if j == 0 {
      FirstCovers(t, fs, filter, walker, ids, ids[k]);
    } else if k == 0 {
      assert NotAbove(t, ids[j], ids[0]);
      NotSeenFromInside(CrawlEach(t, fs, filter, walker, ids).tree, fs, filter, ids[j], ids[0]);
    } else {
      PlanGoesOn(t, fs, filter, walker, ids);
      var u := RunCrawl(t, fs, filter, ids[0], [], walker(t.nodes[ids[0]].path)).tree;
      assert ids[1..][j - 1] == ids[j] && ids[1..][k - 1] == ids[k];
      EachCovers(u, fs, filter, walker, ids[1..], j - 1, k - 1);
    }
  }

  lemma {:induction false} NotSeenFromInside(t: Tree, fs: Snapshot, filter: Filter, i: NodeId, j: NodeId)
    requires i < |t.nodes| && j < |t.nodes| && NotAbove(t, i, j)
    ensures CoveredFrom(t, ScopeOf(t, fs, filter, i), j)
  {
    OnlyBelowRoot(ScopeOf(t, fs, filter, i), t, t.nodes[j].path);
  }

  /** A recrawl leaves all its roots steady. */
  lemma {:induction false} LeavesSteady(t: Tree, fs: Snapshot, filter: Filter, walker: Walker, ids: seq<NodeId>)
    requires Plan(t, fs, walker, ids)
    ensures Steady(CrawlEach(t, fs, filter, walker, ids).tree, fs, filter, ids)
  {
    hide RunCrawl, Forest, Lists, CoveredFrom, InStep, Tame, NotAbove;
    var r := CrawlEach(t, fs, filter, walker, ids).tree;
    forall j | 0 <= j < |ids|
      ensures ids[j] < |r.nodes| && Tame(r, ScopeOf(r, fs, filter, ids[j]))
    {
      EachIsInStep(t, fs, filter, walker, ids, j);
      InStepIsTame(r, fs, filter, ids[j]);
    }
    forall j, k | 0 <= j < |ids| && 0 <= k < |ids|
      ensures CoveredFrom(r, ScopeOf(r, fs, filter, ids[j]), ids[k])
    {
      EachCovers(t, fs, filter, walker, ids, j, k);
    }
  }

  lemma {:induction false} PlanAgain(t: Tree, fs: Snapshot, filter: Filter, walker: Walker, again: Walker,
                                     ids: seq<NodeId>)
    requires Plan(t, fs, walker, ids) && Plan(t, fs, again, ids)
    ensures Plan(CrawlEach(t, fs, filter, walker, ids).tree, fs, again, ids)
  {
    hide RunCrawl, Forest, Lists, InStep;
    var r := CrawlEach(t, fs, filter, walker, ids).tree;
    forall j | 0 <= j < |ids|
      ensures ids[j] < |r.nodes| && r.nodes[ids[j]].path == t.nodes[ids[j]].path
    {
      EachIsInStep(t, fs, filter, walker, ids, j);
    }
    forall j, k | 0 <= j < k < |ids|
      ensures NotAbove(r, ids[k], ids[j])
    {
      assert NotAbove(t, ids[k], ids[j]);
    }
  }

  /** A second recrawl of the same snapshot, over any listings, is silent if and only if none
      of the roots gets at a file unseen that the first one left known: say, one it forgot to
      mark, or one that another root sees below a directory ignored to this one. */
  lemma {:induction false} SecondRecrawlSilentIff(t: Tree, fs: Snapshot, filter: Filter, walker: Walker,
                                                  again: Walker, ids: seq<NodeId>)
    requires Plan(t, fs, walker, ids) && Plan(t, fs, again, ids)
    ensures var u := CrawlEach(t, fs, filter, walker, ids).tree;
            && Plan(u, fs, again, ids)
            && (CrawlEach(u, fs, filter, again, ids).events == []
                <==> forall j :: 0 <= j < |ids| ==> Quiet(u, ScopeOf(u, fs, filter, ids[j])))
  {
    hide Forest, Lists, NotAbove, Steady, CrawlEach, Quiet;
    PlanAgain(t, fs, filter, walker, again, ids);
    LeavesSteady(t, fs, filter, walker, ids);
    EachSilentIff(CrawlEach(t, fs, filter, walker, ids).tree, fs, filter, again, ids);
  }

  // ------------------------------------------------------ taken one root at a time

  /** Crawling one more root comes after the ones before it. */
  lemma {:induction false} EachThenOne(t: Tree, fs: Snapshot, filter: Filter, walker: Walker, ids: seq<NodeId>,
                                       i: NodeId)
    requires Forest(t) && InArena(t, ids) && i < |t.nodes|
    ensures InArena(t, ids + [i])
    ensures var r := CrawlEach(t, fs, filter, walker, ids);
            && i < |r.tree.nodes| && r.tree.nodes[i].path == t.nodes[i].path
            && var c := RunCrawl(r.tree, fs, filter, i, [], walker(t.nodes[i].path));
               CrawlEach(t, fs, filter, walker, ids + [i]) == Cut(c.tree, r.events + c.events)
    decreases |ids|
  {
    hide RunCrawl, Forest;
    var more := ids + [i];
    var walk := walker(t.nodes[more[0]].path);
    CrawlStays(t, fs, filter, more[0], walk, i);
    ArenaStays(t, fs, filter, more[0], walk, more[1..]);
    if ids == [] {
      assert more[1..] == [];
    } else {
      assert more[1..] == ids[1..] + [i];
      ArenaStays(t, fs, filter, ids[0], walk, ids[1..]);
      EachThenOne(RunCrawl(t, fs, filter, ids[0], [], walk).tree, fs, filter, walker, ids[1..], i);
    }
  }
}
