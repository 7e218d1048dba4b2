/** What becomes of the changes that a transaction skips (src/tree.rs:213-217): the directory
    above them is taken to be looked at as a whole, and this says how far it is. */
module Skipping {
  import opened Paths
  import opened Events
  import opened TreeModel
  import opened Deletion
  import opened CrawlModel
  import opened CrawlStructure
  import opened CrawlClaims
  import opened CrawlReport
  import opened CrawlResult
  import opened Filters
  import opened Legality
  import opened Transactions
  import Pending

  // ------------------------------------------------ one change, below its own path

  /** Of the flags only the mark decides what becomes of the tree; the others may add an
      event for the changed path itself. */
  lemma {:induction false} FlagsAreLocal(t: Tree, fs: Snapshot, change: Pending.PendingChange, p: Path)
    requires Forest(t) && p != change.path
    ensures var a := ApplyChange(t, fs, change);
            var b := ApplyChange(t, fs, Pending.PendingChange(change.path, CrawlFlags(change.flags.markRecursive)));
            a.tree == b.tree && a.node == b.node && At(a.events, p) == At(b.events, p)
  {
    var a := ApplyChange(t, fs, change);
    var b := ApplyChange(t, fs, Pending.PendingChange(change.path, CrawlFlags(change.flags.markRecursive)));
    if change.path in t.table && ForPath(fs, change.path).Some? {
      SingleAt(a.events, p);
      SingleAt(b.events, p);
    }
  }

  /** The change finds that a directory is gone, and deletes what hung from it. */
  ghost predicate Takes(t: Tree, fs: Snapshot, d: Path, p: Path) {
    d in t.table && ForPath(fs, d).None? && Meta(t, d).Dir? && Reached(t, d, p)
  }

  lemma {:induction false} ChangeBelow(t: Tree, fs: Snapshot, change: Pending.PendingChange, p: Path)
    requires Forest(t) && p != change.path
    ensures var a := ApplyChange(t, fs, change);
            if Takes(t, fs, change.path, p) then
                Meta(a.tree, p) == Deleted && At(a.events, p) == DeleteEvent(Meta(t, p))
            else Meta(a.tree, p) == Meta(t, p) && At(a.events, p) == []
  {
    hide ListsOwned, Descending, KidsBelow, Restat, Vanish, Discover, Reached, Meta;
    var d := change.path;
    FlagsAreLocal(t, fs, change, p);
    var plain := Pending.PendingChange(d, CrawlFlags(change.flags.markRecursive));
    if d in t.table && ForPath(fs, d).None? {
      VanishAt(t, plain, p);
    } else if d in t.table {
      RestatEffect(t, fs, change.flags.markRecursive, d, p);
    } else if ForPath(fs, d).Some? && Up(d) in t.table {
      DiscoverEffect(t, fs, change.flags.markRecursive, d, p);
    }
  }

  lemma {:induction false} GrownTouches(t: Tree, fs: Snapshot, change: Pending.PendingChange)
    requires Forest(t) && ForPath(fs, change.path).Some? && (change.path in t.table || Up(change.path) in t.table)
    ensures var a := ApplyChange(t, fs, change); Forest(a.tree) && Touched(t, a.tree, change.path)
  {
    var d := change.path;
    var rec := change.flags.markRecursive;
    ApplyKeepsForest(t, fs, change);
    assert ApplyChange(t, fs, change).tree == ApplyChange(t, fs, Pending.PendingChange(d, CrawlFlags(rec))).tree by {
      FlagsAreLocal(t, fs, change, d + [[]]);
    }
    if d in t.table {
      RestatTouched(t, fs, rec, d);
    } else {
      DiscoverTouched(t, fs, rec, d);
    }
  }

  /** Below a directory that is there, a change leaves links, kinds and inodes alone. */
  lemma {:induction false} NothingElse(t: Tree, fs: Snapshot, change: Pending.PendingChange, q: Path)
    requires Forest(t) && ForPath(fs, change.path).Some? && (change.path in t.table || Up(change.path) in t.table)
    requires change.path != q
    ensures var u := ApplyChange(t, fs, change).tree;
            (Linked(u, q) <==> Linked(t, q)) && Meta(u, q) == Meta(t, q) && Inode(u, q) == Inode(t, q)
  {
    hide ListsOwned, KidsBelow, Descending, Kids, Linked, Meta, ApplyChange;
    GrownTouches(t, fs, change);
    var u := ApplyChange(t, fs, change).tree;
    ChangeBelow(t, fs, change, q);
    TouchedLinks(t, u, change.path);
    if q in t.table {
      TouchedInode(t, u, change.path, q);
    } else {
      StaysUnknown(t, u, change.path, q);
    }
  }

  lemma {:induction false} TouchedInode(t: Tree, u: Tree, e: Path, q: Path)
    requires TableOk(t) && Touched(t, u, e) && q != e && q in t.table
    ensures Inode(u, q) == Inode(t, q)
  {
    assert NodeTouched(e, t.nodes[t.table[q]], u.nodes[t.table[q]]);
  }

  lemma {:induction false} StaysUnknown(t: Tree, u: Tree, e: Path, q: Path)
    requires Touched(t, u, e) && q != e && q !in t.table
    ensures q !in u.table && Inode(u, q) == Inode(t, q) && !Linked(u, q) && !Linked(t, q)
  {
  }

  /** What a crawl gets at depends on the tree only below its root. */
  lemma {:induction false} SweptSame(s: Scope, t: Tree, u: Tree, p: Path)
    requires forall q :: s.root < q ==> (Linked(u, q) <==> Linked(t, q)) && Meta(u, q) == Meta(t, q)
    ensures Swept(s, u, p) <==> Swept(s, t, p)
  {
    hide Linked, Meta, Visible;
    if s.root < p && Visible(s, p).None? {
      var a := SeenAbove(s, p);
      TowardIs(a, p);
      ReachedSame(t, u, Toward(a, p), p);
      ReachedSame(t, u, a, p);
    }
  }

  // ---------------------------------------------------------- one change with its crawl

  /** The change is followed by a crawl. */
  ghost predicate Crawls(t: Tree, fs: Snapshot, filter: Filter, change: Pending.PendingChange)
    requires Forest(t)
  {
    ApplyKeepsForest(t, fs, change);
    ApplyNodeInArena(t, fs, change);
    var a := ApplyChange(t, fs, change);
    a.recurse && a.node.Some? && a.tree.nodes[a.node.value].meta.Dir? && !filter(change.path, Some(true))
  }

  /** Whether the node of a change is covered recursively once the change is applied. */
  ghost predicate Deep(t: Tree, change: Pending.PendingChange) {
    var d := change.path;
    || change.flags.markRecursive
    || (if d in t.table then Recursively(t, d) else Recursively(t, Up(d)))
  }

  ghost predicate Recursively(t: Tree, p: Path) {
    Known(t, p) && t.nodes[t.table[p]].coverage == Recursive
  }

  /** What the crawl after a change looks at. */
  ghost function CrawlScope(t: Tree, fs: Snapshot, filter: Filter, change: Pending.PendingChange): Scope {
    Scope(fs, filter, change.path, Deep(t, change))
  }

  lemma {:induction false} CrawlIsOf(t: Tree, fs: Snapshot, filter: Filter, walker: Walker,
                                     change: Pending.PendingChange)
    requires Forest(t) && Crawls(t, fs, filter, change)
    ensures var a := ApplyChange(t, fs, change); var d := change.path;
            var one := ApplyOne(t, fs, filter, walker, change);
            && ForPath(fs, d).Some? && d in fs && fs[d].Directory? && (d in t.table || Up(d) in t.table)
            && Forest(a.tree) && a.node.Some? && a.node.value < |a.tree.nodes|
            && ScopeOf(a.tree, fs, filter, a.node.value) == CrawlScope(t, fs, filter, change)
            && var c := RunCrawl(a.tree, fs, filter, a.node.value, [], walker(d));
               one.tree == c.tree && one.events == a.events + c.events && one.recurse
  {
    hide ListsOwned, Descending, KidsBelow, RunCrawl, DeleteRec;
    ApplyKeepsForest(t, fs, change);
    ApplyNodeInArena(t, fs, change);
    NodeOfChange(t, fs, change);
  }

  lemma {:induction false} NodeOfChange(t: Tree, fs: Snapshot, change: Pending.PendingChange)
    requires Forest(t)
    ensures var a := ApplyChange(t, fs, change); var d := change.path;
            a.node.Some? && a.node.value < |a.tree.nodes| && a.tree.nodes[a.node.value].meta.Dir? ==>
              && ForPath(fs, d).Some? && fs[d].Directory? && (d in t.table || Up(d) in t.table)
              && a.tree.nodes[a.node.value].path == d
              && (a.tree.nodes[a.node.value].coverage == Recursive <==> Deep(t, change))
  {
    var d := change.path;
    var m := ForPath(fs, d);
    if d in t.table {
      if m.Some? { RestatFacts(t, t.table[d], m.value, change); } else { VanishedNode(t, change); }
    } else if m.Some? && Up(d) in t.table {
      DiscoveredNode(t, t.table[Up(d)], m.value, change);
    }
  }

  lemma {:induction false} VanishedNode(t: Tree, change: Pending.PendingChange)
    requires Forest(t) && change.path in t.table
    ensures var r := Vanish(t, t.table[change.path], change);
            r.node == Some(t.table[change.path]) && t.table[change.path] < |r.tree.nodes|
            && r.tree.nodes[t.table[change.path]].meta == Deleted && r.recurse
  {
    var plain := Pending.PendingChange(change.path, CrawlFlags(change.flags.markRecursive));
    assert Vanish(t, t.table[change.path], change).tree == Vanish(t, t.table[change.path], plain).tree;
    VanishMeta(t, change.flags.markRecursive, change.path);
    hide DeleteRec;
  }

  lemma {:induction false} DiscoveredNode(t: Tree, parent: NodeId, m: Metadata, change: Pending.PendingChange)
    requires Forest(t) && parent < |t.nodes|
    ensures var r := Discover(t, parent, m, change);
            && r.node == Some(|t.nodes|) && |r.tree.nodes| == |t.nodes| + 1
            && r.tree.nodes[|t.nodes|].path == change.path && r.tree.nodes[|t.nodes|].meta == MetaOf(m)
            && (r.tree.nodes[|t.nodes|].coverage == Recursive
                <==> change.flags.markRecursive || t.nodes[parent].coverage == Recursive)
  {
    var recursive := change.flags.markRecursive || t.nodes[parent].coverage == Recursive;
    GrowIs(t, Some(parent),
           Node(change.path, MetaOf(m), m.inode, false, if recursive then Recursive else Uncovered, None));
    hide Grow, ReserveDir;
  }

  /** Below its own path the change sees `p` in a crawl, or gets at the node of `p`. */
  ghost predicate GotAt(t: Tree, fs: Snapshot, filter: Filter, change: Pending.PendingChange, p: Path)
    requires Forest(t)
  {
    if Crawls(t, fs, filter, change) then
      Visible(CrawlScope(t, fs, filter, change), p).Some? || Swept(CrawlScope(t, fs, filter, change), t, p)
    else Takes(t, fs, change.path, p)
  }

  /** What the change reports at a path below its own. */
  ghost function Reported(t: Tree, fs: Snapshot, filter: Filter, change: Pending.PendingChange, p: Path): seq<EventType>
    requires Forest(t)
  {
    var s := CrawlScope(t, fs, filter, change);
    if Crawls(t, fs, filter, change) && Visible(s, p).Some? then Diff(Meta(t, p), Inode(t, p), Visible(s, p))
    else if GotAt(t, fs, filter, change, p) then DeleteEvent(Meta(t, p))
    else []
  }

  lemma {:induction false} CrawledBelow(t: Tree, fs: Snapshot, filter: Filter, walker: Walker,
                                        change: Pending.PendingChange, p: Path)
    requires Forest(t) && Crawls(t, fs, filter, change) && Lists(fs, change.path, walker(change.path))
             && p != change.path
    ensures At(ApplyOne(t, fs, filter, walker, change).events, p) == Reported(t, fs, filter, change, p)
  {
    hide Forest, ApplyOne, ApplyChange, RunCrawl, Crawls, Lists, Visible, Swept, Diff, DeleteEvent, Linked, Meta, At,
         Deep, Inode, Takes;
    CrawlIsOf(t, fs, filter, walker, change);
    var d := change.path;
    var a := ApplyChange(t, fs, change);
    var s := CrawlScope(t, fs, filter, change);
    var c := RunCrawl(a.tree, fs, filter, a.node.value, [], walker(d));
    AtAppend(a.events, c.events, p);
    ChangeBelow(t, fs, change, p);
    NothingTaken(t, fs, d, p);
    CrawlReports(a.tree, fs, filter, a.node.value, walker(d), p);
    forall q | s.root < q
      ensures (Linked(a.tree, q) <==> Linked(t, q)) && Meta(a.tree, q) == Meta(t, q)
    {
      NothingElse(t, fs, change, q);
    }
    SweptSame(s, t, a.tree, p);
    NothingElse(t, fs, change, p);
  }

  lemma {:induction false} NothingTaken(t: Tree, fs: Snapshot, d: Path, p: Path)
    requires ForPath(fs, d).Some?
    ensures !Takes(t, fs, d, p)
  {
  }

  /** For every tree, snapshot, filter and change: what applying the change, with the crawl it
      may ask for, reports at a path below the changed one. */
  lemma {:induction false} BelowIsReported(t: Tree, fs: Snapshot, filter: Filter, walker: Walker,
                                           change: Pending.PendingChange, p: Path)
    requires Forest(t) && change.path < p
             && (Crawls(t, fs, filter, change) ==> Lists(fs, change.path, walker(change.path)))
    ensures At(ApplyOne(t, fs, filter, walker, change).events, p) == Reported(t, fs, filter, change, p)
  {
    hide Forest, ApplyChange, RunCrawl, Lists, Visible, Swept, Diff, DeleteEvent, Linked, Meta, At, Inode, Takes;
    if Crawls(t, fs, filter, change) {
      hide ApplyOne, Crawls;
      CrawledBelow(t, fs, filter, walker, change, p);
    } else {
      ChangeBelow(t, fs, change, p);
    }
  }

  // ------------------------------------------------------------ what there is to report

  /** The walker lists every directory of the snapshot, and nothing lies below anything
      else. */
  ghost predicate Listings(fs: Snapshot, walker: Walker) {
    forall d :: ListsAt(fs, walker, d)
  }

  ghost predicate ListsAt(fs: Snapshot, walker: Walker, d: Path) {
    if d in fs && fs[d].Directory? then Lists(fs, d, walker(d)) else forall p :: p in fs ==> !(d < p)
  }

  /** What looking at everything below `d` would find at `p`. */
  ghost function ToBeFound(t: Tree, fs: Snapshot, filter: Filter, d: Path, p: Path): seq<EventType> {
    Diff(Meta(t, p), Inode(t, p), Visible(Scope(fs, filter, d, true), p))
  }

  /** Below the same root, what is seen one level deep is seen, and what is got at unseen is
      out of sight, however deep one looks. */
  lemma {:induction false} DeeperSees(s: Scope, t: Tree, p: Path, walk: seq<Entry>)
    requires Lists(s.fs, s.root, walk)
    ensures Visible(s, p).Some? ==> Visible(s.(recursive := true), p) == Visible(s, p)
    ensures Swept(s, t, p) ==> Visible(s.(recursive := true), p).None?
  {
    var deep := s.(recursive := true);
    if Swept(s, t, p) && Visible(deep, p).Some? {
      var a, h := SeenAbove(s, p), Toward(s.root, p);
      hide Reached, Linked, Meta, Lists, Admit, Seen;
      TowardIs(s.root, p);
      assert h != p;
      VisibleUpwards(deep, walk, h, p);
      assert VisibleDir(s, h);
      OnWayDown(s.root, a, h, p);
      if a == s.root { SeenAboveGap(s, p, h); } else { SeenAboveSeen(s, p); }
    }
  }

  lemma {:induction false} NothingIsFound(t: Tree, fs: Snapshot, filter: Filter, walker: Walker, d: Path, p: Path)
    requires ListsAt(fs, walker, d) && d < p && !(d in fs && fs[d].Directory?)
    ensures ToBeFound(t, fs, filter, d, p) == DeleteEvent(Meta(t, p))
  {
    hide Meta;
    assert p !in fs;
  }

  /** A change below the changed directory is reported as the difference it makes if and only if
      it makes none, or the directory's change sees it or gets at its node. */
  lemma {:induction false} ReportedIff(t: Tree, fs: Snapshot, filter: Filter, walker: Walker,
                                       change: Pending.PendingChange, p: Path)
    requires Forest(t) && change.path < p && ListsAt(fs, walker, change.path)
    ensures Reported(t, fs, filter, change, p) == ToBeFound(t, fs, filter, change.path, p)
       <==> ToBeFound(t, fs, filter, change.path, p) == [] || GotAt(t, fs, filter, change, p)
  {
    hide Forest, Lists, Visible, Swept, Linked, Meta, Inode, Takes, Deep;
    var d := change.path;
    var s := CrawlScope(t, fs, filter, change);
    if Crawls(t, fs, filter, change) {
      CrawlIsOf(t, fs, filter, walker, change);
      hide Crawls;
      DeeperSees(s, t, p, walker(d));
      DiffOfNothing(Meta(t, p), Inode(t, p));
    } else {
      hide Crawls;
      TakesIsGone(t, fs, d, p);
      if GotAt(t, fs, filter, change, p) { NothingIsFound(t, fs, filter, walker, d, p); }
    }
  }

  lemma {:induction false} TakesIsGone(t: Tree, fs: Snapshot, d: Path, p: Path)
    ensures Takes(t, fs, d, p) ==> !(d in fs && fs[d].Directory?)
  {
  }

  // ---------------------------------------------------- what a change leaves alone

  /** The same at `p`, as far as later changes can tell. */
  ghost predicate SameAt(t: Tree, u: Tree, p: Path) {
    Meta(u, p) == Meta(t, p) && Inode(u, p) == Inode(t, p)
  }

  lemma {:induction false} VanishKeepsInode(t: Tree, change: Pending.PendingChange, p: Path)
    requires Forest(t) && change.path in t.table
    ensures Inode(Vanish(t, t.table[change.path], change).tree, p) == Inode(t, p)
  {
    var rec := change.flags.markRecursive;
    var plain := Pending.PendingChange(change.path, CrawlFlags(rec));
    assert Vanish(t, t.table[change.path], change).tree == Vanish(t, t.table[change.path], plain).tree;
    VanishFacts(t, rec, change.path);
    hide Vanish;
  }

  lemma {:induction false} ChangeKeepsInode(t: Tree, fs: Snapshot, change: Pending.PendingChange, p: Path)
    requires Forest(t) && p != change.path
    ensures Inode(ApplyChange(t, fs, change).tree, p) == Inode(t, p)
  {
    hide Forest, Vanish, Restat, Discover, Inode;
    if ForPath(fs, change.path).Some? && (change.path in t.table || Up(change.path) in t.table) {
      NothingElse(t, fs, change, p);
    } else if change.path in t.table {
      VanishKeepsInode(t, change, p);
    }
  }

  lemma {:induction false} TakesRecurses(t: Tree, fs: Snapshot, change: Pending.PendingChange, p: Path)
    requires Forest(t) && Takes(t, fs, change.path, p)
    ensures change.path < p && ApplyChange(t, fs, change).recurse
  {
    ReachedIsBelow(t, change.path, p);
    hide DeleteRec;
  }

  /** Where a change is not, nor lies above with a crawl or a deletion, nothing happens. */
  lemma {:induction false} ApplyElsewhere(t: Tree, fs: Snapshot, filter: Filter, walker: Walker,
                                          change: Pending.PendingChange, p: Path)
    requires Forest(t) && ListsAt(fs, walker, change.path) && p != change.path
    requires !(change.path < p && ApplyOne(t, fs, filter, walker, change).recurse)
    ensures var one := ApplyOne(t, fs, filter, walker, change); At(one.events, p) == [] && SameAt(t, one.tree, p)
  {
    hide Forest, Lists, Visible, Swept, Meta, Inode, Takes, Deep, RunCrawl, ApplyChange, At, Diff, DeleteEvent;
    ChangeBelow(t, fs, change, p);
    ChangeKeepsInode(t, fs, change, p);
    if Takes(t, fs, change.path, p) { TakesRecurses(t, fs, change, p); }
    if Crawls(t, fs, filter, change) {
      hide ApplyOne, Crawls;
      CrawlIsOf(t, fs, filter, walker, change);
      CrawlElsewhere(t, fs, filter, walker, change, p);
    }
  }

  lemma {:induction false} CrawlElsewhere(t: Tree, fs: Snapshot, filter: Filter, walker: Walker,
                                          change: Pending.PendingChange, p: Path)
    requires Forest(t) && Crawls(t, fs, filter, change) && Lists(fs, change.path, walker(change.path))
    requires !(change.path <= p) && SameAt(t, ApplyChange(t, fs, change).tree, p)
    ensures var one := ApplyOne(t, fs, filter, walker, change); At(one.events, p) == [] && SameAt(t, one.tree, p)
  {
    hide Forest, Lists, Visible, Swept, Meta, Inode, Takes, Deep, RunCrawl, ApplyChange, ApplyOne, Crawls, At, Diff,
         DeleteEvent;
    CrawlIsOf(t, fs, filter, walker, change);
    CrawledBelow(t, fs, filter, walker, change, p);
    var a := ApplyChange(t, fs, change);
    var s := CrawlScope(t, fs, filter, change);
    OnlyBelowRoot(s, t, p);
    OnlyBelowRoot(s, a.tree, p);
    CrawlLeavesAt(a.tree, fs, filter, a.node.value, walker(change.path), p);
    CrawlKeepsInode(a.tree, fs, filter, a.node.value, walker(change.path), p);
  }

  // ------------------------------------------------------------------- a transaction

  /** A transaction over changes none of which is `p` or lies above it. */
  lemma {:induction false} TransactElsewhere(t: Tree, fs: Snapshot, filter: Filter, walker: Walker,
                                             changes: seq<Pending.PendingChange>, p: Path)
    requires Forest(t) && Listings(fs, walker) && forall i :: 0 <= i < |changes| ==> !(changes[i].path <= p)
    ensures At(Transact(t, fs, filter, walker, changes).events, p) == []
    decreases |changes|
  {
    hide Forest, ApplyOne, Run, SameAt, ListsAt;
    if changes != [] {
      var one := ApplyOne(t, fs, filter, walker, changes[0]);
      var n := if one.recurse then Run(changes[0].path, changes[1..]) else 0;
      assert ListsAt(fs, walker, changes[0].path);
      ApplyElsewhere(t, fs, filter, walker, changes[0], p);
      TransactElsewhere(one.tree, fs, filter, walker, changes[1 + n..], p);
      AtAppend(one.events, Transact(one.tree, fs, filter, walker, changes[1 + n..]).events, p);
    }
  }

  /** The tree when the transaction has come to change `k`. */
  ghost function TreeBefore(t: Tree, fs: Snapshot, filter: Filter, walker: Walker,
                            changes: seq<Pending.PendingChange>, k: nat): (r: Tree)
    requires Forest(t) && k < |changes|
    ensures Forest(r)
    decreases |changes|
  {
    if k == 0 then t
    else
      var one := ApplyOne(t, fs, filter, walker, changes[0]);
      var n := if one.recurse then Run(changes[0].path, changes[1..]) else 0;
      if k <= n then one.tree else TreeBefore(one.tree, fs, filter, walker, changes[1 + n..], k - 1 - n)
  }

  /** A skipped change lies below exactly one change whose processing can have touched it:
      what the transaction reports for it is what that one reports. */
  ghost predicate SkippedUnder(t: Tree, fs: Snapshot, filter: Filter, walker: Walker,
                               changes: seq<Pending.PendingChange>, j: nat, k: nat)
    requires Forest(t) && j < k < |changes|
  {
    var p := changes[k].path;
    var before := TreeBefore(t, fs, filter, walker, changes, j);
    && changes[j].path < p && SameAt(t, before, p)
    && At(Transact(t, fs, filter, walker, changes).events, p) == Reported(before, fs, filter, changes[j], p)
  }

  lemma {:induction false} LogJoined(first: Handled, skipped: seq<Pending.PendingChange>, later: seq<Handled>, k: nat)
    requires k < 1 + |skipped| + |later|
    ensures var log := [first] + Skips(skipped) + later; var n := |skipped|;
            && log[0] == first
            && (0 < k <= n ==> log[k].Skipped?)
            && (n < k ==> k - 1 - n < |later| && log[k] == later[k - 1 - n])
  {
  }

  lemma {:induction false} LogIs(t: Tree, fs: Snapshot, filter: Filter, walker: Walker,
                                 changes: seq<Pending.PendingChange>, k: nat)
    requires Forest(t) && k < |Transact(t, fs, filter, walker, changes).log| && changes != []
    ensures var one := ApplyOne(t, fs, filter, walker, changes[0]);
            var n := if one.recurse then Run(changes[0].path, changes[1..]) else 0;
            var log := Transact(t, fs, filter, walker, changes).log;
            var later := Transact(one.tree, fs, filter, walker, changes[1 + n..]).log;
            && log[0] == Processed(changes[0], one.recurse)
            && (0 < k <= n ==> log[k].Skipped?)
            && (n < k ==> k - 1 - n < |later| && log[k] == later[k - 1 - n])
  {
    hide Forest, ApplyOne, Run;
    var one := ApplyOne(t, fs, filter, walker, changes[0]);
    var n := if one.recurse then Run(changes[0].path, changes[1..]) else 0;
    var later := Transact(one.tree, fs, filter, walker, changes[1 + n..]).log;
    assert |changes[1..1 + n]| == n;
    LogJoined(Processed(changes[0], one.recurse), changes[1..1 + n], later, k);
    hide Skips;
  }

  lemma {:induction false} NotAboveLater(changes: seq<Pending.PendingChange>, k: nat, i: nat)
    requires Pending.StrictlySorted(changes) && k < i < |changes|
    ensures !(changes[i].path <= changes[k].path)
  {
    var x, p := changes[i].path, changes[k].path;
    BeforeTotal(x, p);
    BeforeTotal(p, x);
    if x < p { AncestorFirst(x, p); }
  }

  lemma {:induction false} SkippedByFirst(t: Tree, fs: Snapshot, filter: Filter, walker: Walker,
                                          changes: seq<Pending.PendingChange>, k: nat)
    requires Forest(t) && Pending.StrictlySorted(changes) && Listings(fs, walker) && 0 < k < |changes|
    requires ApplyOne(t, fs, filter, walker, changes[0]).recurse && k <= Run(changes[0].path, changes[1..])
    ensures SkippedUnder(t, fs, filter, walker, changes, 0, k)
  {
    hide Forest, ApplyOne, Run, Reported, Pending.StrictlySorted, ListsAt, Crawls, At, SameAt;
    var one := ApplyOne(t, fs, filter, walker, changes[0]);
    var n := Run(changes[0].path, changes[1..]);
    var later := changes[1 + n..];
    var p := changes[k].path;
    RunBelow(changes[0].path, changes[1..]);
    assert changes[1..][k - 1] == changes[k];
    forall i | 0 <= i < |later|
      ensures !(later[i].path <= p)
    {
      NotAboveLater(changes, k, 1 + n + i);
    }
    TransactElsewhere(one.tree, fs, filter, walker, later, p);
    AtAppend(one.events, Transact(one.tree, fs, filter, walker, later).events, p);
    assert ListsAt(fs, walker, changes[0].path);
    ListedWhereCrawled(t, fs, filter, walker, changes[0]);
    BelowIsReported(t, fs, filter, walker, changes[0], p);
    SameAsItself(t, p);
    assert At(one.events, p) + [] == At(one.events, p);
  }

  lemma {:induction false} SameAsItself(t: Tree, p: Path)
    ensures SameAt(t, t, p)
  {
  }

  lemma {:induction false} ListedWhereCrawled(t: Tree, fs: Snapshot, filter: Filter, walker: Walker,
                                              change: Pending.PendingChange)
    requires Forest(t) && ListsAt(fs, walker, change.path)
    ensures Crawls(t, fs, filter, change) ==> Lists(fs, change.path, walker(change.path))
  {
    hide Forest, Crawls, Lists;
    if Crawls(t, fs, filter, change) { CrawlIsOf(t, fs, filter, walker, change); }
  }

  lemma {:induction false} AfterFirst(t: Tree, fs: Snapshot, filter: Filter, walker: Walker,
                                      changes: seq<Pending.PendingChange>, n: nat, j: nat)
    requires Forest(t) && 1 + n + j < |changes|
    requires n == if ApplyOne(t, fs, filter, walker, changes[0]).recurse then Run(changes[0].path, changes[1..]) else 0
    ensures var one := ApplyOne(t, fs, filter, walker, changes[0]); var later := changes[1 + n..];
            && TreeBefore(t, fs, filter, walker, changes, 1 + n + j)
               == TreeBefore(one.tree, fs, filter, walker, later, j)
            && Transact(t, fs, filter, walker, changes).events
               == one.events + Transact(one.tree, fs, filter, walker, later).events
  {
    hide Forest, ApplyOne, Run;
  }

  /** The first change does nothing at a later path that is not skipped below it. */
  lemma {:induction false} FirstElsewhere(t: Tree, fs: Snapshot, filter: Filter, walker: Walker,
                                          changes: seq<Pending.PendingChange>, n: nat, k: nat)
    requires Forest(t) && Pending.StrictlySorted(changes) && Listings(fs, walker) && n < k < |changes|
    requires n == if ApplyOne(t, fs, filter, walker, changes[0]).recurse then Run(changes[0].path, changes[1..]) else 0
    ensures var one := ApplyOne(t, fs, filter, walker, changes[0]);
            At(one.events, changes[k].path) == [] && SameAt(t, one.tree, changes[k].path)
  {
    hide Forest, ApplyOne, Run, Pending.StrictlySorted, ListsAt, At, SameAt;
    RunIsMaximal(changes);
    SortedApart(changes, k);
    assert ListsAt(fs, walker, changes[0].path);
    ApplyElsewhere(t, fs, filter, walker, changes[0], changes[k].path);
  }

  lemma {:induction false} SameAtAgain(t: Tree, m: Tree, u: Tree, p: Path)
    requires SameAt(t, m, p) && SameAt(m, u, p)
    ensures SameAt(t, u, p)
  {
  }

  lemma {:induction false} SkippedLater(t: Tree, fs: Snapshot, filter: Filter, walker: Walker,
                                        changes: seq<Pending.PendingChange>, n: nat, j: nat, k: nat)
    requires Forest(t) && Pending.StrictlySorted(changes) && Listings(fs, walker) && changes != []
    requires n == if ApplyOne(t, fs, filter, walker, changes[0]).recurse then Run(changes[0].path, changes[1..]) else 0
    requires j < k && 1 + n + k < |changes|
    requires SkippedUnder(ApplyOne(t, fs, filter, walker, changes[0]).tree, fs, filter, walker, changes[1 + n..], j, k)
    ensures SkippedUnder(t, fs, filter, walker, changes, 1 + n + j, 1 + n + k)
  {
    hide Forest, ApplyOne, Run, Reported, Pending.StrictlySorted, Listings, At, SameAt, TreeBefore, Transact;
    var one := ApplyOne(t, fs, filter, walker, changes[0]);
    var later := changes[1 + n..];
    var p := changes[1 + n + k].path;
    assert later[k] == changes[1 + n + k] && later[j] == changes[1 + n + j];
    AfterFirst(t, fs, filter, walker, changes, n, j);
    FirstElsewhere(t, fs, filter, walker, changes, n, 1 + n + k);
    SameAtAgain(t, one.tree, TreeBefore(one.tree, fs, filter, walker, later, j), p);
    AtAppend(one.events, Transact(one.tree, fs, filter, walker, later).events, p);
    assert [] + At(Transact(one.tree, fs, filter, walker, later).events, p)
           == At(Transact(one.tree, fs, filter, walker, later).events, p);
  }

  lemma {:induction false} SortedApart(changes: seq<Pending.PendingChange>, k: nat)
    requires Pending.StrictlySorted(changes) && 0 < k < |changes|
    ensures changes[k].path != changes[0].path
  {
    NotAboveLater(changes, 0, k);
  }

  /** Every skipped change of a transaction lies below a processed one that recursed, finds
      its path as it was before the transaction, and is reported exactly as that one does. */
  lemma {:induction false} SkippedIsUnder(t: Tree, fs: Snapshot, filter: Filter, walker: Walker,
                                          changes: seq<Pending.PendingChange>, k: nat)
    returns (j: nat)
    requires Forest(t) && Pending.StrictlySorted(changes) && Listings(fs, walker)
    requires k < |Transact(t, fs, filter, walker, changes).log|
             && Transact(t, fs, filter, walker, changes).log[k].Skipped?
    ensures |Transact(t, fs, filter, walker, changes).log| == |changes| && j < k
    ensures CoveredBy(Transact(t, fs, filter, walker, changes).log, j, k)
    ensures SkippedUnder(t, fs, filter, walker, changes, j, k)
    decreases |changes|
  {
    hide Forest, ApplyOne, Run, Pending.StrictlySorted, Listings, SkippedUnder, Transact, Changes, SkipsExactly;
    LogHasAll(t, fs, filter, walker, changes);
    var one := ApplyOne(t, fs, filter, walker, changes[0]);
    var n := if one.recurse then Run(changes[0].path, changes[1..]) else 0;
    LogIs(t, fs, filter, walker, changes, k);
    if k <= n {
      j := 0;
      SkippedByFirst(t, fs, filter, walker, changes, k);
      RunBelow(changes[0].path, changes[1..]);
      assert changes[1..][k - 1] == changes[k];
    } else {
      SortedTail(changes, 1 + n);
      var i := SkippedIsUnder(one.tree, fs, filter, walker, changes[1 + n..], k - 1 - n);
      j := 1 + n + i;
      LogIs(t, fs, filter, walker, changes, j);
      SkippedLater(t, fs, filter, walker, changes, n, i, k - 1 - n);
    }
  }

  lemma {:induction false} LogHasAll(t: Tree, fs: Snapshot, filter: Filter, walker: Walker,
                                     changes: seq<Pending.PendingChange>)
    requires Forest(t) && Pending.StrictlySorted(changes)
    ensures var log := Transact(t, fs, filter, walker, changes).log;
            |log| == |changes| && forall k :: 0 <= k < |log| ==> log[k].change == changes[k]
  {
    hide Forest, Transact, SkipsExactly;
    SkippingIsExact(t, fs, filter, walker, changes);
    var log := Transact(t, fs, filter, walker, changes).log;
    assert |Changes(log)| == |log|;
    forall k | 0 <= k < |log|
      ensures log[k].change == changes[k]
    {
      assert Changes(log)[k] == log[k].change;
    }
  }

  /** A skipped change, although its path was named, is reported as the difference it makes if
      and only if it makes none, or the change above sees it or gets at its node. */
  ghost predicate ReportedIfGotAt(t: Tree, fs: Snapshot, filter: Filter, walker: Walker,
                                  changes: seq<Pending.PendingChange>, j: nat, k: nat)
    requires Forest(t) && j < k < |changes|
  {
    var d, p := changes[j].path, changes[k].path;
    var found := ToBeFound(t, fs, filter, d, p);
    At(Transact(t, fs, filter, walker, changes).events, p) == found
    <==> found == [] || GotAt(TreeBefore(t, fs, filter, walker, changes, j), fs, filter, changes[j], p)
  }

  lemma {:induction false} SkippedIsReportedIff(t: Tree, fs: Snapshot, filter: Filter, walker: Walker,
                                                changes: seq<Pending.PendingChange>, k: nat)
    requires Forest(t) && Pending.StrictlySorted(changes) && Listings(fs, walker)
    requires k < |Transact(t, fs, filter, walker, changes).log|
             && Transact(t, fs, filter, walker, changes).log[k].Skipped?
    ensures |Transact(t, fs, filter, walker, changes).log| == |changes|
    ensures exists j :: 0 <= j < k && CoveredBy(Transact(t, fs, filter, walker, changes).log, j, k)
                        && ReportedIfGotAt(t, fs, filter, walker, changes, j, k)
  {
    hide Forest, Transact, Pending.StrictlySorted, ListsAt, TreeBefore, CoveredBy, GotAt, Reported, At, Visible, Diff,
         Meta, Inode;
    var j := SkippedIsUnder(t, fs, filter, walker, changes, k);
    assert ListsAt(fs, walker, changes[j].path);
    ReportedIff(TreeBefore(t, fs, filter, walker, changes, j), fs, filter, walker, changes[j], changes[k].path);
  }
}
