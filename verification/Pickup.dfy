/** What becomes of a directory that appears while its parent is watched (README.md:12 of
    the repository: a new directory is crawled): one change is enough to pick all of it up. */
module Pickup {
  import opened Paths
  import opened Events
  import opened TreeModel
  import opened Deletion
  import opened CrawlModel
  import opened CrawlStructure
  import opened CrawlResult
  import opened Filters
  import opened Transactions
  import Pending

  /** A change reports a directory that is not ignored itself, of which the tree knows the
      parent, but neither the directory nor anything below it; it or the parent is marked
      as recursive. */
  ghost predicate NewDirectory(t: Tree, fs: Snapshot, filter: Filter, walk: seq<Entry>, change: Pending.PendingChange) {
    var p := change.path;
    && Forest(t) && p != [] && Known(t, Up(p))
    && (change.flags.markRecursive || t.nodes[t.table[Up(p)]].coverage == Recursive)
    && p in fs && fs[p].Directory? && !filter(p, Some(true)) && Lists(fs, p, walk)
    && forall x :: p <= x ==> x !in t.table
  }

  lemma {:induction false} NewDirectoryIsReady(t: Tree, fs: Snapshot, filter: Filter, walk: seq<Entry>,
                                               change: Pending.PendingChange)
    requires NewDirectory(t, fs, filter, walk, change)
    ensures var a := ApplyChange(t, fs, change); var id := |t.nodes|; var p := change.path;
            && a.recurse && a.node == Some(id) && a.events == []
            && Ready(a.tree, fs, id, walk) && Coherent(a.tree, p)
            && a.tree.nodes[id].meta.Dir? && ScopeOf(a.tree, fs, filter, id) == Scope(fs, filter, p, true)
            && forall q :: p < q ==> Meta(a.tree, q) == Deleted
  {
    hide Lists;
    var p := change.path;
    var m := ForPath(fs, p).value;
    assert p <= p;
    ApplyKeepsForest(t, fs, change);
    var n := Node(p, MetaOf(m), m.inode, false, Recursive, None);
    var parent := t.table[Up(p)];
    GrowIs(t, Some(parent), n);
    var a := ApplyChange(t, fs, change);
    assert GrownBy(t, a.tree, n) by { hide Grow, ReserveDir, GrownBy; }
    hide Forest, Grow, ApplyChange;
    forall q | p < q
      ensures !Known(a.tree, q)
    {
      assert p <= q;
    }
  }

  /** Applying the one change that reports it makes everything visible in the new directory
      known and covered, reports every visible file once as created and nothing else, and
      asks for a watch on exactly the new directories. */
  lemma {:induction false} NewDirectoryIsPickedUp(t: Tree, fs: Snapshot, filter: Filter, walker: Walker,
                                                  change: Pending.PendingChange, q: Path)
    requires NewDirectory(t, fs, filter, walker(change.path), change) && change.path < q
    ensures var one := ApplyOne(t, fs, filter, walker, change); var s := Scope(fs, filter, change.path, true);
            && one.recurse
            && (Visible(s, q).Some? ==> Synced(fs, true, one.tree, q))
            && At(one.events, q) == (if VisibleFile(s, q) then [Create] else [])
            && (q in one.watches <==> VisibleDir(s, q))
            && change.path in one.watches
  {
    var p := change.path;
    var a := ApplyChange(t, fs, change);
    hide NewDirectory, ApplyChange, ApplyOne, RunCrawl, Coherent, CoherentFor, Synced, PassedOver, Lists, Forest,
         Visible;
    NewDirectoryIsReady(t, fs, filter, walker(p), change);
    NewDirectoryIsCrawled(t, fs, filter, walker, change);
    CrawlOfNew(a.tree, fs, filter, |t.nodes|, walker(p), p, q);
  }

  /** A crawl of a directory below which nothing is live. */
  lemma {:induction false} CrawlOfNew(t: Tree, fs: Snapshot, filter: Filter, id: NodeId, walk: seq<Entry>, p: Path,
                                      q: Path)
    requires Ready(t, fs, id, walk) && Coherent(t, p) && ScopeOf(t, fs, filter, id) == Scope(fs, filter, p, true)
    requires p < q && Meta(t, q) == Deleted
    ensures var r := RunCrawl(t, fs, filter, id, [], walk); var s := Scope(fs, filter, p, true);
            && (Visible(s, q).Some? ==> Synced(fs, true, r.tree, q))
            && At(r.events, q) == (if VisibleFile(s, q) then [Create] else [])
            && (q in r.watches <==> VisibleDir(s, q))
            && p in r.watches
  {
    hide RunCrawl, Coherent, CoherentFor, Synced, PassedOver, Lists, Forest, Visible;
    var s := Scope(fs, filter, p, true);
    CoherentIsEnough(s, t);
    CoherentCrawl(t, fs, filter, id, walk);
    CrawlResynchronises(t, fs, filter, id, walk, q);
    CrawlResynchronises(t, fs, filter, id, walk, p);
    PassedOverIsUnseen(t, s, walk, q);
    SeenIsThere(s, q);
  }

  lemma {:induction false} SeenIsThere(s: Scope, q: Path)
    ensures Visible(s, q).Some? ==> q in s.fs && Visible(s, q) == Some(s.fs[q])
  {
  }

  lemma {:induction false} NewDirectoryIsCrawled(t: Tree, fs: Snapshot, filter: Filter, walker: Walker,
                                                 change: Pending.PendingChange)
    requires NewDirectory(t, fs, filter, walker(change.path), change)
    ensures var a := ApplyChange(t, fs, change);
            && Forest(a.tree) && |t.nodes| < |a.tree.nodes|
            && var c := RunCrawl(a.tree, fs, filter, |t.nodes|, [], walker(change.path));
               ApplyOne(t, fs, filter, walker, change) == One(c.tree, c.events, c.watches, true)
  {
    assert !filter(change.path, Some(true));
    NewDirectoryIsReady(t, fs, filter, walker(change.path), change);
    hide NewDirectory, ApplyChange, RunCrawl, Coherent, Lists, TableOk, ListsOwned, Descending, KidsBelow;
    var a := ApplyChange(t, fs, change);
    var c := RunCrawl(a.tree, fs, filter, |t.nodes|, [], walker(change.path));
    assert [] + c.events == c.events;
  }
}
