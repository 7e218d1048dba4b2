/** When a crawl leaves events behind that can be merged with what came before: the general
    condition of `Runs`, in terms of the tree and what is visible. */
module Legality {
  import opened Paths
  import opened Events
  import opened TreeModel
  import opened Deletion
  import opened CrawlModel
  import opened CrawlStructure
  import opened CrawlDiscipline
  import opened CrawlClaims
  import opened CrawlReport
  import opened CrawlTheorem
  import opened CrawlResult
  import opened Filters
  import opened Runs

  /** What the crawl leaves at `p`, for the code's own entry point: in line with the snapshot
      where it sees something; no file where it got at one unseen, unless that is a
      forgotten leaf; and unchanged everywhere else. */
  lemma {:induction false} CrawlLeavesAt(t: Tree, fs: Snapshot, filter: Filter, id: NodeId, walk: seq<Entry>, p: Path)
    requires Ready(t, fs, id, walk)
    ensures var u := RunCrawl(t, fs, filter, id, [], walk).tree; var s := ScopeOf(t, fs, filter, id);
            if Visible(s, p).Some? then Synced(fs, s.recursive, u, p)
            else if Swept(s, t, p) then IsFile(u, p) == ForgottenLeaf(s, t, p)
            else Meta(u, p) == Meta(t, p)
  {
    hide RunCrawl, Forest, Lists, Finished, Synced, StaleLeaf, Visible, Visits, Taken, Swept, Meta;
    var s := ScopeOf(t, fs, filter, id);
    CrawlIsFinished(t, fs, filter, id, walk);
    CrawlLeaves(CtxOf(t, s), Visits(s, walk), p);
    SweptIsTaken(t, s, walk, p);
    OnlyBelowRoot(s, t, p);
    VisibleIsSighting(t, s, walk, p);
    FileMeta(t, p);
    FileMeta(RunCrawl(t, fs, filter, id, [], walk).tree, p);
    if s.root < p && IsFile(t, p) { ForgottenIsStale(t, s, walk, p); }
  }

  lemma {:induction false} CrawlKeepsKnown(t: Tree, fs: Snapshot, filter: Filter, id: NodeId, walk: seq<Entry>)
    requires Ready(t, fs, id, walk)
    ensures forall p :: p in t.table ==> p in RunCrawl(t, fs, filter, id, [], walk).tree.table
  {
    hide RunCrawl, Forest, Lists, Finished;
    var s := ScopeOf(t, fs, filter, id);
    CrawlIsFinished(t, fs, filter, id, walk);
    FinalStructure(CtxOf(t, s), Visits(s, walk));
  }

  lemma {:induction false} CrawlKeepsInode(t: Tree, fs: Snapshot, filter: Filter, id: NodeId, walk: seq<Entry>, p: Path)
    requires Ready(t, fs, id, walk) && Visible(ScopeOf(t, fs, filter, id), p).None?
    ensures Inode(RunCrawl(t, fs, filter, id, [], walk).tree, p) == Inode(t, p)
  {
    hide RunCrawl, Forest, Lists, Visits, Visible, Finished;
    var s := ScopeOf(t, fs, filter, id);
    CrawlIsFinished(t, fs, filter, id, walk);
    FinalStructure(CtxOf(t, s), Visits(s, walk));
    VisibleIsSighting(t, s, walk, p);
    hide Walkable;
    UnseenUnknown(CtxOf(t, s), Seen(Visits(s, walk)), RunCrawl(t, fs, filter, id, [], walk).tree, p);
  }

  lemma {:induction false} ForgottenIsSwept(t: Tree, s: Scope, walk: seq<Entry>, p: Path)
    requires Lists(s.fs, s.root, walk) && ForgottenLeaf(s, t, p)
    ensures Swept(s, t, p)
  {
    var ctx, v := CtxOf(t, s), Visits(s, walk);
    hide Lists, Visits, Linked, Reached, Visible;
    ForgottenIsStale(t, s, walk, p);
    VisitsAre(s, walk);
    PreorderClosed(ctx, v);
    StaleLeafIsTaken(ctx, v, p);
    SweptIsTaken(t, s, walk, p);
  }

  /** A reported difference leads from the old kind to what is seen. */
  lemma {:induction false} DiffReplays(old_: NodeMeta, inode: nat, now: Option<Stat>)
    ensures Replay(old_.File?, Diff(old_, inode, now)) == Some(now.Some? && now.value.Regular?)
    ensures Tempfile !in Diff(old_, inode, now)
    ensures Diff(old_, inode, now) != [] ==> old_.File? || (now.Some? && now.value.Regular?)
  {
    var d := Diff(old_, inode, now);
    if d != [] { assert d[..|d| - 1] == []; }
  }

  lemma {:induction false} CrawlLegalExactlyAt(t: Tree, fs: Snapshot, filter: Filter, id: NodeId, walk: seq<Entry>,
                                               p: Path)
    requires Ready(t, fs, id, walk)
    ensures var r := RunCrawl(t, fs, filter, id, [], walk);
            LegalStepAt(t, r.events, r.tree, p) <==> !ForgottenLeaf(ScopeOf(t, fs, filter, id), t, p)
  {
    hide RunCrawl, Forest, Lists, Swept, Diff, Replay;
    var s := ScopeOf(t, fs, filter, id);
    CrawlReports(t, fs, filter, id, walk, p);
    CrawlLeavesAt(t, fs, filter, id, walk, p);
    CrawlKeepsKnown(t, fs, filter, id, walk);
    DiffReplays(Meta(t, p), Inode(t, p), Visible(s, p));
    DiffReplays(Meta(t, p), Inode(t, p), None);
    DiffOfNothing(Meta(t, p), Inode(t, p));
    ReplayOfNothing(IsFile(t, p));
    if ForgottenLeaf(s, t, p) { ForgottenIsSwept(t, s, walk, p); }
  }

  lemma {:induction false} ReplayOfNothing(was: bool)
    ensures Replay(was, []) == Some(was)
  {
  }

  /** What a crawl forgets can be told beforehand, whatever the tree: exactly the known files
      without a child list that are gone from a directory which is crawled and lists them.
      So its events are legal if and only if there is no such file. */
  lemma {:induction false} CrawlLegalIff(t: Tree, fs: Snapshot, filter: Filter, id: NodeId, walk: seq<Entry>)
    requires Ready(t, fs, id, walk)
    ensures var r := RunCrawl(t, fs, filter, id, [], walk); var s := ScopeOf(t, fs, filter, id);
            && (forall p :: CrawlForgets(t, fs, filter, id, walk, p) <==> ForgottenLeaf(s, t, p))
            && (LegalStep(t, r.events, r.tree) <==> forall p :: !ForgottenLeaf(s, t, p))
  {
    hide RunCrawl, Lists, ForgottenLeaf, LegalStepAt, CrawlForgets, Forest;
    var s := ScopeOf(t, fs, filter, id);
    forall p
      ensures CrawlForgets(t, fs, filter, id, walk, p) <==> ForgottenLeaf(s, t, p)
    {
      CrawlLegalAt(t, fs, filter, id, walk, p);
      CrawlLegalExactlyAt(t, fs, filter, id, walk, p);
    }
    CrawlLegal(t, fs, filter, id, walk);
  }
}
