/** The crawl results stated for the code's own entry point: a directory walk, a filter,
    and a tree that knows the root. */
module CrawlResult {
  import opened Paths
  import opened Events
  import opened TreeModel
  import opened Deletion
  import opened CrawlModel
  import opened CrawlStructure
  import opened CrawlDiscipline
  import opened CrawlClaims
  import opened CrawlReport
  import opened CrawlTheorem
  import opened Filters

  // ------------------------------------- the pruned walk is the list of its visits

  function FoldVisits(c: Crawl, ctx: Ctx, v: seq<Entry>): (r: Crawl)
    requires Forest(c.tree) && Listed(c.tree, c.stack)
    ensures Forest(r.tree) && Listed(r.tree, r.stack)
    decreases |v|
  {
    if v == [] then c else FoldVisits(VisitEntry(c, ctx, v[0].path), ctx, v[1..])
  }

  lemma {:induction false} FoldSnoc(c: Crawl, ctx: Ctx, v: seq<Entry>, e: Entry)
    requires Forest(c.tree) && Listed(c.tree, c.stack)
    ensures FoldVisits(c, ctx, v + [e]) == VisitEntry(FoldVisits(c, ctx, v), ctx, e.path)
    decreases |v|
  {
    hide VisitEntry, Forest, Listed;
    var w := v + [e];
    if v == [] {
      assert w[1..] == [];
    } else {
      assert w[0] == v[0] && w[1..] == v[1..] + [e];
      FoldSnoc(VisitEntry(c, ctx, v[0].path), ctx, v[1..], e);
    }
  }

  lemma {:induction false} FoldNothing(c: Crawl, ctx: Ctx)
    requires Forest(c.tree) && Listed(c.tree, c.stack)
    ensures FoldVisits(c, ctx, []) == c
  {
  }

  lemma {:induction false} RunVisitsIsFold(ctx: Ctx, v: seq<Entry>)
    requires Forest(ctx.t0) && ctx.root in ctx.t0.table
    ensures RunVisits(ctx, v) == FoldVisits(RunVisits(ctx, []), ctx, v)
  {
    hide VisitEntry, Forest, Listed, FoldVisits;
    if v == [] {
      FoldNothing(RunVisits(ctx, []), ctx);
    } else {
      var init, e := v[..|v| - 1], v[|v| - 1];
      assert v == init + [e];
      assert RunVisits(ctx, v) == VisitEntry(RunVisits(ctx, init), ctx, e.path);
      hide RunVisits;
      RunVisitsIsFold(ctx, init);
      FoldSnoc(RunVisits(ctx, []), ctx, init, e);
    }
  }

  lemma {:induction false} RunWalkIsFold(c: Crawl, ctx: Ctx, filter: Filter, walk: seq<Entry>)
    requires Forest(c.tree) && Listed(c.tree, c.stack)
    ensures RunWalk(c, ctx.fs, filter, ctx.recursive, ctx.root, walk) == FoldVisits(c, ctx, Admit(filter, walk))
    decreases |walk|
  {
    hide Forest, Listed, Visit;
    if walk != [] {
      var e := walk[0];
      if IgnoredEntry(filter, e) {
        RunWalkIsFold(c, ctx, filter, if e.isDir then SkipDir(walk[1..], e.path) else walk[1..]);
      } else {
        var a := Admit(filter, walk[1..]);
        assert Admit(filter, walk) == [e] + a;
        assert ([e] + a)[1..] == a;
        RunWalkIsFold(VisitEntry(c, ctx, e.path), ctx, filter, walk[1..]);
      }
    }
  }

  // --------------------------------------------------------------- the hypotheses

  /** A crawl of a known node over a listing of the snapshot. */
  ghost predicate Ready(t: Tree, fs: Snapshot, id: NodeId, walk: seq<Entry>) {
    Forest(t) && id < |t.nodes| && Lists(fs, t.nodes[id].path, walk)
  }

  /** What is crawled, and how: against which snapshot, with which filter, from which root,
      and how deep. */
  datatype Scope = Scope(fs: Snapshot, filter: Filter, root: Path, recursive: bool)

  function ScopeOf(t: Tree, fs: Snapshot, filter: Filter, id: NodeId): Scope
    requires id < |t.nodes|
  {
    Scope(fs, filter, t.nodes[id].path, t.nodes[id].coverage == Recursive)
  }

  /** What a crawl sees at a path: what is there, unless it is out of reach or ignored. */
  ghost function Visible(s: Scope, p: Path): (r: Option<Stat>) {
    if p in s.fs && Reaches(s.recursive, s.root, p) && !IgnoredBelow(s.filter, s.root, p, s.fs[p].Directory?)
    then Some(s.fs[p]) else None
  }

  ghost predicate VisibleFile(s: Scope, q: Path) {
    Visible(s, q).Some? && s.fs[q].Regular?
  }

  ghost predicate VisibleDir(s: Scope, q: Path) {
    Visible(s, q).Some? && s.fs[q].Directory?
  }

  /** The deepest path above `p` that the crawl sees, or the root. */
  ghost function SeenAbove(s: Scope, p: Path): (a: Path)
    requires s.root < p
    ensures s.root <= a < p
    decreases |p|
  {
    if Up(p) == s.root || Visible(s, Up(p)).Some? then Up(p) else SeenAbove(s, Up(p))
  }

  /** The crawl sees nothing at `p`, but gets at its node. Let `a` be the deepest path above
      that it does see. If it crawls `a`, it gets at what hangs from the child list of `a`;
      if `a` is now neither a file nor a directory, at what hung from it as a directory; if
      it passes over `a`, at nothing. */
  ghost predicate Swept(s: Scope, t: Tree, p: Path) {
    && s.root < p && Visible(s, p).None?
    && var a := SeenAbove(s, p);
       if a == s.root || (s.recursive && VisibleDir(s, a))
       then Linked(t, Toward(a, p)) && (p == Toward(a, p) || Reached(t, Toward(a, p), p))
       else a in s.fs && s.fs[a].Special? && Meta(t, a).Dir? && Reached(t, a, p)
  }

  function Visits(s: Scope, walk: seq<Entry>): seq<Entry> {
    Admit(s.filter, RootWalk(s.recursive, s.root, walk))
  }

  function CtxOf(t: Tree, s: Scope): Ctx {
    Ctx(t, s.fs, s.root, s.recursive)
  }

  lemma {:induction false} VisitsAre(s: Scope, walk: seq<Entry>)
    requires Lists(s.fs, s.root, walk)
    ensures var v := Visits(s, walk);
            && Preorder(s.root, v) && Agrees(s.fs, v) && (s.recursive || Flat(s.root, v))
            && forall p :: p in Seen(v) <==> Visible(s, p).Some?
  {
    RootWalkCovers(s.fs, s.recursive, s.root, walk);
    PruningIsExact(s.fs, s.filter, s.recursive, s.root, RootWalk(s.recursive, s.root, walk));
  }

  lemma {:induction false} CrawlIsFinished(t: Tree, fs: Snapshot, filter: Filter, id: NodeId, walk: seq<Entry>)
    requires Ready(t, fs, id, walk)
    ensures var s := ScopeOf(t, fs, filter, id); var ctx := CtxOf(t, s);
            && Walkable(ctx, Visits(s, walk))
            && RunCrawl(t, fs, filter, id, [], walk) == Finished(ctx, Visits(s, walk))
            && t.table[s.root] == id
  {
    var s := ScopeOf(t, fs, filter, id);
    var ctx := CtxOf(t, s);
    VisitsAre(s, walk);
    assert t.table[ctx.root] == id;
    RunVisitsIsFold(ctx, Visits(s, walk));
    RunWalkIsFold(Start(t, id, []), ctx, filter, RootWalk(s.recursive, s.root, walk));
  }

  lemma {:induction false} VisibleIsSighting(t: Tree, s: Scope, walk: seq<Entry>, p: Path)
    requires Lists(s.fs, s.root, walk)
    ensures Sighting(CtxOf(t, s), Visits(s, walk), p) == Visible(s, p)
    ensures p in Seen(Visits(s, walk)) <==> Visible(s, p).Some?
  {
    VisitsAre(s, walk);
    assert p in Seen(Visits(s, walk)) <==> Visible(s, p).Some?;
  }

  lemma {:induction false} SweptIsTaken(t: Tree, s: Scope, walk: seq<Entry>, p: Path)
    requires Lists(s.fs, s.root, walk)
    ensures Taken(CtxOf(t, s), Visits(s, walk), p) <==> Swept(s, t, p)
  {
    hide Reached, Linked, Meta, Lists, Visits;
    if s.root < p {
      VisibleIsSighting(t, s, walk, p);
      AnchorIsSeen(t, s, walk, p);
      VisibleIsSighting(t, s, walk, SeenAbove(s, p));
    }
  }

  lemma {:induction false} AnchorIsSeen(t: Tree, s: Scope, walk: seq<Entry>, p: Path)
    requires Lists(s.fs, s.root, walk) && s.root < p
    ensures Anchor(CtxOf(t, s), Seen(Visits(s, walk)), p) == SeenAbove(s, p)
    decreases |p|
  {
    hide Visible, Lists, Visits;
    VisibleIsSighting(t, s, walk, Up(p));
    if Up(p) != s.root && Visible(s, Up(p)).None? { AnchorIsSeen(t, s, walk, Up(p)); }
  }

  lemma {:induction false} SeenAboveGap(s: Scope, p: Path, q: Path)
    requires s.root < p && SeenAbove(s, p) < q < p
    ensures Visible(s, q).None?
    decreases |p|
  {
    hide Visible;
    if SeenAbove(s, p) != Up(p) && q != Up(p) {
      assert q < Up(p) by { assert |q| < |Up(p)| || q == Up(p); }
      SeenAboveGap(s, Up(p), q);
    }
  }

  lemma {:induction false} SeenAboveSeen(s: Scope, p: Path)
    requires s.root < p
    ensures SeenAbove(s, p) == s.root || Visible(s, SeenAbove(s, p)).Some?
    decreases |p|
  {
    hide Visible;
    if Up(p) != s.root && Visible(s, Up(p)).None? { SeenAboveSeen(s, Up(p)); }
  }

  lemma {:induction false} OnWayDown(root: Path, a: Path, h: Path, p: Path)
    requires root <= a < p && h <= p && |h| == |root| + 1 && root < h
    ensures a == root ==> a < h
    ensures a != root && Up(a) == root ==> a == h
  {
    if a != root && Up(a) == root {
      assert |a| == |h|;
      assert a == p[..|a|] && h == p[..|h|];
    }
  }

  /** What is visible lies below visible directories. */
  lemma {:induction false} VisibleUpwards(s: Scope, walk: seq<Entry>, q: Path, p: Path)
    requires Lists(s.fs, s.root, walk) && s.recursive && Visible(s, p).Some? && s.root < q < p
    ensures VisibleDir(s, q)
  {
    VisitsAre(s, walk);
    var ctx, v := CtxOf(EMPTY, s), Visits(s, walk);
    PreorderClosed(ctx, v);
    ClosedPrefix(ctx, Seen(v), q, p);
  }

  // ------------------------------------------------------------------ the results

  /** For every tree, coherent or not: at each path that the crawl sees it reports the
      difference from what was known, at each that it gets at unseen a deletion, and
      nothing anywhere else. */
  lemma {:induction false} CrawlReports(t: Tree, fs: Snapshot, filter: Filter, id: NodeId, walk: seq<Entry>, p: Path)
    requires Ready(t, fs, id, walk)
    ensures var s := ScopeOf(t, fs, filter, id); var events := RunCrawl(t, fs, filter, id, [], walk).events;
            At(events, p) == if Visible(s, p).Some? then Diff(Meta(t, p), Inode(t, p), Visible(s, p))
                             else if Swept(s, t, p) then DeleteEvent(Meta(t, p))
                             else []
  {
    hide RunCrawl, Forest, Lists, Visits, Finished, Swept, Taken, Diff;
    var s := ScopeOf(t, fs, filter, id);
    CrawlIsFinished(t, fs, filter, id, walk);
    CrawlReportsAt(CtxOf(t, s), Visits(s, walk), p);
    SweptIsTaken(t, s, walk, p);
    VisibleIsSighting(t, s, walk, p);
  }

  lemma {:induction false} CrawlExactAt(t: Tree, fs: Snapshot, filter: Filter, id: NodeId, walk: seq<Entry>, p: Path)
    requires Ready(t, fs, id, walk)
    ensures var s := ScopeOf(t, fs, filter, id); var events := RunCrawl(t, fs, filter, id, [], walk).events;
            At(events, p) == Diff(Meta(t, p), Inode(t, p), Visible(s, p))
            <==> (IsFile(t, p) && Visible(s, p).None? ==> Swept(s, t, p))
  {
    hide RunCrawl, Forest, Lists, Swept, Visible;
    CrawlReports(t, fs, filter, id, walk, p);
    FileMeta(t, p);
  }

  /** A crawl is an exact diff of what it looks at if and only if it gets at every known file
      there that it does not see. */
  lemma {:induction false} CrawlExactIff(t: Tree, fs: Snapshot, filter: Filter, id: NodeId, walk: seq<Entry>)
    requires Ready(t, fs, id, walk)
    ensures var s := ScopeOf(t, fs, filter, id); var events := RunCrawl(t, fs, filter, id, [], walk).events;
            (forall p :: Reaches(s.recursive, s.root, p) ==>
             At(events, p) == Diff(Meta(t, p), Inode(t, p), Visible(s, p)))
            <==> (forall p :: Reaches(s.recursive, s.root, p) && IsFile(t, p) && Visible(s, p).None? ==> Swept(s, t, p))
  {
    var s := ScopeOf(t, fs, filter, id);
    hide RunCrawl, Forest, Lists, Swept, Visible, Reaches, Diff, Meta, Inode, IsFile;
    forall p | Reaches(s.recursive, s.root, p)
      ensures At(RunCrawl(t, fs, filter, id, [], walk).events, p) == Diff(Meta(t, p), Inode(t, p), Visible(s, p))
         <==> (IsFile(t, p) && Visible(s, p).None? ==> Swept(s, t, p))
    {
      CrawlExactAt(t, fs, filter, id, walk, p);
    }
  }

  // -------------------------------------------------------------- coherent trees

  /** Below a visible regular file, or, unless the crawl is recursive, below a visible
      directory. */
  ghost predicate PassedOver(s: Scope, p: Path) {
    exists q :: q < p && (VisibleFile(s, q) || (!s.recursive && VisibleDir(s, q)))
  }

  /** Below the root every known path is linked, and whatever is live lies in a live
      directory, or below what is now visible as a regular file. */
  ghost predicate CoherentFor(s: Scope, t: Tree) {
    && (forall p :: s.root < p && Known(t, p) ==> Linked(t, p))
    && (forall p :: s.root < p && s.root != Up(p) && Meta(t, p) != Deleted ==> LiesWell(s, t, p))
  }

  ghost predicate LiesWell(s: Scope, t: Tree, p: Path) {
    Meta(t, Up(p)).Dir? || VisibleFile(s, Up(p))
  }

  lemma {:induction false} CoherentIsEnough(s: Scope, t: Tree)
    requires Coherent(t, s.root)
    ensures CoherentFor(s, t)
  {
  }

  lemma {:induction false} CoherentIsTidy(s: Scope, walk: seq<Entry>, t: Tree)
    requires Lists(s.fs, s.root, walk)
    ensures CoherentFor(s, t) <==> Tidy(CtxOf(t, s), Visits(s, walk))
  {
    var ctx, v := CtxOf(t, s), Visits(s, walk);
    hide Linked, Lists, Visits, LiesWell, TidyAt;
    forall p | s.root != Up(p)
      ensures LiesWell(s, t, p) <==> TidyAt(ctx, v, p)
    {
      LiesWellIsTidy(s, walk, t, p);
    }
  }

  lemma {:induction false} LiesWellIsTidy(s: Scope, walk: seq<Entry>, t: Tree, p: Path)
    requires Lists(s.fs, s.root, walk)
    ensures LiesWell(s, t, p) <==> TidyAt(CtxOf(t, s), Visits(s, walk), p)
  {
    hide Lists, Visits, Meta;
    VisibleIsSighting(t, s, walk, Up(p));
  }

  lemma {:induction false} ShadowIsPassedOver(t: Tree, s: Scope, walk: seq<Entry>, p: Path)
    requires Lists(s.fs, s.root, walk)
    ensures Shadowed(CtxOf(t, s), Visits(s, walk), p) <==> PassedOver(s, p)
  {
    var ctx, v := CtxOf(t, s), Visits(s, walk);
    hide Lists;
    forall q
      ensures ctx.root < q && Passed(ctx, Seen(v), q) <==> VisibleFile(s, q) || (!s.recursive && VisibleDir(s, q))
    {
      VisibleIsSighting(t, s, walk, q);
    }
    hide Passed, VisibleFile, VisibleDir;
  }

  /** Nothing is visible where a crawl passes over. */
  lemma {:induction false} PassedOverIsUnseen(t: Tree, s: Scope, walk: seq<Entry>, p: Path)
    requires Lists(s.fs, s.root, walk)
    ensures PassedOver(s, p) ==> s.root < p && Visible(s, p).None?
  {
    if PassedOver(s, p) {
      var ctx, v := CtxOf(t, s), Visits(s, walk);
      VisitsAre(s, walk);
      PreorderClosed(ctx, v);
      ShadowIsPassedOver(t, s, walk, p);
      var q :| q < p && (VisibleFile(s, q) || (!s.recursive && VisibleDir(s, q)));
      assert s.root < q;
      ShadowIsAnchor(ctx, v, p);
      VisibleIsSighting(t, s, walk, p);
    }
  }

  /** Of a coherent tree a crawl gets at everything live that is out of sight, unless it
      passes over it. */
  lemma {:induction false} CoherentIsSwept(t: Tree, fs: Snapshot, filter: Filter, id: NodeId, walk: seq<Entry>, p: Path)
    requires Ready(t, fs, id, walk) && CoherentFor(ScopeOf(t, fs, filter, id), t)
    requires t.nodes[id].path < p && Meta(t, p) != Deleted
    ensures var s := ScopeOf(t, fs, filter, id); Visible(s, p).None? ==> (Swept(s, t, p) <==> !PassedOver(s, p))
  {
    hide RunCrawl, CoherentFor, Forest, Lists, Visits, Swept, PassedOver, Shadowed, Taken, Visible, Finished;
    var s := ScopeOf(t, fs, filter, id);
    CrawlIsFinished(t, fs, filter, id, walk);
    CoherentIsTidy(s, walk, t);
    SweptIsTaken(t, s, walk, p);
    ShadowIsPassedOver(t, s, walk, p);
    VisibleIsSighting(t, s, walk, p);
    if Visible(s, p).None? { TidyIsTaken(CtxOf(t, s), Visits(s, walk), p); }
  }

  /** Of a coherent tree a crawl reports the difference between known and visible state at
      every path below the root, at most one event for each, except where it passes over;
      and it leaves the tree coherent for the next one. */
  lemma {:induction false} CoherentCrawl(t: Tree, fs: Snapshot, filter: Filter, id: NodeId, walk: seq<Entry>)
    requires Ready(t, fs, id, walk) && CoherentFor(ScopeOf(t, fs, filter, id), t)
    ensures var s := ScopeOf(t, fs, filter, id); var r := RunCrawl(t, fs, filter, id, [], walk);
            && CoherentFor(s, r.tree)
            && forall p :: At(r.events, p) ==
                 if s.root < p && !PassedOver(s, p) then Diff(Meta(t, p), Inode(t, p), Visible(s, p)) else []
  {
    hide RunCrawl, CoherentFor, Forest, Lists, Visits, Swept, PassedOver, Visible, Finished, Tidy, Diff, Meta, Inode;
    var s := ScopeOf(t, fs, filter, id);
    CrawlIsFinished(t, fs, filter, id, walk);
    CoherentIsTidy(s, walk, t);
    TidyStays(CtxOf(t, s), Visits(s, walk));
    CoherentIsTidy(s, walk, RunCrawl(t, fs, filter, id, [], walk).tree);
    forall p
      ensures At(RunCrawl(t, fs, filter, id, [], walk).events, p) ==
                if s.root < p && !PassedOver(s, p) then Diff(Meta(t, p), Inode(t, p), Visible(s, p)) else []
    {
      CrawlReports(t, fs, filter, id, walk, p);
      PassedOverIsUnseen(t, s, walk, p);
      OnlyBelowRoot(s, t, p);
      DiffOfNothing(Meta(t, p), Inode(t, p));
      if s.root < p && Meta(t, p) != Deleted { CoherentIsSwept(t, fs, filter, id, walk, p); }
    }
  }

  /** In plain terms, for a recursive crawl of a coherent tree: it is an exact diff of its
      subtree if and only if no known file lies below a visible regular file. */
  lemma {:induction false} CoherentExactIff(t: Tree, fs: Snapshot, filter: Filter, id: NodeId, walk: seq<Entry>)
    requires Ready(t, fs, id, walk) && t.nodes[id].coverage == Recursive && CoherentFor(ScopeOf(t, fs, filter, id), t)
    ensures var s := ScopeOf(t, fs, filter, id); var events := RunCrawl(t, fs, filter, id, [], walk).events;
            (forall p :: s.root < p ==> At(events, p) == Diff(Meta(t, p), Inode(t, p), Visible(s, p)))
            <==> (forall p, q :: q < p && VisibleFile(s, q) ==> !IsFile(t, p))
  {
    hide RunCrawl, CoherentFor, Forest, Lists, Swept, Visible, Diff, Meta, Inode, IsFile;
    var s := ScopeOf(t, fs, filter, id);
    forall p
      ensures s.root < p
              && At(RunCrawl(t, fs, filter, id, [], walk).events, p) != Diff(Meta(t, p), Inode(t, p), Visible(s, p))
         <==> IsFile(t, p) && exists q :: q < p && VisibleFile(s, q)
    {
      CoherentExactAt(t, fs, filter, id, walk, p);
    }
  }

  lemma {:induction false} CoherentExactAt(t: Tree, fs: Snapshot, filter: Filter, id: NodeId, walk: seq<Entry>, p: Path)
    requires Ready(t, fs, id, walk) && t.nodes[id].coverage == Recursive && CoherentFor(ScopeOf(t, fs, filter, id), t)
    ensures var s := ScopeOf(t, fs, filter, id); var events := RunCrawl(t, fs, filter, id, [], walk).events;
            s.root < p && At(events, p) != Diff(Meta(t, p), Inode(t, p), Visible(s, p))
            <==> IsFile(t, p) && exists q :: q < p && VisibleFile(s, q)
  {
    hide RunCrawl, CoherentFor, Forest, Lists, Swept, Visible;
    var s := ScopeOf(t, fs, filter, id);
    CrawlExactAt(t, fs, filter, id, walk, p);
    PassedOverIsUnseen(t, s, walk, p);
    FileMeta(t, p);
    if s.root < p && IsFile(t, p) { CoherentIsSwept(t, fs, filter, id, walk, p); }
    if exists q :: q < p && VisibleFile(s, q) { assert PassedOver(s, p); }
  }

  lemma {:induction false} OnlyBelowRoot(s: Scope, t: Tree, p: Path)
    ensures Visible(s, p).Some? || Swept(s, t, p) ==> s.root < p
  {
  }

  lemma {:induction false} DiffOfNothing(m: NodeMeta, inode: nat)
    ensures Diff(m, inode, None) == DeleteEvent(m) && DeleteEvent(Deleted) == []
  {
  }

  // ----------------------------------------------------------- what else is left behind

  function DirPaths(v: seq<Entry>): seq<Path> {
    if v == [] then []
    else DirPaths(v[..|v| - 1]) + (if v[|v| - 1].isDir then [v[|v| - 1].path] else [])
  }

  lemma {:induction false} DirPathsMembers(v: seq<Entry>, p: Path)
    ensures p in DirPaths(v) <==> Entry(p, true) in v
  {
    if v != [] {
      DirPathsMembers(v[..|v| - 1], p);
      assert v == v[..|v| - 1] + [v[|v| - 1]];
    }
  }

  lemma {:induction false} EnterWatches(c: Crawl, id: NodeId, e: Path, depth: nat, rec: bool)
    requires Forest(c.tree) && Listed(c.tree, c.stack) && id < |c.tree.nodes|
    ensures Enter(c, id, e, depth, rec).watches == c.watches + (if rec && c.tree.nodes[id].meta.Dir? then [e] else [])
    ensures forall i :: 0 <= i < |c.tree.nodes| ==>
              i < |Enter(c, id, e, depth, rec).tree.nodes|
              && Enter(c, id, e, depth, rec).tree.nodes[i].coverage == c.tree.nodes[i].coverage
              && Enter(c, id, e, depth, rec).tree.nodes[i].path == c.tree.nodes[i].path
  {
  }

  ghost predicate SpecialIn(ctx: Ctx, e: Path) {
    e in ctx.fs && ctx.fs[e].Special?
  }

  /** A visit either leaves no node, or finishes frames and enters the node. */
  lemma {:induction false} VisitCases(ctx: Ctx, v: seq<Entry>, c: Crawl)
    requires v != [] && Walkable(ctx, v) && Discipline(ctx, v[..|v| - 1], c)
    ensures var e := v[|v| - 1].path; var r := ApplyEntry(c.tree, ctx.fs, ctx.recursive, e);
            var d := AfterPops(c, ctx, e);
            && d.watches == c.watches
            && (r.node.None? ==>
                SpecialIn(ctx, e) && VisitEntry(c, ctx, e).watches == c.watches && VisitEntry(c, ctx, e).tree == c.tree)
            && (r.node.Some? ==> Known(d.tree, e) && d.tree.table[e] == r.node.value)
            && (r.node.Some? ==>
                VisitEntry(c, ctx, e) == Enter(d, r.node.value, e, DepthOf(ctx.root, e), ctx.recursive))
  {
    var e := v[|v| - 1].path;
    var r, d := ApplyEntry(c.tree, ctx.fs, ctx.recursive, e), AfterPops(c, ctx, e);
    LastEntry(ctx, v);
    ParentInTable(ctx, Seen(v[..|v| - 1]), c.tree, e);
    AppliedTouched(c.tree, ctx.fs, ctx.recursive, e);
    assert d.tree.table == r.tree.table && |d.tree.nodes| == |r.tree.nodes|;
    if r.node.Some? { VisitIs(c, ctx, e); }
  }

  /** Its node is a directory exactly if the snapshot says so. */
  lemma {:induction false} PoppedKind(ctx: Ctx, v: seq<Entry>, c: Crawl)
    requires v != [] && Walkable(ctx, v) && Discipline(ctx, v[..|v| - 1], c)
    requires Known(AfterPops(c, ctx, v[|v| - 1].path).tree, v[|v| - 1].path)
    ensures var e := v[|v| - 1].path; var d := AfterPops(c, ctx, e);
            e in ctx.fs && (d.tree.nodes[d.tree.table[e]].meta.Dir? <==> ctx.fs[e].Directory?)
  {
    hide Forest, Touched, Preorder, AfterPops, Cursor, NextEntry, Complete, Within, Grown, Frames, Flagged;
    AfterPopsDiscipline(ctx, v, c);
    LastEntry(ctx, v);
    SeenSynced(ctx, Seen(v), AfterPops(c, ctx, v[|v| - 1].path).tree, v[|v| - 1].path);
  }

  lemma {:induction false} VisitWatches(ctx: Ctx, v: seq<Entry>, c: Crawl)
    requires v != [] && Walkable(ctx, v) && Discipline(ctx, v[..|v| - 1], c)
    ensures VisitEntry(c, ctx, v[|v| - 1].path).watches
         == c.watches + (if ctx.recursive && v[|v| - 1].isDir then [v[|v| - 1].path] else [])
  {
    hide Forest, Grown, Frames, Flagged, Complete, Within, Preorder, VisitEntry, ApplyEntry, AfterPops, Enter;
    var e := v[|v| - 1].path;
    VisitCases(ctx, v, c);
    assert v[|v| - 1].isDir == (e in ctx.fs && ctx.fs[e].Directory?);
    if ApplyEntry(c.tree, ctx.fs, ctx.recursive, e).node.Some? {
      PoppedKind(ctx, v, c);
      EnterWatches(AfterPops(c, ctx, e), ApplyEntry(c.tree, ctx.fs, ctx.recursive, e).node.value, e,
                   DepthOf(ctx.root, e), ctx.recursive);
    }
  }

  lemma {:induction false} WatchesAre(ctx: Ctx, v: seq<Entry>)
    requires Walkable(ctx, v)
    ensures RunVisits(ctx, v).watches == [ctx.root] + (if ctx.recursive then DirPaths(v) else [])
  {
    hide Discipline, VisitEntry;
    if v == [] {
      assert RunVisits(ctx, v).watches == [ctx.root];
    } else {
      WalkablePrefix(ctx, v, |v| - 1);
      DisciplineAlways(ctx, v[..|v| - 1]);
      WatchesAre(ctx, v[..|v| - 1]);
      VisitWatches(ctx, v, RunVisits(ctx, v[..|v| - 1]));
    }
  }

  /** After the crawl every visible file or directory has a node that agrees with the
      snapshot and, if the crawl is recursive, is covered; the root was handed to
      `add_watch`, with exactly the visible directories if the crawl is recursive and
      alone otherwise; and the work stack is empty again. */
  lemma {:induction false} CrawlResynchronises(t: Tree, fs: Snapshot, filter: Filter, id: NodeId, walk: seq<Entry>,
                                               p: Path)
    requires Ready(t, fs, id, walk)
    ensures var s := ScopeOf(t, fs, filter, id); var r := RunCrawl(t, fs, filter, id, [], walk);
            && (Visible(s, p).Some? ==> Synced(fs, s.recursive, r.tree, p))
            && (p in r.watches <==> p == s.root || (s.recursive && VisibleDir(s, p)))
            && r.stack == []
  {
    var s := ScopeOf(t, fs, filter, id);
    var ctx := CtxOf(t, s);
    hide RunCrawl, Forest, Lists, Preorder, Agrees, Synced, Visible, Visits, Finished, Seen;
    var v := Visits(s, walk);
    CrawlIsFinished(t, fs, filter, id, walk);
    VisibleIsSighting(t, s, walk, p);
    if p in Seen(v) { CrawlResyncs(ctx, v, p); }
    FinalWatches(ctx, v, p);
    DirIsSeen(t, s, walk, p);
  }

  lemma {:induction false} FinalWatches(ctx: Ctx, v: seq<Entry>, p: Path)
    requires Walkable(ctx, v)
    ensures p in Finished(ctx, v).watches <==> p == ctx.root || (ctx.recursive && Entry(p, true) in v)
    ensures Finished(ctx, v).stack == []
  {
    hide Forest, Listed, Preorder, Agrees, RunVisits, SameButMeta, Seen;
    EmptyAtEnd(RunVisits(ctx, v));
    WatchesAre(ctx, v);
    DirPathsMembers(v, p);
  }

  lemma {:induction false} DirIsSeenDir(ctx: Ctx, v: seq<Entry>, p: Path)
    requires Agrees(ctx.fs, v)
    ensures Entry(p, true) in v <==> p in Seen(v) && p in ctx.fs && ctx.fs[p].Directory?
  {
    SeenMembers(v, p);
    if Entry(p, true) in v {
      var i :| 0 <= i < |v| && v[i] == Entry(p, true);
      assert v[i].path == p;
    }
    if p in Seen(v) && p in ctx.fs && ctx.fs[p].Directory? {
      var i :| 0 <= i < |v| && v[i].path == p;
      assert v[i] == Entry(p, true);
    }
  }

  lemma {:induction false} DirIsSeen(t: Tree, s: Scope, walk: seq<Entry>, p: Path)
    requires Lists(s.fs, s.root, walk)
    ensures Entry(p, true) in Visits(s, walk) <==> VisibleDir(s, p)
  {
    hide Lists, Visits, Preorder, Seen;
    VisitsAre(s, walk);
    VisibleIsSighting(t, s, walk, p);
    DirIsSeenDir(CtxOf(t, s), Visits(s, walk), p);
  }

  /** A known file that vanished from a directory that is crawled, stands in its child list,
      and never had children itself: the crawl reports it but does not mark it. */
  ghost predicate ForgottenLeaf(s: Scope, t: Tree, p: Path) {
    && s.root < p && IsFile(t, p) && Linked(t, p) && !HasList(t, p) && Visible(s, p).None?
    && (Up(p) == s.root || (s.recursive && VisibleDir(s, Up(p))))
  }

  lemma {:induction false} ForgottenIsStale(t: Tree, s: Scope, walk: seq<Entry>, p: Path)
    requires Lists(s.fs, s.root, walk) && s.root < p && IsFile(t, p)
    ensures StaleLeaf(CtxOf(t, s), Visits(s, walk), p) <==> ForgottenLeaf(s, t, p)
  {
    VisibleIsSighting(t, s, walk, p);
    VisibleIsSighting(t, s, walk, Up(p));
  }

  lemma {:induction false} ForgottenAreStale(t: Tree, s: Scope, walk: seq<Entry>)
    requires Lists(s.fs, s.root, walk)
    ensures forall p :: ForgottenLeaf(s, t, p) <==>
              s.root < p && IsFile(t, p) && StaleLeaf(CtxOf(t, s), Visits(s, walk), p)
  {
    forall p
      ensures ForgottenLeaf(s, t, p) <==>
                s.root < p && IsFile(t, p) && StaleLeaf(CtxOf(t, s), Visits(s, walk), p)
    {
      if s.root < p && IsFile(t, p) { ForgottenIsStale(t, s, walk, p); }
    }
  }

  lemma {:induction false} CrawlKeepsScope(t: Tree, fs: Snapshot, filter: Filter, id: NodeId, walk: seq<Entry>,
                                           walk2: seq<Entry>)
    requires Ready(t, fs, id, walk) && Ready(t, fs, id, walk2)
    ensures var u := RunCrawl(t, fs, filter, id, [], walk).tree;
            Ready(u, fs, id, walk2) && ScopeOf(u, fs, filter, id) == ScopeOf(t, fs, filter, id)
  {
    var s := ScopeOf(t, fs, filter, id);
    var ctx, v := CtxOf(t, s), Visits(s, walk);
    CrawlIsFinished(t, fs, filter, id, walk);
    FinalStructure(ctx, v);
    var u := Finished(ctx, v).tree;
    assert Kept(ctx, Seen(v), t.nodes[id], u.nodes[id]);
    WalkableIsClosed(ctx, v);
    RootUnseen(ctx, Seen(v));
  }

  /** The crawl of `id` over `walk`, from an empty stack. */
  ghost function FullCrawl(t: Tree, fs: Snapshot, filter: Filter, id: NodeId, walk: seq<Entry>): Crawl
    requires Ready(t, fs, id, walk)
  {
    RunCrawl(t, fs, filter, id, [], walk)
  }

  /** Crawling again, over any listing of the same snapshot, is silent if and only if no
      forgotten leaf was met: what the sweep forgot to mark is reported a second time. */
  lemma {:induction false} SecondCrawlSilentIff(t: Tree, fs: Snapshot, filter: Filter, id: NodeId, walk: seq<Entry>,
                                                walk2: seq<Entry>)
    requires Ready(t, fs, id, walk) && Ready(t, fs, id, walk2)
    ensures var u := FullCrawl(t, fs, filter, id, walk).tree; var s := ScopeOf(t, fs, filter, id);
            && Ready(u, fs, id, walk2) && ScopeOf(u, fs, filter, id) == s
            && (FullCrawl(u, fs, filter, id, walk2).events == [] <==> forall p :: !ForgottenLeaf(s, t, p))
  {
    hide Ready, Lists, Finished, Seen, Visits, StaleLeaf, ForgottenLeaf, RunCrawl, Preorder, Agrees, Walkable, Forest;
    ReadyLists(t, fs, id, walk);
    ReadyLists(t, fs, id, walk2);
    var s := ScopeOf(t, fs, filter, id);
    CrawlIsFinished(t, fs, filter, id, walk);
    SameSeen(t, s, walk, walk2);
    ForgottenAreStale(t, s, walk);
    CrawlKeepsScope(t, fs, filter, id, walk, walk2);
    SecondCrawlQuietIff(CtxOf(t, s), Visits(s, walk), Visits(s, walk2));
    CrawlIsFinished(RunCrawl(t, fs, filter, id, [], walk).tree, fs, filter, id, walk2);
  }

  lemma {:induction false} ReadyLists(t: Tree, fs: Snapshot, id: NodeId, walk: seq<Entry>)
    requires Ready(t, fs, id, walk)
    ensures Forest(t) && id < |t.nodes| && Lists(fs, t.nodes[id].path, walk)
  {
  }

  lemma {:induction false} SameSeen(t: Tree, s: Scope, walk: seq<Entry>, walk2: seq<Entry>)
    requires Lists(s.fs, s.root, walk) && Lists(s.fs, s.root, walk2)
    ensures Seen(Visits(s, walk2)) == Seen(Visits(s, walk))
    ensures Listing(CtxOf(t, s), Visits(s, walk2))
  {
    VisitsAre(s, walk);
    VisitsAre(s, walk2);
  }
}
