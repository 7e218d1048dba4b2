/** The main results about a crawl, recursive or not. */
module CrawlTheorem {
  import opened Paths
  import opened Events
  import opened TreeModel
  import opened Deletion
  import opened CrawlModel
  import opened CrawlStructure
  import opened CrawlDiscipline
  import opened CrawlClaims
  import opened CrawlReport

  function FramePaths(t: Tree, stack: seq<Frame>): set<Path> {
    if stack == [] then {}
    else
      var top := stack[|stack| - 1].node;
      FramePaths(t, stack[..|stack| - 1]) + (if top < |t.nodes| then {t.nodes[top].path} else {})
  }

  function StackPaths(c: Crawl): set<Path> {
    FramePaths(c.tree, c.stack)
  }

  lemma {:induction false} FramePathsSame(t: Tree, u: Tree, stack: seq<Frame>)
    requires forall k :: 0 <= k < |stack| ==>
               stack[k].node < |t.nodes| && stack[k].node < |u.nodes|
                 && t.nodes[stack[k].node].path == u.nodes[stack[k].node].path
    ensures FramePaths(t, stack) == FramePaths(u, stack)
  {
    if stack != [] { FramePathsSame(t, u, stack[..|stack| - 1]); }
  }

  lemma {:induction false} FramePathsOnStack(t: Tree, stack: seq<Frame>, a: Path)
    ensures a in FramePaths(t, stack) <==> OnStack(t, stack, a)
  {
    if stack != [] {
      var init := stack[..|stack| - 1];
      FramePathsOnStack(t, init, a);
      if OnStack(t, init, a) {
        var k :| 0 <= k < |init| && init[k].node < |t.nodes| && t.nodes[init[k].node].path == a;
        assert stack[k] == init[k];
      }
      if OnStack(t, stack, a) {
        var k :| 0 <= k < |stack| && stack[k].node < |t.nodes| && t.nodes[stack[k].node].path == a;
        assert k < |init| ==> init[k] == stack[k];
      }
    }
  }

  /** The stacked paths are directories, each no deeper than the top frame. */
  lemma {:induction false} FramePathsAreDirs(ctx: Ctx, seen: set<Path>, t: Tree, stack: seq<Frame>, bound: nat, a: Path)
    requires Frames(ctx, seen, t, stack) && a in FramePaths(t, stack)
    requires forall f :: f in stack ==> f.depth < bound
    ensures IsDirIn(ctx, seen, a) && DepthOf(ctx.root, a) < bound
  {
    FramePathsOnStack(t, stack, a);
    var k :| 0 <= k < |stack| && stack[k].node < |t.nodes| && t.nodes[stack[k].node].path == a;
    assert FrameOk(ctx, seen, t, stack[k]);
  }

  // -------------------------------------------------------------- one pop, again

  lemma {:induction false} PopPaths(ctx: Ctx, seen: set<Path>, c: Crawl)
    requires Structure(ctx, seen, c) && Closed(ctx, seen) && c.stack != []
    ensures TopPath(c) in StackPaths(c)
    ensures StackPaths(PopFrame(c)) == StackPaths(c) - {TopPath(c)}
  {
    hide Closed, Grown, Flagged, Forest, IsDirIn;
    var d := PopFrame(c);
    var n := |c.stack| - 1;
    FramesPrefix(ctx, seen, c.tree, c.stack);
    assert FrameOk(ctx, seen, c.tree, c.stack[n]);
    hide Frames, Sweep;
    FramePathsSame(c.tree, d.tree, d.stack);
    if TopPath(c) in FramePaths(c.tree, d.stack) {
      FramePathsAreDirs(ctx, seen, c.tree, d.stack, c.stack[n].depth, TopPath(c));
    }
  }

  lemma {:induction false} FramesPrefix(ctx: Ctx, seen: set<Path>, t: Tree, stack: seq<Frame>)
    requires Frames(ctx, seen, t, stack) && stack != []
    ensures Frames(ctx, seen, t, stack[..|stack| - 1])
    ensures forall f :: f in stack[..|stack| - 1] ==> f.depth < stack[|stack| - 1].depth
  {
    var init := stack[..|stack| - 1];
    forall k | 0 <= k < |init|
      ensures FrameOk(ctx, seen, t, init[k])
    {
      assert FrameOk(ctx, seen, t, stack[k]);
    }
  }

  lemma {:induction false} PopKeepsReport(ctx: Ctx, seen: set<Path>, extra: set<Path>, c: Crawl)
    requires Structure(ctx, seen, c) && Closed(ctx, seen) && c.stack != []
    requires Forest(ctx.t0)
    requires extra !! StackPaths(c) && Report(ctx, seen, StackPaths(c) + extra, c.tree, c.events)
    ensures var d := PopFrame(c);
            extra !! StackPaths(d) && Report(ctx, seen, StackPaths(d) + extra, d.tree, d.events)
  {
    hide Forest, Listed, Grown, Frames, Flagged, Closed, StackPaths, PopFrame, Claim;
    var d := PopFrame(c);
    var open := StackPaths(c) + extra;
    PopPaths(ctx, seen, c);
    assert StackPaths(d) + extra == open - {TopPath(c)};
    forall p
      ensures Claim(ctx, seen, open - {TopPath(c)}, d.tree, d.events, p)
    {
      PopKeepsClaim(ctx, seen, open, c, p);
    }
  }

  lemma {:induction false} PopWhileKeepsReport(ctx: Ctx, seen: set<Path>, extra: set<Path>, c: Crawl, depth: nat)
    requires Structure(ctx, seen, c) && Closed(ctx, seen)
    requires Forest(ctx.t0)
    requires extra !! StackPaths(c) && Report(ctx, seen, StackPaths(c) + extra, c.tree, c.events)
    ensures var d := PopWhile(c, depth);
            extra !! StackPaths(d) && Report(ctx, seen, StackPaths(d) + extra, d.tree, d.events)
    decreases |c.stack|
  {
    hide Report, Closed, StackPaths, Forest, Grown, Flagged, Frames, Listed;
    if c.stack != [] && c.stack[|c.stack| - 1].depth >= depth {
      PopKeepsStructure(ctx, seen, c);
      PopKeepsReport(ctx, seen, extra, c);
      PopShrinks(c);
      PopWhileKeepsReport(ctx, seen, extra, PopFrame(c), depth);
    }
  }

  lemma {:induction false} PopShrinks(c: Crawl)
    requires Forest(c.tree) && Listed(c.tree, c.stack) && c.stack != []
    ensures |PopFrame(c).stack| < |c.stack|
  {
  }

  // -------------------------------------------------------------------- entering

  lemma {:induction false} FlagsKeepReport(ctx: Ctx, seen: set<Path>, open: set<Path>, t: Tree, u: Tree, es: seq<Event>)
    requires Report(ctx, seen, open, t, es) && SameShape(t, u)
    requires forall i :: 0 <= i < |t.nodes| ==> u.nodes[i].meta == t.nodes[i].meta
    ensures Report(ctx, seen, open, u, es)
  {
    hide Anchor, Caught, FinalMeta, Diff;
    forall p
      ensures Claim(ctx, seen, open, u, es, p)
    {
      assert Claim(ctx, seen, open, t, es, p) && Meta(u, p) == Meta(t, p);
    }
  }

  /** A directory without a child list has nothing to lose: its frame is not missed. */
  lemma {:induction false} NoListNoClaim(ctx: Ctx, seen: set<Path>, open: set<Path>, t: Tree, es: seq<Event>, e: Path)
    requires Report(ctx, seen, open + {e}, t, es)
    requires forall p :: !Caught(ctx, e, p)
    ensures Report(ctx, seen, open, t, es)
  {
    hide Caught, Anchor, FinalMeta, Diff, Untouched;
    forall p
      ensures Claim(ctx, seen, open, t, es, p)
    {
      assert Claim(ctx, seen, open + {e}, t, es, p);
    }
  }

  lemma {:induction false} NoListNothingCaught(ctx: Ctx, e: Path)
    requires e == ctx.root || (ctx.recursive && e in ctx.fs && ctx.fs[e].Directory?)
    requires !HasList(ctx.t0, e)
    ensures forall p :: !Caught(ctx, e, p)
  {
    forall p
      ensures !Caught(ctx, e, p)
    {
      if Caught(ctx, e, p) { TowardIs(e, p); }
    }
  }

  lemma {:induction false} EnterPaths(c: Crawl, id: NodeId, e: Path, depth: nat, rec: bool)
    requires Forest(c.tree) && Listed(c.tree, c.stack) && id < |c.tree.nodes| && c.tree.nodes[id].path == e
    ensures StackPaths(Enter(c, id, e, depth, rec))
            == if Entered(c.tree, id, rec) then StackPaths(c) + {e} else StackPaths(c)
  {
    EnterIs(c, id, e, depth, rec);
    hide Enter, Forest;
    var r := Enter(c, id, e, depth, rec);
    if Entered(c.tree, id, rec) {
      assert r.stack[..|r.stack| - 1] == c.stack;
    }
    FramePathsSame(c.tree, r.tree, c.stack);
  }

  lemma {:induction false} EnterKeepsReport(ctx: Ctx, seen: set<Path>, c: Crawl, id: NodeId, e: Path)
    requires Structure(ctx, seen, c) && Forest(ctx.t0)
    requires e in seen && ctx.root < e && id < |c.tree.nodes| && c.tree.nodes[id].path == e
    requires Report(ctx, seen, OpenAfter(ctx, StackPaths(c), e), c.tree, c.events)
    ensures var r := Enter(c, id, e, DepthOf(ctx.root, e), ctx.recursive);
            Report(ctx, seen, StackPaths(r), r.tree, r.events)
  {
    var depth := DepthOf(ctx.root, e);
    var r := Enter(c, id, e, depth, ctx.recursive);
    SeenDirIs(ctx, seen, c.tree, id, e);
    EnterIs(c, id, e, depth, ctx.recursive);
    hide Report, StackPaths, Grown, Flagged, Frames, Listed, TableOk, ListsOwned, KidsBelow, Enter, Caught;
    if ctx.recursive && ctx.fs[e].Directory? {
      EnterPaths(c, id, e, depth, ctx.recursive);
      if c.tree.nodes[id].children.None? {
        if HasList(ctx.t0, e) { OldListKept(ctx, seen, c.tree, e); }
        NoListNothingCaught(ctx, e);
        NoListNoClaim(ctx, seen, StackPaths(c), c.tree, c.events, e);
      }
      FlagsKeepReport(ctx, seen, StackPaths(r), c.tree, r.tree, c.events);
    }
  }

  lemma {:induction false} SeenDirIs(ctx: Ctx, seen: set<Path>, t: Tree, id: NodeId, e: Path)
    requires Forest(t) && Grown(ctx, seen, t) && e in seen && id < |t.nodes| && t.nodes[id].path == e
    ensures e in ctx.fs && t.table[e] == id && (t.nodes[id].meta.Dir? <==> ctx.fs[e].Directory?)
  {
    assert t.table[e] == id;
    SeenSynced(ctx, seen, t, e);
  }

  // -------------------------------------------------------------------- visiting

  lemma {:induction false} LinkedParentIsOpen(ctx: Ctx, v: seq<Entry>, c: Crawl)
    requires v != [] && Walkable(ctx, v) && Discipline(ctx, v[..|v| - 1], c)
    ensures var e := v[|v| - 1].path;
            e !in StackPaths(c) && (Linked(ctx.t0, e) ==> Up(e) in StackPaths(c))
  {
    var init, e := v[..|v| - 1], v[|v| - 1].path;
    LastEntry(ctx, v);
    if Linked(ctx.t0, e) {
      assert Losable(ctx, Up(e));
      assert OnStack(c.tree, c.stack, Up(e));
      FramePathsOnStack(c.tree, c.stack, Up(e));
    }
    if e in StackPaths(c) {
      FramePathsOnStack(c.tree, c.stack, e);
      StackedIsSeen(ctx, Seen(init), c, e);
    }
  }

  lemma {:induction false} StackedIsSeen(ctx: Ctx, seen: set<Path>, c: Crawl, a: Path)
    requires Structure(ctx, seen, c) && OnStack(c.tree, c.stack, a)
    ensures IsDirIn(ctx, seen, a)
  {
    var k :| 0 <= k < |c.stack| && c.stack[k].node < |c.tree.nodes| && c.tree.nodes[c.stack[k].node].path == a;
    assert FrameOk(ctx, seen, c.tree, c.stack[k]);
  }

  lemma {:induction false} ApplyPaths(ctx: Ctx, v: seq<Entry>, c: Crawl)
    requires v != [] && Walkable(ctx, v) && Discipline(ctx, v[..|v| - 1], c)
    ensures StackPaths(AfterApply(c, ctx, v[|v| - 1].path)) == StackPaths(c)
  {
    hide Grown, Flagged, Frames, Complete, Within, Preorder, Touched, Forest;
    var init, e := v[..|v| - 1], v[|v| - 1].path;
    var a := AfterApply(c, ctx, e);
    LastEntry(ctx, v);
    ParentInTable(ctx, Seen(init), c.tree, e);
    AppliedTouched(c.tree, ctx.fs, ctx.recursive, e);
    TouchedPaths(c.tree, a.tree, e, c.stack);
  }

  lemma {:induction false} TouchedPaths(t: Tree, u: Tree, e: Path, stack: seq<Frame>)
    requires Touched(t, u, e) && Listed(t, stack)
    ensures FramePaths(t, stack) == FramePaths(u, stack)
  {
    assert forall k :: 0 <= k < |stack| ==> NodeTouched(e, t.nodes[stack[k].node], u.nodes[stack[k].node]);
    FramePathsSame(t, u, stack);
  }

  lemma {:induction false} VisitKeepsReport(ctx: Ctx, v: seq<Entry>, c: Crawl)
    requires v != [] && Walkable(ctx, v) && Discipline(ctx, v[..|v| - 1], c)
    requires Report(ctx, Seen(v[..|v| - 1]), StackPaths(c), c.tree, c.events)
    ensures var d := VisitEntry(c, ctx, v[|v| - 1].path);
            Report(ctx, Seen(v), StackPaths(d), d.tree, d.events)
  {
    hide Report, StackPaths, Grown, Flagged, Frames, Complete, Within, Preorder, Touched, Synced, Forest;
    var init, e := v[..|v| - 1], v[|v| - 1].path;
    LastEntry(ctx, v);
    LinkedParentIsOpen(ctx, v, c);
    ApplyKeepsReport(ctx, Seen(init), StackPaths(c), c.tree, c.events, e);
    ApplyPaths(ctx, v, c);
    ParentInTable(ctx, Seen(init), c.tree, e);
    AppliedTouched(c.tree, ctx.fs, ctx.recursive, e);
    if ApplyEntry(c.tree, ctx.fs, ctx.recursive, e).node.Some? {
      VisitNodeKeepsReport(ctx, v, c);
    }
  }

  lemma {:induction false} WalkableIsClosed(ctx: Ctx, v: seq<Entry>)
    requires Walkable(ctx, v)
    ensures Closed(ctx, Seen(v)) && Forest(ctx.t0)
  {
    PreorderClosed(ctx, v);
  }

  lemma {:induction false} PopsKeepReport(ctx: Ctx, v: seq<Entry>, c: Crawl)
    requires v != [] && Walkable(ctx, v) && Discipline(ctx, v[..|v| - 1], c)
    requires var e := v[|v| - 1].path; var a := AfterApply(c, ctx, e);
             && e in ctx.fs && e !in StackPaths(a)
             && Report(ctx, Seen(v), OpenAfter(ctx, StackPaths(a), e), a.tree, a.events)
    ensures var e := v[|v| - 1].path; var d := AfterPops(c, ctx, e);
            Report(ctx, Seen(v), OpenAfter(ctx, StackPaths(d), e), d.tree, d.events)
  {
    hide Report, StackPaths, Grown, Flagged, Frames, Complete, Within, Preorder, Agrees, AfterApply, Walkable;
    var e := v[|v| - 1].path;
    var a, d := AfterApply(c, ctx, e), AfterPops(c, ctx, e);
    AfterApplyDiscipline(ctx, v, c);
    assert Closed(ctx, Seen(v)) && Forest(ctx.t0) by { WalkableIsClosed(ctx, v); }
    hide Forest, Closed;
    var extra := if ctx.recursive && ctx.fs[e].Directory? then {e} else {};
    assert OpenAfter(ctx, StackPaths(a), e) == StackPaths(a) + extra;
    PopWhileKeepsReport(ctx, Seen(v), extra, a, DepthOf(ctx.root, e));
    assert OpenAfter(ctx, StackPaths(d), e) == StackPaths(d) + extra;
  }

  lemma {:induction false} VisitIs(c: Crawl, ctx: Ctx, e: Path)
    requires Forest(c.tree) && Listed(c.tree, c.stack)
    requires var r := ApplyEntry(c.tree, ctx.fs, ctx.recursive, e);
             r.node.Some? && Known(r.tree, e) && r.node.value == r.tree.table[e]
    ensures var d := AfterPops(c, ctx, e); var id := ApplyEntry(c.tree, ctx.fs, ctx.recursive, e).node.value;
            && id < |d.tree.nodes| && d.tree.nodes[id].path == e
            && VisitEntry(c, ctx, e) == Enter(d, id, e, DepthOf(ctx.root, e), ctx.recursive)
  {
  }

  lemma {:induction false} VisitNodeKeepsReport(ctx: Ctx, v: seq<Entry>, c: Crawl)
    requires v != [] && Walkable(ctx, v) && Discipline(ctx, v[..|v| - 1], c)
    requires var e := v[|v| - 1].path; var r := ApplyEntry(c.tree, ctx.fs, ctx.recursive, e);
             && r.node.Some? && Known(r.tree, e) && r.node.value == r.tree.table[e]
    requires var e := v[|v| - 1].path; var a := AfterApply(c, ctx, e);
             && e in ctx.fs && e !in StackPaths(a)
             && Report(ctx, Seen(v), OpenAfter(ctx, StackPaths(a), e), a.tree, a.events)
    ensures var d := VisitEntry(c, ctx, v[|v| - 1].path);
            Report(ctx, Seen(v), StackPaths(d), d.tree, d.events)
  {
    var e := v[|v| - 1].path;
    VisitIs(c, ctx, e);
    hide Report, StackPaths, Structure, Within, Complete, Preorder, Agrees, AfterApply, AfterPops, VisitEntry,
         ApplyEntry;
    PopsKeepReport(ctx, v, c);
    AfterPopsDiscipline(ctx, v, c);
    LastEntry(ctx, v);
    hide Forest, Discipline;
    EnterKeepsReport(ctx, Seen(v), AfterPops(c, ctx, e), ApplyEntry(c.tree, ctx.fs, ctx.recursive, e).node.value, e);
  }

  // ------------------------------------------------------------- the whole crawl

  lemma {:induction false} InitialReport(ctx: Ctx)
    ensures Report(ctx, {}, {ctx.root}, ctx.t0, [])
  {
    forall p
      ensures Claim(ctx, {}, {ctx.root}, ctx.t0, [], p)
    {
    }
  }

  lemma {:induction false} StartReport(ctx: Ctx)
    requires Forest(ctx.t0) && ctx.root in ctx.t0.table
    ensures var c := RunVisits(ctx, []); Report(ctx, {}, StackPaths(c), c.tree, c.events)
  {
    var id := ctx.t0.table[ctx.root];
    var s := Crawl(ctx.t0, [], [], [ctx.root]);
    var c := PushFrame(s, id, 0);
    assert c == RunVisits(ctx, []) && ctx.t0.nodes[id].path == ctx.root;
    PushFrameIs(s, id, 0);
    InitialReport(ctx);
    hide Report, TableOk, ListsOwned, KidsBelow, PushFrame, Listed, Caught;
    if ctx.t0.nodes[id].children.Some? {
      assert c.stack == [Frame(id, 0)];
      OnePath(c.tree, id);
      FlagsKeepReport(ctx, {}, {ctx.root}, ctx.t0, c.tree, []);
    } else {
      assert {} + {ctx.root} == {ctx.root} && StackPaths(c) == {};
      NoListNothingCaught(ctx, ctx.root);
      hide Forest;
      NoListNoClaim(ctx, {}, {}, ctx.t0, [], ctx.root);
    }
  }

  lemma {:induction false} OnePath(t: Tree, id: NodeId)
    requires id < |t.nodes|
    ensures FramePaths(t, [Frame(id, 0)]) == {t.nodes[id].path}
  {
    assert [Frame(id, 0)][..0] == [];
    assert FramePaths(t, []) == {};
  }

  lemma {:induction false} ReportAlways(ctx: Ctx, v: seq<Entry>)
    requires Walkable(ctx, v)
    ensures var c := RunVisits(ctx, v); Report(ctx, Seen(v), StackPaths(c), c.tree, c.events)
  {
    hide Report, StackPaths, Discipline, VisitEntry;
    if v == [] {
      StartReport(ctx);
    } else {
      WalkablePrefix(ctx, v, |v| - 1);
      DisciplineAlways(ctx, v[..|v| - 1]);
      ReportAlways(ctx, v[..|v| - 1]);
      VisitKeepsReport(ctx, v, RunVisits(ctx, v[..|v| - 1]));
    }
  }

  /** The state in which a crawl over `v` ends. */
  function Finished(ctx: Ctx, v: seq<Entry>): (r: Crawl)
    requires Forest(ctx.t0) && ctx.root in ctx.t0.table
    ensures Forest(r.tree) && Listed(r.tree, r.stack)
  {
    PopWhile(RunVisits(ctx, v), 0)
  }

  lemma {:induction false} FinalStructure(ctx: Ctx, v: seq<Entry>)
    requires Walkable(ctx, v)
    ensures Structure(ctx, Seen(v), Finished(ctx, v)) && Finished(ctx, v).stack == []
  {
    hide Grown, Flagged, Frames, Preorder, Agrees, Complete, Within, RunVisits, PopWhile;
    DisciplineAlways(ctx, v);
    PreorderClosed(ctx, v);
    EmptyAtEnd(RunVisits(ctx, v));
    hide Forest, Closed;
    PopWhileKeepsStructure(ctx, Seen(v), RunVisits(ctx, v), 0);
  }

  lemma {:induction false} FinalReport(ctx: Ctx, v: seq<Entry>)
    requires Walkable(ctx, v)
    ensures var r := Finished(ctx, v);
            && r.stack == [] && Grown(ctx, Seen(v), r.tree)
            && Report(ctx, Seen(v), {}, r.tree, r.events)
  {
    hide Report, Grown, Flagged, Frames, Preorder, Agrees, Complete, Within, RunVisits, PopWhile;
    var c := RunVisits(ctx, v);
    ReportAlways(ctx, v);
    DisciplineAlways(ctx, v);
    PreorderClosed(ctx, v);
    assert StackPaths(c) + {} == StackPaths(c);
    hide Forest, Closed;
    PopWhileKeepsReport(ctx, Seen(v), {}, c, 0);
    FinalStructure(ctx, v);
    assert StackPaths(Finished(ctx, v)) + {} == {};
  }

  /** What the walk sees at `p`. */
  function Sighting(ctx: Ctx, v: seq<Entry>, p: Path): Option<Stat> {
    if p in Seen(v) && p in ctx.fs then Some(ctx.fs[p]) else None
  }

  /** `p` is not seen, but the crawl gets at its node. */
  ghost predicate Taken(ctx: Ctx, v: seq<Entry>, p: Path) {
    ctx.root < p && p !in Seen(v) && Caught(ctx, Anchor(ctx, Seen(v), p), p)
  }

  /** The crawl's events, path by path, whatever the tree: where something is seen, the
      difference from what was known; where nothing is, a deletion of what the crawl gets
      at; and nothing anywhere else. */
  lemma {:induction false} CrawlReportsAt(ctx: Ctx, v: seq<Entry>, p: Path)
    requires Walkable(ctx, v)
    ensures At(Finished(ctx, v).events, p)
         == if ctx.root < p && p in Seen(v) then Diff(Meta(ctx.t0, p), Inode(ctx.t0, p), Sighting(ctx, v, p))
            else if Taken(ctx, v, p) then DeleteEvent(Meta(ctx.t0, p))
            else []
  {
    hide Closed, Grown, Forest, Finished, Diff, FinalMeta, Preorder, Agrees, Caught, Anchor, Meta;
    FinalReport(ctx, v);
    var r := Finished(ctx, v);
    assert Claim(ctx, Seen(v), {}, r.tree, r.events, p);
    hide Report, Walkable;
  }

  /** A vanished node without a child list whose parent was crawled: its deletion is
      reported, but the node is not marked. */
  ghost predicate StaleLeaf(ctx: Ctx, v: seq<Entry>, p: Path) {
    && p !in Seen(v) && Linked(ctx.t0, p) && !HasList(ctx.t0, p)
    && IsCrawled(ctx, Seen(v), Up(p))
  }

  /** Where the crawl leaves every node: in line with the snapshot where something is
      seen, marked deleted where it got at it unseen, with one exception, and as it was
      everywhere else. */
  lemma {:induction false} CrawlLeaves(ctx: Ctx, v: seq<Entry>, p: Path)
    requires Walkable(ctx, v)
    ensures var u := Finished(ctx, v).tree;
            if ctx.root < p && p in Seen(v) then Synced(ctx.fs, ctx.recursive, u, p)
            else if Taken(ctx, v, p) && !StaleLeaf(ctx, v, p) then Meta(u, p) == Deleted
            else Meta(u, p) == Meta(ctx.t0, p)
  {
    hide Grown, Forest, Finished, Diff, Preorder, Agrees, Meta, Report;
    FinalReport(ctx, v);
    WalkableIsClosed(ctx, v);
    var r := Finished(ctx, v);
    assert Claim(ctx, Seen(v), {}, r.tree, r.events, p) by { ReportAt(ctx, Seen(v), {}, r.tree, r.events, p); }
    hide Walkable;
    if p in Seen(v) { SeenSynced(ctx, Seen(v), r.tree, p); }
    hide Synced;
    if Taken(ctx, v, p) { StaleLeafIsFinal(ctx, v, p); }
  }

  lemma {:induction false} ReportAt(ctx: Ctx, seen: set<Path>, open: set<Path>, t: Tree, es: seq<Event>, p: Path)
    requires Report(ctx, seen, open, t, es)
    ensures Claim(ctx, seen, open, t, es, p)
  {
  }

  lemma {:induction false} StaleLeafIsFinal(ctx: Ctx, v: seq<Entry>, p: Path)
    requires Closed(ctx, Seen(v)) && Taken(ctx, v, p)
    ensures FinalMeta(ctx, Anchor(ctx, Seen(v), p), p) == if StaleLeaf(ctx, v, p) then Meta(ctx.t0, p) else Deleted
  {
    var a := Anchor(ctx, Seen(v), p);
    TowardIs(a, p);
    RootUnseen(ctx, Seen(v));
    if Up(p) == ctx.root || Up(p) in Seen(v) {
      AnchorIs(ctx, Seen(v), p, p);
      assert Toward(a, p) == p;
    } else {
      assert Up(p) != a;
    }
  }

  /** A vanished leaf next to what is crawled is got at. */
  lemma {:induction false} StaleLeafIsTaken(ctx: Ctx, v: seq<Entry>, p: Path)
    requires Closed(ctx, Seen(v)) && ctx.root < p && StaleLeaf(ctx, v, p)
    ensures Taken(ctx, v, p) && Anchor(ctx, Seen(v), p) == Up(p)
  {
    AnchorIs(ctx, Seen(v), p, p);
    assert Toward(Up(p), p) == p;
  }

  /** Every seen file or directory has a node that agrees with the snapshot in kind,
      time, size and inode and is covered recursively. */
  lemma {:induction false} CrawlResyncs(ctx: Ctx, v: seq<Entry>, p: Path)
    requires Walkable(ctx, v) && p in Seen(v)
    ensures Synced(ctx.fs, ctx.recursive, Finished(ctx, v).tree, p)
  {
    FinalReport(ctx, v);
  }

  // ------------------------------------------------------------- the second crawl

  lemma {:induction false} QuietMeansSilent(es: seq<Event>)
    ensures es == [] <==> forall p :: At(es, p) == []
  {
    if es != [] {
      assert At(es, es[|es| - 1].path) != [];
    }
  }

  /** The next crawl against the same snapshot. */
  function Again(ctx: Ctx, v: seq<Entry>): Ctx
    requires Forest(ctx.t0) && ctx.root in ctx.t0.table
  {
    Ctx(Finished(ctx, v).tree, ctx.fs, ctx.root, ctx.recursive)
  }

  lemma {:induction false} AgainIsWalkable(ctx: Ctx, v: seq<Entry>, w: seq<Entry>)
    requires Walkable(ctx, v) && Listing(ctx, w)
    ensures Walkable(Again(ctx, v), w)
  {
    hide Finished, Preorder, Agrees, Report;
    FinalReport(ctx, v);
  }

  /** Crawling again against the same snapshot is silent if and only if the first crawl
      met no vanished file without a child list; each such file is reported once more. */
  lemma {:induction false} SecondCrawlQuietIff(ctx: Ctx, v: seq<Entry>, w: seq<Entry>)
    requires Walkable(ctx, v) && Listing(ctx, w) && Seen(w) == Seen(v)
    ensures Walkable(Again(ctx, v), w)
    ensures Finished(Again(ctx, v), w).events == []
       <==> forall p :: ctx.root < p && IsFile(ctx.t0, p) ==> !StaleLeaf(ctx, v, p)
  {
    AgainIsWalkable(ctx, v, w);
    QuietMeansSilent(Finished(Again(ctx, v), w).events);
    hide Finished, Preorder, Agrees, Forest, StaleLeaf;
    forall p
      ensures At(Finished(Again(ctx, v), w).events, p) == [] <==>
              !(ctx.root < p && IsFile(ctx.t0, p) && StaleLeaf(ctx, v, p))
    {
      SecondCrawlAt(ctx, v, w, p);
    }
  }

  lemma {:induction false} SecondCrawlAt(ctx: Ctx, v: seq<Entry>, w: seq<Entry>, p: Path)
    requires Walkable(ctx, v) && Walkable(Again(ctx, v), w) && Seen(w) == Seen(v)
    ensures At(Finished(Again(ctx, v), w).events, p)
         == if ctx.root < p && IsFile(ctx.t0, p) && StaleLeaf(ctx, v, p) then [Delete] else []
  {
    hide Finished, Preorder, Agrees, Forest, StaleLeaf, Taken, Synced, Diff, Meta, Closed;
    var again := Again(ctx, v);
    WalkableIsClosed(ctx, v);
    CrawlReportsAt(again, w, p);
    CrawlLeaves(ctx, v, p);
    if ctx.root < p {
      if p in Seen(v) {
        SeenIsInStep(ctx, v, w, p);
        StaleIsUnseen(ctx, v, p);
      } else {
        SecondTake(ctx, v, w, p);
      }
    } else {
      NotTakenOutside(again, w, p);
    }
  }

  lemma {:induction false} StaleIsUnseen(ctx: Ctx, v: seq<Entry>, p: Path)
    ensures StaleLeaf(ctx, v, p) ==> p !in Seen(v)
  {
  }

  lemma {:induction false} NotTakenOutside(ctx: Ctx, v: seq<Entry>, p: Path)
    ensures Taken(ctx, v, p) ==> ctx.root < p
  {
  }

  lemma {:induction false} SeenIsInStep(ctx: Ctx, v: seq<Entry>, w: seq<Entry>, p: Path)
    requires Walkable(ctx, v) && p in Seen(v) && Seen(w) == Seen(v)
             && Synced(ctx.fs, ctx.recursive, Finished(ctx, v).tree, p)
    ensures var u := Finished(ctx, v).tree; Diff(Meta(u, p), Inode(u, p), Sighting(Again(ctx, v), w, p)) == []
  {
    hide Finished, Preorder, Agrees, Forest;
    NothingNew(ctx.fs, ctx.recursive, Finished(ctx, v).tree, p);
  }

  lemma {:induction false} NothingNew(fs: Snapshot, rec: bool, u: Tree, p: Path)
    requires Synced(fs, rec, u, p)
    ensures Diff(Meta(u, p), Inode(u, p), Some(fs[p])) == []
  {
  }

  /** What the second crawl gets at and still counts as a file is a stale leaf of the first. */
  lemma {:induction false} SecondTake(ctx: Ctx, v: seq<Entry>, w: seq<Entry>, p: Path)
    requires Walkable(ctx, v) && Seen(w) == Seen(v) && Closed(ctx, Seen(v)) && ctx.root < p && p !in Seen(v)
    ensures Taken(Again(ctx, v), w, p) && Meta(Finished(ctx, v).tree, p).File?
            <==> IsFile(ctx.t0, p) && StaleLeaf(ctx, v, p)
  {
    hide Finished, Preorder, Agrees, Forest, Synced, Meta, HasList, Linked, Reached, Closed, Caught;
    var again := Again(ctx, v);
    CrawlLeaves(ctx, v, p);
    AnchorAgain(ctx, again, Seen(v), p);
    FileMeta(ctx.t0, p);
    FileMeta(again.t0, p);
    if StaleLeaf(ctx, v, p) {
      StaleLeafIsTaken(ctx, v, p);
      StaleAgain(ctx, v, p);
    } else if Caught(again, Anchor(ctx, Seen(v), p), p) {
      CaughtAgain(ctx, v, p);
    }
  }

  lemma {:induction false} FileMeta(t: Tree, p: Path)
    ensures IsFile(t, p) <==> Meta(t, p).File?
  {
  }

  lemma {:induction false} AnchorAgain(ctx: Ctx, again: Ctx, seen: set<Path>, p: Path)
    requires ctx.root < p && again.root == ctx.root
    ensures Anchor(again, seen, p) == Anchor(ctx, seen, p)
    decreases |p|
  {
    if Up(p) != ctx.root && Up(p) !in seen { AnchorAgain(ctx, again, seen, Up(p)); }
  }

  lemma {:induction false} StaleAgain(ctx: Ctx, v: seq<Entry>, p: Path)
    requires Walkable(ctx, v) && Closed(ctx, Seen(v)) && ctx.root < p && StaleLeaf(ctx, v, p)
    ensures Caught(Again(ctx, v), Up(p), p)
  {
    hide Finished, Preorder, Agrees, Forest, Report, HasList, Reached;
    FinalReport(ctx, v);
    LinkedAsBefore(ctx, Seen(v), Finished(ctx, v).tree, p);
    assert Toward(Up(p), p) == p;
    hide Linked, Grown, Walkable;
  }

  /** What the second crawl gets at, the first one did. */
  lemma {:induction false} CaughtAgain(ctx: Ctx, v: seq<Entry>, p: Path)
    requires Walkable(ctx, v) && Closed(ctx, Seen(v)) && ctx.root < p && p !in Seen(v)
    requires Caught(Again(ctx, v), Anchor(ctx, Seen(v), p), p)
    ensures Caught(ctx, Anchor(ctx, Seen(v), p), p)
  {
    hide Finished, Preorder, Agrees, Report, Forest;
    var a, u := Anchor(ctx, Seen(v), p), Finished(ctx, v).tree;
    var h := Toward(a, p);
    FinalReport(ctx, v);
    TowardIs(a, p);
    UnseenBetween(ctx, Seen(v), p);
    if a == ctx.root || (ctx.recursive && a in ctx.fs && ctx.fs[a].Directory?) {
      hide Meta, Reached, Walkable, Anchor;
      LinkedAsBefore(ctx, Seen(v), u, h);
      ReachedShrinks(ctx, v, h, p);
    } else {
      SeenSynced(ctx, Seen(v), u, a);
    }
  }

  lemma {:induction false} UnseenBetween(ctx: Ctx, seen: set<Path>, p: Path)
    requires ctx.root < p && p !in seen
    ensures forall q :: Anchor(ctx, seen, p) < q <= p ==> q !in seen
  {
    forall q | Anchor(ctx, seen, p) < q <= p
      ensures q !in seen
    {
      if q != p { AnchorGap(ctx, seen, p, q); }
    }
  }

  /** The first crawl only made less of the tree live where it saw nothing. */
  lemma {:induction false} ReachedShrinks(ctx: Ctx, v: seq<Entry>, h: Path, p: Path)
    requires Walkable(ctx, v) && ctx.root < h && forall q :: h <= q <= p ==> q !in Seen(v)
    ensures Reached(Finished(ctx, v).tree, h, p) ==> Reached(ctx.t0, h, p)
    decreases |p|
  {
    hide Finished, Preorder, Agrees, Meta, Linked, Taken, StaleLeaf;
    var u := Finished(ctx, v).tree;
    if Reached(u, h, p) {
      FinalLinks(ctx, v, p);
      if Up(p) != h {
        assert h <= Up(p);
        CrawlLeaves(ctx, v, Up(p));
        ReachedShrinks(ctx, v, h, Up(p));
      }
    }
  }

  lemma {:induction false} FinalLinks(ctx: Ctx, v: seq<Entry>, p: Path)
    requires Walkable(ctx, v) && p !in Seen(v)
    ensures Linked(Finished(ctx, v).tree, p) <==> Linked(ctx.t0, p)
  {
    hide Finished, Linked, Report;
    FinalReport(ctx, v);
    hide Walkable;
    LinkedAsBefore(ctx, Seen(v), Finished(ctx, v).tree, p);
  }

  // -------------------------------------------------------------- coherent trees

  /** `p` lies below a path where the walk sees a regular file, or, unless the crawl is
      recursive, a directory: nothing there is looked at. */
  ghost predicate Shadowed(ctx: Ctx, v: seq<Entry>, p: Path) {
    exists q :: ctx.root < q < p && Passed(ctx, Seen(v), q)
  }

  lemma {:induction false} ShadowIsAnchor(ctx: Ctx, v: seq<Entry>, p: Path)
    requires Closed(ctx, Seen(v)) && ctx.root < p
    ensures Shadowed(ctx, v, p) ==> p !in Seen(v)
    ensures p !in Seen(v) ==> (Shadowed(ctx, v, p) <==> Passed(ctx, Seen(v), Anchor(ctx, Seen(v), p)))
  {
    var seen := Seen(v);
    RootUnseen(ctx, seen);
    if Shadowed(ctx, v, p) {
      var q :| ctx.root < q < p && Passed(ctx, seen, q);
      NothingBelowPassed(ctx, seen, q, p);
      FileIsAnchor(ctx, seen, q, p);
    }
  }

  lemma {:induction false} NothingBelowPassed(ctx: Ctx, seen: set<Path>, q: Path, x: Path)
    requires Closed(ctx, seen) && ctx.root < q && Passed(ctx, seen, q)
    ensures q < x ==> x !in seen
  {
    if q < x && x in seen {
      ClosedPrefix(ctx, seen, q, x);
      assert ClosedAt(ctx, seen, x);
      DeepEnough(ctx.root, q, x);
    }
  }

  lemma {:induction false} DeepEnough(root: Path, q: Path, x: Path)
    ensures root < q < x ==> Up(x) != root
  {
  }

  lemma {:induction false} FileIsAnchor(ctx: Ctx, seen: set<Path>, q: Path, p: Path)
    requires Closed(ctx, seen) && ctx.root < q < p && Passed(ctx, seen, q)
    ensures Anchor(ctx, seen, p) == q
  {
    forall x | q < x
      ensures x !in seen
    {
      NothingBelowPassed(ctx, seen, q, x);
    }
    var h := Toward(q, p);
    assert Up(h) == q;
    AnchorIs(ctx, seen, h, p);
  }

  /** Below the root every known path is linked, and whatever is live lies in a live
      directory, or below what the walk sees as a regular file. */
  ghost predicate Tidy(ctx: Ctx, v: seq<Entry>) {
    && (forall p :: ctx.root < p && Known(ctx.t0, p) ==> Linked(ctx.t0, p))
    && (forall p :: ctx.root < p && ctx.root != Up(p) && Meta(ctx.t0, p) != Deleted ==> TidyAt(ctx, v, p))
  }

  ghost predicate TidyAt(ctx: Ctx, v: seq<Entry>, p: Path) {
    Meta(ctx.t0, Up(p)).Dir? || SeenFile(ctx, Seen(v), Up(p))
  }

  /** In such a tree the crawl gets at everything live that it does not see, except below
      what it passes over. */
  lemma {:induction false} TidyIsTaken(ctx: Ctx, v: seq<Entry>, p: Path)
    requires Walkable(ctx, v) && Tidy(ctx, v) && ctx.root < p && p !in Seen(v) && Meta(ctx.t0, p) != Deleted
    ensures Taken(ctx, v, p) <==> !Shadowed(ctx, v, p)
  {
    hide Preorder, Agrees, Forest, Meta, Linked, HasList;
    WalkableIsClosed(ctx, v);
    ShadowIsAnchor(ctx, v, p);
    var a := Anchor(ctx, Seen(v), p);
    TowardIs(a, p);
    RootUnseen(ctx, Seen(v));
    hide Closed, Shadowed, Walkable;
    if !Passed(ctx, Seen(v), a) { TidyIsReached(ctx, v, a, p); }
  }

  lemma {:induction false} TidyIsReached(ctx: Ctx, v: seq<Entry>, a: Path, p: Path)
    requires Tidy(ctx, v) && ctx.root < p && p !in Seen(v) && Meta(ctx.t0, p) != Deleted && a == Anchor(ctx, Seen(v), p)
    ensures var h := Toward(a, p);
            && Linked(ctx.t0, h) && (p == h || Reached(ctx.t0, h, p)) && Reached(ctx.t0, a, p)
            && (a != ctx.root ==> Meta(ctx.t0, a).Dir? || SeenFile(ctx, Seen(v), a))
    decreases |p|
  {
    hide Linked, SeenFile;
    TowardIs(a, p);
    LiveIsKnown(ctx.t0, p);
    assert a != ctx.root && Up(p) == a ==> TidyAt(ctx, v, p);
    if Up(p) != a {
      UpIsUnseen(ctx, v, p);
      assert TidyAt(ctx, v, p);
      TidyIsReached(ctx, v, a, Up(p));
      assert Toward(a, Up(p)) == Toward(a, p);
    } else {
      assert Toward(a, p) == p;
    }
  }

  lemma {:induction false} LiveIsKnown(t: Tree, p: Path)
    ensures Meta(t, p) != Deleted ==> Known(t, p)
  {
  }

  lemma {:induction false} UpIsUnseen(ctx: Ctx, v: seq<Entry>, p: Path)
    requires ctx.root < p && Up(p) != Anchor(ctx, Seen(v), p)
    ensures Up(p) !in Seen(v) && ctx.root < Up(p) && ctx.root != Up(p)
            && Anchor(ctx, Seen(v), Up(p)) == Anchor(ctx, Seen(v), p)
    ensures !SeenFile(ctx, Seen(v), Up(p))
  {
  }

  /** The crawl leaves such a tree as such a tree. */
  lemma {:induction false} TidyStays(ctx: Ctx, v: seq<Entry>)
    requires Walkable(ctx, v) && Tidy(ctx, v)
    ensures Tidy(Again(ctx, v), v)
  {
    hide Finished, Preorder, Agrees, Report, Linked, Meta, TidyAt;
    FinalReport(ctx, v);
    var u := Finished(ctx, v).tree;
    forall p | ctx.root < p && ctx.root != Up(p) && Meta(u, p) != Deleted
      ensures TidyAt(Again(ctx, v), v, p)
    {
      TidyStaysAt(ctx, v, p);
    }
    hide Walkable;
    forall p | ctx.root < p && Known(u, p)
      ensures Linked(u, p)
    {
      KnownStaysLinked(ctx, v, u, p);
    }
  }

  lemma {:induction false} KnownStaysLinked(ctx: Ctx, v: seq<Entry>, u: Tree, p: Path)
    requires Forest(ctx.t0) && Grown(ctx, Seen(v), u) && Tidy(ctx, v) && ctx.root < p && Known(u, p)
    ensures Linked(u, p)
  {
    hide Linked;
    if p in ctx.t0.table { assert Known(ctx.t0, p); }
  }

  lemma {:induction false} TidyStaysAt(ctx: Ctx, v: seq<Entry>, p: Path)
    requires Walkable(ctx, v) && Tidy(ctx, v) && ctx.root < p && ctx.root != Up(p)
    requires Meta(Finished(ctx, v).tree, p) != Deleted
    ensures TidyAt(Again(ctx, v), v, p)
  {
    hide Finished, Preorder, Agrees, Meta, Linked, HasList, Shadowed;
    WalkableIsClosed(ctx, v);
    CrawlLeaves(ctx, v, p);
    CrawlLeaves(ctx, v, Up(p));
    if p in Seen(v) {
      SeenParent(ctx, v, p);
    } else {
      assert Meta(ctx.t0, p) != Deleted;
      TidyIsTaken(ctx, v, p);
      if !Shadowed(ctx, v, p) {
        assert StaleLeaf(ctx, v, p);
        SeenParent(ctx, v, p);
      } else {
        ShadowStays(ctx, v, p);
      }
    }
  }

  /** The parent of a path next to which, or at which, something was seen is a directory. */
  lemma {:induction false} SeenParent(ctx: Ctx, v: seq<Entry>, p: Path)
    requires Walkable(ctx, v) && Closed(ctx, Seen(v)) && ctx.root < p && ctx.root != Up(p)
    requires p in Seen(v) || IsDirIn(ctx, Seen(v), Up(p))
    requires ctx.root < Up(p) && Up(p) in Seen(v) ==> Synced(ctx.fs, ctx.recursive, Finished(ctx, v).tree, Up(p))
    ensures TidyAt(Again(ctx, v), v, p)
  {
    hide Finished, Preorder, Agrees;
    if p in Seen(v) { assert ClosedAt(ctx, Seen(v), p); }
    assert ctx.root < Up(p);
    InStep(ctx, Finished(ctx, v).tree, Up(p));
  }

  lemma {:induction false} InStep(ctx: Ctx, u: Tree, p: Path)
    requires Synced(ctx.fs, ctx.recursive, u, p) && p in ctx.fs && ctx.fs[p].Directory?
    ensures Meta(u, p).Dir?
  {
  }

  lemma {:induction false} ShadowStays(ctx: Ctx, v: seq<Entry>, p: Path)
    requires Walkable(ctx, v) && Tidy(ctx, v) && Closed(ctx, Seen(v)) && Shadowed(ctx, v, p)
    requires ctx.root < p && ctx.root != Up(p) && Meta(ctx.t0, p) != Deleted
    ensures TidyAt(Again(ctx, v), v, p)
  {
    hide Finished, Preorder, Agrees, Linked, HasList, Forest;
    assert TidyAt(ctx, v, p) && ctx.root < Up(p);
    var q :| ctx.root < q < p && Passed(ctx, Seen(v), q);
    PrefixOfParent(q, p);
    CrawlLeaves(ctx, v, Up(p));
    if Up(p) in Seen(v) {
      NothingBelowPassed(ctx, Seen(v), q, Up(p));
      assert q == Up(p) by { assert q < Up(p) || q == Up(p) by { assert |q| == |Up(p)| ==> q == Up(p); } }
      if ctx.fs[q].Directory? { InStep(ctx, Finished(ctx, v).tree, q); }
    } else if !SeenFile(ctx, Seen(v), Up(p)) {
      assert Shadowed(ctx, v, Up(p)) by { assert q < Up(p) || q == Up(p) by { assert |q| == |Up(p)| ==> q == Up(p); } }
      TidyIsTaken(ctx, v, Up(p));
    }
  }
}
