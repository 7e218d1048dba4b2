/** The stack discipline of a crawl, recursive or not: every step keeps the structure of
    `CrawlStructure`, and between entries the stack holds ancestors of the entry being
    visited and nothing else. */
module CrawlDiscipline {
  import opened Paths
  import opened Events
  import opened TreeModel
  import opened Deletion
  import opened CrawlModel
  import opened CrawlStructure

  // ---------------------------------------------------------------- applying

  /** `e` may be visited next. */
  ghost predicate NextEntry(ctx: Ctx, seen: set<Path>, e: Path) {
    && ctx.root in ctx.t0.table && Closed(ctx, seen)
    && e !in seen && ctx.root < e && e in ctx.fs && IsDirIn(ctx, seen, Up(e))
    && (ctx.recursive || Up(e) == ctx.root)
  }

  lemma {:induction false} ParentInTable(ctx: Ctx, seen: set<Path>, t: Tree, e: Path)
    requires NextEntry(ctx, seen, e) && Grown(ctx, seen, t)
    ensures Up(e) in t.table
  {
    if Up(e) != ctx.root { assert Synced(ctx.fs, ctx.recursive, t, Up(e)); }
  }

  lemma {:induction false} NothingSeenBelow(ctx: Ctx, seen: set<Path>, e: Path, p: Path)
    requires Closed(ctx, seen) && e !in seen && ctx.root < e && e <= p
    ensures p !in seen
  {
    if p in seen { ClosedPrefix(ctx, seen, e, p); }
  }

  lemma {:induction false} TouchedKeepsSynced(ctx: Ctx, seen: set<Path>, t: Tree, u: Tree, e: Path, p: Path)
    requires NextEntry(ctx, seen, e) && Forest(t) && Touched(t, u, e) && p in seen
             && Synced(ctx.fs, ctx.recursive, t, p)
    ensures Synced(ctx.fs, ctx.recursive, u, p)
  {
    if e <= p { NothingSeenBelow(ctx, seen, e, p); }
    assert Meta(u, p) == Meta(t, p);
    if Known(t, p) { assert NodeTouched(e, t.nodes[t.table[p]], u.nodes[t.table[p]]); }
  }

  lemma {:induction false} LinksGrow(t0: Tree, t: Tree, u: Tree, e: Path)
    requires SameLinks(t0, t) && SameLinks(t, u) && forall p :: p in t0.table ==> p in t.table
    requires forall p :: p in t.table && p !in t0.table ==> Linked(t, p)
    requires forall p :: p in u.table && p !in t.table ==> p == e && Linked(u, e)
    ensures SameLinks(t0, u) && forall p :: p in u.table && p !in t0.table ==> Linked(u, p)
  {
    hide Linked;
  }

  lemma {:induction false} TouchedKeepsNodes(ctx: Ctx, seen: set<Path>, t: Tree, u: Tree, e: Path)
    requires Grown(ctx, seen, t) && Touched(t, u, e) && IsDirIn(ctx, seen, Up(e)) && e !in seen
    requires CoversOnly(t, u, ctx.recursive, e)
    ensures |ctx.t0.nodes| <= |u.nodes| && forall i :: 0 <= i < |ctx.t0.nodes| ==>
            Kept(ctx, seen + {e}, ctx.t0.nodes[i], u.nodes[i])
  {
    hide IsDirIn, Synced, SameLinks, Linked, Meta, KidsTouched;
    forall i | 0 <= i < |ctx.t0.nodes|
      ensures Kept(ctx, seen + {e}, ctx.t0.nodes[i], u.nodes[i])
    {
      assert NodeTouched(e, t.nodes[i], u.nodes[i]);
      KeptStep(ctx, seen, e, ctx.t0.nodes[i], t.nodes[i], u.nodes[i]);
    }
  }

  lemma {:induction false} TouchedKeepsTable(ctx: Ctx, seen: set<Path>, t: Tree, u: Tree, e: Path)
    requires Grown(ctx, seen, t) && Forest(t) && Forest(u) && Touched(t, u, e)
    requires e in u.table && e !in t.table ==> Linked(u, e)
    ensures forall p :: p in ctx.t0.table ==> p in u.table && u.table[p] == ctx.t0.table[p]
    ensures forall p :: p in u.table && p !in ctx.t0.table ==> p in seen + {e} && Linked(u, p)
    ensures SameLinks(ctx.t0, u)
  {
    hide Kept, Synced, SameLinks, Linked, Meta, KidsTouched, NodeTouched;
    TouchedLinks(t, u, e);
    hide Forest;
    LinksGrow(ctx.t0, t, u, e);
  }

  lemma {:induction false} TouchedKeepsGrown(ctx: Ctx, seen: set<Path>, t: Tree, u: Tree, e: Path)
    requires NextEntry(ctx, seen, e) && Grown(ctx, seen, t) && Forest(t) && Forest(u) && Touched(t, u, e)
             && Synced(ctx.fs, ctx.recursive, u, e)
    requires (e in u.table && e !in t.table ==> Linked(u, e)) && CoversOnly(t, u, ctx.recursive, e)
    ensures Grown(ctx, seen + {e}, u)
  {
    hide Linked, SameLinks, Kept, Synced, Touched, Forest, CoversOnly;
    TouchedKeepsTable(ctx, seen, t, u, e);
    TouchedKeepsNodes(ctx, seen, t, u, e);
    forall p | p in seen + {e}
      ensures Synced(ctx.fs, ctx.recursive, u, p)
    {
      if p in seen { TouchedKeepsSynced(ctx, seen, t, u, e, p); }
    }
  }

  lemma {:induction false} KeptStep(ctx: Ctx, seen: set<Path>, e: Path, n: Node, m: Node, k: Node)
    requires Kept(ctx, seen, n, m) && NodeTouched(e, m, k) && IsDirIn(ctx, seen, Up(e)) && e !in seen
    requires k.coverage == if ctx.recursive && m.path == e then Recursive else m.coverage
    ensures Kept(ctx, seen + {e}, n, k)
  {
  }

  lemma {:induction false} TouchedKeepsFrames(ctx: Ctx, seen: set<Path>, t: Tree, u: Tree, e: Path, stack: seq<Frame>)
    requires Touched(t, u, e) && Frames(ctx, seen, t, stack)
    ensures Frames(ctx, seen + {e}, u, stack)
    ensures Listed(u, stack)
  {
    forall k | 0 <= k < |stack|
      ensures FrameOk(ctx, seen + {e}, u, stack[k])
    {
      assert FrameOk(ctx, seen, t, stack[k]);
      assert NodeTouched(e, t.nodes[stack[k].node], u.nodes[stack[k].node]);
    }
  }

  lemma {:induction false} TouchedKeepsFlags(seen: set<Path>, t: Tree, u: Tree, e: Path, stack: seq<Frame>)
    requires Forest(t) && Forest(u) && Touched(t, u, e) && Listed(t, stack) && Flagged(t, seen, stack)
    requires Known(u, e) ==> !u.nodes[u.table[e]].maybeDeleted
    ensures Flagged(u, seen + {e}, stack)
  {
    forall k, j | 0 <= k < |stack| && stack[k].node < |u.nodes| && 0 <= j < |Kids(u, stack[k].node)|
      ensures FlagOk(u, seen + {e}, Kids(u, stack[k].node)[j])
    {
      var f := stack[k].node;
      var x := Kids(u, f)[j];
      assert KidsTouched(t, u, e, f);
      if j < |Kids(t, f)| {
        assert x == Kids(t, f)[j] && FlagOk(t, seen, x);
        assert NodeTouched(e, t.nodes[x], u.nodes[x]);
        assert u.table[u.nodes[x].path] == x;
      } else {
        assert u.nodes[x].path == e;
      }
    }
  }

  lemma {:induction false} ApplyKeepsStructure(ctx: Ctx, seen: set<Path>, c: Crawl, e: Path, es: seq<Event>)
    requires Structure(ctx, seen, c) && NextEntry(ctx, seen, e)
    ensures Structure(ctx, seen + {e}, Crawl(ApplyEntry(c.tree, ctx.fs, ctx.recursive, e).tree, c.stack, es, c.watches))
  {
    var u := ApplyEntry(c.tree, ctx.fs, ctx.recursive, e).tree;
    ParentInTable(ctx, seen, c.tree, e);
    AppliedTouched(c.tree, ctx.fs, ctx.recursive, e);
    ApplyCovers(c.tree, ctx.fs, ctx.recursive, e);
    TouchedKeepsGrown(ctx, seen, c.tree, u, e);
    TouchedKeepsFrames(ctx, seen, c.tree, u, e, c.stack);
    TouchedKeepsFlags(seen, c.tree, u, e, c.stack);
  }

  // ----------------------------------------------------------------- sweeping

  /** A path that is not at or below a flagged child is not affected by a sweep. */
  ghost predicate Spared(t: Tree, ids: seq<NodeId>, p: Path)
    requires InArena(t, ids)
  {
    forall k :: 0 <= k < |ids| && t.nodes[ids[k]].maybeDeleted ==> !(t.nodes[ids[k]].path <= p)
  }

  lemma {:induction false} SweepOneSpares(t: Tree, c: NodeId, p: Path)
    requires Forest(t) && c < |t.nodes| && (t.nodes[c].maybeDeleted ==> !(t.nodes[c].path <= p))
    ensures Meta(SweepOne(t, c).tree, p) == Meta(t, p) && At(SweepOne(t, c).events, p) == []
  {
    if t.nodes[c].maybeDeleted {
      var own := OwnEvent(t, c);
      DeleteRecEffect(t, c, p);
      AtAppend(own, DeleteRec(t, c).events, p);
      if own != [] { AtOne(own[0], p); }
    }
  }

  lemma {:induction false} SweepSpares(t: Tree, ids: seq<NodeId>, p: Path)
    requires Forest(t) && InArena(t, ids) && Spared(t, ids, p)
    ensures Meta(Sweep(t, ids).tree, p) == Meta(t, p) && At(Sweep(t, ids).events, p) == []
    decreases |ids|
  {
    if ids != [] {
      var first := SweepOne(t, ids[0]);
      ShapeKeepsForest(t, first.tree);
      SweepOneSpares(t, ids[0], p);
      SweepSpares(first.tree, ids[1..], p);
      AtAppend(first.events, Sweep(first.tree, ids[1..]).events, p);
    }
  }

  lemma {:induction false} SeenIsSpared(ctx: Ctx, seen: set<Path>, c: Crawl, f: Frame, p: Path)
    requires Structure(ctx, seen, c) && Closed(ctx, seen) && p in seen && f in c.stack
    ensures Spared(c.tree, Kids(c.tree, f.node), p)
  {
    var t, kids := c.tree, Kids(c.tree, f.node);
    var n :| 0 <= n < |c.stack| && c.stack[n] == f;
    assert FrameOk(ctx, seen, t, c.stack[n]);
    forall k | 0 <= k < |kids| && t.nodes[kids[k]].maybeDeleted
      ensures !(t.nodes[kids[k]].path <= p)
    {
      assert FlagOk(t, seen, kids[k]);
      KidLinked(t, f.node, k);
      RootBelowFrame(ctx, seen, t.nodes[f.node].path);
      if t.nodes[kids[k]].path <= p { NothingSeenBelow(ctx, seen, t.nodes[kids[k]].path, p); }
    }
  }

  lemma {:induction false} RootBelowFrame(ctx: Ctx, seen: set<Path>, a: Path)
    requires Closed(ctx, seen) && IsDirIn(ctx, seen, a)
    ensures ctx.root <= a
  {
    if a != ctx.root { assert ClosedAt(ctx, seen, a); }
  }

  lemma {:induction false} PopKeepsStructure(ctx: Ctx, seen: set<Path>, c: Crawl)
    requires Structure(ctx, seen, c) && Closed(ctx, seen) && c.stack != []
    ensures Structure(ctx, seen, PopFrame(c))
  {
    hide PopFrame, Sweep, Closed, Spared, InArena, Grown, Frames, Flagged, TableOk, ListsOwned, KidsBelow, Meta, Kids;
    var top := c.stack[|c.stack| - 1];
    var r := PopFrame(c);
    var t, u := c.tree, r.tree;
    PopFrameIs(c);
    ShapeKeepsDescending(t, u);
    forall p | p in seen
      ensures Meta(u, p) == Meta(t, p)
    {
      SeenIsSpared(ctx, seen, c, top, p);
      SweepSpares(t, Kids(t, top.node), p);
    }
    assert c.stack[..|c.stack| - 1] <= c.stack;
    SameNodesKeepFrames(ctx, seen, t, u, c.stack, r.stack);
    SweepKeepsGrown(ctx, seen, t, u);
  }

  lemma {:induction false} SweepKeepsGrown(ctx: Ctx, seen: set<Path>, t: Tree, u: Tree)
    requires Grown(ctx, seen, t) && SameButMeta(t, u) && Descending(t) && forall p :: p in seen ==>
             Meta(u, p) == Meta(t, p)
    ensures Grown(ctx, seen, u)
  {
    hide Linked;
    SameShapeSameLinks(t, u);
    forall p | p in seen
      ensures Synced(ctx.fs, ctx.recursive, u, p)
    {
      assert Synced(ctx.fs, ctx.recursive, t, p);
      assert Known(t, p) ==> Meta(t, p) == t.nodes[t.table[p]].meta;
    }
    forall i | 0 <= i < |ctx.t0.nodes|
      ensures Kept(ctx, seen, ctx.t0.nodes[i], u.nodes[i])
    {
      assert Kept(ctx, seen, ctx.t0.nodes[i], t.nodes[i]);
    }
  }

  lemma {:induction false} SameNodesKeepFrames(ctx: Ctx, seen: set<Path>, t: Tree, u: Tree, stack: seq<Frame>,
                                               rest: seq<Frame>)
    requires Forest(t) && Forest(u) && SameButMeta(t, u) && rest <= stack
    requires forall i {:trigger Kids(u, i)} :: 0 <= i < |t.nodes| ==> Kids(u, i) == Kids(t, i)
    requires Frames(ctx, seen, t, stack) && Flagged(t, seen, stack)
    ensures Frames(ctx, seen, u, rest) && Flagged(u, seen, rest)
  {
    forall k | 0 <= k < |rest|
      ensures FrameOk(ctx, seen, u, rest[k])
    {
      assert FrameOk(ctx, seen, t, stack[k]);
    }
    forall k, j | 0 <= k < |rest| && rest[k].node < |u.nodes| && 0 <= j < |Kids(u, rest[k].node)|
      ensures FlagOk(u, seen, Kids(u, rest[k].node)[j])
    {
      assert rest[k] == stack[k];
      assert FlagOk(t, seen, Kids(t, stack[k].node)[j]);
    }
  }

  lemma {:induction false} PopWhileKeepsStructure(ctx: Ctx, seen: set<Path>, c: Crawl, depth: nat)
    requires Structure(ctx, seen, c) && Closed(ctx, seen)
    ensures Structure(ctx, seen, PopWhile(c, depth))
    decreases |c.stack|
  {
    hide Forest, Listed, Grown, Flagged, Frames, Closed, PopFrame, PopWhile, SameButMeta;
    PopWhileIs(c, depth);
    if c.stack != [] && c.stack[|c.stack| - 1].depth >= depth {
      PopKeepsStructure(ctx, seen, c);
      PopFrameStack(c);
      PopWhileKeepsStructure(ctx, seen, PopFrame(c), depth);
    }
  }

  /** Popping down to `depth` removes exactly the frames at or below it. */
  lemma {:induction false} PopWhileStack(c: Crawl, depth: nat)
    requires Forest(c.tree) && Listed(c.tree, c.stack)
    requires forall k, l :: 0 <= k < l < |c.stack| ==> c.stack[k].depth < c.stack[l].depth
    ensures PopWhile(c, depth).stack <= c.stack
    ensures forall k :: 0 <= k < |c.stack| ==> (c.stack[k].depth < depth <==> k < |PopWhile(c, depth).stack|)
  {
    PopWhileCuts(c, depth);
    CutDeeperSplits(c.stack, depth);
  }

  function CutDeeper(stack: seq<Frame>, depth: nat): seq<Frame> {
    if stack == [] || stack[|stack| - 1].depth < depth then stack else CutDeeper(stack[..|stack| - 1], depth)
  }

  lemma {:induction false} PopWhileCuts(c: Crawl, depth: nat)
    requires Forest(c.tree) && Listed(c.tree, c.stack)
    ensures PopWhile(c, depth).stack == CutDeeper(c.stack, depth)
    decreases |c.stack|
  {
    hide Forest, Listed, PopFrame, PopWhile, SameButMeta;
    PopWhileIs(c, depth);
    if c.stack != [] && c.stack[|c.stack| - 1].depth >= depth {
      PopFrameStack(c);
      PopWhileCuts(PopFrame(c), depth);
    }
  }

  lemma {:induction false} PopFrameStack(c: Crawl)
    requires Forest(c.tree) && Listed(c.tree, c.stack) && c.stack != []
    ensures PopFrame(c).stack == c.stack[..|c.stack| - 1]
  {
  }

  lemma {:induction false} CutDeeperSplits(stack: seq<Frame>, depth: nat)
    requires forall k, l :: 0 <= k < l < |stack| ==> stack[k].depth < stack[l].depth
    ensures CutDeeper(stack, depth) <= stack
    ensures forall k :: 0 <= k < |stack| ==> (stack[k].depth < depth <==> k < |CutDeeper(stack, depth)|)
  {
    if stack != [] && stack[|stack| - 1].depth >= depth { CutDeeperSplits(stack[..|stack| - 1], depth); }
  }

  // ------------------------------------------------------------------ pushing

  lemma {:induction false} PushKeepsStructure(ctx: Ctx, seen: set<Path>, c: Crawl, id: NodeId, depth: nat)
    requires Structure(ctx, seen, c) && Closed(ctx, seen) && id < |c.tree.nodes|
    requires IsCrawled(ctx, seen, c.tree.nodes[id].path) && depth == DepthOf(ctx.root, c.tree.nodes[id].path)
    requires forall q :: q in seen ==> !(c.tree.nodes[id].path < q)
    requires forall k :: 0 <= k < |c.stack| ==> c.stack[k].depth < depth
    ensures Structure(ctx, seen, PushFrame(c, id, depth))
  {
    PushFrameIs(c, id, depth);
    if c.tree.nodes[id].children.Some? {
      PushKeepsFlags(seen, c, id, depth);
      hide Forest, Listed, PushFrame, Flagged, Closed;
      FlagsKeepGrown(ctx, seen, c.tree, PushFrame(c, id, depth).tree);
      hide Grown;
      PushKeepsFrames(ctx, seen, c.tree, PushFrame(c, id, depth).tree, c.stack, Frame(id, depth));
    }
  }

  lemma {:induction false} PushKeepsFrames(ctx: Ctx, seen: set<Path>, t: Tree, u: Tree, stack: seq<Frame>, f: Frame)
    requires Frames(ctx, seen, t, stack) && SameShape(t, u) && FrameOk(ctx, seen, t, f)
    requires forall k :: 0 <= k < |stack| ==> stack[k].depth < f.depth
    ensures Frames(ctx, seen, u, stack + [f])
  {
    var r := stack + [f];
    forall k | 0 <= k < |r|
      ensures FrameOk(ctx, seen, u, r[k])
    {
      if k < |stack| { assert FrameOk(ctx, seen, t, stack[k]); }
    }
  }

  lemma {:induction false} FlagsKeepGrown(ctx: Ctx, seen: set<Path>, t: Tree, u: Tree)
    requires Grown(ctx, seen, t) && SameShape(t, u) && Descending(t)
    requires forall i :: 0 <= i < |t.nodes| ==> u.nodes[i] == t.nodes[i].(maybeDeleted := u.nodes[i].maybeDeleted)
    ensures Grown(ctx, seen, u)
  {
    hide Linked;
    SameShapeSameLinks(t, u);
    forall p | p in seen
      ensures Synced(ctx.fs, ctx.recursive, u, p)
    {
      assert Synced(ctx.fs, ctx.recursive, t, p);
    }
    forall i | 0 <= i < |ctx.t0.nodes|
      ensures Kept(ctx, seen, ctx.t0.nodes[i], u.nodes[i])
    {
      assert Kept(ctx, seen, ctx.t0.nodes[i], t.nodes[i]);
    }
  }

  lemma {:induction false} PushKeepsFlags(seen: set<Path>, c: Crawl, id: NodeId, depth: nat)
    requires Forest(c.tree) && Listed(c.tree, c.stack) && Flagged(c.tree, seen, c.stack)
    requires id < |c.tree.nodes| && c.tree.nodes[id].children.Some?
    requires forall q :: q in seen ==> !(c.tree.nodes[id].path < q)
    requires forall k :: 0 <= k < |c.stack| ==> c.stack[k].depth < depth
    ensures Flagged(PushFrame(c, id, depth).tree, seen, PushFrame(c, id, depth).stack)
  {
    var t, r := c.tree, PushFrame(c, id, depth);
    var u := r.tree;
    PushFrameIs(c, id, depth);
    ShapeKeepsDescending(t, u);
    hide PushFrame, FlagOk, TableOk, ListsOwned, KidsBelow;
    forall k, j | 0 <= k < |r.stack| && r.stack[k].node < |u.nodes| && 0 <= j < |Kids(u, r.stack[k].node)|
      ensures FlagOk(u, seen, Kids(u, r.stack[k].node)[j])
    {
      assert k < |c.stack| ==> FlagOk(t, seen, Kids(t, c.stack[k].node)[j]);
      PushKeepsFlag(seen, t, u, id, r.stack[k].node, j);
    }
  }

  lemma {:induction false} PushKeepsFlag(seen: set<Path>, t: Tree, u: Tree, id: NodeId, f: NodeId, j: nat)
    requires Forest(t) && |u.nodes| == |t.nodes| && id < |t.nodes| && f < |t.nodes| && j < |Kids(t, f)|
    requires forall i :: 0 <= i < |t.nodes| ==> u.nodes[i].path == t.nodes[i].path
    requires forall i :: 0 <= i < |t.nodes| ==> u.nodes[i].maybeDeleted == (i in Kids(t, id) || t.nodes[i].maybeDeleted)
    requires forall q :: q in seen ==> !(t.nodes[id].path < q)
    requires Kids(t, f)[j] < |t.nodes| && (f == id || FlagOk(t, seen, Kids(t, f)[j]))
    ensures FlagOk(u, seen, Kids(t, f)[j])
  {
    var x := Kids(t, f)[j];
    if x in Kids(t, id) {
      var l :| 0 <= l < |Kids(t, id)| && Kids(t, id)[l] == x;
      KidLinked(t, id, l);
    }
  }

  // ----------------------------------------------------- one visit, every visit

  /** What holds between entries once `v` has been visited. */
  ghost predicate Discipline(ctx: Ctx, v: seq<Entry>, c: Crawl) {
    && Structure(ctx, Seen(v), c)
    && Within(c.tree, c.stack, Cursor(ctx, v))
    && Complete(ctx, c.tree, c.stack, Cursor(ctx, v))
  }

  /** `v` is what was visited so far of a listing. */
  ghost predicate Walkable(ctx: Ctx, v: seq<Entry>) {
    Forest(ctx.t0) && ctx.root in ctx.t0.table && Listing(ctx, v)
  }

  lemma {:induction false} WalkablePrefix(ctx: Ctx, v: seq<Entry>, n: nat)
    requires Walkable(ctx, v) && n <= |v|
    ensures Walkable(ctx, v[..n])
  {
    ListingPrefix(ctx, v, n);
  }

  function VisitEntry(c: Crawl, ctx: Ctx, e: Path): (r: Crawl)
    requires Forest(c.tree) && Listed(c.tree, c.stack)
    ensures Forest(r.tree) && Listed(r.tree, r.stack)
  {
    Visit(c, ctx.fs, ctx.recursive, e, DepthOf(ctx.root, e))
  }

  /** The state after applying `e`, before any frame is finished. */
  function AfterApply(c: Crawl, ctx: Ctx, e: Path): (r: Crawl)
    requires Forest(c.tree) && Listed(c.tree, c.stack)
    ensures Forest(r.tree) && Listed(r.tree, r.stack)
  {
    ApplyKeepsListed(c.tree, ctx.fs, ctx.recursive, e, c.stack);
    var a := ApplyEntry(c.tree, ctx.fs, ctx.recursive, e);
    Crawl(a.tree, c.stack, c.events + a.events, c.watches)
  }

  /** The facts about the last entry `e` of `v` that every step uses. */
  lemma {:induction false} LastEntry(ctx: Ctx, v: seq<Entry>)
    requires v != [] && Walkable(ctx, v)
    ensures var init, e := v[..|v| - 1], v[|v| - 1].path;
            && Walkable(ctx, init) && NextEntry(ctx, Seen(init), e)
            && Seen(v) == Seen(init) + {e} && Closed(ctx, Seen(v))
            && ctx.root <= Up(e) <= Cursor(ctx, init)
  {
    var n := |v| - 1;
    var init := v[..n];
    WalkablePrefix(ctx, v, n);
    PreorderClosed(ctx, v);
    assert Follows(ctx.root, v, n);
    if n > 0 { assert init[n - 1] == v[n - 1]; }
    CursorAhead(ctx, init, Up(v[n].path));
    PreorderClosed(ctx, init);
    hide Preorder, Agrees, Closed, Cursor;
  }

  /** After finishing the frames that are not deeper than the new entry's parent, every
      frame is a proper ancestor of the entry. */
  lemma {:induction false} PoppedAreAncestors(ctx: Ctx, seen: set<Path>, c: Crawl, d: Crawl, e: Path, cursor: Path)
    requires Structure(ctx, seen, c) && Structure(ctx, seen, d) && Closed(ctx, seen)
    requires Within(c.tree, c.stack, cursor) && e != [] && ctx.root <= Up(e) <= cursor
    requires SameButMeta(c.tree, d.tree) && d.stack <= c.stack
    requires forall k :: 0 <= k < |c.stack| ==> (c.stack[k].depth < DepthOf(ctx.root, e) <==> k < |d.stack|)
    ensures Within(d.tree, d.stack, Up(e))
    ensures forall a :: a <= Up(e) && OnStack(c.tree, c.stack, a) ==> OnStack(d.tree, d.stack, a)
  {
    forall k | 0 <= k < |d.stack| && d.stack[k].node < |d.tree.nodes|
      ensures d.tree.nodes[d.stack[k].node].path <= Up(e)
    {
      assert FrameOk(ctx, seen, c.tree, c.stack[k]);
      RootBelowFrame(ctx, seen, c.tree.nodes[c.stack[k].node].path);
    }
    forall a | a <= Up(e) && OnStack(c.tree, c.stack, a)
      ensures OnStack(d.tree, d.stack, a)
    {
      var k :| 0 <= k < |c.stack| && c.stack[k].node < |c.tree.nodes| && c.tree.nodes[c.stack[k].node].path == a;
      assert FrameOk(ctx, seen, c.tree, c.stack[k]);
      RootBelowFrame(ctx, seen, a);
      assert c.stack[k].depth < DepthOf(ctx.root, e);
      assert d.stack[k] == c.stack[k];
    }
  }

  lemma {:induction false} TouchedKeepsPlaces(t: Tree, u: Tree, e: Path, stack: seq<Frame>, bound: Path)
    requires Touched(t, u, e) && Listed(t, stack)
    ensures Within(t, stack, bound) ==> Within(u, stack, bound)
    ensures forall a :: OnStack(t, stack, a) ==> OnStack(u, stack, a)
  {
    assert forall k :: 0 <= k < |stack| ==> NodeTouched(e, t.nodes[stack[k].node], u.nodes[stack[k].node]);
    forall a | OnStack(t, stack, a)
      ensures OnStack(u, stack, a)
    {
      var k :| 0 <= k < |stack| && stack[k].node < |t.nodes| && t.nodes[stack[k].node].path == a;
      assert u.nodes[stack[k].node].path == a;
    }
  }

  /** The state of a visit after applying the entry and finishing frames. */
  function AfterPops(c: Crawl, ctx: Ctx, e: Path): (r: Crawl)
    requires Forest(c.tree) && Listed(c.tree, c.stack)
    ensures Forest(r.tree) && Listed(r.tree, r.stack)
  {
    PopWhile(AfterApply(c, ctx, e), DepthOf(ctx.root, e))
  }

  lemma {:induction false} AfterApplyDiscipline(ctx: Ctx, v: seq<Entry>, c: Crawl)
    requires v != [] && Walkable(ctx, v) && Discipline(ctx, v[..|v| - 1], c)
    ensures var e := v[|v| - 1].path; var a := AfterApply(c, ctx, e); var cursor := Cursor(ctx, v[..|v| - 1]);
            && Structure(ctx, Seen(v), a)
            && Within(a.tree, a.stack, cursor) && Complete(ctx, a.tree, a.stack, cursor)
  {
    hide Forest, Grown, Flagged, Frames;
    var init, e := v[..|v| - 1], v[|v| - 1].path;
    var cursor := Cursor(ctx, init);
    var a := AfterApply(c, ctx, e);
    LastEntry(ctx, v);
    ParentInTable(ctx, Seen(init), c.tree, e);
    AppliedTouched(c.tree, ctx.fs, ctx.recursive, e);
    ApplyKeepsStructure(ctx, Seen(init), c, e, a.events);
    TouchedKeepsPlaces(c.tree, a.tree, e, c.stack, cursor);
    forall x | ctx.root <= x <= cursor && Losable(ctx, x)
      ensures OnStack(a.tree, a.stack, x)
    {
      assert OnStack(c.tree, c.stack, x);
    }
  }

  lemma {:induction false} AfterPopsDiscipline(ctx: Ctx, v: seq<Entry>, c: Crawl)
    requires v != [] && Walkable(ctx, v) && Discipline(ctx, v[..|v| - 1], c)
    ensures var e := v[|v| - 1].path; var d := AfterPops(c, ctx, e);
            && Structure(ctx, Seen(v), d)
            && Within(d.tree, d.stack, Up(e))
            && Complete(ctx, d.tree, d.stack, Up(e))
            && (forall k :: 0 <= k < |d.stack| ==> d.stack[k].depth < DepthOf(ctx.root, e))
  {
    hide Forest, Grown, Flagged;
    var e := v[|v| - 1].path;
    var cursor := Cursor(ctx, v[..|v| - 1]);
    var a, d := AfterApply(c, ctx, e), AfterPops(c, ctx, e);
    LastEntry(ctx, v);
    AfterApplyDiscipline(ctx, v, c);
    PopWhileKeepsStructure(ctx, Seen(v), a, DepthOf(ctx.root, e));
    PopWhileStack(a, DepthOf(ctx.root, e));
    PoppedAreAncestors(ctx, Seen(v), a, d, e, cursor);
    forall x | ctx.root <= x <= Up(e) && Losable(ctx, x)
      ensures OnStack(d.tree, d.stack, x)
    {
      assert OnStack(a.tree, a.stack, x);
    }
  }

  /** Entering a node changes flags, and may stack a frame. */
  lemma {:induction false} EnterIs(c: Crawl, id: NodeId, e: Path, depth: nat, rec: bool)
    requires Forest(c.tree) && Listed(c.tree, c.stack) && id < |c.tree.nodes|
    ensures var r := Enter(c, id, e, depth, rec);
            && SameShape(c.tree, r.tree) && r.events == c.events
            && (forall i :: 0 <= i < |c.tree.nodes| ==> r.tree.nodes[i].meta == c.tree.nodes[i].meta)
            && (!c.tree.nodes[id].meta.Dir? || !rec ==> r == c)
            && r.stack == (if Entered(c.tree, id, rec) then c.stack + [Frame(id, depth)] else c.stack)
  {
    PushFrameIs(c.(watches := c.watches + [e]), id, depth);
    hide PushFrame, Forest, Listed;
  }

  /** A frame is stacked for a directory with a list, if the crawl is recursive. */
  predicate Entered(t: Tree, id: NodeId, rec: bool)
    requires id < |t.nodes|
  {
    rec && t.nodes[id].meta.Dir? && t.nodes[id].children.Some?
  }

  lemma {:induction false} EnterPlaces(c: Crawl, id: NodeId, e: Path, depth: nat, rec: bool)
    requires Forest(c.tree) && Listed(c.tree, c.stack) && id < |c.tree.nodes| && c.tree.nodes[id].path == e
    ensures var r := Enter(c, id, e, depth, rec);
            && (forall a :: OnStack(c.tree, c.stack, a) ==> OnStack(r.tree, r.stack, a))
            && (Entered(c.tree, id, rec) ==> OnStack(r.tree, r.stack, e))
            && (forall b :: Within(c.tree, c.stack, b) && b <= e ==> Within(r.tree, r.stack, e))
  {
    EnterIs(c, id, e, depth, rec);
    hide Enter, Forest, Listed;
    var r := Enter(c, id, e, depth, rec);
    forall a | OnStack(c.tree, c.stack, a)
      ensures OnStack(r.tree, r.stack, a)
    {
      var k :| 0 <= k < |c.stack| && c.stack[k].node < |c.tree.nodes| && c.tree.nodes[c.stack[k].node].path == a;
      assert r.stack[k] == c.stack[k];
    }
    if Entered(c.tree, id, rec) {
      assert r.stack[|c.stack|].node == id;
    }
  }

  lemma {:induction false} EnterKeepsStructure(ctx: Ctx, seen: set<Path>, c: Crawl, id: NodeId, e: Path)
    requires Structure(ctx, seen, c) && Closed(ctx, seen) && e in seen
    requires id < |c.tree.nodes| && c.tree.nodes[id].path == e
    requires forall q :: q in seen ==> !(e < q)
    requires forall k :: 0 <= k < |c.stack| ==> c.stack[k].depth < DepthOf(ctx.root, e)
    ensures Structure(ctx, seen, Enter(c, id, e, DepthOf(ctx.root, e), ctx.recursive))
  {
    assert Synced(ctx.fs, ctx.recursive, c.tree, e);
    assert c.tree.table[e] == id;
    if c.tree.nodes[id].meta.Dir? && ctx.recursive {
      PushKeepsStructure(ctx, seen, c.(watches := c.watches + [e]), id, DepthOf(ctx.root, e));
    }
  }

  lemma {:induction false} NothingBelowLast(ctx: Ctx, v: seq<Entry>)
    requires v != [] && Walkable(ctx, v)
    ensures forall q :: q in Seen(v) ==> !(v[|v| - 1].path < q)
  {
    LastEntry(ctx, v);
    var init, e := v[..|v| - 1], v[|v| - 1].path;
    forall q | q in Seen(v)
      ensures !(e < q)
    {
      if q in Seen(init) && e < q { NothingSeenBelow(ctx, Seen(init), e, q); }
    }
  }

  lemma {:induction false} EnterKeepsDiscipline(ctx: Ctx, v: seq<Entry>, d: Crawl, id: NodeId)
    requires v != [] && Walkable(ctx, v) && Structure(ctx, Seen(v), d)
    requires Within(d.tree, d.stack, Up(v[|v| - 1].path)) && Complete(ctx, d.tree, d.stack, Up(v[|v| - 1].path))
    requires forall k :: 0 <= k < |d.stack| ==> d.stack[k].depth < DepthOf(ctx.root, v[|v| - 1].path)
    requires Known(d.tree, v[|v| - 1].path) && d.tree.table[v[|v| - 1].path] == id
    requires Cursor(ctx, v) == v[|v| - 1].path
    ensures Discipline(ctx, v, Enter(d, id, v[|v| - 1].path, DepthOf(ctx.root, v[|v| - 1].path), ctx.recursive))
  {
    hide Grown, Flagged, Frames, Within, Complete, Walkable;
    var e := v[|v| - 1].path;
    LastEntry(ctx, v);
    NothingBelowLast(ctx, v);
    EnterKeepsStructure(ctx, Seen(v), d, id, e);
    EnterPlaces(d, id, e, DepthOf(ctx.root, e), ctx.recursive);
    VisitComplete(ctx, v, d, id);
  }

  /** One visit keeps the discipline. */
  lemma {:induction false} VisitKeepsDiscipline(ctx: Ctx, v: seq<Entry>, c: Crawl)
    requires v != [] && Walkable(ctx, v) && Discipline(ctx, v[..|v| - 1], c)
    ensures Discipline(ctx, v, VisitEntry(c, ctx, v[|v| - 1].path))
  {
    hide Grown, Flagged, Frames, Within, Complete, Walkable, Forest, Touched, Synced, Cursor;
    var init, e := v[..|v| - 1], v[|v| - 1].path;
    var node := ApplyEntry(c.tree, ctx.fs, ctx.recursive, e).node;
    LastEntry(ctx, v);
    ParentInTable(ctx, Seen(init), c.tree, e);
    AppliedTouched(c.tree, ctx.fs, ctx.recursive, e);
    AfterApplyDiscipline(ctx, v, c);
    CursorOfNode(ctx, v, c);
    if node.Some? {
      AfterPopsDiscipline(ctx, v, c);
      EnterKeepsDiscipline(ctx, v, AfterPops(c, ctx, e), node.value);
    }
  }

  lemma {:induction false} CursorOfNode(ctx: Ctx, v: seq<Entry>, c: Crawl)
    requires v != [] && Walkable(ctx, v) && Discipline(ctx, v[..|v| - 1], c)
    ensures var e := v[|v| - 1].path;
            Cursor(ctx, v)
            == if ApplyEntry(c.tree, ctx.fs, ctx.recursive, e).node.Some? then e else Cursor(ctx, v[..|v| - 1])
  {
    var init, e := v[..|v| - 1], v[|v| - 1].path;
    LastEntry(ctx, v);
    ParentInTable(ctx, Seen(init), c.tree, e);
    AppliedTouched(c.tree, ctx.fs, ctx.recursive, e);
    if e in ctx.t0.table { assert e in c.tree.table; }
    KnownIsInTable(ctx, Seen(init), c.tree, e);
  }

  lemma {:induction false} KnownIsInTable(ctx: Ctx, seen: set<Path>, t: Tree, e: Path)
    requires Grown(ctx, seen, t) && Forest(ctx.t0) && e !in seen
    ensures Known(ctx.t0, e) <==> e in t.table
  {
    if e in ctx.t0.table {
      assert t.table[e] == ctx.t0.table[e];
    }
  }

  lemma {:induction false} OldListKept(ctx: Ctx, seen: set<Path>, t: Tree, e: Path)
    requires Grown(ctx, seen, t) && HasList(ctx.t0, e)
    ensures HasList(t, e) && t.table[e] == ctx.t0.table[e]
  {
    assert Kept(ctx, seen, ctx.t0.nodes[ctx.t0.table[e]], t.nodes[ctx.t0.table[e]]);
  }

  lemma {:induction false} VisitComplete(ctx: Ctx, v: seq<Entry>, d: Crawl, id: NodeId)
    requires v != [] && Walkable(ctx, v) && Structure(ctx, Seen(v), d)
    requires Complete(ctx, d.tree, d.stack, Up(v[|v| - 1].path))
    requires Known(d.tree, v[|v| - 1].path) && d.tree.table[v[|v| - 1].path] == id
    ensures var e := v[|v| - 1].path; var r := Enter(d, id, e, DepthOf(ctx.root, e), ctx.recursive);
            Complete(ctx, r.tree, r.stack, e)
  {
    hide Complete, OnStack, Enter, Losable, Preorder, Agrees, Frames, Flagged;
    var e := v[|v| - 1].path;
    LastIsSynced(ctx, v, d, id);
    EnterPlaces(d, id, e, DepthOf(ctx.root, e), ctx.recursive);
    NoMoreLosable(ctx, v, d, id);
    hide Structure, Walkable, Forest, Listed;
    var r := Enter(d, id, e, DepthOf(ctx.root, e), ctx.recursive);
    CompleteFurther(ctx, d, r, e);
  }

  lemma {:induction false} NoMoreLosable(ctx: Ctx, v: seq<Entry>, d: Crawl, id: NodeId)
    requires v != [] && Walkable(ctx, v) && Structure(ctx, Seen(v), d)
    requires Known(d.tree, v[|v| - 1].path) && d.tree.table[v[|v| - 1].path] == id
    ensures Losable(ctx, v[|v| - 1].path) ==> Entered(d.tree, id, ctx.recursive)
  {
    var e := v[|v| - 1].path;
    LastIsSynced(ctx, v, d, id);
    if HasList(ctx.t0, e) { OldListKept(ctx, Seen(v), d.tree, e); }
  }

  lemma {:induction false} CompleteFurther(ctx: Ctx, d: Crawl, r: Crawl, e: Path)
    requires ctx.root < e && Complete(ctx, d.tree, d.stack, Up(e))
    requires forall a :: OnStack(d.tree, d.stack, a) ==> OnStack(r.tree, r.stack, a)
    requires Losable(ctx, e) ==> OnStack(r.tree, r.stack, e)
    ensures Complete(ctx, r.tree, r.stack, e)
  {
    hide OnStack, Losable;
    forall x | ctx.root <= x <= e && Losable(ctx, x)
      ensures OnStack(r.tree, r.stack, x)
    {
      if |x| == |e| { assert x == e; } else { assert x <= Up(e); }
    }
  }

  lemma {:induction false} LastIsSynced(ctx: Ctx, v: seq<Entry>, d: Crawl, id: NodeId)
    requires v != [] && Walkable(ctx, v) && Structure(ctx, Seen(v), d)
    requires Known(d.tree, v[|v| - 1].path) && d.tree.table[v[|v| - 1].path] == id
    ensures var e := v[|v| - 1].path;
            && ctx.root < e && e in ctx.fs && d.tree.nodes[id].path == e
            && (ctx.fs[e].Directory? ==> d.tree.nodes[id].meta.Dir?)
  {
    var e := v[|v| - 1].path;
    LastEntry(ctx, v);
    assert Synced(ctx.fs, ctx.recursive, d.tree, e);
  }

  // ------------------------------------------------------------- the whole walk

  /** The state after visiting the entries of `v`, from an empty stack. */
  function RunVisits(ctx: Ctx, v: seq<Entry>): (r: Crawl)
    requires Forest(ctx.t0) && ctx.root in ctx.t0.table
    ensures Forest(r.tree) && Listed(r.tree, r.stack)
  {
    if v == [] then Start(ctx.t0, ctx.t0.table[ctx.root], [])
    else VisitEntry(RunVisits(ctx, v[..|v| - 1]), ctx, v[|v| - 1].path)
  }

  lemma {:induction false} StartGrown(ctx: Ctx)
    requires Forest(ctx.t0)
    ensures Grown(ctx, {}, ctx.t0)
  {
    forall i | 0 <= i < |ctx.t0.nodes|
      ensures Kept(ctx, {}, ctx.t0.nodes[i], ctx.t0.nodes[i])
    {
    }
  }

  lemma {:induction false} StartIs(ctx: Ctx)
    requires Forest(ctx.t0) && ctx.root in ctx.t0.table
    ensures var id := ctx.t0.table[ctx.root];
            && id < |ctx.t0.nodes| && ctx.t0.nodes[id].path == ctx.root
            && RunVisits(ctx, []) == PushFrame(Crawl(ctx.t0, [], [], [ctx.root]), id, 0)
  {
  }

  lemma {:induction false} StartDiscipline(ctx: Ctx)
    requires Forest(ctx.t0) && ctx.root in ctx.t0.table
    ensures Discipline(ctx, [], RunVisits(ctx, []))
  {
    hide Forest, Grown, PushFrame, RunVisits, Frames, Flagged;
    StartIs(ctx);
    var id := ctx.t0.table[ctx.root];
    var c := Crawl(ctx.t0, [], [], [ctx.root]);
    var r := PushFrame(c, id, 0);
    StartGrown(ctx);
    assert Frames(ctx, {}, ctx.t0, []) && Flagged(ctx.t0, {}, []) by { NoFrames(ctx); }
    PushKeepsStructure(ctx, {}, c, id, 0);
    PushFrameIs(c, id, 0);
    hide Structure;
    forall a | ctx.root <= a <= ctx.root && Losable(ctx, a)
      ensures OnStack(r.tree, r.stack, a)
    {
      assert a == ctx.root;
      assert r.stack[0].node == id && r.tree.nodes[id].path == a;
    }
  }

  lemma {:induction false} NoFrames(ctx: Ctx)
    requires Forest(ctx.t0)
    ensures Frames(ctx, {}, ctx.t0, []) && Flagged(ctx.t0, {}, [])
  {
  }

  /** During any crawl, recursive or not, whatever the tree says about node kinds: the
      forest is intact, frames deepen strictly and are ancestors of the cursor, every frame has a
      child list, and below a frame the flag marks exactly the unvisited children. */
  lemma {:induction false} DisciplineAlways(ctx: Ctx, v: seq<Entry>)
    requires Walkable(ctx, v)
    ensures Discipline(ctx, v, RunVisits(ctx, v))
  {
    hide Discipline;
    if v == [] {
      StartDiscipline(ctx);
    } else {
      WalkablePrefix(ctx, v, |v| - 1);
      DisciplineAlways(ctx, v[..|v| - 1]);
      VisitKeepsDiscipline(ctx, v, RunVisits(ctx, v[..|v| - 1]));
    }
  }

  /** Once the finished frames are popped, the stack holds proper ancestors of the entry
      being visited, and nothing else. */
  lemma {:induction false} OnlyAncestorsRemain(ctx: Ctx, v: seq<Entry>)
    requires v != [] && Walkable(ctx, v)
    ensures var e := v[|v| - 1].path; var d := AfterPops(RunVisits(ctx, v[..|v| - 1]), ctx, e);
            forall k :: 0 <= k < |d.stack| ==>
              d.stack[k].node < |d.tree.nodes| && d.tree.nodes[d.stack[k].node].path < e
  {
    hide Discipline, Structure, Complete;
    var init, e := v[..|v| - 1], v[|v| - 1].path;
    var d := AfterPops(RunVisits(ctx, init), ctx, e);
    WalkablePrefix(ctx, v, |v| - 1);
    DisciplineAlways(ctx, init);
    AfterPopsDiscipline(ctx, v, RunVisits(ctx, init));
    LastEntry(ctx, v);
    assert Up(e) < e;
  }

  /** A crawl that started on an empty stack leaves it empty. */
  lemma {:induction false} EmptyAtEnd(c: Crawl)
    requires Forest(c.tree) && Listed(c.tree, c.stack)
    ensures PopWhile(c, 0).stack == []
    decreases |c.stack|
  {
    if c.stack != [] { EmptyAtEnd(PopFrame(c)); }
  }
}
