/** The per-path claim that a crawl maintains from entry to entry. */
module CrawlReport {
  import opened Paths
  import opened Events
  import opened TreeModel
  import opened Deletion
  import opened CrawlModel
  import opened CrawlStructure
  import opened CrawlDiscipline
  import opened CrawlClaims

  /** The deepest proper ancestor of `p` that is the root or was visited. */
  function Anchor(ctx: Ctx, seen: set<Path>, p: Path): (a: Path)
    requires ctx.root < p
    ensures ctx.root <= a < p && (a == ctx.root || a in seen)
    decreases |p|
  {
    if Up(p) == ctx.root || Up(p) in seen then Up(p) else Anchor(ctx, seen, Up(p))
  }

  lemma {:induction false} AnchorGap(ctx: Ctx, seen: set<Path>, p: Path, q: Path)
    requires ctx.root < p && Anchor(ctx, seen, p) < q < p
    ensures q !in seen
    decreases |p|
  {
    if Anchor(ctx, seen, p) != Up(p) && q != Up(p) {
      assert q < Up(p) by { assert |q| < |Up(p)| || q == Up(p); }
      AnchorGap(ctx, seen, Up(p), q);
    }
  }

  lemma {:induction false} AnchorIs(ctx: Ctx, seen: set<Path>, h: Path, p: Path)
    requires ctx.root < h <= p && (Up(h) == ctx.root || Up(h) in seen)
    requires forall q :: h <= q < p ==> q !in seen
    ensures Anchor(ctx, seen, p) == Up(h)
    decreases |p|
  {
    if p != h {
      assert h <= Up(p) by { assert |h| <= |Up(p)|; }
      AnchorIs(ctx, seen, h, Up(p));
    }
  }

  /** The kind a node keeps when it vanished: a child without a list whose parent was
      crawled is reported but not marked. */
  function FinalMeta(ctx: Ctx, a: Path, p: Path): NodeMeta {
    if Up(p) == a && (a == ctx.root || (a in ctx.fs && ctx.fs[a].Directory?)) && !HasList(ctx.t0, p)
    then Meta(ctx.t0, p) else Deleted
  }

  /** What the crawl gets at below `a`, the deepest path above `p` that it sees, if `p` itself
      is not seen: below a crawled directory, what hangs from its child list; below what is
      now neither a file nor a directory, what hung from it if it was a directory. */
  ghost predicate Caught(ctx: Ctx, a: Path, p: Path) {
    && a < p
    && if a == ctx.root || (ctx.recursive && a in ctx.fs && ctx.fs[a].Directory?)
       then Linked(ctx.t0, Toward(a, p)) && (p == Toward(a, p) || Reached(ctx.t0, Toward(a, p), p))
       else a in ctx.fs && ctx.fs[a].Special? && Meta(ctx.t0, a).Dir? && Reached(ctx.t0, a, p)
  }

  ghost predicate Untouched(ctx: Ctx, t: Tree, es: seq<Event>, p: Path) {
    Meta(t, p) == Meta(ctx.t0, p) && At(es, p) == []
  }

  /** Where path `p` stands: `open` are the directories whose frame is not finished. */
  ghost predicate Claim(ctx: Ctx, seen: set<Path>, open: set<Path>, t: Tree, es: seq<Event>, p: Path) {
    if !(ctx.root < p) then Untouched(ctx, t, es, p)
    else if p in seen then p in ctx.fs && At(es, p) == Diff(Meta(ctx.t0, p), Inode(ctx.t0, p), Some(ctx.fs[p]))
    else
      var a := Anchor(ctx, seen, p);
      if a in open || !Caught(ctx, a, p) then Untouched(ctx, t, es, p)
      else At(es, p) == DeleteEvent(Meta(ctx.t0, p)) && Meta(t, p) == FinalMeta(ctx, a, p)
  }

  ghost predicate Report(ctx: Ctx, seen: set<Path>, open: set<Path>, t: Tree, es: seq<Event>) {
    forall p :: Claim(ctx, seen, open, t, es, p)
  }

  // ------------------------------------------------------------- one application

  function OpenAfter(ctx: Ctx, open: set<Path>, e: Path): set<Path> {
    if ctx.recursive && e in ctx.fs && ctx.fs[e].Directory? then open + {e} else open
  }

  lemma {:induction false} UnseenUnknown(ctx: Ctx, seen: set<Path>, t: Tree, p: Path)
    requires Grown(ctx, seen, t) && Forest(ctx.t0) && p !in seen
    ensures Known(t, p) ==> Known(ctx.t0, p)
    ensures Known(ctx.t0, p) ==> Known(t, p) && t.table[p] == ctx.t0.table[p] && Inode(t, p) == Inode(ctx.t0, p)
    ensures p != ctx.root ==> HasList(t, p) == HasList(ctx.t0, p)
  {
    if Known(ctx.t0, p) {
      var i := ctx.t0.table[p];
      assert Kept(ctx, seen, ctx.t0.nodes[i], t.nodes[i]);
    }
  }

  lemma {:induction false} ClaimAtEntry(ctx: Ctx, seen: set<Path>, open: set<Path>, t: Tree, es: seq<Event>, e: Path,
                                        r: Applied)
    requires ctx.root < e && e !in seen && e in ctx.fs && Untouched(ctx, t, es, e)
    requires EntryEffect(t, ctx.fs, e, e, r) && Inode(t, e) == Inode(ctx.t0, e)
    ensures Claim(ctx, seen + {e}, OpenAfter(ctx, open, e), r.tree, es + r.events, e)
  {
    AtAppend(es, r.events, e);
  }

  lemma {:induction false} ClaimBelowEntry(ctx: Ctx, seen: set<Path>, open: set<Path>, t: Tree, es: seq<Event>,
                                           e: Path, p: Path, r: Applied)
    requires ctx.root < e < p && e in ctx.fs && e !in open && p !in seen
    requires Anchor(ctx, seen + {e}, p) == e
    requires Untouched(ctx, t, es, p) && Meta(t, e) == Meta(ctx.t0, e) && Reached(t, e, p) == Reached(ctx.t0, e, p)
    requires EntryEffect(t, ctx.fs, e, p, r)
    ensures Claim(ctx, seen + {e}, OpenAfter(ctx, open, e), r.tree, es + r.events, p)
  {
    hide Reached, Linked, Meta, HasList;
    AtAppend(es, r.events, p);
  }

  lemma {:induction false} ClaimElsewhere(ctx: Ctx, seen: set<Path>, open: set<Path>, t: Tree, es: seq<Event>,
                                          e: Path, p: Path, r: Applied)
    requires e in ctx.fs && !(e <= p)
    requires Claim(ctx, seen, open, t, es, p) && EntryEffect(t, ctx.fs, e, p, r)
    ensures Claim(ctx, seen + {e}, OpenAfter(ctx, open, e), r.tree, es + r.events, p)
  {
    hide Caught, FinalMeta, Meta;
    NotReachedBeside(t, e, p);
    hide Reached;
    AtAppend(es, r.events, p);
    if ctx.root < p { AnchorElsewhere(ctx, seen, e, p); }
  }

  lemma {:induction false} NotReachedBeside(t: Tree, e: Path, p: Path)
    ensures Reached(t, e, p) ==> e < p
  {
  }

  lemma {:induction false} BelowEntry(ctx: Ctx, seen: set<Path>, e: Path, p: Path)
    requires NextEntry(ctx, seen, e) && e < p
    ensures Anchor(ctx, seen, p) == Up(e) && Anchor(ctx, seen + {e}, p) == e
  {
    forall q | e <= q
      ensures q !in seen
    {
      NothingSeenBelow(ctx, seen, e, q);
    }
    AnchorIs(ctx, seen, e, p);
    var h := Toward(e, p);
    assert Up(h) == e;
    AnchorIs(ctx, seen + {e}, h, p);
  }

  lemma {:induction false} AnchorElsewhere(ctx: Ctx, seen: set<Path>, e: Path, p: Path)
    requires ctx.root < p && !(e < p)
    ensures Anchor(ctx, seen + {e}, p) == Anchor(ctx, seen, p)
    decreases |p|
  {
    if Up(p) != ctx.root && Up(p) !in seen {
      assert Up(p) != e && !(e < Up(p));
      AnchorElsewhere(ctx, seen, e, Up(p));
    }
  }

  /** Before `e` is visited nothing has happened at or below it. */
  lemma {:induction false} NothingYet(ctx: Ctx, seen: set<Path>, open: set<Path>, t: Tree, es: seq<Event>, e: Path,
                                      p: Path)
    requires NextEntry(ctx, seen, e) && e <= p && (Linked(ctx.t0, e) ==> Up(e) in open)
    requires Claim(ctx, seen, open, t, es, p)
    ensures p !in seen && Untouched(ctx, t, es, p)
  {
    hide Linked, Reached, Untouched, FinalMeta;
    NothingSeenBelow(ctx, seen, e, p);
    if e < p { BelowEntry(ctx, seen, e, p); }
    assert e == p || e < p;
    assert Toward(Up(e), p) == e;
  }

  lemma {:induction false} SameReachBelow(ctx: Ctx, seen: set<Path>, t: Tree, e: Path, p: Path)
    requires Grown(ctx, seen, t) && forall q :: e < q <= p ==> q !in seen && Meta(t, q) == Meta(ctx.t0, q)
    ensures Reached(t, e, p) == Reached(ctx.t0, e, p)
  {
    hide Meta;
    forall q | e < q <= p
      ensures Linked(t, q) <==> Linked(ctx.t0, q)
    {
      LinkedAsBefore(ctx, seen, t, q);
    }
    hide Linked, Grown;
    ReachedSame(ctx.t0, t, e, p);
  }

  lemma {:induction false} LinkedAsBefore(ctx: Ctx, seen: set<Path>, t: Tree, q: Path)
    requires Grown(ctx, seen, t) && q !in seen
    ensures Linked(t, q) <==> Linked(ctx.t0, q)
  {
  }

  lemma {:induction false} ApplyKeepsReport(ctx: Ctx, seen: set<Path>, open: set<Path>, t: Tree, es: seq<Event>,
                                            e: Path)
    requires NextEntry(ctx, seen, e) && Forest(ctx.t0) && Forest(t) && Grown(ctx, seen, t)
    requires e !in open && (Linked(ctx.t0, e) ==> Up(e) in open)
    requires Report(ctx, seen, open, t, es)
    ensures var r := ApplyEntry(t, ctx.fs, ctx.recursive, e);
            Report(ctx, seen + {e}, OpenAfter(ctx, open, e), r.tree, es + r.events)
  {
    var r := ApplyEntry(t, ctx.fs, ctx.recursive, e);
    ParentInTable(ctx, seen, t, e);
    UnseenUnknown(ctx, seen, t, e);
    hide Forest, Grown, ApplyEntry, Claim, Linked, Reached, EntryEffect;
    forall p
      ensures Claim(ctx, seen + {e}, OpenAfter(ctx, open, e), r.tree, es + r.events, p)
    {
      ApplyEffect(t, ctx.fs, ctx.recursive, e, p);
      assert Claim(ctx, seen, open, t, es, p);
      if e <= p {
        forall q | e <= q <= p
          ensures q !in seen && Untouched(ctx, t, es, q)
        {
          assert Claim(ctx, seen, open, t, es, q);
          NothingYet(ctx, seen, open, t, es, e, q);
        }
        if p == e {
          ClaimAtEntry(ctx, seen, open, t, es, e, r);
        } else {
          BelowEntry(ctx, seen, e, p);
          SameReachBelow(ctx, seen, t, e, p);
          ClaimBelowEntry(ctx, seen, open, t, es, e, p, r);
        }
      } else {
        ClaimElsewhere(ctx, seen, open, t, es, e, p, r);
      }
    }
  }

  // ------------------------------------------------------------------- one pop

  function TopPath(c: Crawl): Path
    requires Listed(c.tree, c.stack) && c.stack != []
  {
    c.tree.nodes[c.stack[|c.stack| - 1].node].path
  }

  function TopKids(c: Crawl): seq<NodeId>
    requires Listed(c.tree, c.stack) && c.stack != []
  {
    Kids(c.tree, c.stack[|c.stack| - 1].node)
  }

  lemma {:induction false} TopIsSwept(ctx: Ctx, seen: set<Path>, c: Crawl)
    requires Structure(ctx, seen, c) && Closed(ctx, seen) && c.stack != []
    ensures InArena(c.tree, TopKids(c)) && Siblings(c.tree, TopKids(c))
    ensures forall k :: 0 <= k < |TopKids(c)| && c.tree.nodes[TopKids(c)[k]].maybeDeleted ==>
              UnseenKid(ctx, seen, c, c.tree.nodes[TopKids(c)[k]].path)
    ensures IsCrawled(ctx, seen, TopPath(c)) && ctx.root <= TopPath(c)
  {
    var top := c.stack[|c.stack| - 1].node;
    var kids := TopKids(c);
    assert FrameOk(ctx, seen, c.tree, c.stack[|c.stack| - 1]);
    RootBelowFrame(ctx, seen, TopPath(c));
    forall k | 0 <= k < |kids| && c.tree.nodes[kids[k]].maybeDeleted
      ensures UnseenKid(ctx, seen, c, c.tree.nodes[kids[k]].path)
    {
      KidLinked(c.tree, top, k);
      assert FlagOk(c.tree, seen, kids[k]);
    }
    forall k, l | 0 <= k < l < |kids|
      ensures c.tree.nodes[kids[k]].path != c.tree.nodes[kids[l]].path
      ensures |c.tree.nodes[kids[k]].path| == |c.tree.nodes[kids[l]].path|
    {
      KidLinked(c.tree, top, k);
      KidLinked(c.tree, top, l);
    }
  }

  /** A child in the list of the directory on top that was not visited. */
  ghost predicate UnseenKid(ctx: Ctx, seen: set<Path>, c: Crawl, h: Path)
    requires Listed(c.tree, c.stack) && c.stack != []
  {
    h !in seen && ctx.root < h && Up(h) == TopPath(c) && Linked(c.tree, h)
  }

  lemma {:induction false} HitBy(t: Tree, ids: seq<NodeId>, k: nat, p: Path)
    requires InArena(t, ids) && k < |ids| && t.nodes[ids[k]].maybeDeleted && t.nodes[ids[k]].path <= p
    ensures Hit(t, ids, t.nodes[ids[k]].path, p)
  {
  }

  lemma {:induction false} TowardIs(a: Path, p: Path)
    requires a < p
    ensures a < Toward(a, p) <= p && Up(Toward(a, p)) == a
    ensures Toward(a, p) != p ==> Toward(a, p) < p
  {
  }

  /** An unvisited child in the list of the finished directory is flagged. */
  lemma {:induction false} TopKidIsFlagged(ctx: Ctx, seen: set<Path>, c: Crawl, h: Path)
    requires Forest(c.tree) && Listed(c.tree, c.stack) && Flagged(c.tree, seen, c.stack) && c.stack != []
    requires h !in seen && Linked(c.tree, h) && Up(h) == TopPath(c)
    ensures InArena(c.tree, TopKids(c))
    ensures exists k :: 0 <= k < |TopKids(c)| && c.tree.nodes[TopKids(c)[k]].maybeDeleted
                        && c.tree.nodes[TopKids(c)[k]].path == h
  {
    PopFrameIs(c);
    var top := c.stack[|c.stack| - 1].node;
    assert c.tree.table[TopPath(c)] == top;
    var k :| 0 <= k < |TopKids(c)| && TopKids(c)[k] == c.tree.table[h];
    assert c.tree.nodes[TopKids(c)[k]].path == h;
    assert FlagOk(c.tree, seen, Kids(c.tree, top)[k]);
  }

  lemma {:induction false} HitIsAnchored(ctx: Ctx, seen: set<Path>, a: Path, h: Path, p: Path)
    requires Closed(ctx, seen) && IsDirIn(ctx, seen, a) && h !in seen && ctx.root < h <= p && Up(h) == a
    ensures p !in seen && Anchor(ctx, seen, p) == a
  {
    forall q | h <= q
      ensures q !in seen
    {
      NothingSeenBelow(ctx, seen, h, q);
    }
    AnchorIs(ctx, seen, h, p);
  }

  lemma {:induction false} PopKeepsClaim(ctx: Ctx, seen: set<Path>, open: set<Path>, c: Crawl, p: Path)
    requires Structure(ctx, seen, c) && Closed(ctx, seen) && c.stack != [] && Forest(ctx.t0)
    requires TopPath(c) in open && Report(ctx, seen, open, c.tree, c.events)
    ensures Claim(ctx, seen, open - {TopPath(c)}, PopFrame(c).tree, PopFrame(c).events, p)
  {
    hide Siblings, Sweep, SweptAt, Claim, Hit, Frames, Flagged, Anchor, Closed, Grown, UnseenKid;
    TopIsSwept(ctx, seen, c);
    PopFrameIs(c);
    if Spared(c.tree, TopKids(c), p) {
      SparedKeepsClaim(ctx, seen, open, c, p);
    } else {
      var k :| 0 <= k < |TopKids(c)| && c.tree.nodes[TopKids(c)[k]].maybeDeleted
          && c.tree.nodes[TopKids(c)[k]].path <= p;
      hide Spared, PopFrame;
      HitBy(c.tree, TopKids(c), k, p);
      SweptKeepsClaim(ctx, seen, open, c, c.tree.nodes[TopKids(c)[k]].path, p);
    }
  }

  /** Below an unvisited child of a directory still open nothing has happened. */
  lemma {:induction false} UnderOpen(ctx: Ctx, seen: set<Path>, open: set<Path>, c: Crawl, h: Path, q: Path)
    requires c.stack != [] && Listed(c.tree, c.stack)
    requires TopPath(c) in open && Report(ctx, seen, open, c.tree, c.events)
    requires ctx.root < q && q !in seen && Anchor(ctx, seen, q) == TopPath(c)
    ensures Untouched(ctx, c.tree, c.events, q)
  {
    hide Anchor, Caught, Untouched, FinalMeta;
    assert Claim(ctx, seen, open, c.tree, c.events, q);
  }

  lemma {:induction false} SweptKeepsClaim(ctx: Ctx, seen: set<Path>, open: set<Path>, c: Crawl, h: Path, p: Path)
    requires Structure(ctx, seen, c) && Closed(ctx, seen) && c.stack != [] && Forest(ctx.t0)
    requires TopPath(c) in open && Report(ctx, seen, open, c.tree, c.events)
    requires InArena(c.tree, TopKids(c)) && Siblings(c.tree, TopKids(c)) && Hit(c.tree, TopKids(c), h, p)
    requires UnseenKid(ctx, seen, c, h) && h <= p && IsCrawled(ctx, seen, TopPath(c))
    ensures var swept := Sweep(c.tree, TopKids(c));
            Claim(ctx, seen, open - {TopPath(c)}, swept.tree, c.events + swept.events, p)
  {
    hide Siblings, Sweep, SweptAt, Claim, Hit, Frames, Flagged, Anchor, KidsBelow, ListsOwned, Untouched, Report,
         Linked;
    var swept := Sweep(c.tree, TopKids(c));
    SweepHits(c.tree, TopKids(c), h, p);
    forall q | h <= q <= p
      ensures q !in seen && Anchor(ctx, seen, q) == TopPath(c) && Untouched(ctx, c.tree, c.events, q)
    {
      HitIsAnchored(ctx, seen, TopPath(c), h, q);
      UnderOpen(ctx, seen, open, c, h, q);
    }
    KidReach(ctx, seen, c, h, p);
    UnseenUnknown(ctx, seen, c.tree, h);
    LinkedAsBefore(ctx, seen, c.tree, h);
    RootUnseen(ctx, seen);
    AtAppend(c.events, swept.events, p);
    hide Grown, Closed, HasList, Known, Meta;
    HitKeepsClaim(ctx, seen, open, c, h, p, swept);
  }

  lemma {:induction false} KidReach(ctx: Ctx, seen: set<Path>, c: Crawl, h: Path, p: Path)
    requires Grown(ctx, seen, c.tree) && forall q :: h <= q <= p ==> q !in seen && Untouched(ctx, c.tree, c.events, q)
    ensures Reached(c.tree, h, p) == Reached(ctx.t0, h, p)
  {
    forall q | h < q <= p
      ensures q !in seen && Meta(c.tree, q) == Meta(ctx.t0, q)
    {
      assert h <= q && Untouched(ctx, c.tree, c.events, q);
    }
    hide Grown;
    SameReachBelow(ctx, seen, c.tree, h, p);
  }

  lemma {:induction false} SparedKeepsClaim(ctx: Ctx, seen: set<Path>, open: set<Path>, c: Crawl, p: Path)
    requires Structure(ctx, seen, c) && Closed(ctx, seen) && c.stack != []
    requires TopPath(c) in open && Report(ctx, seen, open, c.tree, c.events) && IsCrawled(ctx, seen, TopPath(c))
    requires InArena(c.tree, TopKids(c)) && Spared(c.tree, TopKids(c), p)
    ensures Claim(ctx, seen, open - {TopPath(c)}, PopFrame(c).tree, PopFrame(c).events, p)
  {
    hide Spared, Closed, Grown, Flagged, Frames, Sweep, Diff, FinalMeta, TableOk, ListsOwned, KidsBelow, Caught;
    assert Claim(ctx, seen, open, c.tree, c.events, p);
    SparedIsNotCaught(ctx, seen, c, p);
    PopFrameIs(c);
    SweepSpares(c.tree, TopKids(c), p);
    AtAppend(c.events, Sweep(c.tree, TopKids(c)).events, p);
    hide Forest, Structure, Report, PopFrame, Listed, InArena;
  }

  lemma {:induction false} SparedIsNotCaught(ctx: Ctx, seen: set<Path>, c: Crawl, p: Path)
    requires Structure(ctx, seen, c) && Closed(ctx, seen) && c.stack != [] && IsCrawled(ctx, seen, TopPath(c))
    requires InArena(c.tree, TopKids(c)) && Spared(c.tree, TopKids(c), p)
    ensures ctx.root < p && p !in seen && Anchor(ctx, seen, p) == TopPath(c) ==> !Caught(ctx, TopPath(c), p)
  {
    if ctx.root < p && p !in seen && Anchor(ctx, seen, p) == TopPath(c) && Caught(ctx, TopPath(c), p) {
      var h := Toward(TopPath(c), p);
      TowardIs(TopPath(c), p);
      if h != p { AnchorGap(ctx, seen, p, h); }
      hide Anchor, Reached;
      LinkedAsBefore(ctx, seen, c.tree, h);
      TopKidIsFlagged(ctx, seen, c, h);
    }
  }

  lemma {:induction false} RootUnseen(ctx: Ctx, seen: set<Path>)
    requires Closed(ctx, seen)
    ensures ctx.root !in seen
  {
    assert ctx.root in seen ==> ClosedAt(ctx, seen, ctx.root);
  }

  lemma {:induction false} HitKeepsClaim(ctx: Ctx, seen: set<Path>, open: set<Path>, c: Crawl, h: Path, p: Path,
                                         swept: Cut)
    requires c.stack != [] && Listed(c.tree, c.stack) && IsCrawled(ctx, seen, TopPath(c)) && ctx.root !in seen
    requires ctx.root < h <= p && Up(h) == TopPath(c) && p !in seen && Anchor(ctx, seen, p) == TopPath(c)
    requires Untouched(ctx, c.tree, c.events, p) && SweptAt(c.tree, h, p, swept) && Linked(ctx.t0, h)
    requires Reached(c.tree, h, p) == Reached(ctx.t0, h, p) && HasList(c.tree, h) == HasList(ctx.t0, h)
    requires At(c.events + swept.events, p) == At(c.events, p) + At(swept.events, p)
    ensures Claim(ctx, seen, open - {TopPath(c)}, swept.tree, c.events + swept.events, p)
  {
    hide Reached, Linked, HasList, Meta, Anchor, Listed;
    assert p == h <==> Up(p) == Up(h) by { if |p| == |h| { assert p == h; } }
    assert Toward(TopPath(c), p) == h;
  }
}
