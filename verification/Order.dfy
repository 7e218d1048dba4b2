/** In which order events are reported: a deletion in pre-order of the child lists
    (src/tree.rs:429-456), a crawl in the order of its walk, and what it finds gone from a
    directory after all that it saw there (src/tree.rs:495-553). */
module Order {
  import opened Paths
  import opened Events
  import opened TreeModel
  import opened Deletion
  import opened CrawlModel
  import opened CrawlStructure
  import opened CrawlDiscipline
  import opened CrawlClaims
  import opened CrawlReport
  import opened CrawlTheorem
  import opened CrawlResult
  import opened Filters

  // ------------------------------------------------------------------- pre-order

  /** `q` is to come before `p`: it lies above, or in an earlier child of some node. */
  ghost predicate Inverted(t: Tree, p: Path, q: Path) {
    q < p || exists x, a, b :: BelowKids(t, x, a, b, p, q)
  }

  ghost predicate BelowKids(t: Tree, x: NodeId, a: nat, b: nat, p: Path, q: Path) {
    && x < |t.nodes| && a < b < |Kids(t, x)| && Kids(t, x)[a] < |t.nodes| && Kids(t, x)[b] < |t.nodes|
    && t.nodes[Kids(t, x)[b]].path <= p && t.nodes[Kids(t, x)[a]].path <= q
  }

  /** The events follow the tree from above to below and along the child lists. */
  ghost predicate Preordered(t: Tree, es: seq<Event>) {
    forall i, j :: 0 <= i < j < |es| ==> !Inverted(t, es[i].path, es[j].path)
  }

  ghost predicate AllBelow(es: seq<Event>, h: Path) {
    forall i :: 0 <= i < |es| ==> h <= es[i].path
  }

  lemma {:induction false} PreorderedJoin(t: Tree, d: seq<Event>, e: seq<Event>)
    requires Preordered(t, d) && Preordered(t, e)
    requires forall i, j :: 0 <= i < |d| && 0 <= j < |e| ==> !Inverted(t, d[i].path, e[j].path)
    ensures Preordered(t, d + e)
  {
    hide Inverted;
    var es := d + e;
    forall i, j | 0 <= i < j < |es|
      ensures !Inverted(t, es[i].path, es[j].path)
    {
      if j < |d| {
        assert es[i] == d[i] && es[j] == d[j];
      } else if i >= |d| {
        assert es[i] == e[i - |d|] && es[j] == e[j - |d|];
      } else {
        assert es[i] == d[i] && es[j] == e[j - |d|];
      }
    }
  }

  lemma {:induction false} PreorderedOne(t: Tree, es: seq<Event>)
    requires |es| <= 1
    ensures Preordered(t, es)
  {
  }

  /** Two children of one node do not both lie above one path. */
  lemma {:induction false} OneChildAbove(t: Tree, x: NodeId, a: nat, b: nat, p: Path)
    requires Forest(t) && x < |t.nodes| && a < b < |Kids(t, x)|
    ensures Kids(t, x)[a] < |t.nodes| && Kids(t, x)[b] < |t.nodes|
    ensures !(t.nodes[Kids(t, x)[a]].path <= p && t.nodes[Kids(t, x)[b]].path <= p)
  {
    KidLinked(t, x, a);
    KidLinked(t, x, b);
    var g, h := t.nodes[Kids(t, x)[a]].path, t.nodes[Kids(t, x)[b]].path;
    hide TableOk, ListsOwned, Descending;
    assert g != h;
    TwoPrefixes(g, h, p);
  }

  lemma {:induction false} TwoPrefixes(g: Path, h: Path, p: Path)
    ensures g <= p && h <= p && |g| == |h| ==> g == h
  {
  }

  lemma {:induction false} PrefixChain(h: Path, q: Path, p: Path)
    ensures h <= q && q < p ==> h <= p
  {
  }

  /** What is reported for a node itself comes before what hangs from it. */
  lemma {:induction false} OwnFirst(t: Tree, p: Path, q: Path)
    requires Forest(t) && p <= q
    ensures !Inverted(t, p, q)
  {
    forall x, a, b
      ensures !BelowKids(t, x, a, b, p, q)
    {
      if BelowKids(t, x, a, b, p, q) { OneChildAbove(t, x, a, b, q); }
    }
    hide BelowKids;
  }

  /** What lies below an earlier child comes before what lies below a later one. */
  lemma {:induction false} ChildrenInOrder(t: Tree, id: NodeId, k: nat, l: nat, p: Path, q: Path)
    requires Forest(t) && id < |t.nodes| && k < l < |Kids(t, id)|
    requires Kids(t, id)[k] < |t.nodes| && t.nodes[Kids(t, id)[k]].path <= p
    requires Kids(t, id)[l] < |t.nodes| && t.nodes[Kids(t, id)[l]].path <= q
    ensures !Inverted(t, p, q)
  {
    KidLinked(t, id, k);
    KidLinked(t, id, l);
    OneChildAbove(t, id, k, l, p);
    OneChildAbove(t, id, k, l, q);
    PrefixChain(t.nodes[Kids(t, id)[l]].path, q, p);
    forall x, a, b
      ensures !BelowKids(t, x, a, b, p, q)
    {
      SameFork(t, id, k, l, x, a, b, p, q);
    }
    hide BelowKids;
  }

  lemma {:induction false} SameFork(t: Tree, id: NodeId, k: nat, l: nat, x: NodeId, a: nat, b: nat, p: Path, q: Path)
    requires Forest(t) && id < |t.nodes| && k < l < |Kids(t, id)|
    requires Kids(t, id)[k] < |t.nodes| && t.nodes[Kids(t, id)[k]].path <= p
    requires Kids(t, id)[l] < |t.nodes| && t.nodes[Kids(t, id)[l]].path <= q
    ensures !BelowKids(t, x, a, b, p, q)
  {
    if BelowKids(t, x, a, b, p, q) {
      KidLinked(t, id, k);
      KidLinked(t, id, l);
      KidLinked(t, x, a);
      KidLinked(t, x, b);
      OneChildAbove(t, id, k, l, p);
      OneChildAbove(t, x, a, b, p);
      var c, d := t.nodes[Kids(t, id)[k]].path, t.nodes[Kids(t, id)[l]].path;
      var g, h := t.nodes[Kids(t, x)[b]].path, t.nodes[Kids(t, x)[a]].path;
      assert t.table[t.nodes[id].path] == id && t.table[t.nodes[x].path] == x;
      hide ListsOwned, Descending, KidsBelow, TableOk;
      Forks(c, d, g, h, p, q);
      assert id == x;
      TwoPrefixes(c, g, p);
      TwoPrefixes(d, h, q);
      assert t.table[c] == Kids(t, id)[k] && t.table[g] == Kids(t, x)[b];
      assert t.table[d] == Kids(t, id)[l] && t.table[h] == Kids(t, x)[a];
      NoTwice(t, id, k, b);
      NoTwice(t, id, l, a);
    }
  }

  lemma {:induction false} NoTwice(t: Tree, id: NodeId, k: nat, l: nat)
    requires Forest(t) && id < |t.nodes| && k < |Kids(t, id)| && l < |Kids(t, id)| && Kids(t, id)[k] == Kids(t, id)[l]
    ensures k == l
  {
  }

  /** What lies deeper below two different paths has different parents. */
  lemma {:induction false} ForkedAbove(c: Path, d: Path, g: Path, h: Path, p: Path, q: Path)
    requires |d| == |c| && c != d && c <= p && d <= q && |c| < |g| && |h| == |g| && g <= p && h <= q
    ensures Up(g) != Up(h)
  {
    assert c == p[..|c|] && g == p[..|g|] && d == q[..|d|] && h == q[..|h|];
    assert Up(g)[..|c|] == c && Up(h)[..|c|] == d;
  }

  /** Two pairs of siblings above the same two paths have the same parent. */
  lemma {:induction false} Forks(c: Path, d: Path, g: Path, h: Path, p: Path, q: Path)
    requires c != [] && |d| == |c| && Up(c) == Up(d) && c != d && c <= p && d <= q
    requires g != [] && |h| == |g| && Up(g) == Up(h) && g != h && g <= p && h <= q
    ensures Up(c) == Up(g)
  {
    if |c| < |g| {
      ForkedAbove(c, d, g, h, p, q);
    } else if |g| < |c| {
      ForkedAbove(g, h, c, d, p, q);
    } else {
      assert c == p[..|c|] && g == p[..|g|];
    }
  }

  // ---------------------------------------------------------------------- a deletion

  /** Trees that differ in kinds only have the same order. */
  lemma {:induction false} SameOrder(t: Tree, u: Tree, es: seq<Event>)
    requires SameButMeta(t, u)
    ensures Preordered(u, es) <==> Preordered(t, es)
  {
    forall p, q
      ensures Inverted(u, p, q) <==> Inverted(t, p, q)
    {
      forall x, a, b
        ensures BelowKids(u, x, a, b, p, q) <==> BelowKids(t, x, a, b, p, q)
      {
        assert Kids(u, x) == Kids(t, x);
      }
      hide BelowKids;
    }
    hide Inverted;
  }

  /** Everything reported for the children from the `k`-th on hangs from one of them. */
  ghost predicate FromKids(t: Tree, id: NodeId, k: nat, es: seq<Event>) {
    forall i :: 0 <= i < |es| ==> FromKid(t, id, k, es[i].path)
  }

  ghost predicate FromKid(t: Tree, id: NodeId, k: nat, p: Path) {
    exists l :: k <= l < |Kids(t, id)| && Kids(t, id)[l] < |t.nodes| && t.nodes[Kids(t, id)[l]].path <= p
  }

  lemma {:induction false} FromLater(t: Tree, id: NodeId, k: nat, l: nat, es: seq<Event>)
    requires k <= l && FromKids(t, id, l, es)
    ensures FromKids(t, id, k, es)
  {
    forall i | 0 <= i < |es|
      ensures FromKid(t, id, k, es[i].path)
    {
      assert FromKid(t, id, l, es[i].path);
    }
  }

  lemma {:induction false} FromHere(t: Tree, id: NodeId, k: nat, es: seq<Event>)
    requires k < |Kids(t, id)| && Kids(t, id)[k] < |t.nodes| && AllBelow(es, t.nodes[Kids(t, id)[k]].path)
    ensures FromKids(t, id, k, es)
  {
  }

  lemma {:induction false} FromBoth(t: Tree, id: NodeId, k: nat, d: seq<Event>, e: seq<Event>)
    requires FromKids(t, id, k, d) && FromKids(t, id, k, e)
    ensures FromKids(t, id, k, d + e)
  {
    hide FromKid;
    forall i | 0 <= i < |d + e|
      ensures FromKid(t, id, k, (d + e)[i].path)
    {
      if i < |d| { assert (d + e)[i] == d[i]; } else { assert (d + e)[i] == e[i - |d|]; }
    }
  }

  lemma {:induction false} FromSame(t: Tree, u: Tree, id: NodeId, k: nat, es: seq<Event>)
    requires SameButMeta(t, u)
    ensures FromKids(u, id, k, es) <==> FromKids(t, id, k, es)
  {
    assert Kids(u, id) == Kids(t, id);
    forall p
      ensures FromKid(u, id, k, p) <==> FromKid(t, id, k, p)
    {
    }
    hide FromKid;
  }

  /** The first child's events, then those of the rest. */
  lemma {:induction false} KidThenRest(t: Tree, id: NodeId, k: nat, d: seq<Event>, e: seq<Event>)
    requires Forest(t) && id < |t.nodes| && k < |Kids(t, id)| && Kids(t, id)[k] < |t.nodes|
    requires AllBelow(d, t.nodes[Kids(t, id)[k]].path) && Preordered(t, d)
    requires FromKids(t, id, k + 1, e) && Preordered(t, e)
    ensures Preordered(t, d + e) && FromKids(t, id, k, d + e)
  {
    hide Forest, Inverted, Preordered;
    forall i, j | 0 <= i < |d| && 0 <= j < |e|
      ensures !Inverted(t, d[i].path, e[j].path)
    {
      assert FromKid(t, id, k + 1, e[j].path);
      var l :| k + 1 <= l < |Kids(t, id)| && Kids(t, id)[l] < |t.nodes| && t.nodes[Kids(t, id)[l]].path <= e[j].path;
      ChildrenInOrder(t, id, k, l, d[i].path, e[j].path);
    }
    PreorderedJoin(t, d, e);
    FromHere(t, id, k, d);
    FromLater(t, id, k, k + 1, e);
    FromBoth(t, id, k, d, e);
  }

  /** A node's own event, then what hangs from it. */
  lemma {:induction false} OwnThenKids(t: Tree, c: NodeId, below: seq<Event>)
    requires Forest(t) && c < |t.nodes| && FromKids(t, c, 0, below) && Preordered(t, below)
    ensures Preordered(t, OwnEvent(t, c) + below) && AllBelow(OwnEvent(t, c) + below, t.nodes[c].path)
  {
    hide Forest, Inverted, FromKids, Preordered;
    var own := OwnEvent(t, c);
    KidsHang(t, c, below);
    PreorderedOne(t, own);
    forall i, j | 0 <= i < |own| && 0 <= j < |below|
      ensures !Inverted(t, own[i].path, below[j].path)
    {
      OwnFirst(t, own[i].path, below[j].path);
    }
    PreorderedJoin(t, own, below);
    BothBelow(own, below, t.nodes[c].path);
  }

  lemma {:induction false} BothBelow(d: seq<Event>, e: seq<Event>, h: Path)
    requires AllBelow(d, h) && AllBelow(e, h)
    ensures AllBelow(d + e, h)
  {
    forall i | 0 <= i < |d + e|
      ensures h <= (d + e)[i].path
    {
      if i < |d| { assert (d + e)[i] == d[i]; } else { assert (d + e)[i] == e[i - |d|]; }
    }
  }

  lemma {:induction false} KidsHang(t: Tree, c: NodeId, es: seq<Event>)
    requires Forest(t) && c < |t.nodes| && FromKids(t, c, 0, es)
    ensures AllBelow(es, t.nodes[c].path)
  {
    forall i | 0 <= i < |es|
      ensures t.nodes[c].path <= es[i].path
    {
      assert FromKid(t, c, 0, es[i].path);
      var l :| 0 <= l < |Kids(t, c)| && Kids(t, c)[l] < |t.nodes| && t.nodes[Kids(t, c)[l]].path <= es[i].path;
      KidLinked(t, c, l);
    }
  }

  /** The subtree step for one child, as `CutKids` takes it. */
  lemma {:induction false} CutKidsIs(t: Tree, id: NodeId, k: nat)
    requires Descending(t) && id < |t.nodes| && k < |Kids(t, id)|
    ensures var c := Kids(t, id)[k]; var below := CutChild(t, c);
            && c < |t.nodes| && id < c && Kids(below.tree, id) == Kids(t, id) && id < |below.tree.nodes|
            && CutKids(t, id, k).events == OwnEvent(t, c) + below.events + CutKids(below.tree, id, k + 1).events
  {
  }

  lemma {:induction false} CutKeepsForest(t: Tree, u: Tree)
    requires Forest(t) && SameButMeta(t, u)
    ensures Forest(u)
  {
    ShapeKeepsForest(t, u);
  }

  /** The loop over a child list reports in pre-order, and nothing but what hangs from it. */
  lemma {:induction false} CutKidsInOrder(t: Tree, id: NodeId, k: nat)
    requires Forest(t) && id < |t.nodes| && k <= |Kids(t, id)|
    ensures Preordered(t, CutKids(t, id, k).events) && FromKids(t, id, k, CutKids(t, id, k).events)
    decreases |t.nodes| - id, |Kids(t, id)| - k
  {
    hide Preordered, CutChild, TableOk, ListsOwned, KidsBelow;
    if k == |Kids(t, id)| {
      PreorderedOne(t, []);
    } else {
      hide FromKids, CutKids;
      var c := Kids(t, id)[k];
      CutKidsIs(t, id, k);
      var below := CutChild(t, c);
      CutChildInOrder(t, c);
      CutKeepsForest(t, below.tree);
      CutKidsInOrder(below.tree, id, k + 1);
      hide Forest;
      var rest := CutKids(below.tree, id, k + 1).events;
      SameOrder(t, below.tree, rest);
      FromSame(t, below.tree, id, k + 1, rest);
      OwnThenKids(t, c, below.events);
      KidThenRest(t, id, k, OwnEvent(t, c) + below.events, rest);
    }
  }

  lemma {:induction false} CutChildInOrder(t: Tree, c: NodeId)
    requires Forest(t) && c < |t.nodes|
    ensures Preordered(t, CutChild(t, c).events) && FromKids(t, c, 0, CutChild(t, c).events)
    decreases |t.nodes| - c, |Kids(t, c)| + 1
  {
    var marked := SetMeta(t, c, Deleted);
    ShapeKeepsForest(t, marked);
    assert Kids(marked, c) == Kids(t, c);
    PreorderedOne(t, []);
    if t.nodes[c].meta.Dir? && t.nodes[c].children.Some? {
      CutKidsInOrder(marked, c, 0);
      hide Preordered, FromKids, CutKids, Forest;
      SameOrder(t, marked, CutKids(marked, c, 0).events);
      FromSame(t, marked, c, 0, CutKids(marked, c, 0).events);
    }
  }

  /** Deleting what hangs from a node reports it in pre-order: every file after those in
      earlier children, whatever the depth. */
  lemma {:induction false} DeleteRecInOrder(t: Tree, id: NodeId)
    requires Forest(t) && id < |t.nodes|
    ensures Preordered(t, DeleteRec(t, id).events) && FromKids(t, id, 0, DeleteRec(t, id).events)
  {
    PreorderedOne(t, []);
    if t.nodes[id].children.Some? {
      var marked := SetMeta(t, id, Deleted);
      ShapeKeepsForest(t, marked);
      CutKidsInOrder(marked, id, 0);
      hide Preordered, FromKids, CutKids, Forest;
      SameOrder(t, marked, CutKids(marked, id, 0).events);
      FromSame(t, marked, id, 0, CutKids(marked, id, 0).events);
    }
  }

  lemma {:induction false} SweepOneInOrder(t: Tree, c: NodeId)
    requires Forest(t) && c < |t.nodes|
    ensures Preordered(t, SweepOne(t, c).events) && AllBelow(SweepOne(t, c).events, t.nodes[c].path)
  {
    hide TableOk, ListsOwned, KidsBelow, Preordered, FromKids, DeleteRec;
    if t.nodes[c].maybeDeleted {
      DeleteRecInOrder(t, c);
      OwnThenKids(t, c, DeleteRec(t, c).events);
    } else {
      PreorderedOne(t, []);
    }
  }

  lemma {:induction false} SweepParts(t: Tree, id: NodeId, k: nat)
    requires Forest(t) && id < |t.nodes| && k < |Kids(t, id)|
    ensures var ids := Kids(t, id)[k..]; var c := Kids(t, id)[k]; var first := SweepOne(t, c);
            && c < |t.nodes| && Forest(first.tree) && Kids(first.tree, id) == Kids(t, id)
            && SameButMeta(t, first.tree) && id < |first.tree.nodes|
            && InArena(t, ids) && InArena(first.tree, ids[1..]) && ids[1..] == Kids(t, id)[k + 1..]
            && Sweep(t, ids).events == first.events + Sweep(first.tree, ids[1..]).events
  {
    var ids, c := Kids(t, id)[k..], Kids(t, id)[k];
    var first := SweepOne(t, c);
    assert ids[0] == c && ids[1..] == Kids(t, id)[k + 1..];
    assert forall l :: k <= l < |Kids(t, id)| ==> Kids(t, id)[l] < |t.nodes|;
    ShapeKeepsForest(t, first.tree);
    hide Forest, SweepOne;
    SweepNext(t, ids);
  }

  /** Sweeping a child list reports in pre-order too. */
  lemma {:induction false} SweepInOrder(t: Tree, id: NodeId, k: nat)
    requires Forest(t) && id < |t.nodes| && k <= |Kids(t, id)|
    ensures InArena(t, Kids(t, id)[k..])
    ensures var es := Sweep(t, Kids(t, id)[k..]).events; Preordered(t, es) && FromKids(t, id, k, es)
    decreases |Kids(t, id)| - k
  {
    hide Preordered, SweepOne, TableOk, ListsOwned, KidsBelow;
    if k == |Kids(t, id)| {
      PreorderedOne(t, []);
    } else {
      hide FromKids, Sweep;
      var c := Kids(t, id)[k];
      SweepParts(t, id, k);
      SweepOneInOrder(t, c);
      var first := SweepOne(t, c);
      SweepInOrder(first.tree, id, k + 1);
      var rest := Sweep(first.tree, Kids(t, id)[k + 1..]).events;
      SameOrder(t, first.tree, rest);
      FromSame(t, first.tree, id, k + 1, rest);
      KidThenRest(t, id, k, first.events, rest);
    }
  }

  /** Finishing a frame adds what it sweeps at the end, in pre-order. */
  lemma {:induction false} FrameInOrder(c: Crawl)
    requires Forest(c.tree) && CrawlModel.Listed(c.tree, c.stack) && c.stack != []
    ensures var r := PopFrame(c); var node := c.stack[|c.stack| - 1].node;
            c.events <= r.events && Preordered(c.tree, r.events[|c.events|..])
            && FromKids(c.tree, node, 0, r.events[|c.events|..])
  {
    hide Forest, Listed, Sweep, Preordered, FromKids, PopFrame;
    PopFrameIs(c);
    var node := c.stack[|c.stack| - 1].node;
    SweepInOrder(c.tree, node, 0);
    assert Kids(c.tree, node)[0..] == Kids(c.tree, node);
    assert PopFrame(c).events[|c.events|..] == Sweep(c.tree, Kids(c.tree, node)).events;
  }

  // -------------------------------------------------------------------------- a crawl

  lemma {:induction false} PopWhileAppends(c: Crawl, depth: nat)
    requires Forest(c.tree) && Listed(c.tree, c.stack)
    ensures c.events <= PopWhile(c, depth).events
    decreases |c.stack|
  {
    PopWhileIs(c, depth);
    hide PopWhile, Sweep, Forest, Listed;
    if c.stack != [] && c.stack[|c.stack| - 1].depth >= depth {
      PopFrameIs(c);
      PopWhileAppends(PopFrame(c), depth);
    }
  }

  /** A visit adds to the events, first those of its entry, then what finished frames sweep. */
  lemma {:induction false} VisitAppends(c: Crawl, ctx: Ctx, e: Path)
    requires Forest(c.tree) && Listed(c.tree, c.stack)
    ensures c.events + ApplyEntry(c.tree, ctx.fs, ctx.recursive, e).events <= VisitEntry(c, ctx, e).events
  {
    var a := ApplyEntry(c.tree, ctx.fs, ctx.recursive, e);
    VisitEvents(c, ctx, e);
    hide Forest, Listed, ApplyEntry, PopWhile, VisitEntry;
    PopWhileAppends(Crawl(a.tree, c.stack, c.events + a.events, c.watches), DepthOf(ctx.root, e));
  }

  lemma {:induction false} VisitEvents(c: Crawl, ctx: Ctx, e: Path)
    requires Forest(c.tree) && Listed(c.tree, c.stack)
    ensures var a := ApplyEntry(c.tree, ctx.fs, ctx.recursive, e);
            var applied := Crawl(a.tree, c.stack, c.events + a.events, c.watches);
            && Forest(applied.tree) && Listed(applied.tree, applied.stack)
            && VisitEntry(c, ctx, e).events
               == if a.node.None? then applied.events else PopWhile(applied, DepthOf(ctx.root, e)).events
  {
    ApplyKeepsListed(c.tree, ctx.fs, ctx.recursive, e, c.stack);
    hide TableOk, ListsOwned, Descending, KidsBelow, ApplyEntry, PopWhile;
  }

  lemma {:induction false} VisitsAppend(ctx: Ctx, v: seq<Entry>, k: nat)
    requires Forest(ctx.t0) && ctx.root in ctx.t0.table && k <= |v|
    ensures RunVisits(ctx, v[..k]).events <= RunVisits(ctx, v).events
    decreases |v|
  {
    hide Forest, Listed, VisitEntry, ApplyEntry;
    if k == |v| {
      assert v[..k] == v;
    } else {
      var init, e := v[..|v| - 1], v[|v| - 1].path;
      assert init[..k] == v[..k];
      VisitsAppend(ctx, init, k);
      VisitAppends(RunVisits(ctx, init), ctx, e);
    }
  }

  /** What was reported once `k` entries were visited stays at the front. */
  lemma {:induction false} FinishedAppends(ctx: Ctx, v: seq<Entry>, k: nat)
    requires Forest(ctx.t0) && ctx.root in ctx.t0.table && k <= |v|
    ensures RunVisits(ctx, v[..k]).events <= Finished(ctx, v).events
  {
    hide Forest, Listed, VisitEntry, PopWhile, RunVisits;
    VisitsAppend(ctx, v, k);
    PopWhileAppends(RunVisits(ctx, v), 0);
  }

  /** All events at `p` come before those at `q`. */
  ghost predicate Precedes(es: seq<Event>, p: Path, q: Path) {
    exists n :: 0 <= n <= |es| && At(es[n..], p) == [] && At(es[..n], q) == []
  }

  lemma {:induction false} SplitPrecedes(d: seq<Event>, es: seq<Event>, p: Path, q: Path)
    requires d <= es && At(d, q) == [] && At(d, p) == At(es, p)
    ensures Precedes(es, p, q)
  {
    var n := |d|;
    assert es == es[..n] + es[n..] && es[..n] == d;
    AtAppend(d, es[n..], p);
    assert At(es[n..], p) == [];
  }

  lemma {:induction false} NothingBefore(ctx: Ctx, v: seq<Entry>, j: nat)
    requires Walkable(ctx, v) && j < |v|
    ensures At(RunVisits(ctx, v[..j]).events, v[j].path) == []
  {
    hide Report, StackPaths, Discipline, VisitEntry, RunVisits, Forest, Preorder, Agrees;
    var init := v[..j];
    WalkablePrefix(ctx, v, j + 1);
    WalkablePrefix(ctx, v, j);
    assert v[..j + 1][..j] == init && v[..j + 1][j] == v[j];
    var c := RunVisits(ctx, init);
    DisciplineAlways(ctx, init);
    ReportAlways(ctx, init);
    LinkedParentIsOpen(ctx, v[..j + 1], c);
    LastEntry(ctx, v[..j + 1]);
    hide Walkable;
    ReportAt(ctx, Seen(init), StackPaths(c), c.tree, c.events, v[j].path);
    NothingYet(ctx, Seen(init), StackPaths(c), c.tree, c.events, v[j].path, v[j].path);
  }

  lemma {:induction false} SeenByThen(v: seq<Entry>, i: nat, k: nat)
    requires i < k <= |v|
    ensures v[i].path in Seen(v[..k]) && v[i].path in Seen(v)
  {
    SeenMembers(v[..k], v[i].path);
    SeenMembers(v, v[i].path);
    assert v[..k][i] == v[i];
  }

  /** What a visited entry reports is final. */
  lemma {:induction false} ReportedByThen(ctx: Ctx, v: seq<Entry>, i: nat, k: nat)
    requires Walkable(ctx, v) && i < k <= |v|
    ensures At(RunVisits(ctx, v[..k]).events, v[i].path) == At(Finished(ctx, v).events, v[i].path)
  {
    hide Report, StackPaths, RunVisits, Finished, Forest, Preorder, Agrees, Diff, Taken, Meta, Inode;
    var p := v[i].path;
    WalkablePrefix(ctx, v, k);
    SeenByThen(v, i, k);
    var c := RunVisits(ctx, v[..k]);
    ReportAlways(ctx, v[..k]);
    ReportAt(ctx, Seen(v[..k]), StackPaths(c), c.tree, c.events, p);
    CrawlReportsAt(ctx, v, p);
    VisitedIsBelow(ctx, v, i);
  }

  lemma {:induction false} VisitedIsBelow(ctx: Ctx, v: seq<Entry>, i: nat)
    requires Walkable(ctx, v) && i < |v|
    ensures ctx.root < v[i].path
  {
    hide Forest, Preorder, Agrees;
    WalkablePrefix(ctx, v, i + 1);
    assert v[..i + 1][i] == v[i];
    LastEntry(ctx, v[..i + 1]);
  }

  lemma {:induction false} EntriesInOrder(ctx: Ctx, v: seq<Entry>, i: nat, j: nat)
    requires Walkable(ctx, v) && i < j < |v|
    ensures Precedes(Finished(ctx, v).events, v[i].path, v[j].path)
  {
    hide Forest, Preorder, Agrees, RunVisits, Finished, Precedes;
    FinishedAppends(ctx, v, j);
    NothingBefore(ctx, v, j);
    ReportedByThen(ctx, v, i, j);
    SplitPrecedes(RunVisits(ctx, v[..j]).events, Finished(ctx, v).events, v[i].path, v[j].path);
  }

  /** A crawl reports what it sees in the order in which it visits it. */
  lemma {:induction false} VisitedInOrder(t: Tree, fs: Snapshot, filter: Filter, id: NodeId, walk: seq<Entry>,
                                          i: nat, j: nat)
    requires Ready(t, fs, id, walk) && i < j < |Visits(ScopeOf(t, fs, filter, id), walk)|
    ensures var v := Visits(ScopeOf(t, fs, filter, id), walk);
            Precedes(RunCrawl(t, fs, filter, id, [], walk).events, v[i].path, v[j].path)
  {
    hide Forest, Lists, RunCrawl, Visits, Finished, Precedes, Preorder, Agrees;
    var s := ScopeOf(t, fs, filter, id);
    CrawlIsFinished(t, fs, filter, id, walk);
    EntriesInOrder(CtxOf(t, s), Visits(s, walk), i, j);
  }

  // ---------------------------------------------------------- what is found to be gone

  /** Below a frame that is still open nothing unseen has been reported. */
  lemma {:induction false} OpenIsQuiet(ctx: Ctx, v: seq<Entry>, k: nat, a: Path, q: Path)
    requires Walkable(ctx, v) && k <= |v| && ctx.root < q && q !in Seen(v) && a == Anchor(ctx, Seen(v), q)
    requires Caught(ctx, a, q) && (a == ctx.root || a in Seen(v[..k]))
    requires Losable(ctx, a) && a <= Cursor(ctx, v[..k])
    ensures At(RunVisits(ctx, v[..k]).events, q) == []
  {
    hide Report, RunVisits, Forest, Preorder, Agrees, Caught, Within, Structure;
    var w := v[..k];
    WalkablePrefix(ctx, v, k);
    DisciplineAlways(ctx, w);
    ReportAlways(ctx, w);
    var c := RunVisits(ctx, w);
    FramePathsOnStack(c.tree, c.stack, a);
    AnchorByThen(ctx, v, k, a, q);
    ReportAt(ctx, Seen(w), StackPaths(c), c.tree, c.events, q);
    SeenSubset(v, k);
  }

  lemma {:induction false} SeenSubset(v: seq<Entry>, k: nat)
    requires k <= |v|
    ensures Seen(v[..k]) <= Seen(v)
  {
    forall p | p in Seen(v[..k])
      ensures p in Seen(v)
    {
      SeenMembers(v[..k], p);
      SeenMembers(v, p);
      var i :| 0 <= i < k && v[..k][i].path == p;
      assert v[i].path == p;
    }
  }

  lemma {:induction false} AnchorByThen(ctx: Ctx, v: seq<Entry>, k: nat, a: Path, q: Path)
    requires k <= |v| && ctx.root < q && q !in Seen(v) && a == Anchor(ctx, Seen(v), q)
    requires a == ctx.root || a in Seen(v[..k])
    ensures Anchor(ctx, Seen(v[..k]), q) == a
  {
    SeenSubset(v, k);
    var h := Toward(a, q);
    TowardIs(a, q);
    UnseenBetween(ctx, Seen(v), q);
    forall x | h <= x < q
      ensures x !in Seen(v[..k])
    {
      assert a < x;
    }
    AnchorIs(ctx, Seen(v[..k]), h, q);
  }

  lemma {:induction false} CaughtHasList(ctx: Ctx, a: Path, q: Path)
    requires Caught(ctx, a, q) && (a == ctx.root || (ctx.recursive && a in ctx.fs && ctx.fs[a].Directory?))
    ensures Losable(ctx, a)
  {
    TowardIs(a, q);
  }

  /** Right after a visit below `a`, the walk is still there. */
  lemma {:induction false} StillBelow(ctx: Ctx, v: seq<Entry>, j: nat, a: Path)
    requires Walkable(ctx, v) && j < |v| && ctx.root <= a < v[j].path
    ensures a <= Cursor(ctx, v[..j + 1])
    ensures a == ctx.root || a in Seen(v[..j + 1])
  {
    var w := v[..j + 1];
    WalkablePrefix(ctx, v, j + 1);
    assert w[|w| - 1] == v[j];
    hide Forest, Preorder, Agrees, Seen;
    LastEntry(ctx, w);
    hide Walkable, Closed, NextEntry;
    UpFrom(a, v[j].path);
    if a != ctx.root { ClosedPrefix(ctx, Seen(w), a, v[j].path); }
  }

  lemma {:induction false} UpFrom(a: Path, p: Path)
    requires a < p
    ensures a <= Up(p)
  {
  }

  lemma {:induction false} GoneAfterSeen(ctx: Ctx, v: seq<Entry>, j: nat, q: Path)
    requires Walkable(ctx, v) && j < |v| && Taken(ctx, v, q) && Anchor(ctx, Seen(v), q) < v[j].path
    requires var a := Anchor(ctx, Seen(v), q);
             a == ctx.root || (ctx.recursive && a in ctx.fs && ctx.fs[a].Directory?)
    ensures Precedes(Finished(ctx, v).events, v[j].path, q)
  {
    hide Forest, Preorder, Agrees, RunVisits, Finished, Precedes, Caught;
    var a := Anchor(ctx, Seen(v), q);
    StillBelow(ctx, v, j, a);
    CaughtHasList(ctx, a, q);
    OpenIsQuiet(ctx, v, j + 1, a, q);
    FinishedAppends(ctx, v, j + 1);
    ReportedByThen(ctx, v, j, j + 1);
    SplitPrecedes(RunVisits(ctx, v[..j + 1]).events, Finished(ctx, v).events, v[j].path, q);
  }

  lemma {:induction false} DirIsThere(s: Scope, a: Path)
    ensures VisibleDir(s, a) ==> a in s.fs && s.fs[a].Directory?
  {
  }

  /** What a crawl finds to be gone from a directory that it crawls, or from below that, it
      reports after everything it sees there. */
  lemma {:induction false} SweptInOrder(t: Tree, fs: Snapshot, filter: Filter, id: NodeId, walk: seq<Entry>,
                                        p: Path, q: Path)
    requires Ready(t, fs, id, walk)
    requires var s := ScopeOf(t, fs, filter, id);
             && Visible(s, p).Some? && Swept(s, t, q) && SeenAbove(s, q) < p
             && (SeenAbove(s, q) == s.root || (s.recursive && VisibleDir(s, SeenAbove(s, q))))
    ensures Precedes(RunCrawl(t, fs, filter, id, [], walk).events, p, q)
  {
    hide Forest, Lists, RunCrawl, Visits, Finished, Precedes, Preorder, Agrees, Visible, Swept, Taken, Walkable;
    var s := ScopeOf(t, fs, filter, id);
    var ctx, v := CtxOf(t, s), Visits(s, walk);
    CrawlIsFinished(t, fs, filter, id, walk);
    SweptIsTaken(t, s, walk, q);
    OnlyBelowRoot(s, t, q);
    AnchorIsSeen(t, s, walk, q);
    VisibleIsSighting(t, s, walk, p);
    DirIsThere(s, SeenAbove(s, q));
    SeenMembers(v, p);
    var j :| 0 <= j < |v| && v[j].path == p;
    GoneAfterSeen(ctx, v, j, q);
  }
}
