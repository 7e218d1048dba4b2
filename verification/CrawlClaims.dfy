/** What applying one entry and sweeping one frame do, path by path, to any forest. */
module CrawlClaims {
  import opened Paths
  import opened Events
  import opened TreeModel
  import opened Deletion
  import opened CrawlModel
  import opened CrawlStructure
  import opened CrawlDiscipline
  import Pending

  /** The events that report the difference between a known node and what is seen. */
  function Diff(old_: NodeMeta, inode: nat, now: Option<Stat>): seq<EventType> {
    if now.Some? && now.value.Regular? then
      if !old_.File? then [Create]
      else if old_ == File(now.value.mtime, now.value.size) && inode == now.value.inode then []
      else [Modified]
    else DeleteEvent(old_)
  }

  // ------------------------------------------- applying one entry, path by path

  /** The per-path effect of applying `e`. */
  ghost predicate EntryEffect(t: Tree, fs: Snapshot, e: Path, p: Path, r: Applied)
    requires e in fs
  {
    if p == e then At(r.events, p) == Diff(Meta(t, e), Inode(t, e), Some(fs[e]))
    else if fs[e].Special? && Meta(t, e).Dir? && Reached(t, e, p)
    then Meta(r.tree, p) == Deleted && At(r.events, p) == DeleteEvent(Meta(t, p))
    else Meta(r.tree, p) == Meta(t, p) && At(r.events, p) == []
  }

  lemma {:induction false} SingleAt(es: seq<Event>, p: Path)
    requires |es| <= 1
    ensures At(es, p) == if |es| == 1 && es[0].path == p then [es[0].ty] else []
  {
    if |es| == 1 {
      AtOne(es[0], p);
      assert es == [es[0]];
    }
  }

  lemma {:induction false} RestatEffect(t: Tree, fs: Snapshot, rec: bool, e: Path, p: Path)
    requires Forest(t) && e in t.table && e in fs && ForPath(fs, e).Some?
    ensures EntryEffect(t, fs, e, p,
                        Restat(t, t.table[e], ForPath(fs, e).value, Pending.PendingChange(e, CrawlFlags(rec))))
  {
    var r := Restat(t, t.table[e], ForPath(fs, e).value, Pending.PendingChange(e, CrawlFlags(rec)));
    SingleAt(r.events, p);
    assert Known(t, e) && t.nodes[t.table[e]].path == e;
    if Known(t, p) { assert t.nodes[t.table[p]].path == p; }
    assert p != e ==> Meta(r.tree, p) == Meta(t, p);
  }

  lemma {:induction false} DiscoverEffect(t: Tree, fs: Snapshot, rec: bool, e: Path, p: Path)
    requires Forest(t) && e !in t.table && e in fs && Up(e) in t.table && ForPath(fs, e).Some?
    ensures EntryEffect(t, fs, e, p,
                        Discover(t, t.table[Up(e)], ForPath(fs, e).value, Pending.PendingChange(e, CrawlFlags(rec))))
  {
    hide Discover, Forest, Meta, Inode, Reached;
    DiscoverAt(t, fs, rec, e, p);
    NewHasNoInode(t, e);
  }

  lemma {:induction false} DiscoverAt(t: Tree, fs: Snapshot, rec: bool, e: Path, p: Path)
    requires Forest(t) && e !in t.table && Up(e) in t.table && ForPath(fs, e).Some?
    ensures var r := Discover(t, t.table[Up(e)], ForPath(fs, e).value, Pending.PendingChange(e, CrawlFlags(rec)));
            && (p != e ==> Meta(r.tree, p) == Meta(t, p))
            && At(r.events, p) == if p == e && !ForPath(fs, e).value.isDir then [Create] else []
  {
    var m := ForPath(fs, e).value;
    var deep := rec || t.nodes[t.table[Up(e)]].coverage == Recursive;
    var n := Node(e, MetaOf(m), m.inode, false, if deep then Recursive else Uncovered, None);
    var r := Discover(t, t.table[Up(e)], m, Pending.PendingChange(e, CrawlFlags(rec)));
    hide Discover, Descending, KidsBelow, ListsOwned, GrownBy, Meta;
    DiscoverIs(t, t.table[Up(e)], m, rec, e);
    GrownMetas(t, r.tree, n, p);
    hide Forest;
    SingleAt(r.events, p);
  }

  lemma {:induction false} NewHasNoInode(t: Tree, e: Path)
    requires e !in t.table
    ensures Meta(t, e) == Deleted && Inode(t, e) == 0
  {
  }

  lemma {:induction false} DiscoverIs(t: Tree, parent: NodeId, m: Metadata, rec: bool, e: Path)
    requires Forest(t) && parent < |t.nodes|
    ensures var r := Discover(t, parent, m, Pending.PendingChange(e, CrawlFlags(rec)));
            var deep := rec || t.nodes[parent].coverage == Recursive;
            && GrownBy(t, r.tree, Node(e, MetaOf(m), m.inode, false, if deep then Recursive else Uncovered, None))
            && r.events == (if m.isDir then [] else [Event(e, Create)])
  {
    var deep := rec || t.nodes[parent].coverage == Recursive;
    GrowIs(t, Some(parent), Node(e, MetaOf(m), m.inode, false, if deep then Recursive else Uncovered, None));
    hide Grow, ReserveDir, TableOk, Descending, KidsBelow, GrownBy;
  }

  lemma {:induction false} GrownMetas(t: Tree, u: Tree, n: Node, p: Path)
    requires TableOk(t) && GrownBy(t, u, n) && n.path !in t.table
    ensures Meta(u, p) == if p == n.path then n.meta else Meta(t, p)
    ensures Meta(t, n.path) == Deleted
  {
    if p in t.table { assert u.nodes[t.table[p]].meta == t.nodes[t.table[p]].meta; }
  }

  /** What is reached depends on the links below `base` and the kinds in between. */
  lemma {:induction false} ReachedSame(t: Tree, u: Tree, base: Path, p: Path)
    requires forall q :: base < q <= p ==> (Linked(u, q) <==> Linked(t, q))
    requires forall q :: base < q < p ==> Meta(u, q) == Meta(t, q)
    ensures Reached(t, base, p) <==> Reached(u, base, p)
    decreases |p|
  {
    if base < p && Up(p) != base {
      assert base < Up(p) < p;
      ReachedSame(t, u, base, Up(p));
    }
  }

  lemma {:induction false} NoListNoReach(t: Tree, id: NodeId, p: Path)
    requires Forest(t) && id < |t.nodes| && t.nodes[id].children.None?
    ensures !Reached(t, t.nodes[id].path, p)
  {
    if t.nodes[id].path < p { MarkedReach(t, id, Deleted, p); }
  }

  /** What losing a node does, path by path. */
  lemma {:induction false} VanishAt(t: Tree, change: Pending.PendingChange, p: Path)
    requires Forest(t) && change.path in t.table
    ensures var e := change.path; var r := Vanish(t, t.table[e], change);
            if p == e then At(r.events, p) == DeleteEvent(Meta(t, e))
            else if Meta(t, e).Dir? && Reached(t, e, p) then
                Meta(r.tree, p) == Deleted && At(r.events, p) == DeleteEvent(Meta(t, p))
            else Meta(r.tree, p) == Meta(t, p) && At(r.events, p) == []
  {
    var e := change.path;
    var id := t.table[e];
    var n := t.nodes[id];
    var u := SetNode(t, id,
                     n.(coverage := if change.flags.markRecursive then Recursive else n.coverage, meta := Deleted));
    var r := Vanish(t, id, change);
    ShapeKeepsForest(t, u);
    SameShapeSameLinks(t, u);
    assert Meta(t, e) == n.meta && n.path == e;
    forall q
      ensures q != e ==> Meta(u, q) == Meta(t, q)
    {
      if Known(t, q) { assert t.nodes[t.table[q]].path == q; }
    }
    hide Linked, ListsOwned, KidsBelow, Descending;
    ReachedSame(t, u, e, p);
    if n.meta.Dir? {
      DeleteRecEffect(u, id, p);
      if n.children.None? { NoListNoReach(t, id, p); }
    } else {
      SingleAt(r.events, p);
    }
  }

  lemma {:induction false} VanishEffect(t: Tree, fs: Snapshot, rec: bool, e: Path, p: Path)
    requires Forest(t) && e in t.table && e in fs && fs[e].Special?
    ensures EntryEffect(t, fs, e, p, Vanish(t, t.table[e], Pending.PendingChange(e, CrawlFlags(rec))))
  {
    hide Forest, Vanish, Reached, Meta;
    VanishAt(t, Pending.PendingChange(e, CrawlFlags(rec)), p);
  }

  lemma {:induction false} ApplyEffect(t: Tree, fs: Snapshot, rec: bool, e: Path, p: Path)
    requires Forest(t) && e in fs && Up(e) in t.table
    ensures EntryEffect(t, fs, e, p, ApplyEntry(t, fs, rec, e))
  {
    hide ListsOwned, Descending, KidsBelow, Restat, Vanish, Discover, Linked, Reached;
    var change := Pending.PendingChange(e, CrawlFlags(rec));
    var a := ApplyChange(t, fs, change);
    if e in t.table {
      if ForPath(fs, e).Some? {
        RestatEffect(t, fs, rec, e, p);
      } else {
        VanishEffect(t, fs, rec, e, p);
      }
    } else if ForPath(fs, e).Some? {
      DiscoverEffect(t, fs, rec, e, p);
    }
    var r := ApplyEntry(t, fs, rec, e);
    assert Meta(r.tree, p) == Meta(a.tree, p);
  }

  lemma {:induction false} SeenSynced(ctx: Ctx, seen: set<Path>, t: Tree, p: Path)
    requires Grown(ctx, seen, t) && p in seen
    ensures Synced(ctx.fs, ctx.recursive, t, p)
  {
  }

  // ----------------------------------------------------------- sweeping a frame

  ghost predicate Hit(t: Tree, ids: seq<NodeId>, h: Path, p: Path)
    requires InArena(t, ids)
  {
    exists k :: 0 <= k < |ids| && t.nodes[ids[k]].maybeDeleted && t.nodes[ids[k]].path == h && h <= p
  }

  /** What a sweep does at and below one of its flagged children `h`. */
  ghost predicate SweptAt(t: Tree, h: Path, p: Path, r: Cut) {
    if p == h || Reached(t, h, p) then
      && At(r.events, p) == DeleteEvent(Meta(t, p))
      && Meta(r.tree, p) == if p == h && !HasList(t, h) then Meta(t, p) else Deleted
    else Meta(r.tree, p) == Meta(t, p) && At(r.events, p) == []
  }

  ghost predicate Siblings(t: Tree, ids: seq<NodeId>)
    requires InArena(t, ids)
  {
    forall k, l :: 0 <= k < l < |ids| ==>
      t.nodes[ids[k]].path != t.nodes[ids[l]].path && |t.nodes[ids[k]].path| == |t.nodes[ids[l]].path|
  }

  lemma {:induction false} SweepOneHits(t: Tree, c: NodeId, p: Path)
    requires Forest(t) && c < |t.nodes| && t.nodes[c].maybeDeleted && t.nodes[c].path <= p
    ensures SweptAt(t, t.nodes[c].path, p, SweepOne(t, c))
  {
    var own, h := OwnEvent(t, c), t.nodes[c].path;
    assert t.table[h] == c && Meta(t, h) == t.nodes[c].meta;
    SingleAt(own, p);
    DeleteRecEffect(t, c, p);
    if t.nodes[c].children.None? { NoListNoReach(t, c, p); }
    AtAppend(own, DeleteRec(t, c).events, p);
    assert p != h ==> h < p;
  }

  lemma {:induction false} SiblingsRest(t: Tree, u: Tree, ids: seq<NodeId>)
    requires SameButMeta(t, u) && ids != [] && InArena(t, ids) && Siblings(t, ids)
    ensures InArena(u, ids[1..]) && Siblings(u, ids[1..])
  {
    forall k, l | 0 <= k < l < |ids[1..]|
      ensures u.nodes[ids[1..][k]].path != u.nodes[ids[1..][l]].path
      ensures |u.nodes[ids[1..][k]].path| == |u.nodes[ids[1..][l]].path|
    {
      assert ids[1..][k] == ids[k + 1] && ids[1..][l] == ids[l + 1];
    }
  }

  lemma {:induction false} SweepHits(t: Tree, ids: seq<NodeId>, h: Path, p: Path)
    requires Forest(t) && InArena(t, ids) && Siblings(t, ids) && Hit(t, ids, h, p)
    ensures SweptAt(t, h, p, Sweep(t, ids))
    decreases |ids|
  {
    var k :| 0 <= k < |ids| && t.nodes[ids[k]].maybeDeleted && t.nodes[ids[k]].path == h && h <= p;
    hide TableOk, ListsOwned, KidsBelow, Siblings, Hit, SweepOne, Sweep, SweptAt, At, HasList, Meta;
    if k == 0 {
      FirstHit(t, ids, p);
    } else {
      var first := SweepOne(t, ids[0]);
      SweepNext(t, ids);
      ShapeKeepsForest(t, first.tree);
      LaterHit(t, ids, k, p);
      SiblingsRest(t, first.tree, ids);
      hide SameButMeta, InArena;
      SweepHits(first.tree, ids[1..], h, p);
      SweptLater(t, first, Sweep(first.tree, ids[1..]), h, p);
    }
  }

  lemma {:induction false} SweptLater(t: Tree, first: Cut, rest: Cut, h: Path, p: Path)
    requires SweptAt(first.tree, h, p, rest) && At(first.events, p) == []
             && Reached(first.tree, h, p) == Reached(t, h, p)
    requires Meta(first.tree, p) == Meta(t, p) && HasList(first.tree, h) == HasList(t, h)
    ensures SweptAt(t, h, p, Cut(rest.tree, first.events + rest.events))
  {
    AtAppend(first.events, rest.events, p);
  }

  lemma {:induction false} SweepNext(t: Tree, ids: seq<NodeId>)
    requires Descending(t) && ids != [] && InArena(t, ids)
    ensures var first := SweepOne(t, ids[0]);
            && InArena(first.tree, ids[1..])
            && Sweep(t, ids) == Cut(Sweep(first.tree, ids[1..]).tree, first.events + Sweep(first.tree, ids[1..]).events)
  {
  }

  lemma {:induction false} FirstHit(t: Tree, ids: seq<NodeId>, p: Path)
    requires Forest(t) && ids != [] && InArena(t, ids) && Siblings(t, ids)
    requires t.nodes[ids[0]].maybeDeleted && t.nodes[ids[0]].path <= p
    ensures SweptAt(t, t.nodes[ids[0]].path, p, Sweep(t, ids))
  {
    var first := SweepOne(t, ids[0]);
    ShapeKeepsForest(t, first.tree);
    SweepOneHits(t, ids[0], p);
    SiblingsSpare(t, ids, first.tree, t.nodes[ids[0]].path, p);
    hide Forest, Siblings, SweepOne, Reached;
    SweepSpares(first.tree, ids[1..], p);
    AtAppend(first.events, Sweep(first.tree, ids[1..]).events, p);
  }

  lemma {:induction false} LaterHit(t: Tree, ids: seq<NodeId>, k: nat, p: Path)
    requires Forest(t) && InArena(t, ids) && Siblings(t, ids)
    requires 0 < k < |ids| && t.nodes[ids[k]].maybeDeleted && t.nodes[ids[k]].path <= p
    ensures var u := SweepOne(t, ids[0]); var h := t.nodes[ids[k]].path;
            && Hit(u.tree, ids[1..], h, p) && At(u.events, p) == []
            && Meta(u.tree, p) == Meta(t, p) && HasList(u.tree, h) == HasList(t, h)
            && Reached(u.tree, h, p) == Reached(t, h, p)
  {
    var h := t.nodes[ids[k]].path;
    var u := SweepOne(t, ids[0]).tree;
    assert t.nodes[ids[0]].path != h && p[..|h|] == h;
    assert ids[1..][k - 1] == ids[k];
    hide SweepOne, TableOk, ListsOwned, KidsBelow;
    SweepOneSpares(t, ids[0], p);
    forall q | h < q < p
      ensures Meta(u, q) == Meta(t, q)
    {
      assert q[..|h|] == h;
      SweepOneSpares(t, ids[0], q);
    }
    ReachedFrame(t, u, h, p);
  }

  lemma {:induction false} SiblingsSpare(t: Tree, ids: seq<NodeId>, u: Tree, h: Path, p: Path)
    requires SameButMeta(t, u) && ids != [] && InArena(t, ids) && Siblings(t, ids)
    requires t.nodes[ids[0]].path == h && h <= p
    ensures Spared(u, ids[1..], p)
  {
    forall k | 0 <= k < |ids[1..]|
      ensures !(u.nodes[ids[1..][k]].path <= p)
    {
      assert ids[1..][k] == ids[k + 1];
      assert p[..|h|] == h;
    }
  }
}
