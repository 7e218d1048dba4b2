/** Runs of the tree: the forest invariant over every run, and why the debouncer can
    always merge what the tree emits. */
module Runs {
  import opened Paths
  import opened Events
  import opened TreeModel
  import opened Deletion
  import opened CrawlModel
  import opened Streams
  import Filters
  import Pending

  // ------------------------------------------------------- legal tree transitions

  /** Every path's events lead from "is a file" before to "is a file" after; paths are
      never forgotten, and only known paths have events. */
  ghost predicate LegalStep(t: Tree, es: seq<Event>, u: Tree) {
    forall p :: LegalStepAt(t, es, u, p)
  }

  ghost predicate LegalStepAt(t: Tree, es: seq<Event>, u: Tree, p: Path) {
    && (p in t.table ==> p in u.table)
    && Replay(IsFile(t, p), At(es, p)) == Some(IsFile(u, p))
    && (At(es, p) != [] ==> p in u.table)
    && Tempfile !in At(es, p)
  }

  lemma {:induction false} LegalCompose(t: Tree, d: seq<Event>, m: Tree, e: seq<Event>, u: Tree)
    requires LegalStep(t, d, m) && LegalStep(m, e, u)
    ensures LegalStep(t, d + e, u)
  {
    forall p
      ensures LegalStepAt(t, d + e, u, p)
    {
      assert LegalStepAt(t, d, m, p) && LegalStepAt(m, e, u, p);
      AtAppend(d, e, p);
      ReplayAppend(IsFile(t, p), At(d, p), At(e, p));
    }
  }

  /** A tree operation with at most one event, at the only path whose kind may change. */
  lemma {:induction false} LegalSingle(t: Tree, es: seq<Event>, u: Tree, e: Path)
    requires |es| <= 1 && (|es| == 1 ==> es[0].path == e && es[0].ty != Tempfile && e in u.table)
    requires forall p :: p in t.table ==> p in u.table
    requires forall p :: p != e ==> IsFile(u, p) == IsFile(t, p)
    requires if |es| == 1 then Next(IsFile(t, e), es[0].ty) == Some(IsFile(u, e)) else IsFile(t, e) == IsFile(u, e)
    ensures LegalStep(t, es, u)
  {
    forall p
      ensures LegalStepAt(t, es, u, p)
    {
      if |es| == 1 { OneEvent(IsFile(t, p), es, p); }
    }
  }

  lemma {:induction false} OneEvent(was: bool, es: seq<Event>, p: Path)
    requires |es| == 1
    ensures At(es, p) == if es[0].path == p then [es[0].ty] else []
    ensures Replay(was, At(es, p)) == if es[0].path == p then Next(was, es[0].ty) else Some(was)
  {
    AtOne(es[0], p);
    assert es == [es[0]];
    assert [es[0].ty][..0] == [];
  }

  lemma {:induction false} DeleteRecLegal(t: Tree, id: NodeId)
    requires Forest(t) && id < |t.nodes| && !t.nodes[id].meta.File?
    ensures LegalStep(t, DeleteRec(t, id).events, DeleteRec(t, id).tree)
  {
    hide DeleteRec, Reached, ListsOwned, Descending, KidsBelow;
    var r := DeleteRec(t, id);
    assert t.table[t.nodes[id].path] == id;
    forall p
      ensures LegalStepAt(t, r.events, r.tree, p)
    {
      DeleteRecEffect(t, id, p);
      DeleteReplays(Meta(t, p));
    }
  }

  lemma {:induction false} DeleteReplays(m: NodeMeta)
    ensures Replay(m.File?, DeleteEvent(m)) == Some(false) && Replay(m.File?, []) == Some(m.File?)
    ensures Tempfile !in DeleteEvent(m)
  {
    assert [Delete][..0] == [];
  }

  lemma {:induction false} RestatLegal(t: Tree, id: NodeId, m: Metadata, change: Pending.PendingChange)
    requires Forest(t) && id < |t.nodes| && t.nodes[id].path == change.path
    ensures var r := Restat(t, id, m, change); LegalStep(t, r.events, r.tree)
  {
    var r := Restat(t, id, m, change);
    assert t.table[change.path] == id;
    forall p
      ensures p != change.path ==> IsFile(r.tree, p) == IsFile(t, p)
      ensures p == change.path ==> IsFile(t, p) == t.nodes[id].meta.File? && IsFile(r.tree, p) == !m.isDir
    {
      if Known(t, p) { assert t.nodes[t.table[p]].path == p; }
    }
    LegalSingle(t, r.events, r.tree, change.path);
  }

  lemma {:induction false} VanishLegal(t: Tree, id: NodeId, change: Pending.PendingChange)
    requires Forest(t) && id < |t.nodes| && t.nodes[id].path == change.path
    ensures var r := Vanish(t, id, change); LegalStep(t, r.events, r.tree)
  {
    var n := t.nodes[id];
    var coverage := if change.flags.markRecursive then Recursive else n.coverage;
    var u := SetNode(t, id, n.(coverage := coverage, meta := Deleted));
    var r := Vanish(t, id, change);
    ShapeKeepsForest(t, u);
    assert t.table[change.path] == id;
    forall p
      ensures p != change.path ==> IsFile(u, p) == IsFile(t, p)
      ensures p == change.path ==> IsFile(t, p) == n.meta.File? && !IsFile(u, p)
    {
      if Known(t, p) { assert t.nodes[t.table[p]].path == p; }
    }
    if n.meta.Dir? {
      LegalSingle(t, [], u, change.path);
      DeleteRecLegal(u, id);
      LegalCompose(t, [], u, r.events, r.tree);
      assert [] + r.events == r.events;
    } else {
      LegalSingle(t, r.events, u, change.path);
    }
  }

  lemma {:induction false} DiscoverLegal(t: Tree, parent: NodeId, m: Metadata, change: Pending.PendingChange)
    requires Forest(t) && parent < |t.nodes| && change.path !in t.table
    ensures var r := Discover(t, parent, m, change); LegalStep(t, r.events, r.tree)
  {
    var r := Discover(t, parent, m, change);
    DiscoverFacts(t, parent, m, change);
    hide Discover, ListsOwned, Descending, KidsBelow;
    GrownLegal(t, r.tree, r.events, change.path);
  }

  lemma {:induction false} DiscoverFacts(t: Tree, parent: NodeId, m: Metadata, change: Pending.PendingChange)
    requires Forest(t) && parent < |t.nodes|
    ensures var r := Discover(t, parent, m, change);
            && r.tree.table == t.table[change.path := |t.nodes|] && |r.tree.nodes| == |t.nodes| + 1
            && r.tree.nodes[|t.nodes|].meta == MetaOf(m)
            && (forall i :: 0 <= i < |t.nodes| ==> r.tree.nodes[i].meta == t.nodes[i].meta)
            && r.events == (if m.isDir then [] else [Event(change.path, Create)])
  {
    hide Grow, ReserveDir, TableOk, Descending, KidsBelow;
    var recursive := change.flags.markRecursive || t.nodes[parent].coverage == Recursive;
    var n := Node(change.path, MetaOf(m), m.inode, false, if recursive then Recursive else Uncovered, None);
    GrowIs(t, Some(parent), n);
  }

  lemma {:induction false} GrownLegal(t: Tree, u: Tree, es: seq<Event>, e: Path)
    requires Forest(t) && u.table == t.table[e := |t.nodes|] && e !in t.table && |u.nodes| == |t.nodes| + 1
    requires forall i :: 0 <= i < |t.nodes| ==> u.nodes[i].meta == t.nodes[i].meta
    requires es == if u.nodes[|t.nodes|].meta.File? then [Event(e, Create)] else []
    ensures LegalStep(t, es, u)
  {
    GrownKinds(t, u, e);
    hide Forest, LegalStep;
    LegalSingle(t, es, u, e);
  }

  lemma {:induction false} GrownKinds(t: Tree, u: Tree, e: Path)
    requires Forest(t) && u.table == t.table[e := |t.nodes|] && e !in t.table && |u.nodes| == |t.nodes| + 1
    requires forall i :: 0 <= i < |t.nodes| ==> u.nodes[i].meta == t.nodes[i].meta
    ensures forall p :: p != e ==> Meta(u, p) == Meta(t, p)
    ensures Meta(u, e) == u.nodes[|t.nodes|].meta && Meta(t, e) == Deleted
  {
  }

  /** Applying any change to any forest emits exactly what the kinds of nodes went
      through. */
  lemma {:induction false} ApplyLegal(t: Tree, fs: Snapshot, change: Pending.PendingChange)
    requires Forest(t)
    ensures var r := ApplyChange(t, fs, change); LegalStep(t, r.events, r.tree)
  {
    var m := ForPath(fs, change.path);
    if change.path in t.table {
      var id := t.table[change.path];
      if m.Some? { RestatLegal(t, id, m.value, change); } else { VanishLegal(t, id, change); }
    } else if m.Some? && Up(change.path) in t.table {
      DiscoverLegal(t, t.table[Up(change.path)], m.value, change);
    } else {
      LegalSingle(t, [], t, change.path);
    }
  }

  // ------------------------------------------------------------ one path, step by step

  /** What a step from `m` to `u` does to path `p`, when the events `d` before it become
      `e`: a stream that fits goes on to fit unless the step forgets the path, and one that
      is astray stays astray. */
  ghost predicate Advances(d: seq<Event>, m: Tree, e: seq<Event>, u: Tree, p: Path, forgets: bool) {
    && (p in m.table ==> p in u.table)
    && ((At(d, p) != [] ==> p in m.table) ==> (At(e, p) != [] ==> p in u.table))
    && LooseGoesOn(At(d, p), IsFile(m, p), At(e, p), IsFile(u, p))
    && (!forgets ==> FitGoesOn(At(d, p), IsFile(m, p), At(e, p), IsFile(u, p)))
    && (forgets || Stray(At(d, p), IsFile(m, p)) ==> Stray(At(e, p), IsFile(u, p)))
  }

  ghost predicate LooseGoesOn(s: seq<EventType>, mid: bool, t: seq<EventType>, now: bool) {
    forall was :: Loose(was, s, mid) ==> Loose(was, t, now)
  }

  ghost predicate FitGoesOn(s: seq<EventType>, mid: bool, t: seq<EventType>, now: bool) {
    forall was :: Replay(was, s) == Some(mid) ==> Replay(was, t) == Some(now)
  }

  lemma {:induction false} LegalAdvances(d: seq<Event>, m: Tree, e: seq<Event>, u: Tree, p: Path)
    requires LegalStepAt(m, e, u, p)
    ensures Advances(d, m, d + e, u, p, false)
  {
    var s, t := At(d, p), At(e, p);
    AtAppend(d, e, p);
    ReplayIsLoose(IsFile(m, p), t, IsFile(u, p));
    forall was | Loose(was, s, IsFile(m, p))
      ensures Loose(was, s + t, IsFile(u, p))
    {
      LooseAppend(was, s, IsFile(m, p), t, IsFile(u, p));
    }
    forall was
      ensures Replay(was, s) == Some(IsFile(m, p)) ==> Replay(was, s + t) == Some(IsFile(u, p))
    {
      ReplayAppend(was, s, t);
    }
    if Stray(s, IsFile(m, p)) { StrayStays(s, IsFile(m, p), t, IsFile(u, p)); }
  }

  lemma {:induction false} AdvancesAgain(c: seq<Event>, l: Tree, d: seq<Event>, m: Tree, e: seq<Event>, u: Tree,
                                         p: Path, f: bool, g: bool)
    requires Advances(c, l, d, m, p, f) && Advances(d, m, e, u, p, g)
    ensures Advances(c, l, e, u, p, f || g)
  {
    hide Loose, Stray, Replay, At;
  }

  lemma {:induction false} StaysPut(d: seq<Event>, m: Tree, p: Path)
    ensures Advances(d, m, d, m, p, false)
  {
  }

  // ------------------------------------------------------------------- what a sweep forgets

  /** A swept child that is reported but not marked. */
  ghost predicate Forgets(t: Tree, c: NodeId)
    requires c < |t.nodes|
  {
    t.nodes[c].maybeDeleted && t.nodes[c].meta.File? && t.nodes[c].children.None?
  }

  ghost predicate ForgetsAt(t: Tree, c: NodeId, p: Path)
    requires c < |t.nodes|
  {
    Forgets(t, c) && t.nodes[c].path == p
  }

  /** Sweeping one child is legal if and only if it is not a file without a child list. */
  lemma {:induction false} SweepOneLegalIff(t: Tree, c: NodeId)
    requires Forest(t) && c < |t.nodes|
    ensures LegalStep(t, SweepOne(t, c).events, SweepOne(t, c).tree) <==> !Forgets(t, c)
  {
    var r := SweepOne(t, c);
    hide SweepOne, Forest, LegalStepAt;
    forall p
      ensures LegalStepAt(t, r.events, r.tree, p) <==> !ForgetsAt(t, c, p)
    {
      SweepOneLegalAt(t, c, p);
    }
    assert ForgetsAt(t, c, t.nodes[c].path) == Forgets(t, c);
  }

  lemma {:induction false} SweepOneLegalAt(t: Tree, c: NodeId, p: Path)
    requires Forest(t) && c < |t.nodes|
    ensures var r := SweepOne(t, c);
            && (LegalStepAt(t, r.events, r.tree, p) <==> !ForgetsAt(t, c, p))
            && (ForgetsAt(t, c, p) ==> At(r.events, p) == [Delete] && IsFile(r.tree, p) && p in r.tree.table)
  {
    var h := t.nodes[c].path;
    var r := SweepOne(t, c);
    assert t.table[h] == c && IsFile(t, h) == t.nodes[c].meta.File?;
    SweepOneAt(t, c, p);
    DeleteReplays(Meta(t, p));
    hide SweepOne, ListsOwned, Descending, KidsBelow, Replay, At;
  }

  lemma {:induction false} SweepOneAt(t: Tree, c: NodeId, p: Path)
    requires Forest(t) && c < |t.nodes|
    ensures var r := SweepOne(t, c); var h := t.nodes[c].path;
            && r.tree.table == t.table
            && (p == h ==> At(r.events, p) == (if t.nodes[c].maybeDeleted then DeleteEvent(t.nodes[c].meta) else []))
            && (p == h ==>
                Meta(r.tree, p)
                  == (if t.nodes[c].maybeDeleted && t.nodes[c].children.Some? then Deleted else t.nodes[c].meta))
            && (p != h ==> (At(r.events, p) == [] && Meta(r.tree, p) == Meta(t, p))
                           || (At(r.events, p) == DeleteEvent(Meta(t, p)) && Meta(r.tree, p) == Deleted))
  {
    var h := t.nodes[c].path;
    hide DeleteRec, ListsOwned, Descending, KidsBelow, Reached, At;
    assert t.table[h] == c && Meta(t, h) == t.nodes[c].meta;
    if t.nodes[c].maybeDeleted {
      var own := OwnEvent(t, c);
      AtAppend(own, DeleteRec(t, c).events, p);
      DeleteRecEffect(t, c, p);
      OwnAt(t, c, p);
    } else {
      NoEvents(p);
    }
  }

  lemma {:induction false} OwnAt(t: Tree, c: NodeId, p: Path)
    requires c < |t.nodes|
    ensures At(OwnEvent(t, c), p) == if p == t.nodes[c].path then DeleteEvent(t.nodes[c].meta) else []
  {
    if OwnEvent(t, c) != [] { AtOne(OwnEvent(t, c)[0], p); }
  }

  lemma {:induction false} NoEvents(p: Path)
    ensures At([], p) == []
  {
  }

  lemma {:induction false} SweepOneAdvances(d: seq<Event>, t: Tree, c: NodeId, p: Path)
    requires Forest(t) && c < |t.nodes|
    ensures Advances(d, t, d + SweepOne(t, c).events, SweepOne(t, c).tree, p, ForgetsAt(t, c, p))
  {
    hide SweepOne, TableOk, ListsOwned, KidsBelow, Descending, Advances;
    var r := SweepOne(t, c);
    SweepOneLegalAt(t, c, p);
    if !ForgetsAt(t, c, p) {
      LegalAdvances(d, t, r.events, r.tree, p);
    } else {
      ForgottenIsFile(t, c, p);
      ForgottenAdvances(d, t, r.events, r.tree, p);
    }
  }

  lemma {:induction false} ForgottenIsFile(t: Tree, c: NodeId, p: Path)
    requires TableOk(t) && c < |t.nodes| && ForgetsAt(t, c, p)
    ensures IsFile(t, p)
  {
  }

  lemma {:induction false} ForgottenAdvances(d: seq<Event>, t: Tree, e: seq<Event>, u: Tree, p: Path)
    requires IsFile(t, p) && At(e, p) == [Delete] && IsFile(u, p) && p in u.table
    ensures Advances(d, t, d + e, u, p, true)
  {
    hide IsFile, At;
    AtAppend(d, e, p);
    DeletedYetThere(At(d, p));
    assert (At(d, p) + [Delete])[..|At(d, p)|] == At(d, p);
  }

  /** Among these children, when its turn to be swept comes, is one at `p` that is
      forgotten. */
  ghost predicate SweepForgets(t: Tree, ids: seq<NodeId>, p: Path)
    requires Descending(t) && InArena(t, ids)
    decreases |ids|
  {
    ids != [] && (ForgetsAt(t, ids[0], p) || SweepForgets(SweepOne(t, ids[0]).tree, ids[1..], p))
  }

  lemma {:induction false} SweepAdvances(d: seq<Event>, t: Tree, ids: seq<NodeId>, p: Path)
    requires Forest(t) && InArena(t, ids)
    ensures Advances(d, t, d + Sweep(t, ids).events, Sweep(t, ids).tree, p, SweepForgets(t, ids, p))
    decreases |ids|
  {
    hide TableOk, ListsOwned, KidsBelow, Descending, Advances, SweepOne, ForgetsAt;
    if ids == [] {
      StaysPut(d, t, p);
      assert d + [] == d;
    } else {
      var first := SweepOne(t, ids[0]);
      ShapeKeepsForest(t, first.tree);
      var rest := Sweep(first.tree, ids[1..]);
      assert d + (first.events + rest.events) == d + first.events + rest.events;
      SweepOneAdvances(d, t, ids[0], p);
      SweepAdvances(d + first.events, first.tree, ids[1..], p);
      hide SameButMeta, InArena, Forest;
      AdvancesAgain(d, t, d + first.events, first.tree, d + first.events + rest.events, rest.tree, p,
                    ForgetsAt(t, ids[0], p), SweepForgets(first.tree, ids[1..], p));
    }
  }

  // ------------------------------------------------------------- what a crawl forgets

  /** A frame finished by these pops forgets a child at `p`. */
  ghost predicate PopsForget(c: Crawl, depth: nat, p: Path)
    requires Forest(c.tree) && Listed(c.tree, c.stack)
    decreases |c.stack|
  {
    && c.stack != [] && c.stack[|c.stack| - 1].depth >= depth
    && InArena(c.tree, Kids(c.tree, c.stack[|c.stack| - 1].node))
    && (SweepForgets(c.tree, Kids(c.tree, c.stack[|c.stack| - 1].node), p) || PopsForget(PopFrame(c), depth, p))
  }

  lemma {:induction false} PopsAdvance(d: seq<Event>, c: Crawl, depth: nat, p: Path)
    requires Forest(c.tree) && Listed(c.tree, c.stack)
    ensures Advances(d + c.events, c.tree, d + PopWhile(c, depth).events, PopWhile(c, depth).tree, p,
                     PopsForget(c, depth, p))
    decreases |c.stack|
  {
    hide Forest, Listed, PopFrame, Sweep, SweepForgets, Advances, SameButMeta, PopWhile;
    PopWhileIs(c, depth);
    if c.stack != [] && c.stack[|c.stack| - 1].depth >= depth {
      var kids := Kids(c.tree, c.stack[|c.stack| - 1].node);
      PopFrameIs(c);
      var next := PopFrame(c);
      SweepAdvances(d + c.events, c.tree, kids, p);
      assert d + next.events == d + c.events + Sweep(c.tree, kids).events;
      PopsAdvance(d, next, depth, p);
      AdvancesAgain(d + c.events, c.tree, d + next.events, next.tree, d + PopWhile(c, depth).events,
                    PopWhile(c, depth).tree, p,
                    SweepForgets(c.tree, kids, p), PopsForget(next, depth, p));
    } else {
      StaysPut(d + c.events, c.tree, p);
    }
  }

  function Pops(c: Crawl, fs: Snapshot, recursive: bool, path: Path): (r: Crawl)
    requires Forest(c.tree) && Listed(c.tree, c.stack)
    ensures Forest(r.tree) && Listed(r.tree, r.stack)
  {
    ApplyKeepsListed(c.tree, fs, recursive, path, c.stack);
    var a := ApplyEntry(c.tree, fs, recursive, path);
    Crawl(a.tree, c.stack, c.events + a.events, c.watches)
  }

  ghost predicate VisitForgets(c: Crawl, fs: Snapshot, recursive: bool, path: Path, depth: nat, p: Path)
    requires Forest(c.tree) && Listed(c.tree, c.stack)
  {
    ApplyEntry(c.tree, fs, recursive, path).node.Some? && PopsForget(Pops(c, fs, recursive, path), depth, p)
  }

  lemma {:induction false} SameKindsLegal(t: Tree, es: seq<Event>, u: Tree, w: Tree)
    requires LegalStep(t, es, u) && SameShape(u, w)
    requires forall i :: 0 <= i < |u.nodes| ==> w.nodes[i].meta == u.nodes[i].meta
    ensures LegalStep(t, es, w)
  {
    forall p
      ensures LegalStepAt(t, es, w, p)
    {
      assert LegalStepAt(t, es, u, p);
    }
  }

  lemma {:induction false} EntryLegal(t: Tree, fs: Snapshot, recursive: bool, path: Path)
    requires Forest(t)
    ensures var r := ApplyEntry(t, fs, recursive, path); LegalStep(t, r.events, r.tree)
  {
    var change := Pending.PendingChange(path, CrawlFlags(recursive));
    ApplyLegal(t, fs, change);
    SameKindsLegal(t, ApplyChange(t, fs, change).events, ApplyChange(t, fs, change).tree,
                   ApplyEntry(t, fs, recursive, path).tree);
  }

  lemma {:induction false} SameKindsAdvance(d: seq<Event>, m: Tree, e: seq<Event>, u: Tree, w: Tree, p: Path,
                                            forgets: bool)
    requires Advances(d, m, e, u, p, forgets) && w.table == u.table && Meta(w, p) == Meta(u, p)
    ensures Advances(d, m, e, w, p, forgets)
  {
  }

  lemma {:induction false} EnterKeepsKinds(d: Crawl, id: NodeId, path: Path, depth: nat, recursive: bool, p: Path)
    requires Forest(d.tree) && Listed(d.tree, d.stack) && id < |d.tree.nodes|
    ensures var r := Enter(d, id, path, depth, recursive);
            r.tree.table == d.tree.table && Meta(r.tree, p) == Meta(d.tree, p) && r.events == d.events
  {
  }

  lemma {:induction false} SameSize(t: Tree, u: Tree)
    requires SameButMeta(t, u)
    ensures |u.nodes| == |t.nodes|
  {
  }

  lemma {:induction false} EntryAdvances(d: seq<Event>, c: Crawl, fs: Snapshot, recursive: bool, path: Path, p: Path)
    requires Forest(c.tree) && Listed(c.tree, c.stack)
    ensures var r := Pops(c, fs, recursive, path); Advances(d + c.events, c.tree, d + r.events, r.tree, p, false)
  {
    hide Forest, Listed, ApplyEntry, Advances, LegalStepAt;
    var a := ApplyEntry(c.tree, fs, recursive, path);
    EntryLegal(c.tree, fs, recursive, path);
    assert LegalStepAt(c.tree, a.events, a.tree, p);
    LegalAdvances(d + c.events, c.tree, a.events, a.tree, p);
    assert d + (c.events + a.events) == d + c.events + a.events;
  }

  lemma {:induction false} VisitAdvances(d: seq<Event>, c: Crawl, fs: Snapshot, recursive: bool, path: Path,
                                         depth: nat, p: Path)
    requires Forest(c.tree) && Listed(c.tree, c.stack)
    ensures var r := Visit(c, fs, recursive, path, depth);
            Advances(d + c.events, c.tree, d + r.events, r.tree, p, VisitForgets(c, fs, recursive, path, depth, p))
  {
    hide Forest, Listed, ApplyEntry, PopWhile, Enter, Advances, PopsForget;
    var a := ApplyEntry(c.tree, fs, recursive, path);
    var applied := Pops(c, fs, recursive, path);
    EntryAdvances(d, c, fs, recursive, path, p);
    if a.node.Some? {
      var popped := PopWhile(applied, depth);
      SameSize(applied.tree, popped.tree);
      EnterKeepsKinds(popped, a.node.value, path, depth, recursive, p);
      PopsAdvance(d, applied, depth, p);
      hide SameButMeta, Pops;
      AdvancesAgain(d + c.events, c.tree, d + applied.events, applied.tree, d + popped.events, popped.tree, p, false,
                    PopsForget(applied, depth, p));
      SameKindsAdvance(d + c.events, c.tree, d + popped.events, popped.tree,
                       Enter(popped, a.node.value, path, depth, recursive).tree, p, PopsForget(applied, depth, p));
    }
  }

  ghost predicate WalkForgets(c: Crawl, fs: Snapshot, filter: Filter, recursive: bool, root: Path, walk: seq<Entry>,
                              p: Path)
    requires Forest(c.tree) && Listed(c.tree, c.stack)
    decreases |walk|
  {
    if walk == [] then PopsForget(c, 0, p)
    else
      var e := walk[0];
      if filter(e.path, Some(e.isDir)) then
        WalkForgets(c, fs, filter, recursive, root, if e.isDir then SkipDir(walk[1..], e.path) else walk[1..], p)
      else
        || VisitForgets(c, fs, recursive, e.path, DepthOf(root, e.path), p)
        || WalkForgets(Visit(c, fs, recursive, e.path, DepthOf(root, e.path)), fs, filter, recursive, root, walk[1..],
                       p)
  }

  lemma {:induction false} WalkAdvances(d: seq<Event>, c: Crawl, fs: Snapshot, filter: Filter, recursive: bool,
                                        root: Path, walk: seq<Entry>, p: Path)
    requires Forest(c.tree) && Listed(c.tree, c.stack)
    ensures var r := PopWhile(RunWalk(c, fs, filter, recursive, root, walk), 0);
            Advances(d + c.events, c.tree, d + r.events, r.tree, p,
                     WalkForgets(c, fs, filter, recursive, root, walk, p))
    decreases |walk|
  {
    hide Forest, Listed, PopWhile, Visit, VisitForgets, PopsForget, Advances;
    if walk == [] {
      PopsAdvance(d, c, 0, p);
    } else {
      var e := walk[0];
      if filter(e.path, Some(e.isDir)) {
        WalkAdvances(d, c, fs, filter, recursive, root, if e.isDir then SkipDir(walk[1..], e.path) else walk[1..], p);
      } else {
        var next := Visit(c, fs, recursive, e.path, DepthOf(root, e.path));
        var r := PopWhile(RunWalk(next, fs, filter, recursive, root, walk[1..]), 0);
        VisitAdvances(d, c, fs, recursive, e.path, DepthOf(root, e.path), p);
        WalkAdvances(d, next, fs, filter, recursive, root, walk[1..], p);
        AdvancesAgain(d + c.events, c.tree, d + next.events, next.tree, d + r.events, r.tree, p,
                      VisitForgets(c, fs, recursive, e.path, DepthOf(root, e.path), p),
                      WalkForgets(next, fs, filter, recursive, root, walk[1..], p));
      }
    }
  }

  /** Some sweep of the crawl, recursive or not, of any node of any forest, reports a file at
      `p` as deleted and leaves its node a file, because it has no child list. */
  ghost predicate CrawlForgets(t: Tree, fs: Snapshot, filter: Filter, root: NodeId, walk: seq<Entry>, p: Path)
    requires Forest(t) && root < |t.nodes|
  {
    var recursive := t.nodes[root].coverage == Recursive;
    var path := t.nodes[root].path;
    WalkForgets(Start(t, root, []), fs, filter, recursive, path, RootWalk(recursive, path, walk), p)
  }

  ghost predicate CleanCrawl(t: Tree, fs: Snapshot, filter: Filter, root: NodeId, walk: seq<Entry>)
    requires Forest(t) && root < |t.nodes|
  {
    forall p :: !CrawlForgets(t, fs, filter, root, walk, p)
  }

  lemma {:induction false} CrawlAdvances(d: seq<Event>, t: Tree, fs: Snapshot, filter: Filter, root: NodeId,
                                         walk: seq<Entry>, p: Path)
    requires Forest(t) && root < |t.nodes|
    ensures var r := RunCrawl(t, fs, filter, root, [], walk);
            Advances(d, t, d + r.events, r.tree, p, CrawlForgets(t, fs, filter, root, walk, p))
  {
    hide Forest, PopWhile, RunWalk, WalkForgets, Start, Meta, Advances;
    var s := Start(t, root, []);
    var recursive := t.nodes[root].coverage == Recursive;
    var path := t.nodes[root].path;
    StartKeepsKinds(t, root, p);
    assert d + s.events == d;
    WalkAdvances(d, s, fs, filter, recursive, path, RootWalk(recursive, path, walk), p);
    var r := RunCrawl(t, fs, filter, root, [], walk);
    StartAdvances(d, t, s.tree, d + r.events, r.tree, p, CrawlForgets(t, fs, filter, root, walk, p));
  }

  lemma {:induction false} StartKeepsKinds(t: Tree, root: NodeId, p: Path)
    requires Forest(t) && root < |t.nodes|
    ensures var s := Start(t, root, []); s.tree.table == t.table && Meta(s.tree, p) == Meta(t, p) && s.events == []
  {
  }

  lemma {:induction false} StartAdvances(d: seq<Event>, t: Tree, m: Tree, e: seq<Event>, u: Tree, p: Path,
                                         forgets: bool)
    requires m.table == t.table && Meta(m, p) == Meta(t, p) && Advances(d, m, e, u, p, forgets)
    ensures Advances(d, t, e, u, p, forgets)
  {
  }

  /** For every tree, snapshot, filter, listing and path: the crawl's events lead the path
      from its kind before to its kind after if and only if no sweep forgets it. */
  lemma {:induction false} CrawlLegalAt(t: Tree, fs: Snapshot, filter: Filter, root: NodeId, walk: seq<Entry>, p: Path)
    requires Forest(t) && root < |t.nodes|
    ensures var r := RunCrawl(t, fs, filter, root, [], walk);
            LegalStepAt(t, r.events, r.tree, p) <==> !CrawlForgets(t, fs, filter, root, walk, p)
  {
    var r := RunCrawl(t, fs, filter, root, [], walk);
    CrawlAdvances([], t, fs, filter, root, walk, p);
    assert [] + r.events == r.events;
    assert Loose(IsFile(t, p), At([], p), IsFile(t, p)) && Replay(IsFile(t, p), At([], p)) == Some(IsFile(t, p));
    LooseHasNoTempfile(IsFile(t, p), At(r.events, p), IsFile(r.tree, p));
    hide RunCrawl, CrawlForgets, Forest, Loose, Replay;
  }

  lemma {:induction false} CrawlLegal(t: Tree, fs: Snapshot, filter: Filter, root: NodeId, walk: seq<Entry>)
    requires Forest(t) && root < |t.nodes|
    ensures var r := RunCrawl(t, fs, filter, root, [], walk);
            LegalStep(t, r.events, r.tree) <==> CleanCrawl(t, fs, filter, root, walk)
  {
    hide RunCrawl, CrawlForgets, Forest, LegalStepAt;
    forall p
      ensures var r := RunCrawl(t, fs, filter, root, [], walk);
              LegalStepAt(t, r.events, r.tree, p) <==> !CrawlForgets(t, fs, filter, root, walk, p)
    {
      CrawlLegalAt(t, fs, filter, root, walk, p);
    }
  }

  // ---------------------------------------------------------------- crawl_root

  datatype RootCrawl = RootCrawl(tree: Tree, watches: seq<Path>)

  /** `skip_current_dir` after an entry that is not a directory drops its siblings. */
  function SkipAfter(walk: seq<Entry>, e: Entry): (r: seq<Entry>)
    ensures |r| <= |walk|
  {
    if e.isDir then SkipDir(walk, e.path) else SkipDir(walk, Up(e.path))
  }

  /** The first crawl of a new root: entries are added silently. */
  function CrawlRoot(t: Tree, fs: Snapshot, filter: Filter, recursive: bool, walk: seq<Entry>): (r: RootCrawl)
    requires Forest(t) && forall i :: 0 <= i < |walk| ==> walk[i].path != []
    ensures Forest(r.tree)
    decreases |walk|
  {
    if walk == [] then RootCrawl(t, [])
    else
      var e, rest := walk[0], walk[1..];
      if filter(e.path, Some(e.isDir)) then
        if e.isDir then SkipDirMembers(rest, e.path); CrawlRoot(t, fs, filter, recursive, SkipDir(rest, e.path))
        else CrawlRoot(t, fs, filter, recursive, rest)
      else
        AddKeepsForest(t, fs, e.path, recursive, false);
        var added := Add(t, fs, e.path, recursive, false);
        if added.node.None? then
          SkipDirMembers(rest, e.path);
          SkipDirMembers(rest, Up(e.path));
          CrawlRoot(added.tree, fs, filter, recursive, SkipAfter(rest, e))
        else
          var n := added.node.value;
          var later := CrawlRoot(added.tree, fs, filter, recursive, rest);
          if n < |added.tree.nodes| && added.tree.nodes[n].meta.Dir? && recursive
          then later.(watches := [added.tree.nodes[n].path] + later.watches)
          else later
  }

  lemma {:induction false} RootWalkProper(recursive: bool, root: Path, walk: seq<Entry>)
    requires forall i :: 0 <= i < |walk| ==> walk[i].path != []
    ensures var w := RootWalk(recursive, root, walk); forall i :: 0 <= i < |w| ==> w[i].path != []
  {
    Filters.ShallowMembers(root, walk);
    var w := RootWalk(recursive, root, walk);
    forall i | 0 <= i < |w|
      ensures w[i].path != []
    {
      assert w[i] in walk;
    }
  }

  lemma {:induction false} SkipDirMembers(walk: seq<Entry>, dir: Path)
    ensures forall e :: e in SkipDir(walk, dir) ==> e in walk
    ensures (forall i :: 0 <= i < |walk| ==> walk[i].path != [])
        ==> (forall i :: 0 <= i < |SkipDir(walk, dir)| ==> SkipDir(walk, dir)[i].path != [])
  {
    if walk != [] && |walk[0].path| > |dir| { SkipDirMembers(walk[1..], dir); }
  }

  // ------------------------------------------------------------------- whole runs

  datatype Op =
    | AddRoot(fs: Snapshot, path: Path, recursive: bool)
    | Populate(fs: Snapshot, filter: Filter, recursive: bool, walk: seq<Entry>)
    | Change(fs: Snapshot, change: Pending.PendingChange)
    | Recrawl(fs: Snapshot, filter: Filter, root: NodeId, walk: seq<Entry>)
    | Settle

  /** The tree, what was emitted since the last batch was delivered, and the tree at
      that moment. */
  datatype State = State(tree: Tree, window: seq<Event>, base: Tree)

  const INITIAL := State(EMPTY, [], EMPTY)

  predicate Enabled(t: Tree, op: Op) {
    match op
    case AddRoot(_, p, _) => p != []
    case Populate(_, _, _, walk) => forall i :: 0 <= i < |walk| ==> walk[i].path != []
    case Recrawl(_, _, root, _) => root < |t.nodes|
    case _ => true
  }

  function Step(s: State, op: Op): (r: State)
    requires Forest(s.tree) && Enabled(s.tree, op)
    ensures Forest(r.tree)
  {
    match op
    case AddRoot(fs, p, rec) =>
      AddKeepsForest(s.tree, fs, p, rec, true);
      s.(tree := Add(s.tree, fs, p, rec, true).tree)
    case Populate(fs, filter, rec, walk) => s.(tree := CrawlRoot(s.tree, fs, filter, rec, walk).tree)
    case Change(fs, change) =>
      ApplyKeepsForest(s.tree, fs, change);
      var a := ApplyChange(s.tree, fs, change);
      s.(tree := a.tree, window := s.window + a.events)
    case Recrawl(fs, filter, root, walk) =>
      var c := RunCrawl(s.tree, fs, filter, root, [], walk);
      s.(tree := c.tree, window := s.window + c.events)
    case Settle => State(s.tree, [], s.tree)
  }

  /** The state after any operations from the empty tree; those that are not enabled
      where they stand do nothing. The forest invariant holds in every state. */
  function After(ops: seq<Op>): (r: State)
    ensures Forest(r.tree)
  {
    if ops == [] then INITIAL
    else
      var s := After(ops[..|ops| - 1]);
      if Enabled(s.tree, ops[|ops| - 1]) then Step(s, ops[|ops| - 1]) else s
  }

  /** The window of a path that was known when it began replays from its kind then to its
      kind now; that of any other path replays from some kind to its kind now. */
  ghost predicate ExplainedAt(s: State, p: Path) {
    if p in s.base.table then Starts(s, p, IsFile(s.base, p)) else Starts(s, p, true) || Starts(s, p, false)
  }

  ghost predicate Starts(s: State, p: Path, was: bool) {
    Replay(was, At(s.window, p)) == Some(IsFile(s.tree, p))
  }

  /** What holds of the window even where a sweep forgot something. */
  ghost predicate Sane(s: State, p: Path) {
    && (p in s.base.table ==> p in s.tree.table)
    && (At(s.window, p) != [] ==> p in s.tree.table)
    && (Loose(true, At(s.window, p), IsFile(s.tree, p)) || Loose(false, At(s.window, p), IsFile(s.tree, p)))
  }

  ghost predicate Astray(s: State, p: Path) {
    Stray(At(s.window, p), IsFile(s.tree, p))
  }

  /** A step inside one window: it explains path `p` further unless it forgets it. */
  ghost predicate Carries(s: State, r: State, p: Path, forgets: bool) {
    Sane(s, p) ==>
      && Sane(r, p)
      && (!forgets && ExplainedAt(s, p) ==> ExplainedAt(r, p))
      && (forgets || Astray(s, p) ==> Astray(r, p))
  }

  lemma {:induction false} CarriesAgain(s: State, m: State, r: State, p: Path, f: bool, g: bool)
    requires Carries(s, m, p, f) && Carries(m, r, p, g)
    ensures Carries(s, r, p, f || g)
  {
    hide Sane, ExplainedAt, Astray;
  }

  lemma {:induction false} AdvanceCarries(s: State, es: seq<Event>, u: Tree, p: Path, forgets: bool)
    requires Advances(s.window, s.tree, s.window + es, u, p, forgets)
    ensures Carries(s, s.(tree := u, window := s.window + es), p, forgets)
  {
    hide Loose, Stray, Replay, At;
  }

  /** `u` knows more than `t`, and says the same about everything `t` knows. */
  ghost predicate Silent(t: Tree, u: Tree) {
    forall p :: p in t.table ==> p in u.table && Meta(u, p) == Meta(t, p)
  }

  lemma {:induction false} AddSilent(t: Tree, fs: Snapshot, path: Path, recursive: bool, root: bool)
    requires Forest(t)
    ensures Silent(t, Add(t, fs, path, recursive, root).tree)
  {
    var u := Add(t, fs, path, recursive, root).tree;
    if path !in t.table && ForPath(fs, path).Some? && (Up(path) in t.table || root) {
      var parent := if Up(path) in t.table then Some(t.table[Up(path)]) else None;
      var m := ForPath(fs, path).value;
      var coverage := if recursive then Recursive else if root then ChildrenOnly else Uncovered;
      var n := Node(path, MetaOf(m), m.inode, false, coverage, None);
      GrowSilent(t, parent, n);
      SameKindsSilent(t, Grow(t, parent, n), u);
    }
  }

  lemma {:induction false} SameKindsSilent(t: Tree, u: Tree, w: Tree)
    requires Silent(t, u) && w.table == u.table && |w.nodes| == |u.nodes|
    requires forall i :: 0 <= i < |u.nodes| ==> w.nodes[i].meta == u.nodes[i].meta
    ensures Silent(t, w)
  {
    assert forall p :: Meta(w, p) == Meta(u, p);
  }

  lemma {:induction false} GrowSilent(t: Tree, parent: Option<NodeId>, n: Node)
    requires Forest(t) && n.path !in t.table && n.children.None? && (parent.Some? ==> parent.value < |t.nodes|)
    ensures Silent(t, Grow(t, parent, n))
  {
    var u := Grow(t, parent, n);
    GrowKids(t, parent, n);
    assert u.table == t.table[n.path := |t.nodes|];
    GrownKinds(t, u, n.path);
  }

  lemma {:induction false} SilentTransitive(t: Tree, u: Tree, w: Tree)
    requires Silent(t, u) && Silent(u, w)
    ensures Silent(t, w)
  {
    assert forall p :: p in t.table ==> p in u.table;
  }

  lemma {:induction false} CrawlRootSilent(t: Tree, fs: Snapshot, filter: Filter, recursive: bool, walk: seq<Entry>)
    requires Forest(t) && forall i :: 0 <= i < |walk| ==> walk[i].path != []
    ensures Silent(t, CrawlRoot(t, fs, filter, recursive, walk).tree)
    decreases |walk|
  {
    if walk != [] {
      var e, rest := walk[0], walk[1..];
      SkipDirMembers(rest, e.path);
      SkipDirMembers(rest, Up(e.path));
      if filter(e.path, Some(e.isDir)) {
        CrawlRootSilent(t, fs, filter, recursive, if e.isDir then SkipDir(rest, e.path) else rest);
      } else {
        var added := Add(t, fs, e.path, recursive, false);
        AddSilent(t, fs, e.path, recursive, false);
        AddKeepsForest(t, fs, e.path, recursive, false);
        var next := if added.node.None? then SkipAfter(rest, e) else rest;
        CrawlRootSilent(added.tree, fs, filter, recursive, next);
        SilentTransitive(t, added.tree, CrawlRoot(added.tree, fs, filter, recursive, next).tree);
      }
    }
  }

  lemma {:induction false} SilentCarries(s: State, u: Tree, p: Path)
    requires Silent(s.tree, u)
    ensures Carries(s, s.(tree := u), p, false)
  {
    if Sane(s, p) && p !in s.tree.table { assert Starts(s.(tree := u), p, IsFile(u, p)); }
  }

  /** The operation makes a sweep forget path `p`. */
  ghost predicate Forgetful(t: Tree, op: Op, p: Path)
    requires Forest(t) && Enabled(t, op)
  {
    op.Recrawl? && CrawlForgets(t, op.fs, op.filter, op.root, op.walk, p)
  }

  lemma {:induction false} StepCarries(s: State, op: Op, p: Path)
    requires Forest(s.tree) && Enabled(s.tree, op) && !op.Settle?
    ensures Carries(s, Step(s, op), p, Forgetful(s.tree, op, p))
  {
    hide LegalStepAt, Silent, Carries, Advances, RunCrawl, ApplyChange, Add, CrawlRoot, CrawlForgets, Forest;
    match op {
      case AddRoot(fs, path, rec) =>
        AddSilent(s.tree, fs, path, rec, true);
        SilentCarries(s, Add(s.tree, fs, path, rec, true).tree, p);
      case Populate(fs, filter, rec, walk) =>
        CrawlRootSilent(s.tree, fs, filter, rec, walk);
        SilentCarries(s, CrawlRoot(s.tree, fs, filter, rec, walk).tree, p);
      case Change(fs, change) =>
        var a := ApplyChange(s.tree, fs, change);
        ApplyLegal(s.tree, fs, change);
        assert LegalStepAt(s.tree, a.events, a.tree, p);
        LegalAdvances(s.window, s.tree, a.events, a.tree, p);
        AdvanceCarries(s, a.events, a.tree, p, false);
      case Recrawl(fs, filter, root, walk) =>
        var c := RunCrawl(s.tree, fs, filter, root, [], walk);
        CrawlAdvances(s.window, s.tree, fs, filter, root, walk, p);
        AdvanceCarries(s, c.events, c.tree, p, CrawlForgets(s.tree, fs, filter, root, walk, p));
    }
  }

  lemma {:induction false} SettledIsExplained(t: Tree, p: Path)
    ensures var r := State(t, [], t); Sane(r, p) && ExplainedAt(r, p)
  {
    assert Starts(State(t, [], t), p, IsFile(t, p));
  }

  lemma {:induction false} AstrayIsNotExplained(s: State, p: Path)
    requires Astray(s, p)
    ensures !ExplainedAt(s, p)
  {
  }

  /** Since the last delivery a crawl forgot path `p`. */
  ghost predicate ForgottenSince(ops: seq<Op>, p: Path) {
    && ops != [] && !ops[|ops| - 1].Settle?
    && (ForgottenSince(ops[..|ops| - 1], p) || LastForgets(ops, p))
  }

  ghost predicate LastForgets(ops: seq<Op>, p: Path)
    requires ops != []
  {
    var t, op := After(ops[..|ops| - 1]).tree, ops[|ops| - 1];
    Enabled(t, op) && Forgetful(t, op, p)
  }

  lemma {:induction false} RunsAreSane(ops: seq<Op>, p: Path)
    ensures var s := After(ops);
            && Sane(s, p)
            && (!ForgottenSince(ops, p) ==> ExplainedAt(s, p))
            && (ForgottenSince(ops, p) ==> Astray(s, p))
  {
    hide Sane, ExplainedAt, Astray, Forgetful, Step, Forest;
    if ops == [] {
      SettledIsExplained(EMPTY, p);
    } else {
      var init, op := ops[..|ops| - 1], ops[|ops| - 1];
      var s := After(init);
      RunsAreSane(init, p);
      if op.Settle? {
        SettleIs(s);
        SettledIsExplained(s.tree, p);
      } else if Enabled(s.tree, op) {
        StepCarries(s, op, p);
      }
    }
  }

  lemma {:induction false} SettleIs(s: State)
    requires Forest(s.tree)
    ensures Enabled(s.tree, Settle) && Step(s, Settle) == State(s.tree, [], s.tree)
  {
  }

  /** In every run and at every path: the events held back explain how the path got from
      the last delivery to now if and only if no crawl since then forgot it. */
  lemma {:induction false} RunsAreExplained(ops: seq<Op>, p: Path)
    ensures ExplainedAt(After(ops), p) <==> !ForgottenSince(ops, p)
  {
    hide ExplainedAt, Astray, After, ForgottenSince;
    RunsAreSane(ops, p);
    if ForgottenSince(ops, p) { AstrayIsNotExplained(After(ops), p); }
  }

  // ---------------------------------------------- what this means for the debouncer

  lemma {:induction false} ExplainedMerges(s: State, k: nat)
    requires k < |s.window| && Sane(s, s.window[k].path) && ExplainedAt(s, s.window[k].path)
    ensures MergesAt(s.window, k)
  {
    var p := s.window[k].path;
    var was := Starts(s, p, true);
    assert Starts(s, p, was);
    NoTempfile(s, p);
    AtContains(s.window, k);
    ErrorArmExactly(s.window, k);
  }

  lemma {:induction false} NoTempfile(s: State, p: Path)
    requires Sane(s, p)
    ensures Tempfile !in At(s.window, p)
  {
    LooseHasNoTempfile(Loose(true, At(s.window, p), IsFile(s.tree, p)), At(s.window, p), IsFile(s.tree, p));
  }

  lemma {:induction false} AtContains(es: seq<Event>, i: nat)
    requires i < |es|
    ensures es[i].ty in At(es, es[i].path)
  {
    if i < |es| - 1 { AtContains(es[..|es| - 1], i); }
  }

  /** When the arm that is logged as impossible is reached: by a modification of a path that
      the window holds as deleted. */
  lemma {:induction false} ArmAt(s: State, k: nat)
    requires k < |s.window| && Sane(s, s.window[k].path)
    ensures MergesAt(s.window, k) <==> !(s.window[k].ty.Modified? && Erased(At(s.window[..k], s.window[k].path)))
  {
    var p := s.window[k].path;
    ArmOfLoose(s.window, k, Loose(true, At(s.window, p), IsFile(s.tree, p)), IsFile(s.tree, p));
  }

  /** What is delivered for a path says that the file is there exactly if its stream is not
      erased, and then it is there. */
  lemma {:induction false} DeliveredSays(s: State, p: Path)
    requires Sane(s, p) && At(s.window, p) != []
    ensures |At(Coalesce(s.window), p)| == 1
    ensures SaysThere(At(Coalesce(s.window), p)[0]) <==> !Erased(At(s.window, p))
    ensures SaysThere(At(Coalesce(s.window), p)[0]) ==> IsFile(s.tree, p)
  {
    CoalesceAt(s.window, p);
    FoldOfLoose(Loose(true, At(s.window, p), IsFile(s.tree, p)), At(s.window, p), IsFile(s.tree, p));
  }

  lemma {:induction false} DeliveredIsNet(s: State, p: Path)
    requires Sane(s, p) && ExplainedAt(s, p) && At(s.window, p) != []
    ensures exists was :: At(Coalesce(s.window), p) == [Net(was, IsFile(s.tree, p))]
    ensures p in s.base.table ==> At(Coalesce(s.window), p) == [Net(IsFile(s.base, p), IsFile(s.tree, p))]
  {
    var was := if p in s.base.table then IsFile(s.base, p) else Starts(s, p, true);
    assert Starts(s, p, was);
    NetEffect(s.window, p, was, IsFile(s.tree, p));
  }

  /** In every run, the arm "this should be impossible" is reached exactly by a modification
      of a path that has been held as deleted, which takes a crawl since the last delivery
      that forgot the path. */
  lemma {:induction false} ArmIsReachedIff(ops: seq<Op>, k: nat)
    requires k < |After(ops).window|
    ensures var w := After(ops).window;
            && (MergesAt(w, k) <==> !(w[k].ty.Modified? && Erased(At(w[..k], w[k].path))))
            && (!MergesAt(w, k) ==> ForgottenSince(ops, w[k].path))
  {
    hide Sane, ExplainedAt, Astray, After, ForgottenSince, MergesAt, Erased;
    RunsAreSane(ops, After(ops).window[k].path);
    ArmAt(After(ops), k);
    if !ForgottenSince(ops, After(ops).window[k].path) { ExplainedMerges(After(ops), k); }
  }

  /** At every path that no crawl since the last delivery forgot, what is delivered is the
      net change. At any path it may only be wrong in one way: it says that a file is gone
      that the tree still holds, and then such a crawl did forget it. */
  lemma {:induction false} DeliveryIsNetChange(ops: seq<Op>, p: Path)
    requires At(After(ops).window, p) != []
    ensures var s := After(ops); var now := At(Coalesce(s.window), p);
            && |now| == 1
            && (!ForgottenSince(ops, p) ==> exists was :: now[0] == Net(was, IsFile(s.tree, p)))
            && (!ForgottenSince(ops, p) && p in s.base.table ==> now[0] == Net(IsFile(s.base, p), IsFile(s.tree, p)))
            && (SaysThere(now[0]) != IsFile(s.tree, p) <==> Erased(At(s.window, p)) && IsFile(s.tree, p))
            && (SaysThere(now[0]) != IsFile(s.tree, p) ==> ForgottenSince(ops, p))
  {
    hide Sane, ExplainedAt, Astray, After, ForgottenSince, Erased, Coalesce;
    var s := After(ops);
    RunsAreSane(ops, p);
    DeliveredSays(s, p);
    if !ForgottenSince(ops, p) { DeliveredIsNet(s, p); }
  }
}
