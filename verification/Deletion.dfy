/** What deleting a subtree does, path by path (src/tree.rs, `delete_rec`). */
module Deletion {
  import opened Paths
  import opened Events
  import opened TreeModel

  /** The child of `base` on the way down to `p`. */
  function Toward(base: Path, p: Path): Path
    requires base < p
  {
    p[..|base| + 1]
  }

  /** `p` is reached from `base`: linked entries all the way, and every directory
      strictly between them is live. */
  ghost predicate Reached(t: Tree, base: Path, p: Path)
    decreases |p|
  {
    base < p && Linked(t, p) && (Up(p) == base || (Reached(t, base, Up(p)) && Meta(t, Up(p)).Dir?))
  }

  ghost predicate ReachedThrough(t: Tree, h: Path, p: Path) {
    p == h || (Meta(t, h).Dir? && Reached(t, h, p))
  }

  lemma {:induction false} ReachedSplit(t: Tree, base: Path, p: Path)
    requires base < p
    ensures Reached(t, base, p) <==> Linked(t, Toward(base, p)) && ReachedThrough(t, Toward(base, p), p)
    decreases |p|
  {
    var h := Toward(base, p);
    if |p| == |base| + 1 {
      assert p == h && Up(p) == base;
    } else {
      assert base < Up(p) && Up(p) != base;
      ReachedSplit(t, base, Up(p));
      assert Toward(base, Up(p)) == h;
      assert h < p;
    }
  }

  lemma {:induction false} ReachedFrame(t: Tree, u: Tree, base: Path, p: Path)
    requires SameButMeta(t, u)
    requires forall q :: base < q < p ==> Meta(u, q) == Meta(t, q)
    ensures Reached(t, base, p) <==> Reached(u, base, p)
    decreases |p|
  {
    if base < p && Up(p) != base {
      ReachedFrame(t, u, base, Up(p));
    }
  }

  ghost predicate KidFrom(t: Tree, id: NodeId, k: nat, h: Path)
    requires Descending(t) && id < |t.nodes|
  {
    exists j :: k <= j < |Kids(t, id)| && t.nodes[Kids(t, id)[j]].path == h
  }

  /** `p` hangs below one of the children of `id` from the `k`-th on, and is reached. */
  ghost predicate ReachedFrom(t: Tree, id: NodeId, k: nat, p: Path)
    requires Descending(t) && id < |t.nodes|
  {
    && t.nodes[id].path < p
    && KidFrom(t, id, k, Toward(t.nodes[id].path, p))
    && ReachedThrough(t, Toward(t.nodes[id].path, p), p)
  }

  lemma {:induction false} KidFromStep(t: Tree, u: Tree, id: NodeId, k: nat, h: Path)
    requires Forest(t) && Descending(u) && SameButMeta(t, u) && id < |t.nodes| && k < |Kids(t, id)|
    requires Kids(u, id) == Kids(t, id)
    ensures KidFrom(u, id, k + 1, h) <==> KidFrom(t, id, k, h) && h != t.nodes[Kids(t, id)[k]].path
  {
    var kids := Kids(t, id);
    forall j | 0 <= j < |kids|
      ensures u.nodes[kids[j]].path == t.nodes[kids[j]].path
      ensures t.table[t.nodes[kids[j]].path] == kids[j]
    {
    }
    if KidFrom(u, id, k + 1, h) {
      var j :| k + 1 <= j < |kids| && u.nodes[kids[j]].path == h;
      assert t.nodes[kids[j]].path == h;
    }
    if KidFrom(t, id, k, h) && h != t.nodes[kids[k]].path {
      var j :| k <= j < |kids| && t.nodes[kids[j]].path == h;
      assert u.nodes[kids[j]].path == h;
    }
  }

  lemma {:induction false} KidLinked(t: Tree, id: NodeId, k: nat)
    requires Forest(t) && id < |t.nodes| && k < |Kids(t, id)|
    ensures var c := Kids(t, id)[k];
            && Up(t.nodes[c].path) == t.nodes[id].path && t.nodes[id].path < t.nodes[c].path
            && |t.nodes[c].path| == |t.nodes[id].path| + 1
            && Linked(t, t.nodes[c].path) && t.table[t.nodes[c].path] == c
  {
    var c := Kids(t, id)[k];
    assert t.nodes[c].path in t.table;
    assert t.nodes[c].path == t.nodes[id].path + [t.nodes[c].path[|t.nodes[id].path|]];
  }

  lemma {:induction false} LinkedIsKid(t: Tree, id: NodeId, p: Path)
    requires Forest(t) && id < |t.nodes| && t.nodes[id].path < p
    ensures Linked(t, Toward(t.nodes[id].path, p)) <==> KidFrom(t, id, 0, Toward(t.nodes[id].path, p))
  {
    var base := t.nodes[id].path;
    var h := Toward(base, p);
    assert Up(h) == base && t.table[base] == id;
    if Linked(t, h) {
      var j :| 0 <= j < |Kids(t, id)| && Kids(t, id)[j] == t.table[h];
      assert t.nodes[Kids(t, id)[j]].path == h;
    }
    if exists j :: 0 <= j < |Kids(t, id)| && t.nodes[Kids(t, id)[j]].path == h {
      var j :| 0 <= j < |Kids(t, id)| && t.nodes[Kids(t, id)[j]].path == h;
      KidLinked(t, id, j);
    }
  }

  lemma {:induction false} KidFromSame(t: Tree, u: Tree, id: NodeId, h: Path)
    requires Descending(t) && Descending(u) && SameButMeta(t, u) && id < |t.nodes|
    requires Kids(u, id) == Kids(t, id)
    ensures KidFrom(u, id, 0, h) <==> KidFrom(t, id, 0, h)
  {
    assert forall j :: 0 <= j < |Kids(t, id)| ==> u.nodes[Kids(t, id)[j]].path == t.nodes[Kids(t, id)[j]].path;
  }

  function DeleteEvent(meta: NodeMeta): seq<EventType> {
    if meta.File? then [Delete] else []
  }

  /** The per-path effect of handling the children of `id` from the `k`-th on. */
  ghost predicate CutEffect(t: Tree, id: NodeId, k: nat, p: Path, r: Cut)
    requires Descending(t) && id < |t.nodes|
  {
    if p == t.nodes[id].path then Meta(r.tree, p) == Deleted && At(r.events, p) == []
    else if ReachedFrom(t, id, k, p) then Meta(r.tree, p) == Deleted && At(r.events, p) == DeleteEvent(Meta(t, p))
    else Meta(r.tree, p) == Meta(t, p) && At(r.events, p) == []
  }

  /** The subtree step for one child: mark it, and enter it if it is a live directory. */
  function CutChild(t: Tree, c: NodeId): (r: Cut)
    requires Descending(t) && c < |t.nodes|
    ensures SameButMeta(t, r.tree) && Descending(r.tree)
  {
    var marked := SetMeta(t, c, Deleted);
    if t.nodes[c].meta.Dir? && t.nodes[c].children.Some? then CutKids(marked, c, 0) else Cut(marked, [])
  }

  function OwnEvent(t: Tree, c: NodeId): seq<Event>
    requires c < |t.nodes|
  {
    if t.nodes[c].meta.File? then [Event(t.nodes[c].path, Delete)] else []
  }

  lemma {:induction false} CutKidsEffect(t: Tree, id: NodeId, k: nat, p: Path)
    requires Forest(t) && id < |t.nodes| && k <= |Kids(t, id)|
    ensures CutEffect(t, id, k, p, CutKids(t, id, k))
    decreases |t.nodes| - id, |Kids(t, id)| - k
  {
    if k == |Kids(t, id)| {
      assert Meta(SetMeta(t, id, Deleted), p) == if p == t.nodes[id].path then Deleted else Meta(t, p);
    } else {
      var c := Kids(t, id)[k];
      var below := CutChild(t, c);
      ShapeKeepsForest(t, below.tree);
      ShapeKeepsDescending(t, below.tree);
      forall q
        ensures ChildEffect(t, c, q, below)
      {
        CutChildEffect(t, c, q);
      }
      CutKidsEffect(below.tree, id, k + 1, p);
      CutKidsCompose(t, id, k, p, below, CutKids(below.tree, id, k + 1));
    }
  }

  lemma {:induction false} CutKidsCompose(t: Tree, id: NodeId, k: nat, p: Path, below: Cut, rest: Cut)
    requires Forest(t) && id < |t.nodes| && k < |Kids(t, id)|
    requires Forest(below.tree) && SameButMeta(t, below.tree) && Kids(below.tree, id) == Kids(t, id)
    requires forall q :: ChildEffect(t, Kids(t, id)[k], q, below)
    requires CutEffect(below.tree, id, k + 1, p, rest)
    ensures CutEffect(t, id, k, p, Cut(rest.tree, OwnEvent(t, Kids(t, id)[k]) + below.events + rest.events))
  {
    var c := Kids(t, id)[k];
    var own := OwnEvent(t, c);
    var h := t.nodes[c].path;
    KidLinked(t, id, k);
    AtAppend(own + below.events, rest.events, p);
    AtAppend(own, below.events, p);
    assert At(own, p) == if p == h then DeleteEvent(Meta(t, h)) else [] by {
      if own != [] { AtOne(own[0], p); }
    }
    assert ChildEffect(t, c, p, below);
    assert below.tree.nodes[id].path == t.nodes[id].path;
    if t.nodes[id].path < p {
      forall q | !(h <= q)
        ensures Meta(below.tree, q) == Meta(t, q)
      {
        assert ChildEffect(t, c, q, below);
      }
      CutKidsStep(t, id, k, p, below.tree);
    }
  }

  /** Whether `p` is still to be reached, before and after handling child `k`. */
  lemma {:induction false} CutKidsStep(t: Tree, id: NodeId, k: nat, p: Path, u: Tree)
    requires Forest(t) && Forest(u) && SameButMeta(t, u) && id < |t.nodes| && k < |Kids(t, id)|
    requires Kids(u, id) == Kids(t, id) && t.nodes[id].path < p
    requires forall q :: !(t.nodes[Kids(t, id)[k]].path <= q) ==> Meta(u, q) == Meta(t, q)
    ensures var h := t.nodes[Kids(t, id)[k]].path;
            if h <= p then ReachedFrom(t, id, k, p) == ReachedThrough(t, h, p) && !ReachedFrom(u, id, k + 1, p)
            else ReachedFrom(t, id, k, p) == ReachedFrom(u, id, k + 1, p)
  {
    var base := t.nodes[id].path;
    var h := t.nodes[Kids(t, id)[k]].path;
    var toward := Toward(base, p);
    KidLinked(t, id, k);
    KidFromStep(t, u, id, k, toward);
    if h <= p {
      assert toward == h;
      assert KidFrom(t, id, k, h);
    } else {
      assert toward != h;
      forall q | toward <= q <= p
        ensures Meta(u, q) == Meta(t, q)
      {
        assert q[..|h|] == toward;
      }
      ReachedFrame(t, u, toward, p);
    }
  }

  ghost predicate ChildEffect(t: Tree, c: NodeId, p: Path, r: Cut)
    requires Descending(t) && c < |t.nodes|
  {
    var h := t.nodes[c].path;
    if p == h then Meta(r.tree, p) == Deleted && At(r.events, p) == []
    else if ReachedThrough(t, h, p) then Meta(r.tree, p) == Deleted && At(r.events, p) == DeleteEvent(Meta(t, p))
    else Meta(r.tree, p) == Meta(t, p) && At(r.events, p) == []
  }

  /** Marking a node does not change what is reached below it. */
  lemma {:induction false} MarkedReach(t: Tree, c: NodeId, m: NodeMeta, p: Path)
    requires Forest(t) && c < |t.nodes| && t.nodes[c].path < p
    ensures ReachedFrom(SetMeta(t, c, m), c, 0, p) <==> Reached(t, t.nodes[c].path, p)
    ensures t.nodes[c].children.None? ==> !Reached(t, t.nodes[c].path, p)
  {
    var h := t.nodes[c].path;
    var marked := SetMeta(t, c, m);
    ShapeKeepsDescending(t, marked);
    KidFromSame(t, marked, c, Toward(h, p));
    ReachedSplit(t, h, p);
    LinkedIsKid(t, c, p);
    ReachedFrame(t, marked, Toward(h, p), p);
  }

  lemma {:induction false} CutChildEffect(t: Tree, c: NodeId, p: Path)
    requires Forest(t) && c < |t.nodes|
    ensures ChildEffect(t, c, p, CutChild(t, c))
    decreases |t.nodes| - c, |Kids(t, c)| + 1
  {
    var h := t.nodes[c].path;
    var marked := SetMeta(t, c, Deleted);
    ShapeKeepsForest(t, marked);
    ShapeKeepsDescending(t, marked);
    assert Meta(marked, p) == if p == h then Deleted else Meta(t, p);
    if h < p { MarkedReach(t, c, Deleted, p); }
    if t.nodes[c].meta.Dir? && t.nodes[c].children.Some? {
      CutKidsEffect(marked, c, 0, p);
    } else {
      assert Meta(t, h) == t.nodes[c].meta;
    }
  }

  // ---------------------------------------------------------------- the result

  /** `delete_rec` on a node with a child list deletes it and exactly the entries that
      are reached from it, reporting each live file among those once; without a child
      list it does nothing at all. */
  lemma {:induction false} DeleteRecEffect(t: Tree, id: NodeId, p: Path)
    requires Forest(t) && id < |t.nodes|
    ensures var r := DeleteRec(t, id); var base := t.nodes[id].path;
            if t.nodes[id].children.None? then r == Cut(t, [])
            else if p == base then Meta(r.tree, p) == Deleted && At(r.events, p) == []
            else if Reached(t, base, p) then Meta(r.tree, p) == Deleted && At(r.events, p) == DeleteEvent(Meta(t, p))
            else Meta(r.tree, p) == Meta(t, p) && At(r.events, p) == []
  {
    var base := t.nodes[id].path;
    var marked := SetMeta(t, id, Deleted);
    ShapeKeepsForest(t, marked);
    ShapeKeepsDescending(t, marked);
    assert Meta(marked, p) == if p == base then Deleted else Meta(t, p);
    CutKidsEffect(marked, id, 0, p);
    if base < p { MarkedReach(t, id, Deleted, p); }
  }

  /** Below `base`, every known node is linked, and nothing live sits under a node that
      is not a directory. */
  ghost predicate Coherent(t: Tree, base: Path) {
    && (forall p :: base < p && Known(t, p) ==> Linked(t, p))
    && (forall p :: base < p && base != Up(p) && Meta(t, p) != Deleted ==> Meta(t, Up(p)).Dir?)
  }

  lemma {:induction false} LiveIsReached(t: Tree, base: Path, p: Path)
    requires Coherent(t, base) && base < p && Meta(t, p) != Deleted
    ensures Reached(t, base, p)
    decreases |p|
  {
    if Up(p) != base {
      assert base < Up(p);
      LiveIsReached(t, base, Up(p));
    }
  }

  /** In a coherent subtree nothing below the deleted node stays live, every live file
      there is reported once, and nothing else changes. */
  lemma {:induction false} DeleteRecClears(t: Tree, id: NodeId, p: Path)
    requires Forest(t) && id < |t.nodes| && Coherent(t, t.nodes[id].path)
    ensures var r := DeleteRec(t, id); var base := t.nodes[id].path;
            if base < p then Meta(r.tree, p) == Deleted && At(r.events, p) == DeleteEvent(Meta(t, p))
            else if p == base && t.nodes[id].children.Some? then Meta(r.tree, p) == Deleted && At(r.events, p) == []
            else Meta(r.tree, p) == Meta(t, p) && At(r.events, p) == []
  {
    var base := t.nodes[id].path;
    DeleteRecEffect(t, id, p);
    if base < p {
      if Meta(t, p) != Deleted { LiveIsReached(t, base, p); }
      if Reached(t, base, p) {
        ReachedSplit(t, base, p);
        LinkedIsKid(t, id, p);
      }
    }
  }
}
