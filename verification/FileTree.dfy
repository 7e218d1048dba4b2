/** The file tree as the object it is in src/tree.rs: a node arena, child lists and a
    path index updated in place, with the worker's stack and the event sink passed in.
    Every method is proved to compute the corresponding value-level function. */
module FileTree {
  import opened Paths
  import opened Events
  import opened TreeModel
  import opened Deletion
  import opened CrawlModel
  import opened Runs
  import Pending

  /** The stack the worker lends to the tree. The crawl stores depths in it, and
      `delete_rec`, which runs on top of a crawl, child positions. */
  class WorkStack {
    var frames: seq<Frame>

    constructor ()
      ensures frames == []
    {
      frames := [];
    }
  }

  /** Where events and watch requests go. */
  class Sink {
    var events: seq<Event>
    var watches: seq<Path>

    constructor ()
      ensures events == [] && watches == []
    {
      events, watches := [], [];
    }
  }

  // --------------------------------------- the delete loop, as pending recursion

  ghost predicate DeleteFrames(t: Tree, frames: seq<Frame>) {
    forall k :: 0 <= k < |frames| ==> DeleteFrame(t, frames[k])
  }

  ghost predicate DeleteFrame(t: Tree, f: Frame) {
    f.node < |t.nodes| && t.nodes[f.node].children.Some? && t.nodes[f.node].children.value < |t.dirs|
    && f.depth <= |Kids(t, f.node)|
  }

  lemma {:induction false} FramesSame(t: Tree, u: Tree, frames: seq<Frame>)
    requires SameButMeta(t, u) && DeleteFrames(t, frames)
    ensures DeleteFrames(u, frames)
  {
    forall k | 0 <= k < |frames|
      ensures DeleteFrame(u, frames[k])
    {
      assert DeleteFrame(t, frames[k]);
    }
  }

  /** What is still to be done when the delete loop holds these frames: the recursive
      calls they stand for, innermost first, after the events `es`. */
  ghost function Unwind(t: Tree, frames: seq<Frame>, es: seq<Event>): (r: Cut)
    requires Descending(t) && DeleteFrames(t, frames)
    ensures SameButMeta(t, r.tree)
    decreases |frames|
  {
    if frames == [] then Cut(t, es)
    else
      var top := frames[|frames| - 1];
      assert DeleteFrame(t, top);
      var c := CutKids(t, top.node, top.depth);
      FramesPrefix(t, frames);
      FramesSame(t, c.tree, frames[..|frames| - 1]);
      Unwind(c.tree, frames[..|frames| - 1], es + c.events)
  }

  lemma {:induction false} FramesPrefix(t: Tree, frames: seq<Frame>)
    requires DeleteFrames(t, frames) && frames != []
    ensures DeleteFrames(t, frames[..|frames| - 1])
  {
    assert forall k :: 0 <= k < |frames| - 1 ==> frames[..|frames| - 1][k] == frames[k];
  }

  lemma {:induction false} UnwindTop(t: Tree, below: seq<Frame>, f: Frame, es: seq<Event>)
    requires Descending(t) && DeleteFrames(t, below) && DeleteFrame(t, f)
    ensures DeleteFrames(t, below + [f])
    ensures var c := CutKids(t, f.node, f.depth);
            DeleteFrames(c.tree, below) && Unwind(t, below + [f], es) == Unwind(c.tree, below, es + c.events)
  {
    var frames := below + [f];
    assert frames[..|frames| - 1] == below;
    FramesSame(t, CutKids(t, f.node, f.depth).tree, below);
  }

  lemma {:induction false} CutKidsUnfold(t: Tree, id: NodeId, k: nat)
    requires Descending(t) && id < |t.nodes| && k < |Kids(t, id)|
    ensures var c := Kids(t, id)[k]; var b := CutChild(t, c);
            && k + 1 <= |Kids(b.tree, id)|
            && CutKids(t, id, k) == Cut(CutKids(b.tree, id, k + 1).tree,
                                        OwnEvent(t, c) + b.events + CutKids(b.tree, id, k + 1).events)
  {
    ShapeKeepsDescending(t, CutChild(t, Kids(t, id)[k]).tree);
  }

  /** A round that moves past a child without entering it, seen from the recursion. */
  lemma {:induction false} UnwindPass(t: Tree, below: seq<Frame>, f: Frame, es: seq<Event>)
    requires Descending(t) && DeleteFrames(t, below) && DeleteFrame(t, f) && f.depth < |Kids(t, f.node)|
    requires var c := Kids(t, f.node)[f.depth]; !(t.nodes[c].meta.Dir? && t.nodes[c].children.Some?)
    ensures var c := Kids(t, f.node)[f.depth];
            var u := SetMeta(t, c, Deleted);
            var frames := below + [Frame(f.node, f.depth + 1)];
            && DeleteFrames(t, below + [f]) && DeleteFrames(u, frames)
            && Unwind(t, below + [f], es) == Unwind(u, frames, es + OwnEvent(t, c))
  {
    hide CutKids, Unwind, DeleteFrames;
    var c := Kids(t, f.node)[f.depth];
    var u := SetMeta(t, c, Deleted);
    var g := Frame(f.node, f.depth + 1);
    var own := OwnEvent(t, c);
    ShapeKeepsDescending(t, u);
    FramesSame(t, u, below);
    CutKidsUnfold(t, f.node, f.depth);
    assert DeleteFrame(u, g);
    UnwindTop(t, below, f, es);
    UnwindTop(u, below, g, es + own);
    var r := CutKids(u, f.node, f.depth + 1);
    assert es + own + r.events == es + (own + [] + r.events);
  }

  /** A round that enters a live directory, seen from the recursion. */
  lemma {:induction false} UnwindEnter(t: Tree, below: seq<Frame>, f: Frame, es: seq<Event>)
    requires Descending(t) && ListsOwned(t) && DeleteFrames(t, below) && DeleteFrame(t, f)
             && f.depth < |Kids(t, f.node)|
    requires var c := Kids(t, f.node)[f.depth]; t.nodes[c].meta.Dir? && t.nodes[c].children.Some?
    ensures var c := Kids(t, f.node)[f.depth];
            var u := SetMeta(t, c, Deleted);
            var frames := below + [Frame(f.node, f.depth + 1)] + [Frame(c, 0)];
            && DeleteFrames(t, below + [f]) && DeleteFrames(u, frames)
            && Unwind(t, below + [f], es) == Unwind(u, frames, es)
  {
    hide CutKids, Unwind, DeleteFrames;
    var c := Kids(t, f.node)[f.depth];
    var u := SetMeta(t, c, Deleted);
    var g := Frame(f.node, f.depth + 1);
    var b := CutKids(u, c, 0);
    ShapeKeepsDescending(t, u);
    ShapeKeepsDescending(t, b.tree);
    FramesSame(t, u, below);
    FramesSame(t, b.tree, below);
    CutKidsUnfold(t, f.node, f.depth);
    assert DeleteFrame(u, g) && DeleteFrame(b.tree, g) && DeleteFrame(u, Frame(c, 0));
    hide DeleteFrame, ListsOwned;
    UnwindTop(t, below, f, es);
    UnwindTop(u, below, g, es);
    UnwindTop(u, below + [g], Frame(c, 0), es);
    UnwindTop(b.tree, below, g, es + b.events);
    var r := CutKids(b.tree, f.node, f.depth + 1);
    assert es + b.events + r.events == es + ([] + b.events + r.events);
  }

  lemma {:induction false} UnwindPop(t: Tree, below: seq<Frame>, f: Frame, es: seq<Event>)
    requires Descending(t) && DeleteFrames(t, below) && DeleteFrame(t, f) && f.depth == |Kids(t, f.node)|
    ensures var u := SetMeta(t, f.node, Deleted);
            && DeleteFrames(t, below + [f]) && Descending(u) && DeleteFrames(u, below)
            && Unwind(t, below + [f], es) == Unwind(u, below, es)
  {
    UnwindTop(t, below, f, es);
    assert es + [] == es;
  }

  /** The part of the stack above the caller's, with the tree and the events. */
  datatype Deleting = Deleting(tree: Tree, frames: seq<Frame>, events: seq<Event>)

  ghost predicate DeletingOk(s: Deleting) {
    Forest(s.tree) && DeleteFrames(s.tree, s.frames)
  }

  /** One round of the delete loop. */
  function Round(s: Deleting): Deleting
    requires DeletingOk(s) && s.frames != []
  {
    var below, f := s.frames[..|s.frames| - 1], s.frames[|s.frames| - 1];
    assert DeleteFrame(s.tree, f);
    if f.depth >= |Kids(s.tree, f.node)| then Deleting(SetMeta(s.tree, f.node, Deleted), below, s.events)
    else
      var c := Kids(s.tree, f.node)[f.depth];
      var next := below + [Frame(f.node, f.depth + 1)];
      Deleting(SetMeta(s.tree, c, Deleted),
               if s.tree.nodes[c].meta.Dir? && s.tree.nodes[c].children.Some? then next + [Frame(c, 0)] else next,
               s.events + OwnEvent(s.tree, c))
  }

  lemma {:induction false} RoundKeepsGoal(s: Deleting)
    requires DeletingOk(s) && s.frames != []
    ensures var r := Round(s);
            && DeletingOk(r) && SameButMeta(s.tree, r.tree)
            && Unwind(r.tree, r.frames, r.events) == Unwind(s.tree, s.frames, s.events)
  {
    hide Unwind, DeleteFrames, TableOk, KidsBelow;
    var below, f := s.frames[..|s.frames| - 1], s.frames[|s.frames| - 1];
    assert below + [f] == s.frames;
    FramesPrefix(s.tree, s.frames);
    FrameInStack(s, f);
    ShapeKeepsForest(s.tree, Round(s).tree);
    if f.depth >= |Kids(s.tree, f.node)| {
      UnwindPop(s.tree, below, f, s.events);
    } else {
      var c := Kids(s.tree, f.node)[f.depth];
      if s.tree.nodes[c].meta.Dir? && s.tree.nodes[c].children.Some? {
        UnwindEnter(s.tree, below, f, s.events);
        assert s.events + OwnEvent(s.tree, c) == s.events;
      } else {
        UnwindPass(s.tree, below, f, s.events);
      }
    }
  }

  /** The live directories: entering one makes it dead, so the loop ends. */
  ghost function LiveDirs(t: Tree): set<NodeId> {
    set i | 0 <= i < |t.nodes| && t.nodes[i].meta.Dir?
  }

  /** What remains in the innermost frame. */
  ghost function Remaining(s: Deleting): int {
    if s.frames == [] then 0 else |Kids(s.tree, s.frames[|s.frames| - 1].node)| - s.frames[|s.frames| - 1].depth
  }

  lemma {:induction false} RoundDecreases(s: Deleting)
    requires DeletingOk(s) && s.frames != []
    ensures var r := Round(s);
            && LiveDirs(r.tree) <= LiveDirs(s.tree)
            && (LiveDirs(r.tree) < LiveDirs(s.tree) || |r.frames| < |s.frames|
                || (|r.frames| == |s.frames| && 0 <= Remaining(r) < Remaining(s)))
  {
    var f := s.frames[|s.frames| - 1];
    var r := Round(s);
    assert DeleteFrame(s.tree, f);
    ShapeKeepsDescending(s.tree, r.tree);
    if f.depth < |Kids(s.tree, f.node)| {
      var c := Kids(s.tree, f.node)[f.depth];
      if s.tree.nodes[c].meta.Dir? {
        assert c in LiveDirs(s.tree) && c !in LiveDirs(r.tree);
      }
    }
  }

  // ------------------------------------------------------------------ the object

  class FileTree {
    var pathTable: map<Path, NodeId>
    var nodes: seq<Node>
    var dirs: seq<seq<NodeId>>

    function Value(): Tree
      reads this
    {
      Tree(pathTable, nodes, dirs)
    }

    constructor ()
      ensures Value() == EMPTY && Forest(Value())
    {
      pathTable, nodes, dirs := map[], [], [];
    }

    method ReserveDir(id: NodeId) returns (d: DirId)
      requires id < |nodes|
      modifies this
      ensures Value() == TreeModel.ReserveDir(old(Value()), id) && d == old(|dirs|)
    {
      d := |dirs|;
      nodes := nodes[id := nodes[id].(children := Some(d))];
      dirs := dirs + [[]];
    }

    method AddChild(id: NodeId, child: NodeId)
      requires id < |nodes| && (nodes[id].children.Some? ==> nodes[id].children.value < |dirs|)
      modifies this
      ensures Value() == TreeModel.AddChild(old(Value()), id, child)
    {
      var d;
      if nodes[id].children.None? {
        d := ReserveDir(id);
      } else {
        d := nodes[id].children.value;
      }
      dirs := dirs[d := dirs[d] + [child]];
    }

    /** The stack-driven recursive delete. Whatever was on the stack is there again. */
    method DeleteRec(id: NodeId, work: WorkStack, sink: Sink)
      requires Forest(Value()) && id < |nodes|
      modifies this, work, sink
      ensures Value() == TreeModel.DeleteRec(old(Value()), id).tree
      ensures sink.events == old(sink.events) + TreeModel.DeleteRec(old(Value()), id).events
      ensures sink.watches == old(sink.watches) && work.frames == old(work.frames)
    {
      if nodes[id].children.None? {
        return;
      }
      hide Unwind, TableOk, KidsBelow, ListsOwned, Descending, DeleteFrames, Remaining, LiveDirs, Round, SameButMeta;
      ghost var goal := DeleteStart(Value(), id, sink.events);
      ghost var base := work.frames;
      nodes := nodes[id := nodes[id].(meta := Deleted)];
      ghost var s := Deleting(Value(), [Frame(id, 0)], sink.events);
      var startLen := |work.frames|;
      work.frames := work.frames + [Frame(id, 0)];
      while |work.frames| > startLen
        invariant Value() == s.tree && sink.events == s.events && work.frames == base + s.frames
        invariant DeletingOk(s) && Unwind(s.tree, s.frames, s.events) == goal
        invariant sink.watches == old(sink.watches) && |base| == startLen
        decreases LiveDirs(s.tree), |s.frames|, Remaining(s)
      {
        ghost var r := NextRound(s);
        DeleteRound(work, sink, base, s, r);
        s := r;
      }
      UnwindDone(s.tree, s.events);
    }

    /** One round of the delete loop; `base` is the caller's part of the stack. */
    method DeleteRound(work: WorkStack, sink: Sink, ghost base: seq<Frame>, ghost s: Deleting, ghost r: Deleting)
      requires DeletingOk(s) && s.frames != [] && r == Round(s)
      requires Value() == s.tree && sink.events == s.events && work.frames == base + s.frames
      modifies this, work, sink
      ensures Value() == r.tree && sink.events == r.events && work.frames == base + r.frames
      ensures sink.watches == old(sink.watches)
    {
      hide TableOk, KidsBelow, DeleteFrames;
      StackTail(base, s.frames);
      var last := |work.frames| - 1;
      var top := work.frames[last];
      FrameInStack(s, top);
      var kids := dirs[nodes[top.node].children.value];
      if top.depth >= |kids| {
        nodes := nodes[top.node := nodes[top.node].(meta := Deleted)];
        work.frames := work.frames[..last];
      } else {
        var c := kids[top.depth];
        KidInArena(s.tree, top.node, top.depth);
        ghost var below := s.frames[..|s.frames| - 1];
        StackPush(base, below, Frame(top.node, top.depth + 1));
        StackPush(base, below + [Frame(top.node, top.depth + 1)], Frame(c, 0));
        work.frames := work.frames[..last] + [Frame(top.node, top.depth + 1)];
        if nodes[c].meta.File? {
          sink.events := sink.events + [Event(nodes[c].path, Delete)];
        } else if nodes[c].meta.Dir? && nodes[c].children.Some? {
          work.frames := work.frames + [Frame(c, 0)];
        }
        nodes := nodes[c := nodes[c].(meta := Deleted)];
      }
    }

    /** Re-stats one path and records the difference. */
    method ApplyChange(change: Pending.PendingChange, fs: Snapshot, work: WorkStack, sink: Sink)
      returns (node: Option<NodeId>, recurse: bool)
      requires Forest(Value()) && change.path != []
      modifies this, work, sink
      ensures var r := TreeModel.ApplyChange(old(Value()), fs, change);
              && Value() == r.tree && node == r.node && recurse == r.recurse
              && sink.events == old(sink.events) + r.events
      ensures sink.watches == old(sink.watches) && work.frames == old(work.frames)
    {
      var m := ForPath(fs, change.path);
      var recursive := change.flags.recursiveCrawl || change.flags.nonRecursiveCrawl;
      if change.path in pathTable {
        var id := pathTable[change.path];
        if m.Some? {
          recurse := Restat(id, m.value, change, recursive, sink);
        } else {
          Vanish(id, change, work, sink);
          recurse := true;
        }
        return Some(id), recurse;
      }
      if m.None? {
        assert sink.events + [] == sink.events;
        return None, true;
      }
      var id := |nodes|;
      pathTable := pathTable[change.path := id];
      assert Up(change.path) != change.path;
      if Up(change.path) !in pathTable {
        pathTable := pathTable - {change.path};
        assert pathTable == old(pathTable);
        assert sink.events + [] == sink.events;
        return None, true;
      }
      recurse := Discover(pathTable[Up(change.path)], m.value, change, old(Value()), sink);
      return Some(id), recurse;
    }

    /** The occupied entry whose path still exists. */
    method Restat(id: NodeId, m: Metadata, change: Pending.PendingChange, crawl: bool, sink: Sink)
        returns (recurse: bool)
      requires id < |nodes| && crawl == (change.flags.recursiveCrawl || change.flags.nonRecursiveCrawl)
      modifies this, sink
      ensures var r := TreeModel.Restat(old(Value()), id, m, change);
              Value() == r.tree && recurse == r.recurse && sink.events == old(sink.events) + r.events
      ensures sink.watches == old(sink.watches)
    {
      ghost var t := Value();
      ghost var spec := TreeModel.Restat(t, id, m, change);
      var recursive := crawl;
      if change.flags.markRecursive {
        nodes := nodes[id := nodes[id].(coverage := Recursive)];
      }
      var meta := MetaOf(m);
      var inodeChanged := m.inode != nodes[id].inode;
      recursive := recursive || inodeChanged;
      var changed := ChangeType(nodes[id].meta, meta, inodeChanged || change.flags.originWatcher);
      if changed.Some? {
        sink.events := sink.events + [Event(change.path, changed.value)];
        recursive := recursive || changed.value == Create;
      }
      nodes := nodes[id := nodes[id].(inode := m.inode, meta := meta)];
      assert Value() == SetNode(t, id, t.nodes[id].(
                          coverage := if change.flags.markRecursive then Recursive else t.nodes[id].coverage,
                          inode := m.inode, meta := meta));
      var watchChildren := nodes[id].coverage != Uncovered;
      if m.isDir && nodes[id].children.None? && m.size != 0 && watchChildren {
        var _ := ReserveDir(id);
      }
      recurse := recursive && watchChildren;
    }

    /** The occupied entry whose path is gone. */
    method Vanish(id: NodeId, change: Pending.PendingChange, work: WorkStack, sink: Sink)
      requires Forest(Value()) && id < |nodes|
      modifies this, work, sink
      ensures var r := TreeModel.Vanish(old(Value()), id, change);
              Value() == r.tree && sink.events == old(sink.events) + r.events
      ensures sink.watches == old(sink.watches) && work.frames == old(work.frames)
    {
      ghost var t := Value();
      var oldMeta := nodes[id].meta;
      if change.flags.markRecursive {
        nodes := nodes[id := nodes[id].(coverage := Recursive)];
      }
      nodes := nodes[id := nodes[id].(meta := Deleted)];
      ShapeKeepsForest(t, Value());
      hide Forest, TreeModel.DeleteRec;
      assert Value() == SetNode(t, id, t.nodes[id].(
                          coverage := if change.flags.markRecursive then Recursive else t.nodes[id].coverage,
                          meta := Deleted));
      match oldMeta {
        case Dir => DeleteRec(id, work, sink);
        case File(_, _) => sink.events := sink.events + [Event(change.path, Delete)];
        case Deleted =>
      }
    }

    /** A new path below a known parent. The index entry is already there. */
    method Discover(parent: NodeId, m: Metadata, change: Pending.PendingChange, ghost t: Tree, sink: Sink)
        returns (recurse: bool)
      requires Forest(t) && Value() == t.(table := t.table[change.path := |t.nodes|]) && parent < |nodes|
      modifies this, sink
      ensures var r := TreeModel.Discover(t, parent, m, change);
              Value() == r.tree && recurse == r.recurse && sink.events == old(sink.events) + r.events
      ensures sink.watches == old(sink.watches)
    {
      hide TableOk, KidsBelow, Descending;
      var id := |nodes|;
      AddChildKids(Value(), parent, id);
      AddChild(parent, id);
      recurse := change.flags.markRecursive || nodes[parent].coverage == Recursive;
      nodes := nodes + [Node(change.path, MetaOf(m), m.inode, false, if recurse then Recursive else Uncovered, None)];
      if !m.isDir {
        sink.events := sink.events + [Event(change.path, Create)];
      } else if recurse && m.size != 0 {
        var _ := ReserveDir(id);
      }
    }

    /** Adds a path that is not known yet, or makes a known one recursive. */
    method Add(path: Path, fs: Snapshot, recursive: bool, root: bool) returns (node: Option<NodeId>)
      requires Forest(Value()) && path != []
      modifies this
      ensures var r := TreeModel.Add(old(Value()), fs, path, recursive, root); Value() == r.tree && node == r.node
    {
      if path in pathTable {
        var id := pathTable[path];
        if !recursive || (root && !nodes[id].meta.Dir?) || nodes[id].coverage == Recursive {
          return None;
        }
        nodes := nodes[id := nodes[id].(coverage := Recursive)];
        return Some(id);
      }
      var stat := ForPath(fs, path);
      if stat.None? {
        return None;
      }
      var m := stat.value;
      var id := |nodes|;
      ghost var t := Value();
      pathTable := pathTable[path := id];
      assert Up(path) != path;
      if Up(path) in pathTable {
        AddChild(pathTable[Up(path)], id);
        AddChildKids(t.(table := t.table[path := id]), t.table[Up(path)], id);
      } else if !root {
        pathTable := pathTable - {path};
        assert pathTable == old(pathTable);
        return None;
      }
      var coverage := if recursive then Recursive else if root then ChildrenOnly else Uncovered;
      nodes := nodes + [Node(path, MetaOf(m), m.inode, false, coverage, None)];
      if m.isDir && (recursive || root) && m.size != 0 {
        var _ := ReserveDir(id);
      }
      return Some(id);
    }

    // ------------------------------------------------------------------ crawling

    /** Tags every child of a directory as not visited yet. */
    method MarkChildren(ids: seq<NodeId>)
      requires InArena(Value(), ids)
      modifies this
      ensures Value() == WithFlag(old(Value()), ids)
    {
      ghost var t := Value();
      for i := 0 to |ids|
        invariant pathTable == t.table && dirs == t.dirs && |nodes| == |t.nodes|
        invariant forall k :: 0 <= k < |nodes| ==>
                    nodes[k] == if k in ids[..i] then t.nodes[k].(maybeDeleted := true) else t.nodes[k]
      {
        assert ids[..i + 1] == ids[..i] + [ids[i]];
        assert InArena(t, ids);
        nodes := nodes[ids[i] := nodes[ids[i]].(maybeDeleted := true)];
      }
      assert ids[..|ids|] == ids;
    }

    /** Reports and deletes the children of a finished directory that were not visited. */
    method SweepChildren(ids: seq<NodeId>, work: WorkStack, sink: Sink)
      requires Forest(Value()) && InArena(Value(), ids)
      modifies this, work, sink
      ensures Value() == Sweep(old(Value()), ids).tree
      ensures sink.events == old(sink.events) + Sweep(old(Value()), ids).events
      ensures sink.watches == old(sink.watches) && work.frames == old(work.frames)
    {
      hide TableOk, ListsOwned, Descending, KidsBelow, Sweep, SweepOne;
      ghost var goal := Sweep(Value(), ids);
      ghost var t, done: seq<Event> := Value(), [];
      assert ids[0..] == ids;
      for i := 0 to |ids|
        invariant Value() == t && Forest(t) && InArena(t, ids) && InArena(t, ids[i..])
        invariant sink.events == old(sink.events) + done
        invariant Sweep(t, ids[i..]).tree == goal.tree && done + Sweep(t, ids[i..]).events == goal.events
        invariant sink.watches == old(sink.watches) && work.frames == old(work.frames)
      {
        ghost var u := SweepAhead(t, ids, i, done);
        SweepChild(ids[i], work, sink);
        t, done := u.tree, u.events;
      }
      assert ids[|ids|..] == [];
      SweepNone(t);
      assert done + [] == done;
    }

    method SweepChild(child: NodeId, work: WorkStack, sink: Sink)
      requires Forest(Value()) && child < |nodes|
      modifies this, work, sink
      ensures Value() == SweepOne(old(Value()), child).tree
      ensures sink.events == old(sink.events) + SweepOne(old(Value()), child).events
      ensures sink.watches == old(sink.watches) && work.frames == old(work.frames)
    {
      hide Forest, TreeModel.DeleteRec;
      if nodes[child].maybeDeleted {
        if nodes[child].meta.File? {
          sink.events := sink.events + [Event(nodes[child].path, Delete)];
        }
        DeleteRec(child, work, sink);
      }
    }

    /** Finishes the frames at or below `depth`. */
    method PopFrames(depth: nat, work: WorkStack, sink: Sink, ghost c0: Crawl, ghost es: seq<Event>)
      requires Forest(c0.tree) && Listed(c0.tree, c0.stack)
      requires Value() == c0.tree && work.frames == c0.stack && sink.events == es + c0.events
      modifies this, work, sink
      ensures var r := PopWhile(c0, depth);
              Value() == r.tree && work.frames == r.stack && sink.events == es + r.events
      ensures sink.watches == old(sink.watches)
    {
      hide Forest, PopFrame, PopWhile, Sweep, Listed;
      ghost var c := c0;
      while |work.frames| > 0 && work.frames[|work.frames| - 1].depth >= depth
        invariant Forest(c.tree) && Listed(c.tree, c.stack) && PopWhile(c, depth) == PopWhile(c0, depth)
        invariant Value() == c.tree && work.frames == c.stack && sink.events == es + c.events
        invariant sink.watches == old(sink.watches)
        decreases |work.frames|
      {
        ghost var r := PopFrame(c);
        var node := work.frames[|work.frames| - 1].node;
        PopFrameIs(c);
        PopWhileIs(c, depth);
        work.frames := work.frames[..|work.frames| - 1];
        var kids := dirs[nodes[node].children.value];
        SweepChildren(kids, work, sink);
        c := r;
      }
      PopWhileIs(c, depth);
    }

    /** (Recursively) crawls a directory to bring the tree in line with the snapshot;
        `walk` is what the directory walk yields below the root. */
    method Crawl(root: NodeId, fs: Snapshot, filter: Filter, walk: seq<Entry>, work: WorkStack, sink: Sink)
      requires Forest(Value()) && root < |nodes| && Listed(Value(), work.frames)
      requires forall i :: 0 <= i < |walk| ==> walk[i].path != []
      modifies this, work, sink
      ensures var r := RunCrawl(old(Value()), fs, filter, root, old(work.frames), walk);
              && Value() == r.tree && work.frames == r.stack
              && sink.events == old(sink.events) + r.events && sink.watches == old(sink.watches) + r.watches
    {
      hide Forest, Listed, Start, PopWhile, RunCrawl, RunWalk, Shallow, WithFlag;
      var path := nodes[root].path;
      var recursive := nodes[root].coverage == Recursive;
      var entries := if recursive then walk else Shallow(path, walk);
      ghost var es, ws := sink.events, sink.watches;
      ghost var c := Start(Value(), root, work.frames);
      if !recursive { ShallowPaths(path, walk); }
      StartIs(Value(), root, work.frames);
      sink.watches := sink.watches + [path];
      if nodes[root].children.Some? {
        KidsInArena(Value(), root);
        MarkChildren(dirs[nodes[root].children.value]);
        work.frames := work.frames + [Frame(root, 0)];
      }
      assert es + [] == es;
      CrawlEntries(path, recursive, fs, filter, entries, work, sink, c, es, ws);
      PopFrames(0, work, sink, RunWalk(c, fs, filter, recursive, path, entries), es);
      RunCrawlIs(old(Value()), fs, filter, root, old(work.frames), walk);
    }

    /** The loop over what the walk yields. */
    method CrawlEntries(path: Path, recursive: bool, fs: Snapshot, filter: Filter, walk: seq<Entry>, work: WorkStack,
                        sink: Sink,
                        ghost c0: Crawl, ghost es: seq<Event>, ghost ws: seq<Path>)
      requires Forest(c0.tree) && Listed(c0.tree, c0.stack) && forall i :: 0 <= i < |walk| ==> walk[i].path != []
      requires Value() == c0.tree && work.frames == c0.stack && sink.events == es + c0.events
               && sink.watches == ws + c0.watches
      modifies this, work, sink
      ensures var r := RunWalk(c0, fs, filter, recursive, path, walk);
              && Value() == r.tree && work.frames == r.stack
              && sink.events == es + r.events && sink.watches == ws + r.watches
    {
      hide Forest, Listed, Visit;
      var rest := walk;
      ghost var c := c0;
      ghost var goal := RunWalk(c, fs, filter, recursive, path, rest);
      while rest != []
        invariant Forest(c.tree) && Listed(c.tree, c.stack)
        invariant RunWalk(c, fs, filter, recursive, path, rest) == goal
        invariant Value() == c.tree && work.frames == c.stack
        invariant sink.events == es + c.events && sink.watches == ws + c.watches
        invariant forall i :: 0 <= i < |rest| ==> rest[i].path != []
        decreases |rest|
      {
        var child := rest[0];
        rest := rest[1..];
        if filter(child.path, Some(child.isDir)) {
          if child.isDir {
            SkipDirMembers(rest, child.path);
            rest := SkipDir(rest, child.path);
          }
        } else {
          VisitChild(child.path, DepthOf(path, child.path), recursive, fs, work, sink, c, es, ws);
          c := Visit(c, fs, recursive, child.path, DepthOf(path, child.path));
        }
      }
    }

    /** One admitted entry of the walk. */
    method VisitChild(path: Path, depth: nat, recursive: bool, fs: Snapshot, work: WorkStack, sink: Sink,
                      ghost c: Crawl, ghost es: seq<Event>, ghost ws: seq<Path>)
      requires Forest(c.tree) && Listed(c.tree, c.stack) && path != []
      requires Value() == c.tree && work.frames == c.stack && sink.events == es + c.events
               && sink.watches == ws + c.watches
      modifies this, work, sink
      ensures var r := Visit(c, fs, recursive, path, depth);
              && Value() == r.tree && work.frames == r.stack
              && sink.events == es + r.events && sink.watches == ws + r.watches
    {
      hide Forest, TreeModel.ApplyChange, PopWhile;
      ghost var a := ApplyEntry(c.tree, fs, recursive, path);
      ghost var applied := VisitIsParts(c, fs, recursive, path, depth);
      var node, _ := ApplyChange(Pending.PendingChange(path, CrawlFlags(recursive)), fs, work, sink);
      assert es + c.events + a.events == es + (c.events + a.events);
      if node.None? {
        return;
      }
      var id := node.value;
      nodes := nodes[id := nodes[id].(maybeDeleted := false)];
      PopFrames(depth, work, sink, applied, es);
      ghost var d := PopWhile(applied, depth);
      if nodes[id].meta.Dir? && recursive {
        sink.watches := sink.watches + [path];
        assert ws + d.watches + [path] == ws + (d.watches + [path]);
        if nodes[id].children.Some? {
          KidsInArena(Value(), id);
          MarkChildren(dirs[nodes[id].children.value]);
          work.frames := work.frames + [Frame(id, depth)];
        }
      }
    }

    /** The first crawl of a new root: whatever is found is added without an event. */
    method CrawlRoot(root: NodeId, recursive: bool, fs: Snapshot, filter: Filter, walk: seq<Entry>, sink: Sink)
      requires Forest(Value()) && root < |nodes| && forall i :: 0 <= i < |walk| ==> walk[i].path != []
      modifies this, sink
      ensures var w := RootWalk(recursive, old(nodes[root].path), walk);
              && (forall i :: 0 <= i < |w| ==> w[i].path != [])
              && Value() == Runs.CrawlRoot(old(Value()), fs, filter, recursive, w).tree
              && sink.watches == old(sink.watches) + Runs.CrawlRoot(old(Value()), fs, filter, recursive, w).watches
      ensures sink.events == old(sink.events)
    {
      hide Forest, Runs.CrawlRoot, RootWalk;
      RootWalkProper(recursive, nodes[root].path, walk);
      AddEntries(recursive, fs, filter, RootWalk(recursive, nodes[root].path, walk), sink);
    }

    method AddEntries(recursive: bool, fs: Snapshot, filter: Filter, walk: seq<Entry>, sink: Sink)
      requires Forest(Value()) && forall i :: 0 <= i < |walk| ==> walk[i].path != []
      modifies this, sink
      ensures var r := Runs.CrawlRoot(old(Value()), fs, filter, recursive, walk);
              Value() == r.tree && sink.watches == old(sink.watches) + r.watches
      ensures sink.events == old(sink.events)
    {
      hide Forest, TreeModel.Add, Runs.CrawlRoot, EntriesLeft;
      var rest := walk;
      ghost var ws, done: seq<Path> := sink.watches, [];
      ghost var goal := Runs.CrawlRoot(Value(), fs, filter, recursive, walk);
      EntriesStart(Value(), fs, filter, recursive, walk);
      while rest != []
        invariant Forest(Value()) && EntriesLeft(Value(), fs, filter, recursive, rest, done, goal)
        invariant forall i :: 0 <= i < |rest| ==> rest[i].path != []
        invariant sink.watches == ws + done && sink.events == old(sink.events)
        decreases |rest|
      {
        var child := rest[0];
        if filter(child.path, Some(child.isDir)) {
          EntryIgnored(Value(), fs, filter, recursive, rest, done, goal);
          rest := rest[1..];
          if child.isDir {
            rest := SkipDir(rest, child.path);
          }
        } else {
          ghost var added := TreeModel.Add(Value(), fs, child.path, recursive, false);
          EntryAdded(Value(), fs, filter, recursive, rest, done, goal);
          var node := Add(child.path, fs, recursive, false);
          rest := rest[1..];
          if node.None? {
            rest := SkipAfter(rest, child);
          } else if nodes[node.value].meta.Dir? && recursive {
            sink.watches := sink.watches + [nodes[node.value].path];
          }
          done := done + WatchOf(added, recursive);
        }
      }
      EntriesEnd(Value(), fs, filter, recursive, done, goal);
    }
  }

  /** What is left of the entries completes the first crawl. */
  ghost predicate EntriesLeft(t: Tree, fs: Snapshot, filter: Filter, recursive: bool, rest: seq<Entry>,
                              done: seq<Path>, goal: RootCrawl)
    requires Forest(t)
  {
    && (forall i :: 0 <= i < |rest| ==> rest[i].path != [])
    && goal == RootCrawl(Runs.CrawlRoot(t, fs, filter, recursive, rest).tree,
                         done + Runs.CrawlRoot(t, fs, filter, recursive, rest).watches)
  }

  lemma {:induction false} EntriesStart(t: Tree, fs: Snapshot, filter: Filter, recursive: bool, walk: seq<Entry>)
    requires Forest(t) && forall i :: 0 <= i < |walk| ==> walk[i].path != []
    ensures EntriesLeft(t, fs, filter, recursive, walk, [], Runs.CrawlRoot(t, fs, filter, recursive, walk))
  {
    hide Forest, Runs.CrawlRoot;
    var r := Runs.CrawlRoot(t, fs, filter, recursive, walk);
    assert [] + r.watches == r.watches;
  }

  lemma {:induction false} EntriesEnd(t: Tree, fs: Snapshot, filter: Filter, recursive: bool, done: seq<Path>,
                                      goal: RootCrawl)
    requires Forest(t) && EntriesLeft(t, fs, filter, recursive, [], done, goal)
    ensures goal == RootCrawl(t, done)
  {
    CrawlRootDone(t, fs, filter, recursive);
    hide Forest, Runs.CrawlRoot;
    assert done + [] == done;
  }

  lemma {:induction false} EntryIgnored(t: Tree, fs: Snapshot, filter: Filter, recursive: bool, rest: seq<Entry>,
                                        done: seq<Path>, goal: RootCrawl)
    requires Forest(t) && rest != [] && filter(rest[0].path, Some(rest[0].isDir))
    requires EntriesLeft(t, fs, filter, recursive, rest, done, goal)
    ensures var e := rest[0]; var next := if e.isDir then SkipDir(rest[1..], e.path) else rest[1..];
            && (forall i :: 0 <= i < |next| ==> next[i].path != [])
            && EntriesLeft(t, fs, filter, recursive, next, done, goal)
  {
    hide Forest, Runs.CrawlRoot;
    CrawlRootIgnores(t, fs, filter, recursive, rest);
  }

  lemma {:induction false} EntryAdded(t: Tree, fs: Snapshot, filter: Filter, recursive: bool, rest: seq<Entry>,
                                      done: seq<Path>, goal: RootCrawl)
    requires Forest(t) && rest != [] && !filter(rest[0].path, Some(rest[0].isDir))
    requires EntriesLeft(t, fs, filter, recursive, rest, done, goal)
    ensures var added := TreeModel.Add(t, fs, rest[0].path, recursive, false);
            var next := AfterAdd(added, rest[0], rest[1..]);
            && Forest(added.tree) && (added.node.Some? ==> added.node.value < |added.tree.nodes|)
            && (forall i :: 0 <= i < |next| ==> next[i].path != [])
            && EntriesLeft(added.tree, fs, filter, recursive, next, done + WatchOf(added, recursive), goal)
  {
    hide Forest, Runs.CrawlRoot, TreeModel.Add, WatchOf, AfterAdd;
    CrawlRootAdds(t, fs, filter, recursive, rest);
    var added := TreeModel.Add(t, fs, rest[0].path, recursive, false);
    var later := Runs.CrawlRoot(added.tree, fs, filter, recursive, AfterAdd(added, rest[0], rest[1..])).watches;
    assert done + (WatchOf(added, recursive) + later) == (done + WatchOf(added, recursive)) + later;
  }

  lemma {:induction false} CrawlRootDone(t: Tree, fs: Snapshot, filter: Filter, recursive: bool)
    requires Forest(t)
    ensures Runs.CrawlRoot(t, fs, filter, recursive, []) == RootCrawl(t, [])
  {
  }

  lemma {:induction false} CrawlRootIgnores(t: Tree, fs: Snapshot, filter: Filter, recursive: bool, walk: seq<Entry>)
    requires Forest(t) && walk != [] && filter(walk[0].path, Some(walk[0].isDir))
    requires forall i :: 0 <= i < |walk| ==> walk[i].path != []
    ensures var e := walk[0]; var next := if e.isDir then SkipDir(walk[1..], e.path) else walk[1..];
            && (forall i :: 0 <= i < |next| ==> next[i].path != [])
            && Runs.CrawlRoot(t, fs, filter, recursive, walk) == Runs.CrawlRoot(t, fs, filter, recursive, next)
  {
    hide Forest;
    SkipDirMembers(walk[1..], walk[0].path);
  }

  /** Where `crawl_root` goes on after adding `e`, and what it asked to watch. */
  function AfterAdd(added: Added, e: Entry, rest: seq<Entry>): seq<Entry> {
    if added.node.None? then SkipAfter(rest, e) else rest
  }

  function WatchOf(added: Added, recursive: bool): seq<Path> {
    if added.node.Some? && added.node.value < |added.tree.nodes| && added.tree.nodes[added.node.value].meta.Dir?
        && recursive
    then [added.tree.nodes[added.node.value].path] else []
  }

  lemma {:induction false} CrawlRootAdds(t: Tree, fs: Snapshot, filter: Filter, recursive: bool, walk: seq<Entry>)
    requires Forest(t) && walk != [] && !filter(walk[0].path, Some(walk[0].isDir))
    requires forall i :: 0 <= i < |walk| ==> walk[i].path != []
    ensures var added := TreeModel.Add(t, fs, walk[0].path, recursive, false);
            var next := AfterAdd(added, walk[0], walk[1..]);
            var all := Runs.CrawlRoot(t, fs, filter, recursive, walk);
            && Forest(added.tree) && (added.node.Some? ==> added.node.value < |added.tree.nodes|)
            && (forall i :: 0 <= i < |next| ==> next[i].path != [])
            && all.tree == Runs.CrawlRoot(added.tree, fs, filter, recursive, next).tree
            && all.watches
               == WatchOf(added, recursive) + Runs.CrawlRoot(added.tree, fs, filter, recursive, next).watches
  {
    hide Forest, TreeModel.Add;
    var e, rest := walk[0], walk[1..];
    SkipDirMembers(rest, e.path);
    SkipDirMembers(rest, Up(e.path));
    AddKeepsForest(t, fs, e.path, recursive, false);
    AddedInArena(t, fs, e.path, recursive, false);
    var added := TreeModel.Add(t, fs, e.path, recursive, false);
    var later := Runs.CrawlRoot(added.tree, fs, filter, recursive, AfterAdd(added, e, rest)).watches;
    assert [] + later == later;
  }

  lemma {:induction false} SweepAhead(t: Tree, ids: seq<NodeId>, i: nat, done: seq<Event>) returns (u: Cut)
    requires Forest(t) && InArena(t, ids) && i < |ids|
    ensures u == Cut(SweepOne(t, ids[i]).tree, done + SweepOne(t, ids[i]).events)
    ensures Forest(u.tree) && InArena(u.tree, ids) && InArena(u.tree, ids[i + 1..]) && InArena(t, ids[i..])
    ensures Sweep(t, ids[i..]).tree == Sweep(u.tree, ids[i + 1..]).tree
    ensures done + Sweep(t, ids[i..]).events == u.events + Sweep(u.tree, ids[i + 1..]).events
  {
    var first := SweepOne(t, ids[i]);
    u := Cut(first.tree, done + first.events);
    ShapeKeepsForest(t, first.tree);
    assert ids[i..][1..] == ids[i + 1..];
    assert done + (first.events + Sweep(u.tree, ids[i + 1..]).events)
           == (done + first.events) + Sweep(u.tree, ids[i + 1..]).events;
  }

  lemma {:induction false} SweepNone(t: Tree)
    requires Forest(t)
    ensures Sweep(t, []) == Cut(t, [])
  {
  }

  lemma {:induction false} KidsInArena(t: Tree, id: NodeId)
    requires Forest(t) && id < |t.nodes|
    ensures InArena(t, Kids(t, id))
    ensures t.nodes[id].children.Some? ==>
              t.nodes[id].children.value < |t.dirs| && Kids(t, id) == t.dirs[t.nodes[id].children.value]
  {
  }

  lemma {:induction false} StartIs(t: Tree, root: NodeId, stack: seq<Frame>)
    requires Forest(t) && root < |t.nodes| && Listed(t, stack)
    ensures Start(t, root, stack)
         == if t.nodes[root].children.Some?
            then Crawl(WithFlag(t, Kids(t, root)), stack + [Frame(root, 0)], [], [t.nodes[root].path])
            else Crawl(t, stack, [], [t.nodes[root].path])
  {
  }

  lemma {:induction false} RunCrawlIs(t: Tree, fs: Snapshot, filter: Filter, root: NodeId, stack: seq<Frame>,
                                      walk: seq<Entry>)
    requires Forest(t) && root < |t.nodes| && Listed(t, stack)
    ensures var recursive := t.nodes[root].coverage == Recursive; var path := t.nodes[root].path;
            var rest := if recursive then walk else Shallow(path, walk);
            RunCrawl(t, fs, filter, root, stack, walk)
              == PopWhile(RunWalk(Start(t, root, stack), fs, filter, recursive, path, rest), 0)
  {
  }

  lemma {:induction false} ShallowPaths(root: Path, walk: seq<Entry>)
    requires forall i :: 0 <= i < |walk| ==> walk[i].path != []
    ensures forall i :: 0 <= i < |Shallow(root, walk)| ==> Shallow(root, walk)[i].path != []
  {
    if walk != [] { ShallowPaths(root, walk[1..]); }
  }

  /** The pieces of a visit. */
  lemma {:induction false} VisitIsParts(c: Crawl, fs: Snapshot, recursive: bool, path: Path, depth: nat)
      returns (applied: Crawl)
    requires Forest(c.tree) && Listed(c.tree, c.stack)
    ensures var r := TreeModel.ApplyChange(c.tree, fs, Pending.PendingChange(path, CrawlFlags(recursive)));
            var a := ApplyEntry(c.tree, fs, recursive, path);
            && a.events == r.events && a.node == r.node && Forest(a.tree)
            && (r.node.None? ==> a.tree == r.tree)
            && (r.node.Some? ==> r.node.value < |r.tree.nodes| && a.tree == WithoutFlag(r.tree, r.node.value))
            && applied == Crawl(a.tree, c.stack, c.events + a.events, c.watches)
            && Listed(a.tree, c.stack)
            && Visit(c, fs, recursive, path, depth)
               == (if a.node.None? then applied
                   else Enter(PopWhile(applied, depth), a.node.value, path, depth, recursive))
  {
    ApplyKeepsListed(c.tree, fs, recursive, path, c.stack);
    ApplyNodeInArena(c.tree, fs, Pending.PendingChange(path, CrawlFlags(recursive)));
    var a := ApplyEntry(c.tree, fs, recursive, path);
    applied := Crawl(a.tree, c.stack, c.events + a.events, c.watches);
  }

  lemma {:induction false} NextRound(s: Deleting) returns (r: Deleting)
    requires DeletingOk(s) && s.frames != []
    ensures r == Round(s) && DeletingOk(r) && Unwind(r.tree, r.frames, r.events) == Unwind(s.tree, s.frames, s.events)
    ensures LiveDirs(r.tree) < LiveDirs(s.tree)
         || (LiveDirs(r.tree) == LiveDirs(s.tree)
             && (|r.frames| < |s.frames| || (|r.frames| == |s.frames| && 0 <= Remaining(r) < Remaining(s))))
  {
    hide LiveDirs, Unwind, Remaining, Round;
    r := Round(s);
    RoundKeepsGoal(s);
    RoundDecreases(s);
  }

  lemma {:induction false} FrameInStack(s: Deleting, f: Frame)
    requires DeletingOk(s) && s.frames != [] && f == s.frames[|s.frames| - 1]
    ensures DeleteFrame(s.tree, f)
  {
  }

  lemma {:induction false} StackTail(base: seq<Frame>, above: seq<Frame>)
    requires above != []
    ensures var n := |base + above| - 1;
            && (base + above)[n] == above[|above| - 1]
            && (base + above)[..n] == base + above[..|above| - 1]
  {
  }

  lemma {:induction false} StackPush(base: seq<Frame>, above: seq<Frame>, f: Frame)
    ensures base + above + [f] == base + (above + [f])
  {
  }

  lemma {:induction false} KidInArena(t: Tree, id: NodeId, k: nat)
    requires Forest(t) && id < |t.nodes| && k < |Kids(t, id)|
    ensures Kids(t, id)[k] < |t.nodes|
  {
  }

  lemma {:induction false} DeleteStart(t: Tree, id: NodeId, es: seq<Event>) returns (goal: Cut)
    requires Forest(t) && id < |t.nodes| && t.nodes[id].children.Some?
    ensures var s := Deleting(SetMeta(t, id, Deleted), [Frame(id, 0)], es);
            DeletingOk(s) && Unwind(s.tree, s.frames, s.events) == goal
    ensures goal == Cut(TreeModel.DeleteRec(t, id).tree, es + TreeModel.DeleteRec(t, id).events)
  {
    var m := SetMeta(t, id, Deleted);
    ShapeKeepsForest(t, m);
    assert DeleteFrame(m, Frame(id, 0));
    assert [] + [Frame(id, 0)] == [Frame(id, 0)];
    var cut := CutKids(m, id, 0);
    UnwindTop(m, [], Frame(id, 0), es);
    UnwindDone(cut.tree, es + cut.events);
    goal := Cut(cut.tree, es + cut.events);
  }

  lemma {:induction false} UnwindDone(t: Tree, es: seq<Event>)
    requires Descending(t)
    ensures DeleteFrames(t, []) && Unwind(t, [], es) == Cut(t, es)
  {
  }
}
