/** The worker as the object it is in src/worker.rs. Each method is proved to take the
    steps of the state machine in `WorkerMachine`. */
module WorkerLoop {
  import opened Paths
  import opened Events
  import opened TreeModel
  import opened CrawlModel
  import opened Linking
  import opened Adding
  import opened Roots
  import opened Transactions
  import opened RootRuns
  import opened WorkerMachine
  import FileTree
  import Runs
  import Pending

  // ------------------------------------------------------ several steps at once

  /** Crawls the remaining roots and goes back to waiting. */
  ghost function CrawlRest(s: Worker, fs: Snapshot, filter: Filter, walker: Walker): (r: Worker)
    requires Ok(s) && s.phase.Recrawling?
    ensures Forest(r.tree)
    decreases |s.roots| - s.phase.next
  {
    if s.phase.next == |s.roots| then Act(s, EndRecrawl)
    else
      var a := CrawlNext(fs, filter, walker(PathOf(s.tree, s.roots[s.phase.next])));
      ActKeepsOk(s, a);
      CrawlRest(Act(s, a), fs, filter, walker)
  }

  /** Applies the rest of the batch and goes back to waiting. */
  ghost function ApplyRest(s: Worker, fs: Snapshot, filter: Filter, walker: Walker): (r: Worker)
    requires Ok(s) && s.phase.Draining?
    ensures Forest(r.tree)
    decreases if s.phase.Draining? then |s.phase.rest| else 0
  {
    if s.phase.rest == [] then Act(s, EndTransaction)
    else
      ActKeepsOk(s, Apply(fs, filter, walker));
      ApplyRest(Act(s, Apply(fs, filter, walker)), fs, filter, walker)
  }

  /** The transaction loop and the machine's steps are the same thing. */
  lemma {:induction false} ApplyRestIsTransact(s: Worker, fs: Snapshot, filter: Filter, walker: Walker)
    requires Ok(s) && s.phase.Draining?
    ensures var r := Transact(s.tree, fs, filter, walker, s.phase.rest);
            ApplyRest(s, fs, filter, walker)
            == s.(phase := Waiting, tree := r.tree, window := s.window + r.events,
                  watches := s.watches + Deeply(r.watches))
    decreases if s.phase.Draining? then |s.phase.rest| else 0
  {
    hide Forest, RootsOk, ApplyOne, Pending.StrictlySorted, NoRootDir, Transact, QueueOk, BufferOk;
    var rest := s.phase.rest;
    if rest == [] {
      RestAtEnd(s.tree, fs, filter, walker, [], [], Transact(s.tree, fs, filter, walker, []));
      assert s.window + [] == s.window && s.watches + Deeply([]) == s.watches;
    } else {
      var a := Apply(fs, filter, walker);
      ActKeepsOk(s, a);
      ApplyRestIsTransact(Act(s, a), fs, filter, walker);
      TransactStep(s.tree, fs, filter, walker, rest, s.window, []);
      var one := ApplyOne(s.tree, fs, filter, walker, rest[0]);
      var later := Transact(one.tree, fs, filter, walker, rest[Consumed(one, rest)..]);
      NothingFirst(Transact(s.tree, fs, filter, walker, rest).watches, one.watches, later.watches);
      DeeplyJoined(s.watches, one.watches, later.watches);
    }
  }

  lemma {:induction false} NothingFirst(all: seq<Path>, a: seq<Path>, b: seq<Path>)
    requires [] + all == [] + a + b
    ensures all == a + b
  {
    assert [] + all == all && [] + a == a;
  }

  lemma {:induction false} DeeplyJoined(ws: seq<Watch>, a: seq<Path>, b: seq<Path>)
    ensures ws + Deeply(a) + Deeply(b) == ws + Deeply(a + b)
  {
    assert Deeply(a) + Deeply(b) == Deeply(a + b);
  }

  // ---------------------------------------------------------------- the object

  /** What the backend was asked to watch. Whether it does is its own affair. */
  class Backend {
    var asked: seq<Watch>

    constructor ()
      ensures asked == []
    {
      asked := [];
    }

    method WatchDir(path: Path, recursive: bool)
      modifies this
      ensures asked == old(asked) + [Watch(path, recursive)]
    {
      asked := asked + [Watch(path, recursive)];
    }
  }

  class Loop {
    const pendingChanges: Pending.PendingChanges
    const events: EventDebouncer
    const workStack: FileTree.WorkStack
    const tree: FileTree.FileTree
    const roots: RootList
    const backend: Backend

    ghost predicate Valid()
      reads pendingChanges, events, workStack, tree, roots
    {
      pendingChanges.Valid() && events.Valid() && workStack.frames == []
    }

    /** The machine state this object is in, given what it does not hold itself. */
    ghost function Value(shared: Pending.Queue, phase: Phase, base: Tree): Worker
      reads pendingChanges, events, workStack, tree, roots, backend
      requires Valid()
    {
      Worker(shared, pendingChanges.Value(), phase, tree.Value(), roots.roots, events.history, base, backend.asked)
    }

    constructor ()
      ensures Valid() && fresh(pendingChanges) && fresh(events) && fresh(workStack) && fresh(tree) && fresh(roots)
      ensures fresh(backend)
      ensures Value(Pending.EMPTY, Waiting, TreeModel.EMPTY) == START
    {
      pendingChanges := new Pending.PendingChanges();
      events := new EventDebouncer();
      workStack := new FileTree.WorkStack();
      tree := new FileTree.FileTree();
      roots := new RootList();
      backend := new Backend();
    }

    /** The wait ends: whatever is shared is taken. */
    method WakeUp(shared: Pending.PendingChanges, ghost base: Tree)
      requires Valid() && shared.Valid() && shared != pendingChanges
      requires Ok(Value(shared.Value(), Waiting, base))
      modifies pendingChanges, shared
      ensures Valid() && shared.Valid()
      ensures Value(shared.Value(), Noticing(false), base) == Act(old(Value(shared.Value(), Waiting, base)), Wake)
    {
      hide Ok;
      shared.Swap(pendingChanges);
    }

    /** Waits for changes. `timedOut` says that the clock ended the wait, which it only does
        while nothing is shared; without events to deliver there is no clock. */
    method WaitForChanges(shared: Pending.PendingChanges, timedOut: bool, ghost base: Tree) returns (settled: bool)
      requires Valid() && shared.Valid() && shared != pendingChanges
      requires Ok(Value(shared.Value(), Waiting, base)) && (timedOut ==> shared.Value().IsEmpty())
      modifies pendingChanges, shared
      ensures Valid() && shared.Valid()
      ensures settled <==> timedOut && Coalesce(old(events.history)) != []
      ensures var s := old(Value(shared.Value(), Waiting, base)); var a := if settled then Timeout else Wake;
              Ready(s, a) && Value(shared.Value(), Noticing(settled), base) == Act(s, a)
    {
      hide Ok;
      var empty := events.IsEmpty();
      if empty || !timedOut {
        WakeUp(shared, base);
        return false;
      }
      return true;
    }

    /** A settled batch goes out to the handlers. */
    method DeliverBatch(ghost shared: Pending.Queue, ghost base: Tree) returns (batch: seq<Event>)
      requires Valid() && Ok(Value(shared, Noticing(true), base))
      modifies events
      ensures Valid() && batch == Coalesce(old(events.history))
      ensures Value(shared, Waiting, tree.Value()) == Act(old(Value(shared, Noticing(true), base)), Deliver)
    {
      hide Ok;
      batch := events.Take();
    }

    /** Feeds what the tree emitted into the debouncer. */
    method Emit(es: seq<Event>)
      requires events.Valid()
      modifies events
      ensures events.Valid() && events.history == old(events.history) + es
    {
      hide Indexed, Coalesce, MergesAt;
      for i := 0 to |es|
        invariant events.Valid() && events.history == old(events.history) + es[..i]
      {
        var _ := events.Add(es[i].path, es[i].ty);
        assert es[..i + 1] == es[..i] + [es[i]];
      }
      assert es[..|es|] == es;
    }

    /** Passes on what the tree asks to watch. */
    method WatchAll(paths: seq<Path>)
      modifies backend
      ensures backend.asked == old(backend.asked) + Deeply(paths)
    {
      for i := 0 to |paths|
        invariant backend.asked == old(backend.asked) + Deeply(paths[..i])
      {
        backend.WatchDir(paths[i], true);
        assert Deeply(paths[..i + 1]) == Deeply(paths[..i]) + [Watch(paths[i], true)];
      }
      assert paths[..|paths|] == paths;
    }

    /** One root the user asked for. `watched` is whether the backend accepts it. What the user
        is told is false exactly if the tree takes the root and the backend does not. */
    method AddNewRoot(fs: Snapshot, path: Path, recursive: bool, watched: bool, filter: Filter, walk: seq<Entry>,
                      ghost shared: Pending.Queue, ghost settled: bool, ghost base: Tree)
      returns (accepted: bool)
      requires Valid() && Ok(Value(shared, Noticing(settled), base))
      requires path != [] && forall i :: 0 <= i < |walk| ==> walk[i].path != []
      modifies tree, roots, backend
      ensures Valid()
      ensures accepted <==> watched || !Addable(old(tree.Value()), fs, path, recursive, true)
      ensures Value(shared, Noticing(settled), base)
           == Act(old(Value(shared, Noticing(settled), base)), NewRoot(fs, path, recursive, watched, filter, walk))
    {
      hide Forest, Add, Addable, Runs.CrawlRoot, WithRoot, InOrder, Grows, RootWalk, Deeply, EventDebouncer.Valid,
           Pending.PendingChanges.Valid, Pending.PendingChanges.Value;
      ghost var s := Value(shared, Noticing(settled), base);
      ghost var a := NewRoot(fs, path, recursive, watched, filter, walk);
      StepIs(s, a);
      OkInTree(s);
      hide Ok, Act;
      AddKeepsForest(s.tree, fs, path, recursive, true);
      AddedInArena(s.tree, fs, path, recursive, true);
      AddGrows(s.tree, fs, path, recursive, true);
      NodeIffAddable(s.tree, fs, path, recursive, true);
      var node := tree.Add(path, fs, recursive, true);
      if node.None? {
        return true;
      }
      backend.WatchDir(path, recursive);
      if !watched {
        return false;
      }
      ghost var added := tree.Value();
      AddedPath(s.tree, fs, path, recursive, true);
      CrawlRootGrows(added, fs, filter, recursive, RootWalk(recursive, path, walk));
      var sink := new FileTree.Sink();
      tree.CrawlRoot(node.value, recursive, fs, filter, walk, sink);
      assert sink.watches == Runs.CrawlRoot(added, fs, filter, recursive, RootWalk(recursive, path, walk)).watches;
      WatchAll(sink.watches);
      RootsStayOk(s.tree, added, s.roots);
      RootsStayOk(added, tree.Value(), s.roots);
      NodeStays(added, tree.Value(), node.value);
      roots.Insert(tree.Value(), filter, Root(node.value, recursive));
      return true;
    }

    /** After an overflow every root is crawled, in list order. */
    method CrawlRoots(fs: Snapshot, filter: Filter, walker: Walker, ghost shared: Pending.Queue, ghost base: Tree)
      requires Valid() && WalksProper(walker) && Ok(Value(shared, Recrawling(0), base))
      modifies events, workStack, tree, backend
      ensures Valid()
      ensures Value(shared, Waiting, base) == CrawlRest(old(Value(shared, Recrawling(0), base)), fs, filter, walker)
    {
      hide Ok, WalksProper, CrawlRest, EventDebouncer.Valid, Pending.PendingChanges.Valid, Pending.PendingChanges.Value;
      var k := 0;
      ghost var goal := CrawlRest(Value(shared, Recrawling(0), base), fs, filter, walker);
      while k < |roots.roots|
        invariant k <= |roots.roots| && Valid() && Ok(Value(shared, Recrawling(k), base))
        invariant CrawlRest(Value(shared, Recrawling(k), base), fs, filter, walker) == goal
      {
        CrawlOneRoot(k, fs, filter, walker, shared, base);
        k := k + 1;
      }
      CrawlRestEnds(Value(shared, Recrawling(k), base), fs, filter, walker);
    }

    method CrawlOneRoot(k: nat, fs: Snapshot, filter: Filter, walker: Walker, ghost shared: Pending.Queue,
                        ghost base: Tree)
      requires Valid() && WalksProper(walker) && k < |roots.roots| && Ok(Value(shared, Recrawling(k), base))
      modifies events, workStack, tree, backend
      ensures Valid() && Ok(Value(shared, Recrawling(k + 1), base))
      ensures CrawlRest(old(Value(shared, Recrawling(k), base)), fs, filter, walker)
           == CrawlRest(Value(shared, Recrawling(k + 1), base), fs, filter, walker)
    {
      hide Forest, InOrder, RunCrawl, CrawlRest, Indexed, Coalesce, Pending.StrictlySorted, WalksProper;
      ghost var s := Value(shared, Recrawling(k), base);
      RootAt(s, k);
      var root := roots.roots[k].node;
      var walk := walker(tree.nodes[root].path);
      ghost var a := CrawlNext(fs, filter, walk);
      ActKeepsOk(s, a);
      CrawlRestNext(s, fs, filter, walker);
      CrawlEmpties(s.tree, fs, filter, root, walk);
      var sink := new FileTree.Sink();
      WalkProper(walker, tree.nodes[root].path);
      tree.Crawl(root, fs, filter, walk, workStack, sink);
      Emit(sink.events);
      WatchAll(sink.watches);
      assert Value(shared, Recrawling(k + 1), base) == Act(s, a);
    }

    /** What a turn does when it did not settle: a recrawl if one is asked for, and the
        pending changes otherwise. */
    method Turn(fs: Snapshot, filter: Filter, walker: Walker, ghost shared: Pending.Queue, ghost base: Tree)
      returns (ghost batch: seq<Pending.PendingChange>)
      requires Valid() && WalksProper(walker) && Ok(Value(shared, Noticing(false), base))
      modifies pendingChanges, events, workStack, tree, backend
      ensures Valid()
      ensures var s := old(Value(shared, Noticing(false), base));
              if s.buffer.recrawl then
                && Ok(Act(s, BeginRecrawl))
                && Value(shared, Waiting, base) == CrawlRest(Act(s, BeginRecrawl), fs, filter, walker)
              else
                && Ready(s, BeginTransaction(batch)) && Ok(Act(s, BeginTransaction(batch)))
                && Value(shared, Waiting, base) == ApplyRest(Act(s, BeginTransaction(batch)), fs, filter, walker)
    {
      hide Forest, RootsOk, CrawlRest, WalksProper, ApplyRest, Pending.StrictlySorted, Pending.ListingOf;
      ghost var s := Value(shared, Noticing(false), base);
      var recrawl := pendingChanges.TakeRecrawl();
      if recrawl {
        ActKeepsOk(s, BeginRecrawl);
        CrawlRoots(fs, filter, walker, shared, base);
        batch := [];
      } else {
        batch := ApplyPending(fs, filter, walker, shared, base);
      }
    }

    method ApplyPending(fs: Snapshot, filter: Filter, walker: Walker, ghost shared: Pending.Queue, ghost base: Tree)
      returns (ghost batch: seq<Pending.PendingChange>)
      requires Valid() && WalksProper(walker) && Ok(Value(shared, Noticing(false), base)) && !pendingChanges.recrawl
      modifies pendingChanges, events, workStack, tree, backend
      ensures Valid()
      ensures var s := old(Value(shared, Noticing(false), base)); var a := BeginTransaction(batch);
              && Ready(s, a) && Ok(Act(s, a))
              && Value(shared, Waiting, base) == ApplyRest(Act(s, a), fs, filter, walker)
    {
      hide Forest, RootsOk, WalksProper, ApplyRest, Transact, Pending.StrictlySorted, Pending.ListingOf, Deeply,
           EventDebouncer.Valid;
      ghost var s := Value(shared, Noticing(false), base);
      var sink := new FileTree.Sink();
      batch := ApplyTransaction(tree, pendingChanges, fs, filter, walker, workStack, sink);
      BatchActs(s, batch, fs, filter, walker);
      assert sink.watches == Transact(s.tree, fs, filter, walker, batch).watches;
      Emit(sink.events);
      WatchAll(sink.watches);
    }
  }

  lemma {:induction false} BatchActs(s: Worker, batch: seq<Pending.PendingChange>, fs: Snapshot, filter: Filter,
                                     walker: Walker)
    requires Ok(s) && Ready(s, BeginTransaction(batch))
    ensures var u := Act(s, BeginTransaction(batch)); var r := Transact(s.tree, fs, filter, walker, batch);
            && Ok(u) && u.phase.Draining?
            && ApplyRest(u, fs, filter, walker)
               == s.(phase := Waiting, buffer := Pending.Queue(map[], s.buffer.recrawl), tree := r.tree,
                     window := s.window + r.events, watches := s.watches + Deeply(r.watches))
  {
    hide Forest, RootsOk, ApplyRest, Transact, Pending.StrictlySorted, Pending.ListingOf;
    ActKeepsOk(s, BeginTransaction(batch));
    ApplyRestIsTransact(Act(s, BeginTransaction(batch)), fs, filter, walker);
  }

  /** The node that `add` hands back is the one for the path. */
  lemma {:induction false} AddedPath(t: Tree, fs: Snapshot, path: Path, recursive: bool, root: bool)
    requires Forest(t) && path != []
    ensures var r := Add(t, fs, path, recursive, root);
            r.node.Some? ==> r.node.value < |r.tree.nodes| && r.tree.nodes[r.node.value].path == path
  {
    AddKeepsForest(t, fs, path, recursive, root);
    if path !in t.table && ForPath(fs, path).Some? {
      var m := ForPath(fs, path).value;
      var parent := if Up(path) in t.table then Some(t.table[Up(path)]) else None;
      var coverage := if recursive then Recursive else if root then ChildrenOnly else TreeModel.Uncovered;
      GrowKids(t, parent, Node(path, MetaOf(m), m.inode, false, coverage, None));
    }
    hide Grow, KidsBelow, Descending;
  }

  lemma {:induction false} NodeIffAddable(t: Tree, fs: Snapshot, path: Path, recursive: bool, root: bool)
    requires Forest(t) && path != []
    ensures Add(t, fs, path, recursive, root).node.Some? <==> Addable(t, fs, path, recursive, root)
    ensures Add(t, fs, path, recursive, root).node.None? ==> Add(t, fs, path, recursive, root).tree == t
  {
    AddIs(t, fs, path, recursive, root);
    hide Add, NewAt, RestStays, KidsAt;
  }

  lemma {:induction false} WalkProper(walker: Walker, p: Path)
    requires WalksProper(walker)
    ensures forall i :: 0 <= i < |walker(p)| ==> walker(p)[i].path != []
  {
  }

  lemma {:induction false} CrawlRestEnds(s: Worker, fs: Snapshot, filter: Filter, walker: Walker)
    requires Ok(s) && s.phase == Recrawling(|s.roots|)
    ensures CrawlRest(s, fs, filter, walker) == s.(phase := Waiting)
  {
  }

  lemma {:induction false} CrawlRestNext(s: Worker, fs: Snapshot, filter: Filter, walker: Walker)
    requires Ok(s) && s.phase.Recrawling? && s.phase.next < |s.roots|
    ensures var a := CrawlNext(fs, filter, walker(PathOf(s.tree, s.roots[s.phase.next])));
            Ok(Act(s, a)) && CrawlRest(s, fs, filter, walker) == CrawlRest(Act(s, a), fs, filter, walker)
  {
    hide Ok, Act;
    ActKeepsOk(s, CrawlNext(fs, filter, walker(PathOf(s.tree, s.roots[s.phase.next]))));
  }
}
