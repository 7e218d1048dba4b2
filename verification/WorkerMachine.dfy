/** The worker (src/worker.rs, with the queue hand-over of src/pending.rs) as a state
    machine. Backends report at any moment; the worker's own steps are as fine as the
    lock around the shared queue lets others interleave with. */
module WorkerMachine {
  import opened Paths
  import opened Events
  import opened TreeModel
  import opened CrawlModel
  import opened Runs
  import opened Streams
  import opened Linking
  import opened Roots
  import opened Transactions
  import Changed
  import CrawlClaims
  import CrawlResult
  import Deletion
  import Filters
  import Pending
  import Skipping

  // ------------------------------------------------------------------- the states

  datatype Phase =
    | Waiting
    | Noticing(settled: bool)
    | Recrawling(next: nat)
    | Draining(rest: seq<Pending.PendingChange>)

  /** A directory that the backend was asked to watch, and how deep. */
  datatype Watch = Watch(path: Path, recursive: bool)

  /** `window` holds what was emitted since the last batch was delivered, `base` is the
      tree at that moment; `watches` is all that the backend was ever asked to watch. */
  datatype Worker = Worker(
    shared: Pending.Queue,
    buffer: Pending.Queue,
    phase: Phase,
    tree: Tree,
    roots: seq<Root>,
    window: seq<Event>,
    base: Tree,
    watches: seq<Watch>)

  const START := Worker(Pending.EMPTY, Pending.EMPTY, Waiting, TreeModel.EMPTY, [], [], TreeModel.EMPTY, [])

  datatype Action =
    | Push(path: Path, flags: Pending.Flags)
    | Overflow
    | Wake
    | Timeout
    | NewRoot(fs: Snapshot, path: Path, recursive: bool, watched: bool, filter: Filter, walk: seq<Entry>)
    | Deliver
    | BeginRecrawl
    | CrawlNext(fs: Snapshot, filter: Filter, walk: seq<Entry>)
    | EndRecrawl
    | BeginTransaction(batch: seq<Pending.PendingChange>)
    | Apply(fs: Snapshot, filter: Filter, walker: Walker)
    | EndTransaction

  ghost predicate NoRootDir(batch: seq<Pending.PendingChange>) {
    forall i :: 0 <= i < |batch| ==> batch[i].path != []
  }

  /** When a step can happen. A wait for changes ends whenever the queue is not empty, or
      for a reason of its own; it times out only while the queue is empty and events are
      held back. */
  ghost predicate Ready(s: Worker, a: Action) {
    match a
    case Push(p, _) => p != []
    case Overflow => true
    case Wake => s.phase.Waiting?
    case Timeout => s.phase.Waiting? && s.shared.IsEmpty() && Coalesce(s.window) != []
    case NewRoot(_, p, _, _, _, walk) =>
      s.phase.Noticing? && p != [] && forall i :: 0 <= i < |walk| ==> walk[i].path != []
    case Deliver => s.phase == Noticing(true)
    case BeginRecrawl => s.phase == Noticing(false) && s.buffer.recrawl
    case CrawlNext(_, _, _) => s.phase.Recrawling? && s.phase.next < |s.roots|
    case EndRecrawl => s.phase == Recrawling(|s.roots|)
    case BeginTransaction(batch) =>
      s.phase == Noticing(false) && !s.buffer.recrawl
      && Pending.StrictlySorted(batch) && Pending.ListingOf(batch, s.buffer.pending)
    case Apply(_, _, _) => s.phase.Draining? && s.phase.rest != []
    case EndTransaction => s.phase == Draining([])
  }

  // --------------------------------------------------------------- what never breaks

  ghost predicate QueueOk(q: Pending.Queue) {
    && (q.recrawl ==> q.pending == map[]) && [] !in q.pending
    && forall p :: p in q.pending ==> q.pending[p].originWatcher
  }

  /** The worker's buffer is only filled between a swap and the decision what to do. */
  ghost predicate BufferOk(s: Worker) {
    s.phase != Noticing(false) ==> s.buffer == Pending.EMPTY
  }

  ghost predicate PhaseOk(s: Worker) {
    match s.phase
    case Draining(rest) => Pending.StrictlySorted(rest) && NoRootDir(rest)
    case Recrawling(next) => next <= |s.roots|
    case _ => true
  }

  ghost predicate RootsOk(s: Worker) {
    InTree(s.tree, s.roots) && InOrder(s.tree, s.roots)
  }

  ghost predicate Ok(s: Worker) {
    && Forest(s.tree)
    && QueueOk(s.shared) && QueueOk(s.buffer)
    && BufferOk(s) && PhaseOk(s) && RootsOk(s)
  }

  // ------------------------------------------------------------------- the steps

  /** How many changes one turn of the transaction loop consumes. */
  function Consumed(one: One, rest: seq<Pending.PendingChange>): (n: nat)
    requires rest != []
    ensures 1 <= n <= |rest|
  {
    1 + (if one.recurse then Run(rest[0].path, rest[1..]) else 0)
  }

  /** What the tree asks to watch is watched recursively. */
  function Deeply(paths: seq<Path>): seq<Watch> {
    seq(|paths|, i requires 0 <= i < |paths| => Watch(paths[i], true))
  }

  /** A root the user asked for: it may be known already, or refused by the backend. */
  ghost function AddRootTo(s: Worker, fs: Snapshot, path: Path, recursive: bool, watched: bool, filter: Filter,
                           walk: seq<Entry>): (r: Worker)
    requires Forest(s.tree) && path != [] && forall i :: 0 <= i < |walk| ==> walk[i].path != []
    ensures Forest(r.tree)
  {
    AddKeepsForest(s.tree, fs, path, recursive, true);
    var added := Add(s.tree, fs, path, recursive, true);
    var asked := s.watches + [Watch(path, recursive)];
    if added.node.None? then s
    else if !watched then s.(tree := added.tree, watches := asked)
    else
      RootWalkProper(recursive, path, walk);
      var crawled := CrawlRoot(added.tree, fs, filter, recursive, RootWalk(recursive, path, walk));
      s.(tree := crawled.tree, watches := asked + Deeply(crawled.watches),
         roots := WithRoot(crawled.tree, filter, s.roots, Root(added.node.value, recursive)))
  }

  ghost function Act(s: Worker, a: Action): (r: Worker)
    requires Ok(s) && Ready(s, a)
    ensures Forest(r.tree)
  {
    match a
    case Push(p, f) => s.(shared := s.shared.Add(Pending.PendingChange(p, f.(originWatcher := true))))
    case Overflow => s.(shared := s.shared.Recrawl())
    case Wake => s.(shared := s.buffer, buffer := s.shared, phase := Noticing(false))
    case Timeout => s.(phase := Noticing(true))
    case NewRoot(fs, p, rec, watched, filter, walk) => AddRootTo(s, fs, p, rec, watched, filter, walk)
    case Deliver => s.(phase := Waiting, window := [], base := s.tree)
    case BeginRecrawl => s.(phase := Recrawling(0), buffer := s.buffer.(recrawl := false))
    case CrawlNext(fs, filter, walk) =>
      var c := RunCrawl(s.tree, fs, filter, s.roots[s.phase.next].node, [], walk);
      s.(phase := Recrawling(s.phase.next + 1), tree := c.tree, window := s.window + c.events,
         watches := s.watches + Deeply(c.watches))
    case EndRecrawl => s.(phase := Waiting)
    case BeginTransaction(batch) => s.(phase := Draining(batch), buffer := Pending.Queue(map[], s.buffer.recrawl))
    case Apply(fs, filter, walker) =>
      var one := ApplyOne(s.tree, fs, filter, walker, s.phase.rest[0]);
      s.(phase := Draining(s.phase.rest[Consumed(one, s.phase.rest)..]), tree := one.tree,
         window := s.window + one.events, watches := s.watches + Deeply(one.watches))
    case EndTransaction => s.(phase := Waiting)
  }

  // --------------------------------------- the root list and a tree that only grows

  lemma {:induction false} OneGrows(t: Tree, fs: Snapshot, filter: Filter, walker: Walker,
                                    change: Pending.PendingChange)
    requires Forest(t)
    ensures Grows(t, ApplyOne(t, fs, filter, walker, change).tree)
  {
    hide RunCrawl, ApplyChange, Grows, Forest;
    ApplyGrows(t, fs, change);
    ApplyKeepsForest(t, fs, change);
    ApplyNodeInArena(t, fs, change);
    var a := ApplyChange(t, fs, change);
    if a.recurse && a.node.Some? && a.tree.nodes[a.node.value].meta.Dir? && !filter(change.path, Some(true)) {
      var walk := walker(a.tree.nodes[a.node.value].path);
      CrawlGrows(a.tree, fs, filter, a.node.value, walk);
      GrowsTransitive(t, a.tree, RunCrawl(a.tree, fs, filter, a.node.value, [], walk).tree);
    }
  }

  lemma {:induction false} RootsStayOk(t: Tree, u: Tree, roots: seq<Root>)
    requires Forest(t) && Forest(u) && InTree(t, roots) && Grows(t, u)
    ensures InTree(u, roots)
    ensures InOrder(t, roots) ==> InOrder(u, roots)
  {
    forall k | 0 <= k < |roots|
      ensures roots[k].node < |u.nodes| && PathOf(u, roots[k]) == PathOf(t, roots[k])
    {
      NodeStays(t, u, roots[k].node);
    }
  }

  lemma {:induction false} WithRootInTree(t: Tree, filter: Filter, roots: seq<Root>, root: Root)
    requires InTree(t, roots) && InOrder(t, roots) && root.node < |t.nodes|
    ensures InTree(t, WithRoot(t, filter, roots, root))
  {
    hide WithRoot, InOrder;
    WithRootMembers(t, filter, roots, root);
    var r := WithRoot(t, filter, roots, root);
    forall k | 0 <= k < |r|
      ensures r[k].node < |t.nodes|
    {
      assert r[k] in r;
      if r[k] in roots { var j :| 0 <= j < |roots| && roots[j] == r[k]; }
    }
  }

  lemma {:induction false} AddRootKeepsRoots(s: Worker, fs: Snapshot, path: Path, recursive: bool, watched: bool,
                                             filter: Filter, walk: seq<Entry>)
    requires Forest(s.tree) && path != [] && RootsOk(s) && forall i :: 0 <= i < |walk| ==> walk[i].path != []
    ensures RootsOk(AddRootTo(s, fs, path, recursive, watched, filter, walk))
  {
    hide Add, CrawlRoot, WithRoot, Forest, InOrder, InTree, Grows, RootWalk;
    AddKeepsForest(s.tree, fs, path, recursive, true);
    AddedInArena(s.tree, fs, path, recursive, true);
    AddGrows(s.tree, fs, path, recursive, true);
    var added := Add(s.tree, fs, path, recursive, true);
    RootsStayOk(s.tree, added.tree, s.roots);
    if added.node.Some? {
      var w := RootWalk(recursive, path, walk);
      RootWalkProper(recursive, path, walk);
      CrawlRootGrows(added.tree, fs, filter, recursive, w);
      var u := CrawlRoot(added.tree, fs, filter, recursive, w).tree;
      RootsStayOk(added.tree, u, s.roots);
      NodeStays(added.tree, u, added.node.value);
      WithRootInTree(u, filter, s.roots, Root(added.node.value, recursive));
      OrderIsKept(u, filter, s.roots, Root(added.node.value, recursive));
    }
  }

  lemma {:induction false} ActKeepsRoots(s: Worker, a: Action)
    requires Ok(s) && Ready(s, a)
    ensures RootsOk(Act(s, a))
  {
    hide Forest, InOrder, InTree, RunCrawl, ApplyOne, AddRootTo, Run, Grows;
    match a
    case NewRoot(fs, p, rec, watched, filter, walk) => AddRootKeepsRoots(s, fs, p, rec, watched, filter, walk);
    case CrawlNext(fs, filter, walk) =>
      RootAt(s, s.phase.next);
      CrawlGrows(s.tree, fs, filter, s.roots[s.phase.next].node, walk);
      RootsStayOk(s.tree, Act(s, a).tree, s.roots);
    case Apply(fs, filter, walker) =>
      OneGrows(s.tree, fs, filter, walker, s.phase.rest[0]);
      RootsStayOk(s.tree, Act(s, a).tree, s.roots);
    case _ =>
  }

  lemma {:induction false} RootAt(s: Worker, k: nat)
    requires InTree(s.tree, s.roots) && k < |s.roots|
    ensures s.roots[k].node < |s.tree.nodes|
  {
  }

  lemma {:induction false} BatchOk(batch: seq<Pending.PendingChange>, q: Pending.Queue)
    requires QueueOk(q) && Pending.ListingOf(batch, q.pending)
    ensures NoRootDir(batch)
  {
  }

  lemma {:induction false} RestOk(rest: seq<Pending.PendingChange>, n: nat)
    requires Pending.StrictlySorted(rest) && NoRootDir(rest) && n <= |rest|
    ensures Pending.StrictlySorted(rest[n..]) && NoRootDir(rest[n..])
  {
  }

  lemma {:induction false} ActKeepsOk(s: Worker, a: Action)
    requires Ok(s) && Ready(s, a)
    ensures Ok(Act(s, a))
  {
    hide Forest, RootsOk, RunCrawl, ApplyOne, AddRootTo, Pending.StrictlySorted, Pending.ListingOf, NoRootDir, Consumed;
    ActKeepsRoots(s, a);
    match a
    case BeginTransaction(batch) => BatchOk(batch, s.buffer);
    case Apply(fs, filter, walker) =>
      var one := ApplyOne(s.tree, fs, filter, walker, s.phase.rest[0]);
      RestOk(s.phase.rest, Consumed(one, s.phase.rest));
    case NewRoot(fs, p, rec, watched, filter, walk) => AddRootKeepsRest(s, fs, p, rec, watched, filter, walk);
    case _ =>
  }

  lemma {:induction false} AddRootKeepsRest(s: Worker, fs: Snapshot, path: Path, recursive: bool, watched: bool,
                                            filter: Filter, walk: seq<Entry>)
    requires Forest(s.tree) && path != [] && forall i :: 0 <= i < |walk| ==> walk[i].path != []
    ensures var r := AddRootTo(s, fs, path, recursive, watched, filter, walk);
            r == s.(tree := r.tree, roots := r.roots, watches := r.watches)
  {
    hide Add, CrawlRoot, WithRoot, Forest, RootWalk;
  }

  // ------------------------------------------------------------------- whole runs

  /** The state after any actions; those that cannot happen where they stand do nothing.
      Every invariant holds in every state. */
  ghost function Reach(run: seq<Action>): (r: Worker)
    ensures Ok(r)
  {
    if run == [] then InitOk(); START
    else
      var s := Reach(run[..|run| - 1]);
      var a := run[|run| - 1];
      if Ready(s, a) then ActKeepsOk(s, a); Act(s, a) else s
  }

  lemma {:induction false} InitOk()
    ensures Ok(START)
  {
  }

  ghost predicate Happens(run: seq<Action>, m: nat)
    requires m < |run|
  {
    Ready(Reach(run[..m]), run[m])
  }

  lemma {:induction false} ReachPrefix(run: seq<Action>, m: nat)
    requires m < |run|
    ensures run[..|run| - 1][..m] == run[..m]
  {
  }

  /** The buffer is empty whenever the queues are about to be swapped, so a swap never
      puts old changes back into the shared queue. */
  lemma {:induction false} BufferIsEmptyAtEverySwap(run: seq<Action>, m: nat)
    requires m < |run| && Happens(run, m) && run[m].Wake?
    ensures Reach(run[..m]).buffer == Pending.EMPTY
    ensures var s := Act(Reach(run[..m]), run[m]); s.shared == Pending.EMPTY && s.buffer == Reach(run[..m]).shared
  {
  }

  // -------------------------------------------------------- no notification is lost

  predicate Includes(a: Pending.Flags, b: Pending.Flags) {
    Pending.Union(a, b) == a
  }

  /** A change of `p` with at least these flags. */
  ghost predicate Holds(changes: seq<Pending.PendingChange>, p: Path, f: Pending.Flags) {
    exists c :: c in changes && c.path == p && Includes(c.flags, f)
  }

  ghost predicate Queued(q: Pending.Queue, p: Path, f: Pending.Flags) {
    q.recrawl || (p in q.pending && Includes(q.pending[p], f))
  }

  /** `p` still waits to be handled: named in a queue or batch with at least these flags, or
      under a raised flag. */
  ghost predicate Waits(s: Worker, p: Path, f: Pending.Flags) {
    || Queued(s.shared, p, f) || Queued(s.buffer, p, f)
    || (s.phase.Draining? && Holds(s.phase.rest, p, f))
  }

  /** This action applies a change of `p` with at least these flags. */
  ghost predicate Applies(s: Worker, a: Action, p: Path, f: Pending.Flags)
    requires Ready(s, a)
  {
    a.Apply? && s.phase.rest[0].path == p && Includes(s.phase.rest[0].flags, f)
  }

  /** This action skips `p`: it applies a change above that asks to recurse. */
  ghost predicate SkipsOver(s: Worker, a: Action, p: Path, f: Pending.Flags)
    requires Ok(s) && Ready(s, a)
  {
    && a.Apply?
    && var change := s.phase.rest[0];
       change.path < p && Holds(s.phase.rest, p, f) && ApplyOne(s.tree, a.fs, a.filter, a.walker, change).recurse
  }

  /** This action handles `p`: it applies the change, or skips it, or begins a crawl of every
      root. What the first two are worth is said by `ApplyIsWorth` and `SkipIsWorth`. */
  ghost predicate Handles(s: Worker, a: Action, p: Path, f: Pending.Flags)
    requires Ok(s) && Ready(s, a)
  {
    Applies(s, a, p, f) || SkipsOver(s, a, p, f) || a.BeginRecrawl?
  }

  /** If the snapshot is well listed, applying a change adds to what is held back at its path
      exactly what the change makes of the tree and the snapshot: of a known file that is still
      one, always a modification, since the flags say that a backend saw it. */
  ghost predicate ApplyIsWorth(s: Worker, a: Action, p: Path)
    requires Ok(s) && Ready(s, a)
  {
    a.Apply? && s.phase.rest[0].path == p && Skipping.ListsAt(a.fs, a.walker, p) ==>
      At(Act(s, a).window, p) == At(s.window, p) + Changed.OwnReport(s.tree, a.fs, s.phase.rest[0])
  }

  /** If the snapshot is well listed, skipping `p` adds to what is held back exactly what the
      change above reports at `p`; that is the difference at `p` if and only if there is
      none, or that change sees `p` or gets at its node. */
  ghost predicate SkipIsWorth(s: Worker, a: Action, p: Path, f: Pending.Flags)
    requires Ok(s) && Ready(s, a)
  {
    a.Apply? && SkipsOver(s, a, p, f) && Skipping.ListsAt(a.fs, a.walker, s.phase.rest[0].path) ==>
      && At(Act(s, a).window, p) == At(s.window, p) + Skipping.Reported(s.tree, a.fs, a.filter, s.phase.rest[0], p)
      && (Skipping.Reported(s.tree, a.fs, a.filter, s.phase.rest[0], p) == Difference(s, a, p)
          <==> Difference(s, a, p) == [] || Skipping.GotAt(s.tree, a.fs, a.filter, s.phase.rest[0], p))
  }

  /** What looking at everything below the change would find at `p`. */
  ghost function Difference(s: Worker, a: Action, p: Path): seq<EventType>
    requires Ready(s, a) && a.Apply?
  {
    Skipping.ToBeFound(s.tree, a.fs, a.filter, s.phase.rest[0].path, p)
  }

  lemma {:induction false} SkipAddsReport(t: Tree, window: seq<Event>, fs: Snapshot, filter: Filter, walker: Walker,
                                          change: Pending.PendingChange, p: Path)
    requires Forest(t) && change.path < p && Skipping.ListsAt(fs, walker, change.path)
    ensures At(window + ApplyOne(t, fs, filter, walker, change).events, p)
         == At(window, p) + Skipping.Reported(t, fs, filter, change, p)
  {
    hide Forest, ApplyOne, At, Skipping.Reported, Skipping.Crawls, Skipping.ListsAt, Filters.Lists;
    Skipping.ListedWhereCrawled(t, fs, filter, walker, change);
    Skipping.BelowIsReported(t, fs, filter, walker, change, p);
    AtAppend(window, ApplyOne(t, fs, filter, walker, change).events, p);
  }

  lemma {:induction false} ApplyIs(s: Worker, a: Action)
    requires Ok(s) && Ready(s, a) && a.Apply?
    ensures Forest(s.tree) && s.phase.Draining? && s.phase.rest != []
    ensures Act(s, a).window == s.window + ApplyOne(s.tree, a.fs, a.filter, a.walker, s.phase.rest[0]).events
  {
    hide Forest, ApplyOne, RootsOk, QueueOk, BufferOk, Consumed, Pending.StrictlySorted;
  }

  lemma {:induction false} EverySkip(s: Worker, a: Action, p: Path, f: Pending.Flags)
    requires Ok(s) && Ready(s, a)
    ensures SkipIsWorth(s, a, p, f)
  {
    hide Ok, Act, At, Forest, Skipping.Reported, Skipping.GotAt, Skipping.ListsAt, Skipping.ToBeFound, Holds, ApplyOne;
    if a.Apply? && SkipsOver(s, a, p, f) && Skipping.ListsAt(a.fs, a.walker, s.phase.rest[0].path) {
      ApplyIs(s, a);
      SkipAddsReport(s.tree, s.window, a.fs, a.filter, a.walker, s.phase.rest[0], p);
      Skipping.ReportedIff(s.tree, a.fs, a.filter, a.walker, s.phase.rest[0], p);
    }
  }

  lemma {:induction false} EveryApply(s: Worker, a: Action, p: Path)
    requires Ok(s) && Ready(s, a)
    ensures ApplyIsWorth(s, a, p)
  {
    hide Ok, Act, At, Forest, Changed.OwnReport, Changed.Asked, Skipping.ListsAt, ApplyOne, Skipping.Crawls,
         Filters.Lists, Changed.Recurses;
    if a.Apply? && s.phase.rest[0].path == p && Skipping.ListsAt(a.fs, a.walker, p) {
      ApplyIs(s, a);
      var change := s.phase.rest[0];
      Skipping.ListedWhereCrawled(s.tree, a.fs, a.filter, a.walker, change);
      Changed.OneIs(s.tree, a.fs, a.filter, a.walker, change, p);
      AtAppend(s.window, ApplyOne(s.tree, a.fs, a.filter, a.walker, change).events, p);
    }
  }

  /** Step `m` handled `p`, and that was worth what the change reports, or the one above. */
  ghost predicate HandledAt(run: seq<Action>, m: nat, p: Path, f: Pending.Flags)
    requires m < |run|
  {
    && Happens(run, m) && Handles(Reach(run[..m]), run[m], p, f)
    && ApplyIsWorth(Reach(run[..m]), run[m], p) && SkipIsWorth(Reach(run[..m]), run[m], p, f)
  }

  lemma {:induction false} ConsumedOrLeft(one: One, rest: seq<Pending.PendingChange>, p: Path, f: Pending.Flags)
    requires rest != [] && Holds(rest, p, f)
    ensures || (rest[0].path == p && Includes(rest[0].flags, f)) || (one.recurse && rest[0].path < p)
            || Holds(rest[Consumed(one, rest)..], p, f)
  {
    hide Includes;
    var n := Consumed(one, rest);
    var c :| c in rest && c.path == p && Includes(c.flags, f);
    var i :| 0 <= i < |rest| && rest[i] == c;
    RunBelow(rest[0].path, rest[1..]);
    if i >= n {
      assert rest[n..][i - n] == c;
    } else if i > 0 {
      assert rest[1..][i - 1] == c;
    }
  }

  lemma {:induction false} ListedHolds(batch: seq<Pending.PendingChange>, pending: map<Path, Pending.Flags>, p: Path,
                                       f: Pending.Flags)
    requires Pending.ListingOf(batch, pending) && p in pending && Includes(pending[p], f)
    ensures Holds(batch, p, f)
  {
    assert Pending.PendingChange(p, pending[p]) in batch;
  }

  lemma {:induction false} HoldsNothing(p: Path, f: Pending.Flags)
    ensures !Holds([], p, f)
  {
  }

  /** More reports only add flags. */
  lemma {:induction false} StillQueued(q: Pending.Queue, change: Pending.PendingChange, p: Path, f: Pending.Flags)
    requires Queued(q, p, f)
    ensures Queued(q.Add(change), p, f) && Queued(q.Recrawl(), p, f)
  {
  }

  lemma {:induction false} WaitsOrHandled(s: Worker, a: Action, p: Path, f: Pending.Flags)
    requires Ok(s) && Ready(s, a) && Waits(s, p, f)
    ensures Waits(Act(s, a), p, f) || Handles(s, a, p, f)
  {
    hide Forest, RootsOk, RunCrawl, ApplyOne, AddRootTo, Pending.StrictlySorted, Pending.ListingOf, NoRootDir,
         Consumed, Holds, Includes;
    match a
    case Push(q, g) =>
      if Queued(s.shared, p, f) {
        StillQueued(s.shared, Pending.PendingChange(q, g.(originWatcher := true)), p, f);
      }
    case BeginTransaction(batch) =>
      if Queued(s.buffer, p, f) { ListedHolds(batch, s.buffer.pending, p, f); }
    case Apply(fs, filter, walker) =>
      if Holds(s.phase.rest, p, f) {
        ConsumedOrLeft(ApplyOne(s.tree, fs, filter, walker, s.phase.rest[0]), s.phase.rest, p, f);
      }
    case EndTransaction => HoldsNothing(p, f);
    case NewRoot(fs, q, rec, watched, filter, walk) => AddRootKeepsRest(s, fs, q, rec, watched, filter, walk);
    case _ =>
  }

  ghost predicate HandledSince(run: seq<Action>, k: nat, p: Path, f: Pending.Flags) {
    exists m :: k < m < |run| && HandledAt(run, m, p, f)
  }

  /** The flags with which a backend's report is queued. */
  function Noted(f: Pending.Flags): Pending.Flags {
    f.(originWatcher := true)
  }

  /** In every interleaving, each notification still waits in a queue, a batch or under a
      raised flag, or was handled by a later action: applied or skipped, with what that is
      worth, or followed by the start of a recrawl. None of its flags is lost on the way. */
  lemma {:induction false} NothingIsLost(run: seq<Action>, k: nat)
    requires k < |run| && run[k].Push? && run[k].path != []
    ensures var p, f := run[k].path, Noted(run[k].flags); Waits(Reach(run), p, f) || HandledSince(run, k, p, f)
    decreases |run|
  {
    hide Ok, Waits, Act, Handles, SkipIsWorth, ApplyIsWorth;
    var p, f := run[k].path, Noted(run[k].flags);
    var init, a := run[..|run| - 1], run[|run| - 1];
    var s := Reach(init);
    if k == |run| - 1 {
      PushedWaits(s, p, a.flags);
    } else {
      NothingIsLost(init, k);
      if HandledSince(init, k, p, f) {
        var m :| k < m < |init| && HandledAt(init, m, p, f);
        ReachPrefix(run, m);
        assert HandledAt(run, m, p, f);
      } else if Ready(s, a) {
        WaitsOrHandled(s, a, p, f);
        EverySkip(s, a, p, f);
        EveryApply(s, a, p);
        if Handles(s, a, p, f) { assert HandledAt(run, |run| - 1, p, f); }
      }
    }
  }

  lemma {:induction false} PushedWaits(s: Worker, p: Path, flags: Pending.Flags)
    requires Ok(s) && p != []
    ensures Ready(s, Push(p, flags)) && Waits(Act(s, Push(p, flags)), p, Noted(flags))
  {
  }

  // ---------------------------------------------------------- no overflow is lost

  /** A recrawl is still to come. */
  ghost predicate RecrawlDue(s: Worker) {
    s.shared.recrawl || s.buffer.recrawl
  }

  ghost predicate BegunSince(run: seq<Action>, k: nat) {
    exists m :: k < m < |run| && run[m].BeginRecrawl? && Happens(run, m)
  }

  lemma {:induction false} DueOrBegun(s: Worker, a: Action)
    requires Ok(s) && Ready(s, a)
    ensures a.Overflow? || (RecrawlDue(s) && !a.BeginRecrawl?) ==> RecrawlDue(Act(s, a))
  {
    hide Forest, RootsOk, RunCrawl, ApplyOne, AddRootTo, Pending.StrictlySorted, Pending.ListingOf, NoRootDir, Consumed;
    match a
    case NewRoot(fs, q, rec, watched, filter, walk) => AddRootKeepsRest(s, fs, q, rec, watched, filter, walk);
    case _ =>
  }

  /** In every interleaving, after an overflow a recrawl is due or has begun since. */
  lemma {:induction false} OverflowIsNotLost(run: seq<Action>, k: nat)
    requires k < |run| && run[k].Overflow?
    ensures RecrawlDue(Reach(run)) || BegunSince(run, k)
    decreases |run|
  {
    hide Ok, Act, Ready, RecrawlDue;
    var init, a := run[..|run| - 1], run[|run| - 1];
    var s := Reach(init);
    if k == |run| - 1 {
      assert Ready(s, a) by { OverflowIsReady(s); }
      DueOrBegun(s, a);
    } else {
      OverflowIsNotLost(init, k);
      if BegunSince(init, k) {
        var m :| k < m < |init| && init[m].BeginRecrawl? && Happens(init, m);
        ReachPrefix(run, m);
        assert Happens(run, m);
      } else if Ready(s, a) {
        DueOrBegun(s, a);
        if a.BeginRecrawl? { assert Happens(run, |run| - 1); }
      }
    }
  }

  lemma {:induction false} OverflowIsReady(s: Worker)
    ensures Ready(s, Overflow)
  {
  }

  // ------------------------------------------------------- a recrawl reaches all roots

  /** Root number `j` was crawled between actions `m` and `n`. */
  ghost predicate Crawled(run: seq<Action>, m: nat, n: nat, j: nat)
    requires m < n <= |run|
  {
    exists q :: m < q < n && CrawledBy(run, m, q, j)
  }

  ghost predicate CrawledBy(run: seq<Action>, m: nat, q: nat, j: nat)
    requires m < |run| && q < |run|
  {
    && run[q].CrawlNext? && Happens(run, q)
    && Reach(run[..q]).phase == Recrawling(j)
    && Reach(run[..q]).roots == Reach(run[..m]).roots
  }

  ghost predicate UnderWay(run: seq<Action>, m: nat)
    requires m < |run|
  {
    var s := Reach(run);
    s.phase.Recrawling? && s.roots == Reach(run[..m]).roots
    && forall j :: 0 <= j < s.phase.next ==> Crawled(run, m, |run|, j)
  }

  ghost predicate AllCrawled(run: seq<Action>, m: nat)
    requires m < |run|
  {
    forall j :: 0 <= j < |Reach(run[..m]).roots| ==> Crawled(run, m, |run|, j)
  }

  lemma {:induction false} CrawledStays(run: seq<Action>, m: nat, j: nat)
    requires m < |run| - 1 && Crawled(run[..|run| - 1], m, |run| - 1, j)
    ensures Crawled(run, m, |run|, j)
  {
    var init := run[..|run| - 1];
    var q :| m < q < |init| && CrawledBy(init, m, q, j);
    ReachPrefix(run, q);
    ReachPrefix(run, m);
    assert CrawledBy(run, m, q, j);
  }

  /** What the next action does to a recrawl that is under way. */
  lemma {:induction false} RecrawlStep(s: Worker, a: Action)
    requires Ok(s) && Ready(s, a) && s.phase.Recrawling?
    ensures var r := Act(s, a);
            && r.roots == s.roots
            && (a.CrawlNext? ==> r.phase == Recrawling(s.phase.next + 1))
            && (a.EndRecrawl? ==> s.phase.next == |s.roots|)
            && (!a.CrawlNext? && !a.EndRecrawl? ==> r.phase == s.phase)
  {
    hide Forest, RootsOk, RunCrawl, QueueOk;
  }

  /** Between the start of a recrawl and the next wait every root is crawled. */
  lemma {:induction false} RecrawlReachesEveryRoot(run: seq<Action>, m: nat)
    requires m < |run| && run[m].BeginRecrawl? && Happens(run, m)
    ensures UnderWay(run, m) || AllCrawled(run, m)
    decreases |run|
  {
    hide Ok, Act, Ready, Crawled;
    var init, a := run[..|run| - 1], run[|run| - 1];
    var s := Reach(init);
    if m == |run| - 1 {
      BegunRecrawl(s, a);
    } else {
      ReachPrefix(run, m);
      RecrawlReachesEveryRoot(init, m);
      forall j | Crawled(init, m, |init|, j)
        ensures Crawled(run, m, |run|, j)
      {
        CrawledStays(run, m, j);
      }
      if !AllCrawled(init, m) && Ready(s, a) {
        RecrawlStep(s, a);
        if a.CrawlNext? { NowCrawled(run, m, s.phase.next); }
      }
    }
  }

  lemma {:induction false} BegunRecrawl(s: Worker, a: Action)
    requires Ok(s) && Ready(s, a) && a.BeginRecrawl?
    ensures Act(s, a).phase == Recrawling(0) && Act(s, a).roots == s.roots
  {
  }

  lemma {:induction false} NowCrawled(run: seq<Action>, m: nat, j: nat)
    requires m < |run| - 1 && CrawledBy(run, m, |run| - 1, j)
    ensures Crawled(run, m, |run|, j)
  {
  }

  /** Step `m` handled `p`, and if it began a recrawl, every root was crawled. */
  ghost predicate FullyHandledAt(run: seq<Action>, m: nat, p: Path, f: Pending.Flags)
    requires m < |run|
  {
    HandledAt(run, m, p, f) && (run[m].BeginRecrawl? ==> AllCrawled(run, m))
  }

  /** Once the worker waits and the shared queue is empty, every notification was applied or
      skipped, with what that is worth, or followed by a complete recrawl, since it was made. */
  lemma {:induction false} QuietMeansHandled(run: seq<Action>, k: nat)
    requires k < |run| && run[k].Push? && run[k].path != []
    requires Reach(run).phase.Waiting? && Reach(run).shared.IsEmpty()
    ensures exists m :: k < m < |run| && FullyHandledAt(run, m, run[k].path, Noted(run[k].flags))
  {
    var p, f := run[k].path, Noted(run[k].flags);
    NothingIsLost(run, k);
    hide Reach, Handles, AllCrawled, SkipIsWorth, ApplyIsWorth;
    var m :| k < m < |run| && HandledAt(run, m, p, f);
    if run[m].BeginRecrawl? { RecrawlReachesEveryRoot(run, m); }
    assert FullyHandledAt(run, m, p, f);
  }

  ghost predicate RecrawledAt(run: seq<Action>, m: nat)
    requires m < |run|
  {
    run[m].BeginRecrawl? && Happens(run, m) && AllCrawled(run, m)
  }

  /** And every overflow was followed by a recrawl that came to every root. */
  lemma {:induction false} QuietMeansRecrawled(run: seq<Action>, k: nat)
    requires k < |run| && run[k].Overflow?
    requires Reach(run).phase.Waiting? && Reach(run).shared.IsEmpty()
    ensures exists m :: k < m < |run| && RecrawledAt(run, m)
  {
    OverflowIsNotLost(run, k);
    hide Reach, AllCrawled, Happens;
    var m :| k < m < |run| && run[m].BeginRecrawl? && Happens(run, m);
    RecrawlReachesEveryRoot(run, m);
    assert RecrawledAt(run, m);
  }

  // ------------------------------------------------------ what a recrawl finds out

  /** The events of one crawl of a recrawl at path `p`. */
  ghost function Found(s: CrawlResult.Scope, t: Tree, p: Path): seq<EventType> {
    if CrawlResult.Visible(s, p).Some? then
        CrawlClaims.Diff(Meta(t, p), Inode(t, p), CrawlResult.Visible(s, p))
    else if CrawlResult.Swept(s, t, p) then Deletion.DeleteEvent(Meta(t, p))
    else []
  }

  lemma {:induction false} CrawlFinds(t: Tree, fs: Snapshot, filter: Filter, root: NodeId, walk: seq<Entry>,
                                      window: seq<Event>, p: Path)
    requires CrawlResult.Ready(t, fs, root, walk)
    ensures At(window + RunCrawl(t, fs, filter, root, [], walk).events, p)
         == At(window, p) + Found(CrawlResult.ScopeOf(t, fs, filter, root), t, p)
  {
    hide Forest, Filters.Lists, RunCrawl, CrawlResult.Visible, CrawlResult.Swept, At, Meta, Inode,
         CrawlClaims.Diff, Deletion.DeleteEvent;
    CrawlResult.CrawlReports(t, fs, filter, root, walk, p);
    AtAppend(window, RunCrawl(t, fs, filter, root, [], walk).events, p);
  }

  lemma {:induction false} CrawlNextIs(s: Worker, fs: Snapshot, filter: Filter, walk: seq<Entry>, root: NodeId)
    requires Ok(s) && Ready(s, CrawlNext(fs, filter, walk)) && root < |s.tree.nodes|
             && root == s.roots[s.phase.next].node
    ensures Forest(s.tree)
    ensures Act(s, CrawlNext(fs, filter, walk)).window == s.window + RunCrawl(s.tree, fs, filter, root, [], walk).events
  {
    hide Forest, RunCrawl, InOrder;
  }

  lemma {:induction false} CrawlNextFinds(s: Worker, fs: Snapshot, filter: Filter, walk: seq<Entry>, p: Path)
    requires Ok(s) && Ready(s, CrawlNext(fs, filter, walk))
    requires Filters.Lists(fs, PathOf(s.tree, s.roots[s.phase.next]), walk)
    ensures var root := s.roots[s.phase.next].node;
            && root < |s.tree.nodes|
            && At(Act(s, CrawlNext(fs, filter, walk)).window, p)
               == At(s.window, p) + Found(CrawlResult.ScopeOf(s.tree, fs, filter, root), s.tree, p)
  {
    RootAt(s, s.phase.next);
    hide Forest, Filters.Lists, RunCrawl, Found, At, Act, RootsOk, QueueOk, BufferOk;
    CrawlNextIs(s, fs, filter, walk, s.roots[s.phase.next].node);
    CrawlFinds(s.tree, fs, filter, s.roots[s.phase.next].node, walk, s.window, p);
  }

  /** In every state that any interleaving reaches, when a recrawl comes to a root, it adds to
      what is held back at each path the difference between the tree and the snapshot, as
      far as it sees the path or gets at its node. */
  lemma {:induction false} RecrawlIsDiff(run: seq<Action>, fs: Snapshot, filter: Filter, walk: seq<Entry>, p: Path)
    requires var s := Reach(run);
             Ready(s, CrawlNext(fs, filter, walk)) && Filters.Lists(fs, PathOf(s.tree, s.roots[s.phase.next]), walk)
    ensures var s := Reach(run); var root := s.roots[s.phase.next].node;
            && root < |s.tree.nodes|
            && At(Reach(run + [CrawlNext(fs, filter, walk)]).window, p)
               == At(s.window, p) + Found(CrawlResult.ScopeOf(s.tree, fs, filter, root), s.tree, p)
  {
    hide Ready, Ok, Act, Filters.Lists, Found, At, Forest;
    var s, a := Reach(run), CrawlNext(fs, filter, walk);
    assert (run + [a])[..|run|] == run;
    assert Reach(run + [a]) == Act(s, a);
    hide Reach;
    assert s.phase.Recrawling? && s.phase.next < |s.roots| by { CrawlNextReady(s, fs, filter, walk); }
    CrawlNextFinds(s, fs, filter, walk, p);
  }

  lemma {:induction false} CrawlNextReady(s: Worker, fs: Snapshot, filter: Filter, walk: seq<Entry>)
    requires Ready(s, CrawlNext(fs, filter, walk))
    ensures s.phase.Recrawling? && s.phase.next < |s.roots|
  {
  }

  // ----------------------------------------------------- when batches are delivered

  /** The wait timed out at action `j`, with nothing shared, and what was held back then is what
      is held back now. */
  ghost predicate SettledAt(run: seq<Action>, j: nat)
    requires j < |run|
  {
    && run[j].Timeout? && Happens(run, j)
    && Reach(run[..j]).shared.IsEmpty() && Reach(run[..j]).window == Reach(run).window
  }

  lemma {:induction false} SettledStays(s: Worker, a: Action)
    requires Ok(s) && Ready(s, a)
    ensures Act(s, a).phase == Noticing(true) ==>
              Act(s, a).window == s.window && (a.Timeout? || s.phase == Noticing(true))
  {
    hide Forest, RootsOk, RunCrawl, ApplyOne, AddRootTo, Pending.StrictlySorted, Pending.ListingOf, NoRootDir, Consumed;
    match a
    case NewRoot(fs, q, rec, watched, filter, walk) => AddRootKeepsRest(s, fs, q, rec, watched, filter, walk);
    case _ =>
  }

  lemma {:induction false} TimedOut(s: Worker)
    requires Ok(s) && Ready(s, Timeout)
    ensures s.phase.Waiting? && s.shared.IsEmpty() && Coalesce(s.window) != []
    ensures Act(s, Timeout) == s.(phase := Noticing(true))
    ensures Ready(Act(s, Timeout), Deliver)
  {
  }

  /** In every interleaving, events are only handed out once things have settled: when the wait
      timed out nothing was shared, and what is handed out was held back already then. */
  lemma {:induction false} DeliveredWhenSettled(run: seq<Action>)
    requires Reach(run).phase == Noticing(true)
    ensures exists j :: 0 <= j < |run| && SettledAt(run, j)
    decreases |run|
  {
    hide Ok, Act, Ready;
    if run != [] {
      var init, a := run[..|run| - 1], run[|run| - 1];
      var s := Reach(init);
      if Ready(s, a) {
        SettledStays(s, a);
        if a.Timeout? {
          TimedOut(s);
          assert SettledAt(run, |run| - 1);
        } else {
          DeliveredWhenSettled(init);
        }
      } else {
        DeliveredWhenSettled(init);
      }
      if j :| 0 <= j < |init| && SettledAt(init, j) && Reach(init).window == Reach(run).window {
        ReachPrefix(run, j);
        assert SettledAt(run, j);
      }
    }
  }

  /** And whatever is held back when the worker waits with nothing shared can be handed out by
      the next two actions, which change nothing else but what counts as delivered. */
  lemma {:induction false} HeldIsDelivered(run: seq<Action>)
    requires var s := Reach(run); s.phase.Waiting? && s.shared.IsEmpty() && Coalesce(s.window) != []
    ensures var next := run + [Timeout, Deliver]; var s := Reach(run);
            && Happens(next, |run|) && Happens(next, |run| + 1) && Reach(next[..|run| + 1]).window == s.window
            && Reach(next) == s.(window := [], base := s.tree)
  {
    var s := Reach(run);
    var next := run + [Timeout, Deliver];
    assert next[..|run|] == run && next[..|run| + 1] == run + [Timeout] && next[..|next| - 1] == run + [Timeout];
    assert (run + [Timeout])[..|run|] == run;
    hide Ok, Act;
    TimedOut(s);
    assert Reach(run + [Timeout]) == Act(s, Timeout);
    DeliverDoes(Act(s, Timeout));
  }

  lemma {:induction false} DeliverDoes(s: Worker)
    requires Ok(s) && Ready(s, Deliver)
    ensures Act(s, Deliver) == s.(phase := Waiting, window := [], base := s.tree)
  {
  }

  // ------------------------------------------------- what is delivered makes sense

  /** The part of the state that the tree's own runs speak of. */
  function View(s: Worker): State {
    State(s.tree, s.window, s.base)
  }

  /** The action makes a sweep forget path `p`. */
  ghost predicate ActionForgets(s: Worker, a: Action, p: Path)
    requires Ok(s) && Ready(s, a)
  {
    match a
    case CrawlNext(fs, filter, walk) => CrawlForgets(s.tree, fs, filter, s.roots[s.phase.next].node, walk, p)
    case Apply(fs, filter, walker) => OneForgets(s.tree, fs, filter, walker, s.phase.rest[0], p)
    case _ => false
  }

  ghost predicate OneForgets(t: Tree, fs: Snapshot, filter: Filter, walker: Walker, change: Pending.PendingChange,
                             p: Path)
    requires Forest(t)
  {
    ApplyKeepsForest(t, fs, change);
    ApplyNodeInArena(t, fs, change);
    var a := ApplyChange(t, fs, change);
    && a.recurse && a.node.Some? && a.tree.nodes[a.node.value].meta.Dir? && !filter(change.path, Some(true))
    && CrawlForgets(a.tree, fs, filter, a.node.value, walker(a.tree.nodes[a.node.value].path), p)
  }

  /** Since the last batch was delivered a sweep forgot path `p`. */
  ghost predicate ForgottenLately(run: seq<Action>, p: Path) {
    && run != []
    && var s, a := Reach(run[..|run| - 1]), run[|run| - 1];
       if Ready(s, a) then !a.Deliver? && (ForgottenLately(run[..|run| - 1], p) || ActionForgets(s, a, p))
       else ForgottenLately(run[..|run| - 1], p)
  }

  lemma {:induction false} OneCarries(s: State, fs: Snapshot, filter: Filter, walker: Walker,
                                      change: Pending.PendingChange, p: Path)
    requires Forest(s.tree)
    ensures var one := ApplyOne(s.tree, fs, filter, walker, change);
            Carries(s, s.(tree := one.tree, window := s.window + one.events), p,
                    OneForgets(s.tree, fs, filter, walker, change, p))
  {
    hide Carries, Forest, CrawlForgets, RunCrawl, ApplyChange;
    ApplyKeepsForest(s.tree, fs, change);
    ApplyNodeInArena(s.tree, fs, change);
    var a := ApplyChange(s.tree, fs, change);
    StepCarries(s, Change(fs, change), p);
    var mid := s.(tree := a.tree, window := s.window + a.events);
    if a.recurse && a.node.Some? && a.tree.nodes[a.node.value].meta.Dir? && !filter(change.path, Some(true)) {
      var walk := walker(a.tree.nodes[a.node.value].path);
      StepCarries(mid, Recrawl(fs, filter, a.node.value, walk), p);
      var c := RunCrawl(a.tree, fs, filter, a.node.value, [], walk);
      assert s.window + a.events + c.events == s.window + (a.events + c.events);
      CarriesAgain(s, mid, mid.(tree := c.tree, window := mid.window + c.events), p, false,
                   CrawlForgets(a.tree, fs, filter, a.node.value, walk, p));
    }
  }

  lemma {:induction false} RootCarries(s: Worker, fs: Snapshot, path: Path, recursive: bool, watched: bool,
                                       filter: Filter, walk: seq<Entry>, p: Path)
    requires Forest(s.tree) && path != [] && forall i :: 0 <= i < |walk| ==> walk[i].path != []
    ensures Carries(View(s), View(AddRootTo(s, fs, path, recursive, watched, filter, walk)), p, false)
  {
    hide Carries, Forest, Add, CrawlRoot, WithRoot, RootWalk;
    AddKeepsForest(s.tree, fs, path, recursive, true);
    var added := Add(s.tree, fs, path, recursive, true);
    var mid := View(s).(tree := added.tree);
    NothingCarries(View(s), p);
    StepCarries(View(s), AddRoot(fs, path, recursive), p);
    RootWalkProper(recursive, path, walk);
    var populate := Populate(fs, filter, recursive, RootWalk(recursive, path, walk));
    StepCarries(mid, populate, p);
    CarriesAgain(View(s), mid, Runs.Step(mid, populate), p, false, false);
  }

  lemma {:induction false} NothingCarries(s: State, p: Path)
    ensures Carries(s, s, p, false)
  {
  }

  lemma {:induction false} ActCarries(s: Worker, a: Action, p: Path)
    requires Ok(s) && Ready(s, a) && !a.Deliver?
    ensures Carries(View(s), View(Act(s, a)), p, ActionForgets(s, a, p))
  {
    hide Forest, InOrder, RunCrawl, ApplyOne, AddRootTo, Pending.StrictlySorted, Pending.ListingOf, NoRootDir,
         Consumed, Carries, CrawlForgets, OneForgets;
    NothingCarries(View(s), p);
    match a
    case NewRoot(fs, q, rec, watched, filter, walk) => RootCarries(s, fs, q, rec, watched, filter, walk, p);
    case CrawlNext(fs, filter, walk) => StepCarries(View(s), Recrawl(fs, filter, s.roots[s.phase.next].node, walk), p);
    case Apply(fs, filter, walker) => OneCarries(View(s), fs, filter, walker, s.phase.rest[0], p);
    case _ =>
  }

  lemma {:induction false} ReachIsSane(run: seq<Action>, p: Path)
    ensures var s := View(Reach(run));
            && Sane(s, p)
            && (!ForgottenLately(run, p) ==> ExplainedAt(s, p))
            && (ForgottenLately(run, p) ==> Astray(s, p))
  {
    hide Ok, Ready, Act, ExplainedAt, Sane, Astray, ActionForgets;
    if run == [] {
      SettledIsExplained(TreeModel.EMPTY, p);
    } else {
      var init, a := run[..|run| - 1], run[|run| - 1];
      ReachIsSane(init, p);
      if Ready(Reach(init), a) {
        if a.Deliver? {
          DeliverIs(Reach(init), a);
          SettledIsExplained(Reach(init).tree, p);
        } else {
          ActCarries(Reach(init), a, p);
        }
      }
    }
  }

  lemma {:induction false} DeliverIs(s: Worker, a: Action)
    requires Ok(s) && Ready(s, a) && a.Deliver?
    ensures View(Act(s, a)) == State(s.tree, [], s.tree)
  {
  }

  /** Whatever the backends and users do, the debouncer's impossible arm is reached exactly
      by a modification of a path that it holds as deleted, and only if a sweep forgot the
      path since the last batch. */
  lemma {:induction false} ImpossibleArmIff(run: seq<Action>, k: nat)
    requires k < |Reach(run).window|
    ensures var w := Reach(run).window;
            && (MergesAt(w, k) <==> !(w[k].ty.Modified? && Erased(At(w[..k], w[k].path))))
            && (!MergesAt(w, k) ==> ForgottenLately(run, w[k].path))
  {
    hide Sane, ExplainedAt, Astray, Reach, ForgottenLately, MergesAt, Erased;
    var s := View(Reach(run));
    ReachIsSane(run, s.window[k].path);
    ArmAt(s, k);
    if !ForgottenLately(run, s.window[k].path) { ExplainedMerges(s, k); }
  }

  /** The next batch says for every path how it changed since the last one, unless a sweep
      forgot the path in between; and it is only ever wrong in saying that a file is gone
      which the tree still holds. */
  lemma {:induction false} BatchesAreNetChanges(run: seq<Action>, p: Path)
    requires At(Reach(run).window, p) != []
    ensures var s := Reach(run); var now := At(Coalesce(s.window), p);
            && |now| == 1
            && (!ForgottenLately(run, p) && p in s.base.table ==> now[0] == Net(IsFile(s.base, p), IsFile(s.tree, p)))
            && (!ForgottenLately(run, p) ==> exists was :: now[0] == Net(was, IsFile(s.tree, p)))
            && (SaysThere(now[0]) != IsFile(s.tree, p) <==> Erased(At(s.window, p)) && IsFile(s.tree, p))
            && (SaysThere(now[0]) != IsFile(s.tree, p) ==> ForgottenLately(run, p))
  {
    hide Sane, ExplainedAt, Astray, Reach, ForgottenLately, Erased, Coalesce;
    var s := View(Reach(run));
    ReachIsSane(run, p);
    DeliveredSays(s, p);
    if !ForgottenLately(run, p) { DeliveredIsNet(s, p); }
  }

  /** And the window explains a path if and only if no sweep forgot it. */
  lemma {:induction false} BatchesExplainIff(run: seq<Action>, p: Path)
    ensures ExplainedAt(View(Reach(run)), p) <==> !ForgottenLately(run, p)
  {
    hide ExplainedAt, Astray, Reach, ForgottenLately;
    ReachIsSane(run, p);
    if ForgottenLately(run, p) { AstrayIsNotExplained(View(Reach(run)), p); }
  }
}
