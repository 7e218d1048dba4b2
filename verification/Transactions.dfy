/** Applying a drained batch of changes (src/tree.rs, `apply_transaction`): what is
    processed, what is skipped, and why skipping only adjacent entries is enough. */
module Transactions {
  import opened Paths
  import opened Events
  import opened TreeModel
  import opened CrawlModel
  import opened CrawlDiscipline
  import Pending
  import FileTree

  /** A directory walk: some listing for every directory. */
  type Walker = Path -> seq<Entry>

  datatype Handled =
    | Processed(change: Pending.PendingChange, recursed: bool)
    | Skipped(change: Pending.PendingChange)

  datatype Outcome = Outcome(tree: Tree, events: seq<Event>, watches: seq<Path>, log: seq<Handled>)

  /** One change, with the crawl it may ask for. */
  datatype One = One(tree: Tree, events: seq<Event>, watches: seq<Path>, recurse: bool)

  function ApplyOne(t: Tree, fs: Snapshot, filter: Filter, walker: Walker, change: Pending.PendingChange): (r: One)
    requires Forest(t)
    ensures Forest(r.tree)
  {
    ApplyKeepsForest(t, fs, change);
    ApplyNodeInArena(t, fs, change);
    var a := ApplyChange(t, fs, change);
    if a.recurse && a.node.Some? && a.tree.nodes[a.node.value].meta.Dir? && !filter(change.path, Some(true)) then
      var c := RunCrawl(a.tree, fs, filter, a.node.value, [], walker(a.tree.nodes[a.node.value].path));
      One(c.tree, a.events + c.events, c.watches, true)
    else One(a.tree, a.events, [], a.recurse)
  }

  /** How many of the next changes lie below `dir`: the loop looks at adjacent ones only. */
  function Run(dir: Path, changes: seq<Pending.PendingChange>): (n: nat)
    ensures n <= |changes|
  {
    if changes != [] && dir < changes[0].path then 1 + Run(dir, changes[1..]) else 0
  }

  function Skips(changes: seq<Pending.PendingChange>): seq<Handled> {
    seq(|changes|, i requires 0 <= i < |changes| => Skipped(changes[i]))
  }

  function Transact(t: Tree, fs: Snapshot, filter: Filter, walker: Walker,
                    changes: seq<Pending.PendingChange>): (r: Outcome)
    requires Forest(t)
    ensures Forest(r.tree)
    decreases |changes|
  {
    if changes == [] then Outcome(t, [], [], [])
    else
      var one := ApplyOne(t, fs, filter, walker, changes[0]);
      var n := if one.recurse then Run(changes[0].path, changes[1..]) else 0;
      var later := Transact(one.tree, fs, filter, walker, changes[1 + n..]);
      Outcome(later.tree, one.events + later.events, one.watches + later.watches,
              [Processed(changes[0], one.recurse)] + Skips(changes[1..1 + n]) + later.log)
  }

  // -------------------------------------------------------- skipping is exact

  function Changes(log: seq<Handled>): seq<Pending.PendingChange> {
    seq(|log|, i requires 0 <= i < |log| => log[i].change)
  }

  /** An earlier processed change that recursed lies above entry `k`. */
  ghost predicate Covered(log: seq<Handled>, k: nat)
    requires k < |log|
  {
    exists j :: 0 <= j < k && CoveredBy(log, j, k)
  }

  ghost predicate CoveredBy(log: seq<Handled>, j: nat, k: nat)
    requires j < |log| && k < |log|
  {
    log[j].Processed? && log[j].recursed && log[j].change.path < log[k].change.path
  }

  ghost predicate SkipsExactly(log: seq<Handled>) {
    forall k :: 0 <= k < |log| ==> (log[k].Skipped? <==> Covered(log, k))
  }

  lemma {:induction false} SortedTail(changes: seq<Pending.PendingChange>, n: nat)
    requires Pending.StrictlySorted(changes) && n <= |changes|
    ensures Pending.StrictlySorted(changes[n..])
  {
  }

  lemma {:induction false} RunBelow(dir: Path, changes: seq<Pending.PendingChange>)
    ensures forall i :: 0 <= i < Run(dir, changes) ==> dir < changes[i].path
    ensures Run(dir, changes) < |changes| ==> !(dir < changes[Run(dir, changes)].path)
  {
    if changes != [] && dir < changes[0].path {
      RunBelow(dir, changes[1..]);
      assert forall i :: 1 <= i < Run(dir, changes) ==> changes[i] == changes[1..][i - 1];
    }
  }

  /** In path order nothing below `dir` comes after the first entry that is not. */
  lemma {:induction false} RunIsMaximal(changes: seq<Pending.PendingChange>)
    requires changes != [] && Pending.StrictlySorted(changes)
    ensures var dir := changes[0].path; var n := Run(dir, changes[1..]);
            forall i :: 1 + n <= i < |changes| ==> !(dir < changes[i].path)
  {
    var dir := changes[0].path;
    var n := Run(dir, changes[1..]);
    RunBelow(dir, changes[1..]);
    forall i | 1 + n <= i < |changes|
      ensures !(dir < changes[i].path)
    {
      var stop := changes[1 + n].path;
      assert changes[1..][n] == changes[1 + n];
      BeforeTotal(dir, stop);
      BeforeTotal(stop, dir);
      BeforeTotal(stop, changes[i].path);
      BeforeTotal(changes[i].path, stop);
      if dir < changes[i].path {
        assert Before(dir, stop);
        assert i > 1 + n ==> Before(stop, changes[i].path);
        DescendantsContiguous(dir, dir, stop, changes[i].path);
      }
    }
  }

  /** Every drained change is handled once and in order; what is skipped lies below an
      earlier processed change that recursed, and nothing that is processed does. */
  lemma {:induction false} SkippingIsExact(t: Tree, fs: Snapshot, filter: Filter, walker: Walker,
                                           changes: seq<Pending.PendingChange>)
    requires Forest(t) && Pending.StrictlySorted(changes)
    ensures var log := Transact(t, fs, filter, walker, changes).log; Changes(log) == changes && SkipsExactly(log)
    decreases |changes|
  {
    hide Forest, ApplyOne, Run, Skips, Covered;
    if changes != [] {
      var one := ApplyOne(t, fs, filter, walker, changes[0]);
      var n := if one.recurse then Run(changes[0].path, changes[1..]) else 0;
      SortedTail(changes, 1 + n);
      SkippingIsExact(one.tree, fs, filter, walker, changes[1 + n..]);
      RunBelow(changes[0].path, changes[1..]);
      RunIsMaximal(changes);
      var later := Transact(one.tree, fs, filter, walker, changes[1 + n..]).log;
      JoinLogs(changes, n, one.recurse, later);
    }
  }

  lemma {:induction false} JoinLogs(changes: seq<Pending.PendingChange>, n: nat, recursed: bool, later: seq<Handled>)
    requires 1 + n <= |changes| && Changes(later) == changes[1 + n..] && (n > 0 ==> recursed)
    requires forall i :: 0 <= i < n ==> changes[0].path < changes[1..][i].path
    requires recursed ==> forall i :: 1 + n <= i < |changes| ==> !(changes[0].path < changes[i].path)
    requires SkipsExactly(later)
    ensures var log := [Processed(changes[0], recursed)] + Skips(changes[1..1 + n]) + later;
            Changes(log) == changes && SkipsExactly(log)
  {
    var log := [Processed(changes[0], recursed)] + Skips(changes[1..1 + n]) + later;
    JoinChanges(changes, n, recursed, later);
    assert |later| == |changes| - 1 - n;
    assert forall i :: 0 <= i < |later| ==> log[1 + n + i] == later[i];
    assert forall i :: 1 <= i <= n ==> log[i] == Skipped(changes[i]);
    forall k | 0 <= k < |changes|
      ensures log[k].change == changes[k]
    {
      assert Changes(log)[k] == log[k].change;
    }
    hide Changes, Covered, Skips;
    forall k | 0 <= k < |log|
      ensures log[k].Skipped? <==> Covered(log, k)
    {
      if k == 0 {
        NotCoveredFirst(log);
      } else if k <= n {
        assert changes[1..][k - 1] == changes[k];
        CoveredByFirst(log, k);
      } else {
        assert log[k] == later[k - 1 - n];
        LaterCovered(log, later, n, k);
      }
    }
  }

  lemma {:induction false} JoinChanges(changes: seq<Pending.PendingChange>, n: nat, recursed: bool, later: seq<Handled>)
    requires 1 + n <= |changes| && Changes(later) == changes[1 + n..]
    ensures Changes([Processed(changes[0], recursed)] + Skips(changes[1..1 + n]) + later) == changes
  {
    var log := [Processed(changes[0], recursed)] + Skips(changes[1..1 + n]) + later;
    assert |later| == |changes| - 1 - n;
    forall k | 0 <= k < |changes|
      ensures log[k].change == changes[k]
    {
      if k > n { assert Changes(later)[k - 1 - n] == later[k - 1 - n].change; }
    }
  }

  lemma {:induction false} NotCoveredFirst(log: seq<Handled>)
    requires log != []
    ensures !Covered(log, 0)
  {
  }

  lemma {:induction false} CoveredByFirst(log: seq<Handled>, k: nat)
    requires 0 < k < |log| && CoveredBy(log, 0, k)
    ensures Covered(log, k)
  {
  }

  lemma {:induction false} LaterCovered(log: seq<Handled>, later: seq<Handled>, n: nat, k: nat)
    requires |log| == 1 + n + |later| && n < k < |log|
    requires forall i :: 0 <= i < |later| ==> log[1 + n + i] == later[i]
    requires forall i :: 1 <= i <= n ==> log[i].Skipped?
    requires !CoveredBy(log, 0, k)
    ensures Covered(log, k) <==> Covered(later, k - 1 - n)
  {
    if Covered(log, k) {
      var j :| 0 <= j < k && CoveredBy(log, j, k);
      assert CoveredBy(later, j - 1 - n, k - 1 - n);
    }
    if Covered(later, k - 1 - n) {
      var j :| 0 <= j < k - 1 - n && CoveredBy(later, j, k - 1 - n);
      assert log[1 + n + j] == later[j] && log[k] == later[k - 1 - n];
      assert CoveredBy(log, 1 + n + j, k);
    }
  }

  // ---------------------------------------------------------------- the method

  ghost predicate WalksProper(walker: Walker) {
    forall p, i :: 0 <= i < |walker(p)| ==> walker(p)[i].path != []
  }

  /** Drains the queue and applies it, against one snapshot. `drained` is the batch in
      the order it was taken. */
  method ApplyTransaction(tree: FileTree.FileTree, queue: Pending.PendingChanges, fs: Snapshot, filter: Filter,
                          walker: Walker, work: FileTree.WorkStack, sink: FileTree.Sink)
    returns (ghost drained: seq<Pending.PendingChange>)
    requires queue.Valid() && Forest(tree.Value()) && work.frames == [] && WalksProper(walker)
    requires forall p :: p in queue.Value().pending ==> p != []
    modifies tree, queue, work, sink
    ensures queue.Valid() && queue.Value() == Pending.Queue(map[], old(queue.recrawl))
    ensures Pending.StrictlySorted(drained) && Pending.ListingOf(drained, old(queue.Value().pending))
    ensures var r := Transact(old(tree.Value()), fs, filter, walker, drained);
            && tree.Value() == r.tree
            && sink.events == old(sink.events) + r.events && sink.watches == old(sink.watches) + r.watches
    ensures work.frames == []
  {
    hide Forest, Transact, Pending.StrictlySorted, WalksProper;
    var changes := queue.Drain();
    drained := changes;
    assert forall i :: 0 <= i < |changes| ==> changes[i].path != [];
    ApplyAll(tree, changes, fs, filter, walker, work, sink);
  }

  /** The loop over the drained changes. */
  method ApplyAll(tree: FileTree.FileTree, changes: seq<Pending.PendingChange>, fs: Snapshot, filter: Filter,
                  walker: Walker, work: FileTree.WorkStack, sink: FileTree.Sink)
    requires Forest(tree.Value()) && work.frames == [] && WalksProper(walker)
    requires forall i :: 0 <= i < |changes| ==> changes[i].path != []
    modifies tree, work, sink
    ensures var r := Transact(old(tree.Value()), fs, filter, walker, changes);
            && tree.Value() == r.tree
            && sink.events == old(sink.events) + r.events && sink.watches == old(sink.watches) + r.watches
    ensures work.frames == []
  {
    hide Forest, ApplyOne, Transact, Rest, Run, WalksProper;
    var i := 0;
    ghost var es, ws: seq<Path> := [], [];
    ghost var goal := Transact(tree.Value(), fs, filter, walker, changes);
    RestAtStart(tree.Value(), fs, filter, walker, changes);
    while i < |changes|
      invariant 0 <= i <= |changes| && Forest(tree.Value()) && work.frames == []
      invariant Rest(tree.Value(), fs, filter, walker, changes[i..], es, ws, goal)
      invariant sink.events == old(sink.events) + es && sink.watches == old(sink.watches) + ws
    {
      var change := changes[i];
      ghost var one := ApplyOne(tree.Value(), fs, filter, walker, change);
      RestStep(tree.Value(), fs, filter, walker, changes, i, es, ws, goal);
      var recurse := Handle(tree, change, fs, filter, walker, work, sink);
      Appended(old(sink.events), es, one.events);
      Appended(old(sink.watches), ws, one.watches);
      es, ws := es + one.events, ws + one.watches;
      i := i + 1;
      if recurse {
        i := SkipBelow(changes, i, change.path);
      }
    }
    assert changes[|changes|..] == [];
    RestAtEnd(tree.Value(), fs, filter, walker, es, ws, goal);
  }

  lemma {:induction false} Appended<T>(a: seq<T>, b: seq<T>, c: seq<T>)
    ensures a + b + c == a + (b + c)
  {
  }

  /** Skips the pending changes below a directory that was looked at as a whole. */
  method SkipBelow(changes: seq<Pending.PendingChange>, start: nat, dir: Path) returns (i: nat)
    requires start <= |changes|
    ensures i == start + Run(dir, changes[start..])
  {
    i := start;
    while i < |changes| && dir < changes[i].path
      invariant start <= i <= |changes|
      invariant Run(dir, changes[start..]) == i - start + Run(dir, changes[i..])
    {
      assert changes[i..][1..] == changes[i + 1..] && changes[i..][0] == changes[i];
      i := i + 1;
    }
  }

  /** What is left of a transaction completes it. */
  ghost predicate Rest(t: Tree, fs: Snapshot, filter: Filter, walker: Walker, changes: seq<Pending.PendingChange>,
                       es: seq<Event>, ws: seq<Path>, goal: Outcome)
    requires Forest(t)
  {
    var later := Transact(t, fs, filter, walker, changes);
    later.tree == goal.tree && es + later.events == goal.events && ws + later.watches == goal.watches
  }

  lemma {:induction false} RestStep(t: Tree, fs: Snapshot, filter: Filter, walker: Walker,
                                    changes: seq<Pending.PendingChange>, i: nat,
                                    es: seq<Event>, ws: seq<Path>, goal: Outcome)
    requires Forest(t) && i < |changes| && Rest(t, fs, filter, walker, changes[i..], es, ws, goal)
    ensures var one := ApplyOne(t, fs, filter, walker, changes[i]);
            var next := i + 1 + (if one.recurse then Run(changes[i].path, changes[i + 1..]) else 0);
            next <= |changes|
              && Rest(one.tree, fs, filter, walker, changes[next..], es + one.events, ws + one.watches, goal)
  {
    hide Forest, ApplyOne, Run, Transact;
    var rest := changes[i..];
    var one := ApplyOne(t, fs, filter, walker, changes[i]);
    assert rest[0] == changes[i] && rest[1..] == changes[i + 1..];
    TransactStep(t, fs, filter, walker, rest, es, ws);
    var n := if one.recurse then Run(changes[i].path, changes[i + 1..]) else 0;
    assert rest[1 + n..] == changes[i + 1 + n..];
  }

  lemma {:induction false} TransactStep(t: Tree, fs: Snapshot, filter: Filter, walker: Walker,
                                        changes: seq<Pending.PendingChange>,
                                        es: seq<Event>, ws: seq<Path>)
    requires Forest(t) && changes != []
    ensures var one := ApplyOne(t, fs, filter, walker, changes[0]);
            var n := if one.recurse then Run(changes[0].path, changes[1..]) else 0;
            var all := Transact(t, fs, filter, walker, changes);
            var later := Transact(one.tree, fs, filter, walker, changes[1 + n..]);
            && all.tree == later.tree
            && es + all.events == es + one.events + later.events
            && ws + all.watches == ws + one.watches + later.watches
  {
    hide Forest, ApplyOne, Run, Skips;
  }

  lemma {:induction false} RestAtStart(t: Tree, fs: Snapshot, filter: Filter, walker: Walker,
                                       changes: seq<Pending.PendingChange>)
    requires Forest(t)
    ensures Rest(t, fs, filter, walker, changes[0..], [], [], Transact(t, fs, filter, walker, changes))
  {
    hide Forest, Transact;
    assert changes[0..] == changes;
  }

  lemma {:induction false} RestAtEnd(t: Tree, fs: Snapshot, filter: Filter, walker: Walker,
                                     es: seq<Event>, ws: seq<Path>, goal: Outcome)
    requires Forest(t) && Rest(t, fs, filter, walker, [], es, ws, goal)
    ensures goal.tree == t && goal.events == es && goal.watches == ws
  {
    hide Forest;
    assert Transact(t, fs, filter, walker, []) == Outcome(t, [], [], []);
  }

  /** One change: apply it, and crawl if it is a directory that is not ignored. */
  method Handle(tree: FileTree.FileTree, change: Pending.PendingChange, fs: Snapshot, filter: Filter, walker: Walker,
                work: FileTree.WorkStack, sink: FileTree.Sink)
    returns (recurse: bool)
    requires Forest(tree.Value()) && work.frames == [] && change.path != [] && WalksProper(walker)
    modifies tree, work, sink
    ensures var r := ApplyOne(old(tree.Value()), fs, filter, walker, change);
            && tree.Value() == r.tree && recurse == r.recurse
            && sink.events == old(sink.events) + r.events && sink.watches == old(sink.watches) + r.watches
    ensures work.frames == []
  {
    hide Forest, ApplyChange, RunCrawl;
    ghost var t := tree.Value();
    ApplyKeepsForest(t, fs, change);
    ApplyNodeInArena(t, fs, change);
    var node;
    node, recurse := tree.ApplyChange(change, fs, work, sink);
    ghost var a := ApplyChange(t, fs, change);
    if recurse && node.Some? && tree.nodes[node.value].meta.Dir? && !filter(change.path, Some(true)) {
      var walk := walker(tree.nodes[node.value].path);
      CrawlEmpties(a.tree, fs, filter, node.value, walk);
      tree.Crawl(node.value, fs, filter, walk, work, sink);
      ghost var c := RunCrawl(a.tree, fs, filter, node.value, [], walk);
      assert old(sink.events) + a.events + c.events == old(sink.events) + (a.events + c.events);
    } else {
      assert sink.watches + [] == sink.watches;
    }
  }

  lemma {:induction false} CrawlEmpties(t: Tree, fs: Snapshot, filter: Filter, root: NodeId, walk: seq<Entry>)
    requires Forest(t) && root < |t.nodes|
    ensures RunCrawl(t, fs, filter, root, [], walk).stack == []
  {
    var path := t.nodes[root].path;
    var recursive := t.nodes[root].coverage == Recursive;
    EmptyAtEnd(RunWalk(Start(t, root, []), fs, filter, recursive, path,
                       if recursive then walk else Shallow(path, walk)));
  }
}
