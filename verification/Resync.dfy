/** What a recrawl achieves in the worker (src/worker.rs:129-148) if nothing changes while it
    goes on: every crawl of it looks at one snapshot, with one filter. */
module Resync {
  import opened Paths
  import opened TreeModel
  import opened CrawlModel
  import opened CrawlResult
  import opened Filters
  import opened Roots
  import opened Transactions
  import opened Recrawl
  import opened RootRuns
  import opened WorkerMachine

  function Nodes(roots: seq<Root>): (ids: seq<NodeId>)
    ensures |ids| == |roots| && forall k :: 0 <= k < |roots| ==> ids[k] == roots[k].node
  {
    seq(|roots|, k requires 0 <= k < |roots| => roots[k].node)
  }

  /** A complete listing for every root. */
  ghost predicate RootsListed(s: Worker, fs: Snapshot, walker: Walker) {
    forall k :: 0 <= k < |s.roots| ==> Lists(fs, PathOf(s.tree, s.roots[k]), walker(PathOf(s.tree, s.roots[k])))
  }

  /** The action does not end the recrawl, and if it is a crawl, it is one of this snapshot. */
  ghost predicate Looks(s: Worker, a: Action, fs: Snapshot, filter: Filter, walker: Walker)
    requires WorkerMachine.Ready(s, a)
  {
    && !a.EndRecrawl?
    && (a.CrawlNext? ==> a == CrawlNext(fs, filter, walker(PathOf(s.tree, s.roots[s.phase.next]))))
  }

  ghost predicate LooksAt(run: seq<Action>, q: nat, fs: Snapshot, filter: Filter, walker: Walker)
    requires q < |run|
  {
    Happens(run, q) ==> Looks(Reach(run[..q]), run[q], fs, filter, walker)
  }

  /** Action `m` began a recrawl, which has gone on since, over one snapshot. */
  ghost predicate Recrawls(run: seq<Action>, m: nat, fs: Snapshot, filter: Filter, walker: Walker) {
    && m < |run| && run[m].BeginRecrawl? && Happens(run, m) && RootsListed(Reach(run[..m]), fs, walker)
    && forall q :: m < q < |run| ==> LooksAt(run, q, fs, filter, walker)
  }

  lemma {:induction false} RecrawlsPrefix(run: seq<Action>, m: nat, fs: Snapshot, filter: Filter, walker: Walker)
    requires Recrawls(run, m, fs, filter, walker) && m < |run| - 1
    ensures Recrawls(run[..|run| - 1], m, fs, filter, walker) && run[..|run| - 1][..m] == run[..m]
  {
    var init := run[..|run| - 1];
    hide Reach, Looks, RootsListed;
    ReachPrefix(run, m);
    forall q | m < q < |init|
      ensures LooksAt(init, q, fs, filter, walker)
    {
      ReachPrefix(run, q);
      assert LooksAt(run, q, fs, filter, walker);
    }
  }

  /** The roots make a plan: in path order none lies above one before it. */
  lemma {:induction false} RootsArePlan(s: Worker, fs: Snapshot, walker: Walker, n: nat)
    requires Ok(s) && RootsListed(s, fs, walker) && n <= |s.roots|
    ensures Plan(s.tree, fs, walker, Nodes(s.roots)[..n])
  {
    var ids := Nodes(s.roots)[..n];
    hide Forest, Lists, QueueOk, BufferOk, PhaseOk;
    forall k | 0 <= k < n
      ensures ids[k] == s.roots[k].node && ids[k] < |s.tree.nodes|
              && PathOf(s.tree, s.roots[k]) == s.tree.nodes[ids[k]].path
    {
      RootAt(s, k);
    }
    forall j, k | 0 <= j < k < n
      ensures NotAbove(s.tree, ids[k], ids[j])
    {
      if s.tree.nodes[ids[k]].path < s.tree.nodes[ids[j]].path {
        AncestorFirst(s.tree.nodes[ids[k]].path, s.tree.nodes[ids[j]].path);
      }
    }
  }

  /** How far the recrawl has come: the crawls of that many roots, one after the other. */
  ghost predicate HasCrawled(before: Worker, s: Worker, fs: Snapshot, filter: Filter, walker: Walker) {
    && s.phase.Recrawling? && s.roots == before.roots && s.phase.next <= |before.roots|
    && Plan(before.tree, fs, walker, Nodes(before.roots)[..s.phase.next])
    && var r := CrawlEach(before.tree, fs, filter, walker, Nodes(before.roots)[..s.phase.next]);
       s.tree == r.tree && s.window == before.window + r.events
  }

  lemma {:induction false} BeginsHere(before: Worker, a: Action, fs: Snapshot, filter: Filter, walker: Walker)
    requires Ok(before) && WorkerMachine.Ready(before, a) && a.BeginRecrawl? && RootsListed(before, fs, walker)
    ensures HasCrawled(before, Act(before, a), fs, filter, walker)
  {
    RootsArePlan(before, fs, walker, 0);
    hide Forest, RootsListed, Plan;
    assert Nodes(before.roots)[..0] == [];
  }

  lemma {:induction false} CrawlNextDoes(s: Worker, fs: Snapshot, filter: Filter, walk: seq<Entry>, root: NodeId)
    requires Ok(s) && WorkerMachine.Ready(s, CrawlNext(fs, filter, walk))
    requires root < |s.tree.nodes| && root == s.roots[s.phase.next].node
    ensures Forest(s.tree)
    ensures var c := RunCrawl(s.tree, fs, filter, root, [], walk);
            Act(s, CrawlNext(fs, filter, walk))
            == s.(phase := Recrawling(s.phase.next + 1), tree := c.tree, window := s.window + c.events,
                  watches := s.watches + Deeply(c.watches))
  {
    hide Forest, RunCrawl, InOrder;
  }

  lemma {:induction false} WhichCrawl(s: Worker, a: Action, fs: Snapshot, filter: Filter, walker: Walker)
    requires WorkerMachine.Ready(s, a) && Looks(s, a, fs, filter, walker) && a.CrawlNext?
    ensures s.phase.Recrawling? && s.phase.next < |s.roots|
    ensures a == CrawlNext(fs, filter, walker(PathOf(s.tree, s.roots[s.phase.next])))
  {
  }

  lemma {:induction false} OneMore(before: Worker, s: Worker, fs: Snapshot, filter: Filter, walker: Walker, id: NodeId)
    requires HasCrawled(before, s, fs, filter, walker) && s.phase.next < |before.roots|
    requires id == before.roots[s.phase.next].node
             && Plan(before.tree, fs, walker, Nodes(before.roots)[..s.phase.next + 1])
    requires Forest(s.tree) && id < |before.tree.nodes|
    ensures id < |s.tree.nodes| && s.tree.nodes[id].path == before.tree.nodes[id].path
    ensures var c := RunCrawl(s.tree, fs, filter, id, [], walker(s.tree.nodes[id].path));
            HasCrawled(before,
                       s.(phase := Recrawling(s.phase.next + 1), tree := c.tree, window := s.window + c.events,
                          watches := s.watches + Deeply(c.watches)),
                       fs, filter, walker)
  {
    hide Forest, RunCrawl, CrawlEach, Lists, NotAbove;
    var n := s.phase.next;
    var ids := Nodes(before.roots);
    assert ids[..n + 1] == ids[..n] + [id];
    EachThenOne(before.tree, fs, filter, walker, ids[..n], id);
    var r := CrawlEach(before.tree, fs, filter, walker, ids[..n]);
    var c := RunCrawl(s.tree, fs, filter, id, [], walker(before.tree.nodes[id].path));
    assert before.window + r.events + c.events == before.window + (r.events + c.events);
  }

  lemma {:induction false} CrawlsOneMore(before: Worker, s: Worker, a: Action, fs: Snapshot, filter: Filter,
                                         walker: Walker)
    requires Ok(before) && RootsListed(before, fs, walker) && HasCrawled(before, s, fs, filter, walker)
    requires Ok(s) && WorkerMachine.Ready(s, a) && Looks(s, a, fs, filter, walker) && a.CrawlNext?
    ensures HasCrawled(before, Act(s, a), fs, filter, walker)
  {
    OkHasForest(before);
    OkHasForest(s);
    WhichCrawl(s, a, fs, filter, walker);
    hide Ok, RootsListed, Act, Forest, RunCrawl, CrawlEach, Plan, WorkerMachine.Ready, Looks;
    var id := s.roots[s.phase.next].node;
    RootAt(before, s.phase.next);
    RootsArePlan(before, fs, walker, s.phase.next + 1);
    OneMore(before, s, fs, filter, walker, id);
    CrawlNextDoes(s, fs, filter, walker(s.tree.nodes[id].path), id);
  }

  lemma {:induction false} OkHasForest(s: Worker)
    requires Ok(s)
    ensures Forest(s.tree) && InTree(s.tree, s.roots)
  {
  }

  lemma {:induction false} OthersWait(before: Worker, s: Worker, a: Action, fs: Snapshot, filter: Filter,
                                      walker: Walker)
    requires HasCrawled(before, s, fs, filter, walker)
    requires Ok(s) && WorkerMachine.Ready(s, a) && Looks(s, a, fs, filter, walker) && !a.CrawlNext?
    ensures HasCrawled(before, Act(s, a), fs, filter, walker)
  {
    hide Forest, RunCrawl, CrawlEach, RootsOk, QueueOk, BufferOk, Plan;
  }

  /** While it goes on, the recrawl has done no more and no less than crawl the first roots in
      turn, whatever is reported meanwhile. */
  lemma {:induction false} GoesOn(run: seq<Action>, m: nat, fs: Snapshot, filter: Filter, walker: Walker)
    requires Recrawls(run, m, fs, filter, walker)
    ensures HasCrawled(Reach(run[..m]), Reach(run), fs, filter, walker)
    decreases |run|
  {
    hide Ok, Act, WorkerMachine.Ready, RootsListed, HasCrawled, Looks;
    var init, a := run[..|run| - 1], run[|run| - 1];
    var before, s := Reach(run[..m]), Reach(init);
    if m == |run| - 1 {
      BeginsHere(before, a, fs, filter, walker);
    } else {
      RecrawlsPrefix(run, m, fs, filter, walker);
      GoesOn(init, m, fs, filter, walker);
      if WorkerMachine.Ready(s, a) {
        assert LooksAt(run, |run| - 1, fs, filter, walker);
        if a.CrawlNext? {
          CrawlsOneMore(before, s, a, fs, filter, walker);
        } else {
          OthersWait(before, s, a, fs, filter, walker);
        }
      }
    }
  }

  lemma {:induction false} RootsInStep(before: Worker, s: Worker, fs: Snapshot, filter: Filter, walker: Walker)
    requires HasCrawled(before, s, fs, filter, walker)
    ensures forall k :: 0 <= k < s.phase.next ==>
              s.roots[k].node < |s.tree.nodes| && InStep(s.tree, fs, filter, s.roots[k].node)
    ensures s.phase.next == |s.roots| ==> Steady(s.tree, fs, filter, Nodes(s.roots))
  {
    hide Forest, CrawlEach, Lists, NotAbove, InStep, Steady;
    var ids := Nodes(before.roots)[..s.phase.next];
    forall k | 0 <= k < s.phase.next
      ensures s.roots[k].node < |s.tree.nodes| && InStep(s.tree, fs, filter, s.roots[k].node)
    {
      EachIsInStep(before.tree, fs, filter, walker, ids, k);
      assert ids[k] == s.roots[k].node;
    }
    LeavesSteady(before.tree, fs, filter, walker, ids);
    assert s.phase.next == |s.roots| ==> ids == Nodes(s.roots);
  }

  ghost predicate AllQuiet(s: Worker, fs: Snapshot, filter: Filter) {
    forall k :: 0 <= k < |s.roots| ==>
      s.roots[k].node < |s.tree.nodes| && Quiet(s.tree, ScopeOf(s.tree, fs, filter, s.roots[k].node))
  }

  lemma {:induction false} SilentIfQuiet(before: Worker, s: Worker, fs: Snapshot, filter: Filter, walker: Walker)
    requires HasCrawled(before, s, fs, filter, walker) && s.phase.next == |s.roots|
    requires Steady(before.tree, fs, filter, Nodes(before.roots))
    ensures s.window == before.window <==> AllQuiet(before, fs, filter)
  {
    hide Forest, CrawlEach, Lists, NotAbove, Quiet, Tame, CoveredFrom;
    var ids := Nodes(before.roots);
    assert ids[..s.phase.next] == ids;
    EachSilentIff(before.tree, fs, filter, walker, ids);
    assert forall k :: 0 <= k < |ids| ==> ids[k] == before.roots[k].node;
  }

  lemma {:induction false} HowFar(before: Worker, s: Worker, fs: Snapshot, filter: Filter, walker: Walker)
    requires HasCrawled(before, s, fs, filter, walker)
    ensures s.phase.Recrawling? && s.roots == before.roots && s.phase.next <= |s.roots|
  {
  }

  /** In every interleaving, a recrawl of one snapshot puts every root it has come to in step,
      and keeps it so while it goes on with the others: what the snapshot shows there is
      what the tree knows. When it has come to all, a further recrawl can start from there. */
  lemma {:induction false} RecrawlPutsInStep(run: seq<Action>, m: nat, fs: Snapshot, filter: Filter, walker: Walker)
    requires Recrawls(run, m, fs, filter, walker)
    ensures var s := Reach(run);
            && s.phase.Recrawling? && s.roots == Reach(run[..m]).roots && s.phase.next <= |s.roots|
            && (forall k :: 0 <= k < s.phase.next ==>
                  s.roots[k].node < |s.tree.nodes| && InStep(s.tree, fs, filter, s.roots[k].node))
            && (s.phase.next == |s.roots| ==> Steady(s.tree, fs, filter, Nodes(s.roots)))
  {
    hide Reach, Ok, HasCrawled, InStep, Steady, Happens, LooksAt, RootsListed;
    GoesOn(run, m, fs, filter, walker);
    HowFar(Reach(run[..m]), Reach(run), fs, filter, walker);
    RootsInStep(Reach(run[..m]), Reach(run), fs, filter, walker);
  }

  /** From such a state, a recrawl of the same snapshot adds nothing to what is held back if
      and only if no root gets at a known file unseen. */
  lemma {:induction false} RecrawlIsSilentIff(run: seq<Action>, m: nat, fs: Snapshot, filter: Filter, walker: Walker)
    requires Recrawls(run, m, fs, filter, walker) && Reach(run).phase == Recrawling(|Reach(run).roots|)
    requires Steady(Reach(run[..m]).tree, fs, filter, Nodes(Reach(run[..m]).roots))
    ensures Reach(run).window == Reach(run[..m]).window <==> AllQuiet(Reach(run[..m]), fs, filter)
  {
    hide Reach, Ok, HasCrawled, Steady, AllQuiet, Happens, LooksAt, RootsListed;
    GoesOn(run, m, fs, filter, walker);
    SilentIfQuiet(Reach(run[..m]), Reach(run), fs, filter, walker);
  }

  // ------------------------------------------------- what is watched once it is through

  /** Since the recrawl began, the backend was asked to watch every root it has come to, and
      every directory that is visible from a recursive one. */
  ghost predicate RootsAsked(before: Worker, s: Worker, fs: Snapshot, filter: Filter) {
    && before.watches <= s.watches && s.phase.Recrawling?
    && forall k, p :: 0 <= k < s.phase.next && k < |s.roots| && RootAsks(s, fs, filter, k, p) ==>
         Watch(p, true) in s.watches[|before.watches|..]
  }

  ghost predicate RootAsks(s: Worker, fs: Snapshot, filter: Filter, k: nat, p: Path)
    requires k < |s.roots|
  {
    s.roots[k].node < |s.tree.nodes| && Asks(ScopeOf(s.tree, fs, filter, s.roots[k].node), p)
  }

  lemma {:induction false} RootsNotAbove(s: Worker, j: nat, k: nat)
    requires Ok(s) && j < k < |s.roots|
    ensures s.roots[j].node < |s.tree.nodes| && s.roots[k].node < |s.tree.nodes|
    ensures NotAbove(s.tree, s.roots[k].node, s.roots[j].node)
  {
    OkInTree(s);
    RootAt(s, j);
    RootAt(s, k);
    hide Forest, QueueOk, BufferOk, PhaseOk, Ok;
    var x, y := s.tree.nodes[s.roots[k].node].path, s.tree.nodes[s.roots[j].node].path;
    assert !Before(PathOf(s.tree, s.roots[k]), PathOf(s.tree, s.roots[j]));
    if x < y { AncestorFirst(x, y); }
  }

  /** The root that comes next is listed rightly, since its path is what it was. */
  lemma {:induction false} NextIsReady(before: Worker, s: Worker, fs: Snapshot, filter: Filter, walker: Walker)
    requires Ok(before) && Ok(s) && RootsListed(before, fs, walker) && HasCrawled(before, s, fs, filter, walker)
    requires s.phase.next < |s.roots|
    ensures var id := s.roots[s.phase.next].node;
            id < |s.tree.nodes| && CrawlResult.Ready(s.tree, fs, id, walker(s.tree.nodes[id].path))
  {
    var n := s.phase.next;
    OkHasForest(before);
    OkHasForest(s);
    RootAt(before, n);
    RootAt(s, n);
    assert Lists(fs, PathOf(before.tree, before.roots[n]), walker(PathOf(before.tree, before.roots[n])));
    hide Ok, Forest, CrawlEach, Lists, NotAbove;
    EachThenOne(before.tree, fs, filter, walker, Nodes(before.roots)[..n], before.roots[n].node);
  }

  /** The crawl itself asks for what its root is to ask for. */
  lemma {:induction false} CrawlAsksAll(t: Tree, fs: Snapshot, filter: Filter, id: NodeId, walk: seq<Entry>, p: Path)
    requires CrawlResult.Ready(t, fs, id, walk)
    ensures var c := RunCrawl(t, fs, filter, id, [], walk);
            id < |c.tree.nodes| && (Asks(ScopeOf(c.tree, fs, filter, id), p) ==> Watch(p, true) in Deeply(c.watches))
  {
    hide Forest, RunCrawl, Lists, Deeply, Asks;
    CrawlKeepsScope(t, fs, filter, id, walk, walk);
    CrawlResynchronises(t, fs, filter, id, walk, p);
    DeeplyMembers(RunCrawl(t, fs, filter, id, [], walk).watches, p, true);
    AsksIs(ScopeOf(t, fs, filter, id), p);
  }

  /** The state after one more crawl. */
  lemma {:induction false} AskedWithOneMore(before: Worker, s: Worker, r: Worker, fs: Snapshot, filter: Filter,
                                            id: NodeId, walk: seq<Entry>)
    requires Ok(s) && s.phase.Recrawling? && s.phase.next < |s.roots| && id == s.roots[s.phase.next].node
    requires CrawlResult.Ready(s.tree, fs, id, walk) && RootsAsked(before, s, fs, filter)
    requires var c := RunCrawl(s.tree, fs, filter, id, [], walk);
             && r.tree == c.tree && r.watches == s.watches + Deeply(c.watches)
             && r.roots == s.roots && r.phase == Recrawling(s.phase.next + 1)
    ensures RootsAsked(before, r, fs, filter)
  {
    var n := s.phase.next;
    var more := Deeply(RunCrawl(s.tree, fs, filter, id, [], walk).watches);
    hide Ok, Forest, RunCrawl, Deeply, Asks, Lists;
    WatchesJoin(before.watches, s.watches, more, Watch([], true));
    forall k, p | 0 <= k <= n && RootAsks(r, fs, filter, k, p)
      ensures Watch(p, true) in r.watches[|before.watches|..]
    {
      WatchesJoin(before.watches, s.watches, more, Watch(p, true));
      if k == n {
        CrawlAsksAll(s.tree, fs, filter, id, walk, p);
      } else {
        RootsNotAbove(s, k, n);
        ScopeStays(s.tree, fs, filter, id, walk, s.roots[k].node);
        assert RootAsks(s, fs, filter, k, p);
      }
    }
  }

  lemma {:induction false} OneMoreAsked(before: Worker, s: Worker, a: Action, fs: Snapshot, filter: Filter,
                                        walker: Walker)
    requires Ok(before) && RootsListed(before, fs, walker) && HasCrawled(before, s, fs, filter, walker)
    requires Ok(s) && WorkerMachine.Ready(s, a) && Looks(s, a, fs, filter, walker) && a.CrawlNext?
    requires RootsAsked(before, s, fs, filter)
    ensures RootsAsked(before, Act(s, a), fs, filter)
  {
    WhichCrawl(s, a, fs, filter, walker);
    hide Ok, HasCrawled, RootsListed, Act, RunCrawl, Deeply, WorkerMachine.Ready, Looks, RootsAsked, Forest, Lists;
    NextIsReady(before, s, fs, filter, walker);
    var id := s.roots[s.phase.next].node;
    CrawlNextDoes(s, fs, filter, a.walk, id);
    CrawlAsks(s, a, id);
    AskedWithOneMore(before, s, Act(s, a), fs, filter, id, a.walk);
  }

  lemma {:induction false} AsksIs(scope: Scope, p: Path)
    ensures Asks(scope, p) <==> p == scope.root || (scope.recursive && VisibleDir(scope, p))
  {
  }

  lemma {:induction false} WatchesJoin(old_: seq<Watch>, now: seq<Watch>, more: seq<Watch>, w: Watch)
    requires old_ <= now
    ensures old_ <= now + more
    ensures w in now[|old_|..] || w in more ==> w in (now + more)[|old_|..]
  {
    assert (now + more)[|old_|..] == now[|old_|..] + more;
  }

  lemma {:induction false} OthersAsked(before: Worker, s: Worker, a: Action, fs: Snapshot, filter: Filter,
                                       walker: Walker)
    requires RootsAsked(before, s, fs, filter)
    requires Ok(s) && WorkerMachine.Ready(s, a) && Looks(s, a, fs, filter, walker) && !a.CrawlNext?
    ensures RootsAsked(before, Act(s, a), fs, filter)
  {
    hide Forest, RunCrawl, RootsOk, QueueOk, BufferOk, Asks;
    assert forall k, p :: 0 <= k < |s.roots| ==>
             (RootAsks(Act(s, a), fs, filter, k, p) <==> RootAsks(s, fs, filter, k, p));
  }

  /** In every interleaving, a recrawl of one snapshot asks to watch every root it has come to
      and every directory that is visible from a recursive one, so that what is new there is
      watched once it is through, and what is not is asked for again. */
  lemma {:induction false} RecrawlAsksForAll(run: seq<Action>, m: nat, fs: Snapshot, filter: Filter, walker: Walker)
    requires Recrawls(run, m, fs, filter, walker)
    ensures RootsAsked(Reach(run[..m]), Reach(run), fs, filter)
    decreases |run|
  {
    hide Ok, Act, WorkerMachine.Ready, RootsListed, HasCrawled, Looks, RootsAsked;
    var init, a := run[..|run| - 1], run[|run| - 1];
    var before, s := Reach(run[..m]), Reach(init);
    if m == |run| - 1 {
      NothingAskedYet(before, a, fs, filter);
    } else {
      RecrawlsPrefix(run, m, fs, filter, walker);
      GoesOn(init, m, fs, filter, walker);
      RecrawlAsksForAll(init, m, fs, filter, walker);
      if WorkerMachine.Ready(s, a) {
        assert LooksAt(run, |run| - 1, fs, filter, walker);
        if a.CrawlNext? {
          OneMoreAsked(before, s, a, fs, filter, walker);
        } else {
          OthersAsked(before, s, a, fs, filter, walker);
        }
      }
    }
  }

  lemma {:induction false} NothingAskedYet(before: Worker, a: Action, fs: Snapshot, filter: Filter)
    requires Ok(before) && WorkerMachine.Ready(before, a) && a.BeginRecrawl?
    ensures RootsAsked(before, Act(before, a), fs, filter)
  {
  }
}
