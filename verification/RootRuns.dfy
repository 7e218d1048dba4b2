/** What adding a root (src/worker.rs:60-105) leaves behind in the worker, and that over whole
    runs every accepted root stays looked after. */
module RootRuns {
  import opened Paths
  import opened Events
  import opened TreeModel
  import opened CrawlModel
  import opened CrawlResult
  import opened Filters
  import opened Runs
  import opened Linking
  import opened Adding
  import opened FirstCrawl
  import opened Roots
  import opened Transactions
  import opened WorkerMachine
  import Changed
  import Pending
  import Skipping

  // ------------------------------------------------------------------- one step

  /** `t` is the tree that holds the new root, and nothing else that is new. */
  ghost predicate Held(s: Worker, a: Action, t: Tree)
    requires Forest(s.tree) && a.NewRoot?
  {
    && Forest(t) && a.path in t.table
    && AddedAs(s.tree, a.fs, a.path, a.recursive, true, Added(t, Some(t.table[a.path])))
  }

  /** The root is listed once more, in its place; nothing else goes but what it covers. */
  ghost predicate ListedOnce(s: Worker, a: Action, t: Tree, r: Worker)
    requires a.NewRoot? && a.path in t.table
  {
    var root := Root(t.table[a.path], a.recursive);
    var rest := if a.recursive && !Rooted(r.tree, s.roots, a.path)
                then Standing(r.tree, a.filter, a.path, s.roots) else s.roots;
    PathOf(r.tree, root) == a.path
    && PutInPlace(r.tree, rest, root, Position(r.tree, a.path, s.roots), r.roots)
  }

  function ScopeOfRoot(a: Action): Scope
    requires a.NewRoot?
  {
    Scope(a.fs, a.filter, a.path, a.recursive)
  }

  /** The first crawl finds the path. */
  ghost predicate FoundAt(a: Action, t: Tree, p: Path)
    requires a.NewRoot?
  {
    && Visible(ScopeOfRoot(a), p).Some? && !Refused(t, a.fs, a.recursive, p)
    && !Behind(t, ScopeOfRoot(a), RootWalk(a.recursive, a.path, a.walk), p)
  }

  /** Path by path the tree is what the first crawl leaves of `t`; the backend was asked to
      watch the root as deep as the user wanted, and recursively every directory that a
      recursive crawl found. */
  ghost predicate CrawledOnce(s: Worker, a: Action, t: Tree, r: Worker)
    requires a.NewRoot?
  {
    && (forall p :: LeftAt(t, r.tree, a.fs, a.recursive, p, FoundAt(a, t, p)))
    && s.watches + [Watch(a.path, a.recursive)] <= r.watches
    && (forall p, deep :: Watch(p, deep) in r.watches[|s.watches| + 1..]
                          <==> deep && a.recursive && FoundAt(a, t, p) && Meta(r.tree, p).Dir?)
  }

  ghost predicate Taken(s: Worker, a: Action, t: Tree, r: Worker)
    requires Forest(s.tree) && a.NewRoot?
  {
    Held(s, a, t) && ListedOnce(s, a, t, r) && CrawledOnce(s, a, t, r)
  }

  /** The user's root can be added to the tree. */
  ghost predicate CanAdd(s: Worker, a: Action)
    requires a.NewRoot?
  {
    Addable(s.tree, a.fs, a.path, a.recursive, true)
  }

  lemma {:induction false} DeeplyMembers(paths: seq<Path>, p: Path, deep: bool)
    ensures Watch(p, deep) in Deeply(paths) <==> deep && p in paths
  {
    if deep && p in paths {
      var i :| 0 <= i < |paths| && paths[i] == p;
      assert Deeply(paths)[i] == Watch(p, true);
    }
  }

  lemma {:induction false} AddedIsHeld(s: Worker, a: Action)
    requires Ok(s) && WorkerMachine.Ready(s, a) && a.NewRoot?
    ensures var added := Add(s.tree, a.fs, a.path, a.recursive, true);
            if CanAdd(s, a) then Held(s, a, added.tree) && added.node == Some(added.tree.table[a.path])
            else added == Added(s.tree, None)
  {
    hide Forest, Add, RootsOk, QueueOk, BufferOk, NewAt, RestStays, KidsAt;
    AddKeepsForest(s.tree, a.fs, a.path, a.recursive, true);
    AddIs(s.tree, a.fs, a.path, a.recursive, true);
    var added := Add(s.tree, a.fs, a.path, a.recursive, true);
    assert CanAdd(s, a) ==> added == Added(added.tree, Some(added.tree.table[a.path]));
  }

  /** What the step does, in terms of the tree that holds the root. */
  lemma {:induction false} StepIs(s: Worker, a: Action)
    requires Ok(s) && WorkerMachine.Ready(s, a) && a.NewRoot?
    ensures var added := Add(s.tree, a.fs, a.path, a.recursive, true); var r := Act(s, a);
            && Forest(added.tree)
            && (added.node.None? ==> r == s)
            && (added.node.Some? && !a.watched ==>
                  r == s.(tree := added.tree, watches := s.watches + [Watch(a.path, a.recursive)]))
            && (added.node.Some? && a.watched ==>
                  && (forall i :: 0 <= i < |RootWalk(a.recursive, a.path, a.walk)| ==>
                        RootWalk(a.recursive, a.path, a.walk)[i].path != [])
                  && var c := CrawlRoot(added.tree, a.fs, a.filter, a.recursive, RootWalk(a.recursive, a.path, a.walk));
                     r == s.(tree := c.tree,
                             watches := s.watches + [Watch(a.path, a.recursive)] + Deeply(c.watches),
                             roots := WithRoot(c.tree, a.filter, s.roots, Root(added.node.value, a.recursive))))
  {
    hide TableOk, ListsOwned, Descending, KidsBelow, Add, CrawlRoot, WithRoot, RootsOk, QueueOk, BufferOk, RootWalk;
    AddKeepsForest(s.tree, a.fs, a.path, a.recursive, true);
    if Add(s.tree, a.fs, a.path, a.recursive, true).node.Some? && a.watched {
      RootWalkProper(a.recursive, a.path, a.walk);
    }
  }

  /** The root's node keeps its path while the first crawl goes on. */
  lemma {:induction false} RootStays(s: Worker, a: Action, t: Tree)
    requires Ok(s) && WorkerMachine.Ready(s, a) && a.NewRoot?
    requires t == Add(s.tree, a.fs, a.path, a.recursive, true).tree && Held(s, a, t)
    requires forall i :: 0 <= i < |RootWalk(a.recursive, a.path, a.walk)| ==>
               RootWalk(a.recursive, a.path, a.walk)[i].path != []
    ensures var u := CrawlRoot(t, a.fs, a.filter, a.recursive, RootWalk(a.recursive, a.path, a.walk)).tree;
            && InOrder(u, s.roots) && InTree(u, s.roots)
            && PathOf(u, Root(t.table[a.path], a.recursive)) == a.path
  {
    hide Forest, InOrder, InTree, CrawlRoot, AddedAs, QueueOk, BufferOk, Grows, RootWalk;
    var w := RootWalk(a.recursive, a.path, a.walk);
    AddGrows(s.tree, a.fs, a.path, a.recursive, true);
    CrawlRootGrows(t, a.fs, a.filter, a.recursive, w);
    var u := CrawlRoot(t, a.fs, a.filter, a.recursive, w).tree;
    RootsStayOk(s.tree, t, s.roots);
    RootsStayOk(t, u, s.roots);
    assert t.table[a.path] < |t.nodes| && t.nodes[t.table[a.path]].path == a.path by { InTable(t, a.path); }
    NodeStays(t, u, t.table[a.path]);
  }

  lemma {:induction false} InTable(t: Tree, p: Path)
    requires Forest(t) && p in t.table
    ensures t.table[p] < |t.nodes| && t.nodes[t.table[p]].path == p
  {
  }

  lemma {:induction false} ListedOnceIs(s: Worker, a: Action, t: Tree, r: Worker)
    requires a.NewRoot? && a.path in t.table && InOrder(r.tree, s.roots)
    requires PathOf(r.tree, Root(t.table[a.path], a.recursive)) == a.path
    requires r.roots == WithRoot(r.tree, a.filter, s.roots, Root(t.table[a.path], a.recursive))
    ensures ListedOnce(s, a, t, r)
  {
    hide InOrder, WithRoot, PutInPlace, Standing, Position, Rooted, PathOf;
    RootIsInserted(r.tree, a.filter, s.roots, Root(t.table[a.path], a.recursive));
  }

  lemma {:induction false} CrawledOnceIs(s: Worker, a: Action, t: Tree, r: Worker)
    requires a.NewRoot? && Begun(t, ScopeOfRoot(a), a.walk)
    requires var c := FirstCrawled(t, ScopeOfRoot(a), a.walk);
             r.tree == c.tree && r.watches == s.watches + [Watch(a.path, a.recursive)] + Deeply(c.watches)
    ensures CrawledOnce(s, a, t, r)
  {
    hide Forest, Lists, FirstCrawled, LeftAt, WatchedAt, Visible, Refused, Behind, Deeply, Meta;
    var c := FirstCrawled(t, ScopeOfRoot(a), a.walk);
    forall p
      ensures LeftAt(t, r.tree, a.fs, a.recursive, p, FoundAt(a, t, p))
              && WatchedAt(c, a.recursive, p, FoundAt(a, t, p))
    {
      FirstCrawlFinds(t, ScopeOfRoot(a), a.walk, p);
    }
    assert r.watches[|s.watches| + 1..] == Deeply(c.watches);
    forall p, deep
      ensures Watch(p, deep) in Deeply(c.watches) <==> deep && a.recursive && FoundAt(a, t, p) && Meta(r.tree, p).Dir?
    {
      DeeplyMembers(c.watches, p, deep);
      WatchedIs(c, a.recursive, p, FoundAt(a, t, p));
    }
    hide FoundAt;
  }

  lemma {:induction false} WatchedIs(c: RootCrawl, recursive: bool, p: Path, found: bool)
    requires WatchedAt(c, recursive, p, found)
    ensures p in c.watches <==> recursive && found && Meta(c.tree, p).Dir?
  {
  }

  /** Adding a root in any state that a run reaches. A root that the tree does not take, as
      known already or not there, changes nothing; one that the backend refuses leaves its node
      behind and is not listed; any other is listed once more, and what its first crawl finds
      is known and watched. */
  lemma {:induction false} NewRootIs(s: Worker, a: Action)
    requires Ok(s) && WorkerMachine.Ready(s, a) && a.NewRoot?
    ensures var r := Act(s, a);
            && r == s.(tree := r.tree, roots := r.roots, watches := r.watches)
            && (!CanAdd(s, a) ==> r == s)
            && (CanAdd(s, a) && !a.watched ==>
                  Held(s, a, r.tree) && r.roots == s.roots && r.watches == s.watches + [Watch(a.path, a.recursive)])
            && (CanAdd(s, a) && a.watched ==> exists t :: Held(s, a, t) && ListedOnce(s, a, t, r))
            && (CanAdd(s, a) && a.watched && Lists(a.fs, a.path, a.walk) ==> exists t :: Taken(s, a, t, r))
  {
    hide Forest, Add, CrawlRoot, WithRoot, RootsOk, QueueOk, BufferOk, RootWalk, Lists, AddedAs, ListedOnce,
         CrawledOnce,
         InOrder, CanAdd;
    StepIs(s, a);
    AddedIsHeld(s, a);
    var r := Act(s, a);
    if CanAdd(s, a) && a.watched {
      AcceptedIs(s, a);
      if Lists(a.fs, a.path, a.walk) { assert Taken(s, a, Add(s.tree, a.fs, a.path, a.recursive, true).tree, r); }
    }
  }

  lemma {:induction false} AcceptedIs(s: Worker, a: Action)
    requires Ok(s) && WorkerMachine.Ready(s, a) && a.NewRoot? && CanAdd(s, a) && a.watched
    ensures var t := Add(s.tree, a.fs, a.path, a.recursive, true).tree; var r := Act(s, a);
            && Held(s, a, t) && ListedOnce(s, a, t, r)
            && (Lists(a.fs, a.path, a.walk) ==> CrawledOnce(s, a, t, r))
  {
    hide Forest, Add, CrawlRoot, WithRoot, RootsOk, QueueOk, BufferOk, RootWalk, Lists, AddedAs, ListedOnce,
         CrawledOnce,
         InOrder, CanAdd, Act;
    StepIs(s, a);
    AddedIsHeld(s, a);
    var t := Add(s.tree, a.fs, a.path, a.recursive, true).tree;
    RootStays(s, a, t);
    ListedOnceIs(s, a, t, Act(s, a));
    if Lists(a.fs, a.path, a.walk) { CrawledOnceIs(s, a, t, Act(s, a)); }
  }

  // ------------------------------------------------------------------ over whole runs

  /** Action `k` adds a root that the tree takes and the backend does not refuse. */
  ghost predicate Accepts(run: seq<Action>, k: nat)
    requires k < |run|
  {
    Happens(run, k) && run[k].NewRoot? && CanAdd(Reach(run[..k]), run[k]) && run[k].watched
  }

  /** This listed root is the one asked for, or a recursive one above it. */
  ghost predicate Tends(t: Tree, root: Root, p: Path, recursive: bool) {
    || (PathOf(t, root) == p && root.recursive == recursive)
    || (PathOf(t, root) < p && root.recursive)
  }

  ghost predicate Tended(s: Worker, p: Path, recursive: bool) {
    exists root :: root in s.roots && Tends(s.tree, root, p, recursive)
  }

  ghost predicate Shown(filter: Filter, p: Path) {
    !IgnoredRec(filter, p, Some(true))
  }

  /** ... and that is the one asked for, or the filter does not hide the path from it. */
  ghost predicate TendedUnder(s: Worker, p: Path, recursive: bool, filter: Filter) {
    exists root :: root in s.roots && Tends(s.tree, root, p, recursive)
                   && (PathOf(s.tree, root) == p || Shown(filter, p))
  }

  /** The tree only grows, so a listed root keeps its path. */
  lemma {:induction false} PathsStay(s: Worker, a: Action, root: Root)
    requires Ok(s) && WorkerMachine.Ready(s, a) && root in s.roots
    ensures PathOf(Act(s, a).tree, root) == PathOf(s.tree, root)
  {
    hide Forest, RootsOk, RunCrawl, ApplyOne, AddRootTo, QueueOk, BufferOk, Grows, Consumed;
    var k :| 0 <= k < |s.roots| && s.roots[k] == root;
    assert InTree(s.tree, s.roots) by { OkInTree(s); }
    RootAt(s, k);
    ActGrows(s, a);
    GrowsPath(s.tree, Act(s, a).tree, root);
  }

  lemma {:induction false} OkInTree(s: Worker)
    requires Ok(s)
    ensures InTree(s.tree, s.roots) && InOrder(s.tree, s.roots) && Forest(s.tree)
  {
  }

  lemma {:induction false} GrowsPath(t: Tree, u: Tree, root: Root)
    requires Forest(t) && Forest(u) && Grows(t, u) && root.node < |t.nodes|
    ensures PathOf(u, root) == PathOf(t, root)
  {
    NodeStays(t, u, root.node);
  }

  lemma {:induction false} GrowsNothing(t: Tree)
    requires Forest(t)
    ensures Grows(t, t)
  {
  }

  lemma {:induction false} ActGrows(s: Worker, a: Action)
    requires Ok(s) && WorkerMachine.Ready(s, a)
    ensures Forest(s.tree) && Forest(Act(s, a).tree) && Grows(s.tree, Act(s, a).tree)
  {
    hide Forest, RootsOk, RunCrawl, ApplyOne, AddRootTo, QueueOk, BufferOk, Grows, Consumed, Pending.StrictlySorted,
         Pending.ListingOf, NoRootDir;
    GrowsNothing(s.tree);
    match a
    case NewRoot(_, _, _, _, _, _) => RootGrows(s, a);
    case CrawlNext(fs, filter, walk) =>
      OkInTree(s);
      RootAt(s, s.phase.next);
      CrawlGrows(s.tree, fs, filter, s.roots[s.phase.next].node, walk);
    case Apply(fs, filter, walker) => OneGrows(s.tree, fs, filter, walker, s.phase.rest[0]);
    case _ =>
  }

  lemma {:induction false} RootGrows(s: Worker, a: Action)
    requires Ok(s) && WorkerMachine.Ready(s, a) && a.NewRoot?
    ensures Forest(s.tree) && Forest(Act(s, a).tree) && Grows(s.tree, Act(s, a).tree)
  {
    hide Forest, RootsOk, Add, CrawlRoot, WithRoot, RootWalk, QueueOk, BufferOk, Grows;
    StepIs(s, a);
    GrowsNothing(s.tree);
    AddGrows(s.tree, a.fs, a.path, a.recursive, true);
    var t := Add(s.tree, a.fs, a.path, a.recursive, true).tree;
    if Act(s, a).tree != s.tree && Act(s, a).tree != t {
      CrawlRootGrows(t, a.fs, a.filter, a.recursive, RootWalk(a.recursive, a.path, a.walk));
      GrowsTransitive(s.tree, t, Act(s, a).tree);
    }
  }

  /** The path of the new root is in the list, and of the others all but what it covers. */
  lemma {:induction false} AfterAccepting(s: Worker, a: Action, root: Root)
    requires Ok(s) && WorkerMachine.Ready(s, a) && a.NewRoot? && CanAdd(s, a) && a.watched
    ensures var r := Act(s, a);
            && (exists new_ :: new_ in r.roots && PathOf(r.tree, new_) == a.path && new_.recursive == a.recursive)
            && (root in s.roots && root !in r.roots ==>
                  a.recursive && a.path < PathOf(r.tree, root) && Shown(a.filter, PathOf(r.tree, root)))
  {
    hide Forest, RootsOk, QueueOk, BufferOk, AddedAs, CanAdd, Act, Position, Rooted, Roots.Covers;
    AcceptedIs(s, a);
    var r := Act(s, a);
    var t := Add(s.tree, a.fs, a.path, a.recursive, true).tree;
    AfterInsertion(s, a, t, r, root);
  }

  lemma {:induction false} AfterInsertion(s: Worker, a: Action, t: Tree, r: Worker, root: Root)
    requires a.NewRoot? && a.path in t.table && ListedOnce(s, a, t, r)
    ensures var new_ := Root(t.table[a.path], a.recursive); new_ in r.roots && PathOf(r.tree, new_) == a.path
    ensures root in s.roots && root !in r.roots ==>
              a.recursive && a.path < PathOf(r.tree, root) && Shown(a.filter, PathOf(r.tree, root))
  {
    hide Rooted, Position, IgnoredRec, Standing, PutInPlace;
    var rest := if a.recursive && !Rooted(r.tree, s.roots, a.path)
                then Standing(r.tree, a.filter, a.path, s.roots) else s.roots;
    InsertedMembers(r.tree, rest, Position(r.tree, a.path, s.roots), Root(t.table[a.path], a.recursive), r.roots);
    StandingMembers(r.tree, a.filter, a.path, s.roots);
  }

  lemma {:induction false} OthersKeepRoots(s: Worker, a: Action)
    requires Ok(s) && WorkerMachine.Ready(s, a) && !(a.NewRoot? && CanAdd(s, a) && a.watched)
    ensures Act(s, a).roots == s.roots
  {
    hide Forest, RootsOk, RunCrawl, ApplyOne, AddRootTo, QueueOk, BufferOk, Consumed, CanAdd, Pending.StrictlySorted,
         Pending.ListingOf, NoRootDir;
    if a.NewRoot? { NewRootIs(s, a); }
  }

  /** One step: a root that stays tends what it did, and one that goes is replaced. */
  lemma {:induction false} StepTends(s: Worker, a: Action, root: Root, p: Path, recursive: bool)
    requires Ok(s) && WorkerMachine.Ready(s, a) && root in s.roots && Tends(s.tree, root, p, recursive)
    ensures var r := Act(s, a);
            exists next :: next in r.roots && Tends(r.tree, next, p, recursive)
                           && (PathOf(r.tree, next) == p || PathOf(s.tree, root) < p
                               || (a.NewRoot? && Shown(a.filter, p)))
  {
    hide Ok, Act, WorkerMachine.Ready, CanAdd, PathOf, Shown;
    var r := Act(s, a);
    PathsStay(s, a, root);
    if root in r.roots {
      assert Tends(r.tree, root, p, recursive);
    } else if a.NewRoot? && CanAdd(s, a) && a.watched {
      AfterAccepting(s, a, root);
      var next :| next in r.roots && PathOf(r.tree, next) == a.path && next.recursive == a.recursive;
      assert Tends(r.tree, next, p, recursive);
    } else {
      OthersKeepRoots(s, a);
    }
  }

  lemma {:induction false} StepKeepsTended(s: Worker, a: Action, p: Path, recursive: bool, filter: Filter)
    requires Ok(s) && WorkerMachine.Ready(s, a)
    ensures Tended(s, p, recursive) ==> Tended(Act(s, a), p, recursive)
    ensures TendedUnder(s, p, recursive, filter) && (a.NewRoot? ==> a.filter == filter) ==>
              TendedUnder(Act(s, a), p, recursive, filter)
  {
    hide Ok, Act, WorkerMachine.Ready, PathOf, Shown, Tends;
    var r := Act(s, a);
    if Tended(s, p, recursive) {
      var root :| root in s.roots && Tends(s.tree, root, p, recursive);
      StepTends(s, a, root, p, recursive);
    }
    if TendedUnder(s, p, recursive, filter) && (a.NewRoot? ==> a.filter == filter) {
      var root :| root in s.roots && Tends(s.tree, root, p, recursive)
                  && (PathOf(s.tree, root) == p || Shown(filter, p));
      StepTends(s, a, root, p, recursive);
    }
  }

  lemma {:induction false} AcceptedIsTended(s: Worker, a: Action, filter: Filter)
    requires Ok(s) && WorkerMachine.Ready(s, a) && a.NewRoot? && CanAdd(s, a) && a.watched
    ensures Tended(Act(s, a), a.path, a.recursive) && TendedUnder(Act(s, a), a.path, a.recursive, filter)
  {
    hide Ok, Act, WorkerMachine.Ready, CanAdd, PathOf, Shown;
    AfterAccepting(s, a, Root(0, false));
    var r := Act(s, a);
    var next :| next in r.roots && PathOf(r.tree, next) == a.path && next.recursive == a.recursive;
    assert Tends(r.tree, next, a.path, a.recursive);
  }

  /** From action `k` on every new root comes with this filter. */
  ghost predicate OneFilter(run: seq<Action>, k: nat, filter: Filter) {
    forall q :: k < q < |run| && run[q].NewRoot? ==> run[q].filter == filter
  }

  /** In every interleaving, every accepted root stays listed as it was asked for, or lies
      below a listed recursive root; and if all roots come with one filter, then below one from
      which that filter does not hide it. */
  lemma {:induction false} AcceptedRootsAreTended(run: seq<Action>, k: nat, filter: Filter)
    requires k < |run| && Accepts(run, k)
    ensures Tended(Reach(run), run[k].path, run[k].recursive)
    ensures OneFilter(run, k, filter) ==> TendedUnder(Reach(run), run[k].path, run[k].recursive, filter)
    decreases |run|
  {
    hide Ok, Act, WorkerMachine.Ready, Tended, TendedUnder, CanAdd;
    var init, a := run[..|run| - 1], run[|run| - 1];
    var s := Reach(init);
    if k == |run| - 1 {
      AcceptedIsTended(s, a, filter);
    } else {
      ReachPrefix(run, k);
      AcceptedRootsAreTended(init, k, filter);
      assert OneFilter(run, k, filter) ==> OneFilter(init, k, filter);
      if WorkerMachine.Ready(s, a) { StepKeepsTended(s, a, run[k].path, run[k].recursive, filter); }
    }
  }

  // --------------------------------------------------- what the backend is asked to watch

  /** What a crawl of this scope asks to watch. */
  ghost predicate Asks(scope: Scope, p: Path) {
    p == scope.root || (scope.recursive && VisibleDir(scope, p))
  }

  /** What an action other than adding a root asks to watch. */
  ghost predicate AsksAt(s: Worker, a: Action, p: Path)
    requires Ok(s) && WorkerMachine.Ready(s, a)
  {
    match a
    case CrawlNext(fs, filter, _) =>
      s.roots[s.phase.next].node < |s.tree.nodes|
      && Asks(ScopeOf(s.tree, fs, filter, s.roots[s.phase.next].node), p)
    case Apply(fs, filter, _) => Changed.Asked(s.tree, fs, filter, s.phase.rest[0], p)
    case _ => false
  }

  /** The listing that an action walks over is one of its snapshot. */
  ghost predicate WellListed(s: Worker, a: Action)
    requires WorkerMachine.Ready(s, a)
  {
    match a
    case CrawlNext(fs, _, walk) => Lists(fs, PathOf(s.tree, s.roots[s.phase.next]), walk)
    case Apply(fs, _, walker) => Skipping.ListsAt(fs, walker, s.phase.rest[0].path)
    case _ => true
  }

  lemma {:induction false} AskedThese(s: Worker, r: Worker, paths: seq<Path>, p: Path, deep: bool)
    requires r.watches == s.watches + Deeply(paths)
    ensures s.watches <= r.watches && (Watch(p, deep) in r.watches[|s.watches|..] <==> deep && p in paths)
  {
    assert r.watches[|s.watches|..] == Deeply(paths);
    DeeplyMembers(paths, p, deep);
  }

  lemma {:induction false} ApplyAsks(s: Worker, a: Action)
    requires Ok(s) && WorkerMachine.Ready(s, a) && a.Apply?
    ensures Act(s, a).watches
         == s.watches + Deeply(ApplyOne(s.tree, a.fs, a.filter, a.walker, s.phase.rest[0]).watches)
  {
    hide Forest, ApplyOne, RootsOk, QueueOk, BufferOk, Consumed, Pending.StrictlySorted, Deeply;
  }

  lemma {:induction false} CrawlAsks(s: Worker, a: Action, root: NodeId)
    requires Ok(s) && WorkerMachine.Ready(s, a) && a.CrawlNext?
    requires root < |s.tree.nodes| && root == s.roots[s.phase.next].node
    ensures Forest(s.tree)
    ensures Act(s, a).watches == s.watches + Deeply(RunCrawl(s.tree, a.fs, a.filter, root, [], a.walk).watches)
  {
    hide Forest, RunCrawl, QueueOk, BufferOk, RootsOk, Deeply;
  }

  lemma {:induction false} NextRoot(s: Worker, a: Action)
    requires Ok(s) && WorkerMachine.Ready(s, a) && a.CrawlNext?
    ensures s.phase.Recrawling? && s.phase.next < |s.roots| && s.roots[s.phase.next].node < |s.tree.nodes|
  {
    OkInTree(s);
    RootAt(s, s.phase.next);
  }

  lemma {:induction false} OthersAskNothing(s: Worker, a: Action)
    requires Ok(s) && WorkerMachine.Ready(s, a) && !a.NewRoot? && !a.CrawlNext? && !a.Apply?
    ensures Act(s, a).watches == s.watches
  {
    hide Forest, RootsOk, QueueOk, BufferOk, Pending.StrictlySorted, Pending.ListingOf, NoRootDir;
  }

  /** Whatever the tree asks to watch reaches the backend, and nothing else does: in every state
      that a run reaches, a crawl of a recrawl asks for its root and, if it is recursive, every
      directory that it sees; a change for what its crawl does; and no other action, but for
      adding a root, for anything. */
  lemma {:induction false} StepAsks(s: Worker, a: Action, p: Path, deep: bool)
    requires Ok(s) && WorkerMachine.Ready(s, a) && !a.NewRoot? && WellListed(s, a)
    ensures var r := Act(s, a);
            && s.watches <= r.watches
            && (Watch(p, deep) in r.watches[|s.watches|..] <==> deep && AsksAt(s, a, p))
  {
    hide Ok, Act, Forest, RunCrawl, Lists, ApplyOne, Deeply, Visible, Skipping.Crawls, Skipping.ListsAt,
         Changed.OwnReport,
         Changed.Recurses, Skipping.Deep;
    var r := Act(s, a);
    if a.CrawlNext? {
      NextRoot(s, a);
      var root := s.roots[s.phase.next].node;
      CrawlAsks(s, a, root);
      AskedThese(s, r, RunCrawl(s.tree, a.fs, a.filter, root, [], a.walk).watches, p, deep);
      CrawlResynchronises(s.tree, a.fs, a.filter, root, a.walk, p);
    } else if a.Apply? {
      ApplyAsks(s, a);
      OkInTree(s);
      var change := s.phase.rest[0];
      AskedThese(s, r, ApplyOne(s.tree, a.fs, a.filter, a.walker, change).watches, p, deep);
      Skipping.ListedWhereCrawled(s.tree, a.fs, a.filter, a.walker, change);
      Changed.OneIs(s.tree, a.fs, a.filter, a.walker, change, p);
    } else {
      OthersAskNothing(s, a);
    }
  }
}
