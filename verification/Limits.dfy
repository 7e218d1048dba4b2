/** Concrete inputs on which the code does less than one might expect. The exact
    conditions are the if-and-only-if results of the other modules. */
module Limits {
  import opened Paths
  import opened Events
  import opened TreeModel
  import opened Deletion
  import opened CrawlModel
  import opened CrawlStructure
  import opened CrawlClaims
  import opened CrawlResult
  import opened Filters
  import opened Runs
  import opened Roots
  import opened Legality
  import opened CrawlTheorem
  import opened Linking
  import opened Skipping
  import opened Recrawl
  import opened Transactions
  import Pending

  const R: Name := [114]
  const D: Name := [100]
  const F: Name := [102]

  const NOTHING_IGNORED: Filter := (p, isDir) => false

  const ROOT_DIR := Directory(0, 0, 1)

  // ------------------------------------------------- a directory becomes a file

  /** A root with a directory in it and a file in that. */
  const NESTED := Tree(
    map[[R] := 0, [R, D] := 1, [R, D, F] := 2],
    [Node([R], Dir, 1, false, Recursive, Some(0)),
     Node([R, D], Dir, 2, false, Recursive, Some(1)),
     Node([R, D, F], File(0, 0), 3, false, Recursive, None)],
    [[1], [2]])

  /** The directory has been replaced by a file. */
  const REPLACED: Snapshot := map[[R] := ROOT_DIR, [R, D] := Regular(5, 5, 9)]

  lemma {:induction false} NestedKids()
    ensures Kids(NESTED, 0) == [1] && Kids(NESTED, 1) == [2]
    ensures forall i :: i > 1 ==> Kids(NESTED, i) == []
    ensures Up([R, D]) == [R] && Up([R, D, F]) == [R, D]
  {
  }

  lemma {:induction false} NestedIsForest()
    ensures Forest(NESTED)
  {
    NestedKids();
    assert |NESTED.nodes| == 3;
    assert TableOk(NESTED);
    assert ListsOwned(NESTED);
    hide TableOk, ListsOwned;
    assert forall i, k :: 0 <= i < 3 && 0 <= k < |Kids(NESTED, i)| ==> k == 0 && i < 2 && Kids(NESTED, i)[k] == i + 1;
    assert Descending(NESTED);
    assert KidsBelow(NESTED);
  }

  lemma {:induction false} NestedIsCoherent()
    ensures Coherent(NESTED, [R])
  {
    NestedKids();
    forall p | [R] < p && Known(NESTED, p)
      ensures Linked(NESTED, p) && (p == [R, D] || p == [R, D, F])
    {
    }
    forall p | [R] < p && [R] != Up(p) && Meta(NESTED, p) != Deleted
      ensures Meta(NESTED, Up(p)).Dir?
    {
      assert Known(NESTED, p);
    }
  }

  /** The file that was below it is gone, but the crawl says nothing about it. */
  lemma {:induction false} FileBelowReplacedDirectoryIsMissed()
    ensures var walk := [Entry([R, D], false)]; var p := [R, D, F];
            var s := Scope(REPLACED, NOTHING_IGNORED, [R], true);
            && Ready(NESTED, REPLACED, 0, walk) && Coherent(NESTED, [R])
            && Diff(Meta(NESTED, p), Inode(NESTED, p), Visible(s, p)) == [Delete]
            && At(RunCrawl(NESTED, REPLACED, NOTHING_IGNORED, 0, [], walk).events, p) == []
  {
    var walk, p := [Entry([R, D], false)], [R, D, F];
    NestedIsForest();
    NestedIsCoherent();
    hide Forest, Coherent, RunCrawl;
    assert Follows([R], walk, 0);
    assert Lists(REPLACED, [R], walk);
    var s := Scope(REPLACED, NOTHING_IGNORED, [R], true);
    assert VisibleFile(s, [R, D]);
    assert [R, D] < p;
    CoherentIsEnough(s, NESTED);
    CoherentCrawl(NESTED, REPLACED, NOTHING_IGNORED, 0, walk);
  }

  // --------------------------------------------------------------- a skipped change

  const OF_D := Pending.PendingChange([R, D], Pending.NO_FLAGS)
  const OF_F := Pending.PendingChange([R, D, F], Pending.NO_FLAGS)

  lemma {:induction false} ReplacedIsNotCrawled(walker: Walker)
    ensures Forest(NESTED)
    ensures var one := ApplyOne(NESTED, REPLACED, NOTHING_IGNORED, walker, OF_D);
            one.recurse && one.events == [Event([R, D], Create)] && IsFile(one.tree, [R, D, F])
  {
    NestedIsForest();
    hide Forest;
  }

  /** The change that reports the file below it as gone is skipped, although nothing is crawled
      for the file that took the directory's place. */
  lemma {:induction false} SkippedWithoutCrawl(walker: Walker)
    ensures Forest(NESTED)
    ensures var r := Transact(NESTED, REPLACED, NOTHING_IGNORED, walker, [OF_D, OF_F]); var p := [R, D, F];
            && r.log == [Processed(OF_D, true), Skipped(OF_F)] && r.events == [Event([R, D], Create)]
            && p !in REPLACED && IsFile(r.tree, p)
  {
    ReplacedIsNotCrawled(walker);
    hide Forest, ApplyOne, IsFile, NESTED;
    var changes := [OF_D, OF_F];
    var one := ApplyOne(NESTED, REPLACED, NOTHING_IGNORED, walker, OF_D);
    assert changes[1..] == [OF_F] && [OF_F][1..] == [] && [R, D] < [R, D, F];
    assert Run([R, D], [OF_F]) == 1;
    assert changes[2..] == [] && changes[1..2] == [OF_F];
    assert Transact(one.tree, REPLACED, NOTHING_IGNORED, walker, []) == Outcome(one.tree, [], [], []);
    assert [Processed(OF_D, true)] + Skips([OF_F]) + [] == [Processed(OF_D, true), Skipped(OF_F)];
    assert one.events + [] == one.events;
  }

  /** The same tree under a root that is not recursive. */
  const SHALLOW := Tree(
    map[[R] := 0, [R, D] := 1, [R, D, F] := 2],
    [Node([R], Dir, 1, false, ChildrenOnly, Some(0)),
     Node([R, D], Dir, 2, false, Uncovered, Some(1)),
     Node([R, D, F], File(0, 0), 3, false, Uncovered, None)],
    [[1], [2]])

  const WITHOUT_F: Snapshot := map[[R] := ROOT_DIR, [R, D] := Directory(0, 0, 2)]

  const OF_R := Pending.PendingChange([R], Pending.NO_FLAGS.(nonRecursiveCrawl := true))

  const LISTED: Walker := p => if p == [R] then [Entry([R, D], true)] else []

  lemma {:induction false} ShallowIsForest()
    ensures Forest(SHALLOW)
  {
    NestedIsForest();
    assert SameShape(NESTED, SHALLOW);
    ShapeKeepsForest(NESTED, SHALLOW);
  }

  lemma {:induction false} ShallowCrawl()
    ensures Forest(SHALLOW) && Crawls(SHALLOW, WITHOUT_F, NOTHING_IGNORED, OF_R) && !Deep(SHALLOW, OF_R)
    ensures ApplyOne(SHALLOW, WITHOUT_F, NOTHING_IGNORED, LISTED, OF_R).recurse
    ensures Lists(WITHOUT_F, [R], LISTED([R]))
  {
    ShallowIsForest();
    hide Forest, RunCrawl;
    assert ForPath(WITHOUT_F, [R]).Some?;
    assert Follows([R], LISTED([R]), 0);
  }

  /** The crawl of such a root looks one level deep, and yet what is reported further down is
      skipped: the deletion of the file is lost. */
  lemma {:induction false} SkippedBelowShallowCrawl()
    ensures Forest(SHALLOW)
    ensures var r := Transact(SHALLOW, WITHOUT_F, NOTHING_IGNORED, LISTED, [OF_R, OF_F]); var p := [R, D, F];
            && r.log == [Processed(OF_R, true), Skipped(OF_F)] && At(r.events, p) == []
            && p !in WITHOUT_F && IsFile(SHALLOW, p)
  {
    ShallowCrawl();
    hide Forest, Crawls, Deep, ApplyOne, Lists;
    var changes := [OF_R, OF_F];
    var p := [R, D, F];
    var one := ApplyOne(SHALLOW, WITHOUT_F, NOTHING_IGNORED, LISTED, OF_R);
    assert changes[1..] == [OF_F] && [OF_F][1..] == [] && [R] < p;
    assert Run([R], [OF_F]) == 1;
    assert changes[2..] == [] && changes[1..2] == [OF_F];
    BelowIsReported(SHALLOW, WITHOUT_F, NOTHING_IGNORED, LISTED, OF_R, p);
    OutOfReach();
    assert [Processed(OF_R, true)] + Skips([OF_F]) + [] == [Processed(OF_R, true), Skipped(OF_F)];
    assert one.events + [] == one.events;
  }

  lemma {:induction false} OutOfReach()
    requires Forest(SHALLOW) && Crawls(SHALLOW, WITHOUT_F, NOTHING_IGNORED, OF_R) && !Deep(SHALLOW, OF_R)
    ensures Reported(SHALLOW, WITHOUT_F, NOTHING_IGNORED, OF_R, [R, D, F]) == []
  {
    hide Forest, Crawls, Deep;
    var s := CrawlScope(SHALLOW, WITHOUT_F, NOTHING_IGNORED, OF_R);
    assert Up([R, D, F]) == [R, D] && Up([R, D]) == [R];
    assert Visible(s, [R, D, F]).None? && VisibleDir(s, [R, D]);
    assert SeenAbove(s, [R, D, F]) == [R, D];
  }

  // ------------------------------------------------------- an ignored nested root

  /** What the tree knows, unchanged. */
  const UNCHANGED: Snapshot := map[[R] := ROOT_DIR, [R, D] := Directory(0, 0, 2), [R, D, F] := Regular(0, 0, 3)]

  const IGNORING_D: Filter := (p, isDir) => p == [R, D] && isDir == Some(true)

  const FILE_F := Entry([R, D, F], false)

  const COMPLETE: Walker := p =>
    if p == [R] then [Entry([R, D], true), FILE_F] else if p == [R, D] then [FILE_F] else []

  /** What the outer root sees, and what the root in it does. */
  const OUTER := Scope(UNCHANGED, IGNORING_D, [R], true)
  const INNER := Scope(UNCHANGED, IGNORING_D, [R, D], true)

  lemma {:induction false} WhatTheySee()
    ensures forall p :: Visible(OUTER, p).None?
    ensures forall p :: Visible(INNER, p) == if p == [R, D, F] then Some(Regular(0, 0, 3)) else None
    ensures ScopeOf(NESTED, UNCHANGED, IGNORING_D, 0) == OUTER && ScopeOf(NESTED, UNCHANGED, IGNORING_D, 1) == INNER
  {
    assert IGNORING_D([R, D], Some(true)) && [R, D, F][..2] == [R, D];
    forall p
      ensures Visible(OUTER, p).None?
      ensures Visible(INNER, p) == if p == [R, D, F] then Some(Regular(0, 0, 3)) else None
    {
      assert p in UNCHANGED ==> p == [R] || p == [R, D] || p == [R, D, F];
      assert !([R, D] < [R]) && !([R, D] < [R, D]) && [R, D] < [R, D, F];
    }
  }

  lemma {:induction false} BothAreListed()
    ensures Lists(UNCHANGED, [R], COMPLETE([R])) && Lists(UNCHANGED, [R, D], COMPLETE([R, D]))
  {
    var w := COMPLETE([R]);
    assert Follows([R], w, 0) && Follows([R], w, 1) && Follows([R, D], COMPLETE([R, D]), 0);
    assert w[0] == Entry([R, D], true) && w[1] == FILE_F && COMPLETE([R, D])[0] == FILE_F;
  }

  lemma {:induction false} BothArePlanned()
    ensures Plan(NESTED, UNCHANGED, COMPLETE, [0, 1])
  {
    NestedIsForest();
    BothAreListed();
    hide Forest, Lists;
    assert !([R, D] < [R]);
  }

  lemma {:induction false} BothAreTame()
    ensures Tame(NESTED, OUTER) && Tame(NESTED, INNER)
  {
    WhatTheySee();
    hide Visible;
    assert Meta(NESTED, [R, D, F]) == File(0, 0) && Inode(NESTED, [R, D, F]) == 3;
  }

  lemma {:induction false} BothAreSteady()
    ensures Steady(NESTED, UNCHANGED, IGNORING_D, [0, 1])
  {
    BothAreTame();
    WhatTheySee();
    hide Tame, Visible;
    var ids := [0, 1];
    assert NESTED.nodes[0].path == [R] && NESTED.nodes[1].path == [R, D];
    forall j, k | 0 <= j < |ids| && 0 <= k < |ids|
      ensures CoveredFrom(NESTED, ScopeOf(NESTED, UNCHANGED, IGNORING_D, ids[j]), ids[k])
    {
    }
  }

  /** A directory that is ignored as such, but a root of its own: a recrawl of the unchanged
      snapshot reports a file in it as gone, and then as new. */
  lemma {:induction false} IgnoredNestedRootIsNotSilent()
    ensures Plan(NESTED, UNCHANGED, COMPLETE, [0, 1]) && Steady(NESTED, UNCHANGED, IGNORING_D, [0, 1])
    ensures IsFile(NESTED, [R, D, F]) && UNCHANGED[[R, D, F]].Regular?
    ensures At(CrawlEach(NESTED, UNCHANGED, IGNORING_D, COMPLETE, [0, 1]).events, [R, D, F]) == [Delete, Create]
  {
    BothArePlanned();
    BothAreSteady();
    WhatTheySee();
    OuterGetsAtIt();
    InnerStaysInner();
    hide Visible, Swept, Lists, Steady, RunCrawl, Plan, ForgottenLeaf, Forest;
    TwoCrawls(NESTED, [R, D, F]);
  }

  lemma {:induction false} InnerStaysInner()
    requires Plan(NESTED, UNCHANGED, COMPLETE, [0, 1]) && forall p :: Visible(OUTER, p).None?
    requires ScopeOf(NESTED, UNCHANGED, IGNORING_D, 0) == OUTER && ScopeOf(NESTED, UNCHANGED, IGNORING_D, 1) == INNER
    ensures var u := RunCrawl(NESTED, UNCHANGED, IGNORING_D, 0, [], COMPLETE([R])).tree;
            1 < |u.nodes| && u.nodes[1].path == [R, D] && ScopeOf(u, UNCHANGED, IGNORING_D, 1) == INNER
  {
    hide Forest, Visible, Lists, RunCrawl;
    assert NESTED.nodes[0].path == [R] && NESTED.nodes[1].path == [R, D];
    PlanGoesOn(NESTED, UNCHANGED, IGNORING_D, COMPLETE, [0, 1]);
    CoverageAfter(NESTED, UNCHANGED, IGNORING_D, 0, COMPLETE([R]), 1);
  }

  lemma {:induction false} TwoCrawls(t: Tree, p: Path)
    requires Plan(t, UNCHANGED, COMPLETE, [0, 1])
    requires 0 < |t.nodes| && t.nodes[0].path == [R] && ScopeOf(t, UNCHANGED, IGNORING_D, 0) == OUTER
    requires var u := RunCrawl(t, UNCHANGED, IGNORING_D, 0, [], COMPLETE([R])).tree;
             1 < |u.nodes| && u.nodes[1].path == [R, D] && ScopeOf(u, UNCHANGED, IGNORING_D, 1) == INNER
    requires Visible(OUTER, p).None? && Swept(OUTER, t, p) && !ForgottenLeaf(OUTER, t, p) && Meta(t, p) == File(0, 0)
    requires Visible(INNER, p) == Some(Regular(0, 0, 3))
    ensures At(CrawlEach(t, UNCHANGED, IGNORING_D, COMPLETE, [0, 1]).events, p) == [Delete, Create]
  {
    hide Forest, RunCrawl, Visible, Swept, Lists, ForgottenLeaf, COMPLETE, IGNORING_D, UNCHANGED, OUTER, INNER;
    var first := RunCrawl(t, UNCHANGED, IGNORING_D, 0, [], COMPLETE([R]));
    var ids := [0, 1];
    PlanGoesOn(t, UNCHANGED, IGNORING_D, COMPLETE, ids);
    assert ids[1..] == [1] && [1][1..] == [] && ids[1..][0] == 1;
    assert CrawlResult.Ready(first.tree, UNCHANGED, 1, COMPLETE([R, D]));
    CrawlReports(t, UNCHANGED, IGNORING_D, 0, COMPLETE([R]), p);
    CrawlLeavesAt(t, UNCHANGED, IGNORING_D, 0, COMPLETE([R]), p);
    FileMeta(first.tree, p);
    CrawlReports(first.tree, UNCHANGED, IGNORING_D, 1, COMPLETE([R, D]), p);
    var second := RunCrawl(first.tree, UNCHANGED, IGNORING_D, 1, [], COMPLETE([R, D]));
    AtAppend(first.events, second.events, p);
    assert second.events + [] == second.events;
  }

  lemma {:induction false} OuterGetsAtIt()
    requires forall p :: Visible(OUTER, p).None?
    ensures var p := [R, D, F];
            Swept(OUTER, NESTED, p) && !ForgottenLeaf(OUTER, NESTED, p) && Meta(NESTED, p) == File(0, 0)
  {
    hide Visible;
    NestedKids();
    var p := [R, D, F];
    assert SeenAbove(OUTER, [R, D]) == [R] && SeenAbove(OUTER, p) == [R] && Toward([R], p) == [R, D];
    assert Linked(NESTED, [R, D]) && Reached(NESTED, [R, D], p);
  }

  // ------------------------------------------------- a root that another one replaces

  /** Three directories, one in the other. */
  const DEEP := Tree(
    map[[R] := 0, [R, D] := 1, [R, D, F] := 2],
    [Node([R], Dir, 1, false, Recursive, Some(0)),
     Node([R, D], Dir, 2, false, Recursive, Some(1)),
     Node([R, D, F], Dir, 3, false, Recursive, None)],
    [[1], [2]])

  const HIDING_F: Filter := (p, isDir) => p == [R, D, F]

  lemma {:induction false} DeepFilters()
    ensures !IgnoredRec(NOTHING_IGNORED, [R, D, F], Some(true))
    ensures !IgnoredRec(HIDING_F, [R, D], Some(true)) && IgnoredRec(HIDING_F, [R, D, F], Some(true))
    ensures [R] < [R, D] < [R, D, F]
  {
    assert forall n :: 0 <= n < 2 ==> [R, D][..n] != [R, D, F];
  }

  /** The innermost root gives way to the one around it, and that to the outermost, whose filter
      is another one: now the innermost is neither listed nor looked at. */
  lemma {:induction false} ReplacedRootIsHidden()
    ensures var inner, middle, outer := Root(2, true), Root(1, true), Root(0, true);
            var first := WithRoot(DEEP, NOTHING_IGNORED, [inner], middle);
            var second := WithRoot(DEEP, HIDING_F, first, outer);
            && InOrder(DEEP, [inner]) && (forall r :: r in second <==> r == outer)
            && IgnoredRec(HIDING_F, PathOf(DEEP, inner), Some(true))
  {
    DeepFilters();
    var inner, middle, outer := Root(2, true), Root(1, true), Root(0, true);
    var first := WithRoot(DEEP, NOTHING_IGNORED, [inner], middle);
    assert PathOf(DEEP, inner) == [R, D, F] && PathOf(DEEP, middle) == [R, D] && PathOf(DEEP, outer) == [R];
    assert InOrder(DEEP, [inner]);
    hide WithRoot, InOrder, PathOf, IgnoredRec;
    OrderIsKept(DEEP, NOTHING_IGNORED, [inner], middle);
    WithRootMembers(DEEP, NOTHING_IGNORED, [inner], middle);
    WithRootMembers(DEEP, HIDING_F, first, outer);
    assert forall r :: r in first <==> r == middle;
  }

  // ------------------------------------------------------ a vanished childless file

  /** A root with one file in it. */
  const FLAT := Tree(
    map[[R] := 0, [R, F] := 1],
    [Node([R], Dir, 1, false, Recursive, Some(0)), Node([R, F], File(0, 0), 3, false, Recursive, None)],
    [[1]])

  const EMPTIED: Snapshot := map[[R] := ROOT_DIR]

  lemma {:induction false} FlatIsForest()
    ensures Forest(FLAT) && Coherent(FLAT, [R])
  {
    assert Kids(FLAT, 0) == [1] && Kids(FLAT, 1) == [] && |FLAT.nodes| == 2;
    assert Up([R, F]) == [R];
    assert TableOk(FLAT) && ListsOwned(FLAT);
    hide TableOk, ListsOwned;
    assert forall i, k :: 0 <= i < 2 && 0 <= k < |Kids(FLAT, i)| ==> k == 0 && i == 0 && Kids(FLAT, i)[k] == 1;
    assert Descending(FLAT) && KidsBelow(FLAT);
    forall p | [R] < p && Known(FLAT, p)
      ensures Linked(FLAT, p) && p == [R, F]
    {
    }
  }

  lemma {:induction false} EmptiedIsListed()
    ensures Ready(FLAT, EMPTIED, 0, []) && Linked(FLAT, [R, F])
  {
    FlatIsForest();
    assert Lists(EMPTIED, [R], []);
  }

  /** The file is deleted once; crawling twice reports it twice. */
  lemma {:induction false} VanishedFileIsReportedTwice()
    ensures Ready(FLAT, EMPTIED, 0, [])
    ensures var u := FullCrawl(FLAT, EMPTIED, NOTHING_IGNORED, 0, []);
            && At(u.events, [R, F]) == [Delete]
            && Ready(u.tree, EMPTIED, 0, []) && FullCrawl(u.tree, EMPTIED, NOTHING_IGNORED, 0, []).events != []
  {
    EmptiedIsListed();
    hide Forest, RunCrawl, Lists, Linked;
    var s := Scope(EMPTIED, NOTHING_IGNORED, [R], true);
    assert Up([R, F]) == [R] && Toward([R], [R, F]) == [R, F];
    assert SeenAbove(s, [R, F]) == [R] && Swept(s, FLAT, [R, F]);
    CrawlReports(FLAT, EMPTIED, NOTHING_IGNORED, 0, [], [R, F]);
    assert ForgottenLeaf(s, FLAT, [R, F]);
    SecondCrawlSilentIff(FLAT, EMPTIED, NOTHING_IGNORED, 0, [], []);
  }

  const FULL: Snapshot := map[[R] := ROOT_DIR, [R, F] := Regular(0, 0, 3)]

  /** The file is back, as another one. */
  const RETURNED: Snapshot := map[[R] := ROOT_DIR, [R, F] := Regular(7, 7, 4)]

  const ADDED: seq<Op> := [AddRoot(FULL, [R], true), Populate(FULL, NOTHING_IGNORED, true, [Entry([R, F], false)])]

  const BACK := Pending.PendingChange([R, F], Pending.NO_FLAGS)

  lemma {:induction false} RunSnoc(ops: seq<Op>, op: Op)
    requires Enabled(After(ops).tree, op)
    ensures After(ops + [op]) == Runs.Step(After(ops), op)
  {
    assert (ops + [op])[..|ops|] == ops;
  }

  lemma {:induction false} RunNothing()
    ensures After([]) == INITIAL
  {
  }

  lemma {:induction false} FlatIsReached()
    ensures After(ADDED) == State(FLAT, [], EMPTY)
  {
    var one := Tree(map[[R] := 0], [Node([R], Dir, 1, false, Recursive, None)], []);
    assert After([]) == INITIAL;
    RunSnoc([], ADDED[0]);
    assert [] + [ADDED[0]] == [ADDED[0]];
    FirstAdded(one);
    RunSnoc([ADDED[0]], ADDED[1]);
    assert [ADDED[0]] + [ADDED[1]] == ADDED;
    hide After, Forest, Add;
    SecondAdded(one);
  }

  lemma {:induction false} FirstAdded(one: Tree)
    requires one == Tree(map[[R] := 0], [Node([R], Dir, 1, false, Recursive, None)], [])
    ensures Add(EMPTY, FULL, [R], true, true).tree == one
  {
    assert Up([R]) == [];
  }

  lemma {:induction false} SecondAdded(one: Tree)
    requires Forest(one) && one == Tree(map[[R] := 0], [Node([R], Dir, 1, false, Recursive, None)], [])
    ensures CrawlRoot(one, FULL, NOTHING_IGNORED, true, [Entry([R, F], false)]).tree == FLAT
  {
    assert Up([R, F]) == [R];
    var n := Node([R, F], File(0, 0), 3, false, Recursive, None);
    var u := Grow(one, Some(0), n);
    assert u.nodes == FLAT.nodes;
    var lists: seq<seq<NodeId>> := [] + [[]];
    var kids: seq<NodeId> := [1];
    assert lists[0] + kids == kids && lists[0 := kids] == [kids];
    assert u.dirs == lists[0 := lists[0] + kids];
    assert Add(one, FULL, [R, F], true, false) == Added(u, Some(1));
    hide Add, Forest, Grow;
    assert [Entry([R, F], false)][1..] == [];
  }

  lemma {:induction false} EmptiedCrawl()
    ensures Forest(FLAT)
    ensures var c := RunCrawl(FLAT, EMPTIED, NOTHING_IGNORED, 0, [], []);
            c.events == [Event([R, F], Delete)] && Forest(c.tree)
            && c.tree.table == FLAT.table && |c.tree.nodes| == 2
               && c.tree.nodes[1] == FLAT.nodes[1].(maybeDeleted := true)
  {
    FlatIsForest();
    hide Forest;
    var s := Start(FLAT, 0, []);
    assert Kids(FLAT, 0) == [1];
    assert s.stack == [Frame(0, 0)] && s.tree == FLAT.(nodes := FLAT.nodes[1 := FLAT.nodes[1].(maybeDeleted := true)]);
    assert Kids(s.tree, 0) == [1];
    PopFrameIs(s);
    PopWhileIs(s, 0);
    PopWhileIs(PopFrame(s), 0);
    assert DeleteRec(s.tree, 1) == Cut(s.tree, []);
    assert SweepOne(s.tree, 1) == Cut(s.tree, [Event([R, F], Delete)]);
    assert [1][1..] == [];
    assert Sweep(s.tree, [1]) == Cut(s.tree, [Event([R, F], Delete)]);
  }

  /** It was reported as deleted but not marked, so when it is back it counts as modified,
      which the debouncer cannot merge: what is delivered says that it is gone. */
  lemma {:induction false} ForgottenFileComesBack()
    ensures var s := After(ADDED + [Settle, Recrawl(EMPTIED, NOTHING_IGNORED, 0, []), Change(RETURNED, BACK)]);
            var p := [R, F];
            && At(s.window, p) == [Delete, Modified] && |s.window| == 2 && !MergesAt(s.window, 1)
            && At(Coalesce(s.window), p) == [Delete] && IsFile(s.base, p) && IsFile(s.tree, p)
  {
    hide RunCrawl, Forest, After, ApplyChange, At, MergesAt, Coalesce;
    FlatIsReached();
    EmptiedCrawl();
    var c := RunCrawl(FLAT, EMPTIED, NOTHING_IGNORED, 0, [], []);
    FileIsModified(c.tree);
    var a := ApplyChange(c.tree, RETURNED, BACK);
    ThreeSteps(ADDED, FLAT);
    assert ADDED + [Settle] + [Recrawl(EMPTIED, NOTHING_IGNORED, 0, [])] + [Change(RETURNED, BACK)]
        == ADDED + [Settle, Recrawl(EMPTIED, NOTHING_IGNORED, 0, []), Change(RETURNED, BACK)];
    assert [] + [Event([R, F], Delete)] + [Event([R, F], Modified)] == [Event([R, F], Delete), Event([R, F], Modified)];
    DeletedThenModified([] + c.events + a.events, [R, F]);
  }

  lemma {:induction false} ThreeSteps(ops: seq<Op>, t: Tree)
    requires After(ops).tree == t && |t.nodes| == 2
    ensures Forest(t)
    ensures var crawl, back := Recrawl(EMPTIED, NOTHING_IGNORED, 0, []), Change(RETURNED, BACK);
            var c := RunCrawl(t, EMPTIED, NOTHING_IGNORED, 0, [], []);
            var a := ApplyChange(c.tree, RETURNED, BACK);
            After(ops + [Settle] + [crawl] + [back]) == State(a.tree, [] + c.events + a.events, t)
  {
    hide RunCrawl, Forest, After, ApplyChange;
    RunSnoc(ops, Settle);
    RunSnoc(ops + [Settle], Recrawl(EMPTIED, NOTHING_IGNORED, 0, []));
    RunSnoc(ops + [Settle] + [Recrawl(EMPTIED, NOTHING_IGNORED, 0, [])], Change(RETURNED, BACK));
  }

  lemma {:induction false} FileIsModified(t: Tree)
    requires Forest(t) && t.table == FLAT.table && |t.nodes| == 2 && t.nodes[1] == FLAT.nodes[1].(maybeDeleted := true)
    ensures var a := ApplyChange(t, RETURNED, BACK); a.events == [Event([R, F], Modified)] && IsFile(a.tree, [R, F])
  {
    hide Forest;
  }

  lemma {:induction false} DeletedThenModified(h: seq<Event>, p: Path)
    requires h == [Event(p, Delete), Event(p, Modified)]
    ensures At(h, p) == [Delete, Modified] && !MergesAt(h, 1) && At(Coalesce(h), p) == [Delete]
  {
    assert h[..1] == [Event(p, Delete)] && h[..1][..0] == [];
    assert Coalesce(h[..1]) == [Event(p, Delete)];
    assert At(h[..1], p) == [Delete];
    CoalesceAt(h, p);
    assert [Delete, Modified][..1] == [Delete];
    assert Fold([Delete]) == Delete;
  }

  // ------------------------------------------------------------------- nested roots

  const TWO_DIRS: Snapshot := map[[R] := ROOT_DIR, [R, D] := Directory(0, 0, 2)]

  /** A root added before the directory that holds it is never linked from it. */
  lemma {:induction false} NestedRootIsNotLinked()
    ensures var t := After([AddRoot(TWO_DIRS, [R, D], true), AddRoot(TWO_DIRS, [R], true)]).tree;
            Known(t, [R]) && Known(t, [R, D]) && Up([R, D]) == [R] && !Linked(t, [R, D])
  {
    var first, second := AddRoot(TWO_DIRS, [R, D], true), AddRoot(TWO_DIRS, [R], true);
    var ops := [first, second];
    assert ops[..1] == [first] && [first][..0] == [];
    assert Up([R, D]) == [R] && Up([R]) == [];
    var t := After([first]).tree;
    assert After([]) == INITIAL;
    assert t == Add(EMPTY, TWO_DIRS, [R, D], true, true).tree;
    GrowKids(EMPTY, None, Node([R, D], Dir, 2, false, Recursive, None));
    assert t.table == map[[R, D] := 0] && |t.nodes| == 1;
    var u := After(ops).tree;
    assert u.table == t.table[[R] := 1] && |u.nodes| == 2;
    LinkedIffParentFirst(ops, [R, D]);
  }

  // ------------------------------------------------------------------ a root upgrade

  /** Watching the same directory again, now recursively, lists it twice, and a root below
      it that is covered now stays listed. */
  lemma {:induction false} UpgradedRootIsListedTwice()
    ensures var roots := [Root(0, false), Root(1, true)];
            WithRoot(NESTED, NOTHING_IGNORED, roots, Root(0, true)) == [Root(0, true), Root(0, false), Root(1, true)]
  {
    var roots := [Root(0, false), Root(1, true)];
    BeforeTotal([R], [R]);
    assert Position(NESTED, [R], roots) == 0 && Stretch(NESTED, [R], roots[0..]) == 0;
    assert Standing(NESTED, NOTHING_IGNORED, [R], roots[0..0]) == [];
  }

  // ------------------------------------------- a special file during the first crawl

  const WITH_SPECIAL: Snapshot := map[[R] := ROOT_DIR, [R, D] := Special, [R, F] := Regular(0, 0, 3)]

  const ROOT_ONLY := Tree(map[[R] := 0], [Node([R], Dir, 1, false, Recursive, None)], [])

  /** Something that is neither file nor directory makes the first crawl skip whatever
      follows in the same directory. */
  lemma {:induction false} FirstCrawlSkipsAfterSpecial()
    ensures var walk := [Entry([R, D], false), Entry([R, F], false)];
            Forest(ROOT_ONLY) && CrawlRoot(ROOT_ONLY, WITH_SPECIAL, NOTHING_IGNORED, true, walk).tree == ROOT_ONLY
  {
    var walk := [Entry([R, D], false), Entry([R, F], false)];
    assert Up([R, D]) == [R];
    assert walk[1..] == [Entry([R, F], false)] && walk[1..][1..] == [];
    assert SkipAfter(walk[1..], walk[0]) == [];
  }

  const TWO_FILES: Snapshot := map[[R] := ROOT_DIR, [R, D] := Regular(0, 0, 2), [R, F] := Regular(0, 0, 3)]

  /** So does a file that is known already, here because it was added as a root before. */
  lemma {:induction false} FirstCrawlSkipsAfterKnownFile()
    ensures var walk := [Entry([R, D], false), Entry([R, F], false)];
            var t := After([AddRoot(TWO_FILES, [R, D], true), AddRoot(TWO_FILES, [R], true),
                            Populate(TWO_FILES, NOTHING_IGNORED, true, walk)]).tree;
            Known(t, [R]) && Known(t, [R, D]) && !Known(t, [R, F])
  {
    var walk := [Entry([R, D], false), Entry([R, F], false)];
    var first, second := AddRoot(TWO_FILES, [R, D], true), AddRoot(TWO_FILES, [R], true);
    var third := Populate(TWO_FILES, NOTHING_IGNORED, true, walk);
    hide After, Add, Forest, CrawlRoot;
    RunNothing();
    RunSnoc([], first);
    FileAdded();
    var t := After([] + [first]).tree;
    RunSnoc([] + [first], second);
    ParentAdded(t);
    var u := After([] + [first] + [second]).tree;
    RunSnoc([] + [first] + [second], third);
    KnownFileStops(u);
    assert [] + [first] + [second] + [third] == [first, second, third];
  }

  lemma {:induction false} FileAdded()
    ensures var t := Add(EMPTY, TWO_FILES, [R, D], true, true).tree;
            t.table == map[[R, D] := 0] && |t.nodes| == 1 && t.nodes[0].coverage == Recursive
  {
    assert Up([R, D]) == [R];
    GrowKids(EMPTY, None, Node([R, D], File(0, 0), 2, false, Recursive, None));
  }

  lemma {:induction false} ParentAdded(t: Tree)
    requires Forest(t) && t.table == map[[R, D] := 0] && |t.nodes| == 1 && t.nodes[0].coverage == Recursive
    ensures var u := Add(t, TWO_FILES, [R], true, true).tree;
            u.table == t.table[[R] := 1] && |u.nodes| == 2 && u.nodes[0].coverage == Recursive
  {
    assert Up([R]) == [];
  }

  lemma {:induction false} KnownFileStops(u: Tree)
    requires Forest(u) && u.table == map[[R, D] := 0, [R] := 1] && |u.nodes| == 2 && u.nodes[0].coverage == Recursive
    ensures CrawlRoot(u, TWO_FILES, NOTHING_IGNORED, true, [Entry([R, D], false), Entry([R, F], false)]).tree == u
  {
    var walk := [Entry([R, D], false), Entry([R, F], false)];
    assert Up([R, D]) == [R];
    assert walk[1..] == [Entry([R, F], false)] && walk[1..][1..] == [];
    assert SkipAfter(walk[1..], walk[0]) == [];
    hide Forest;
    assert Add(u, TWO_FILES, [R, D], true, false) == Added(u, None);
  }

  // ------------------------------------------------------------- the impossible arm

  /** A consumer that feeds a delivered Tempfile into a debouncer in which the path is
      already deleted reaches the arm that logs an impossible merge. */
  lemma {:induction false} TempfileAfterDelete(p: Path)
    ensures var h := [Event(p, Delete), Event(p, Tempfile)]; Legal(h) && !MergesAt(h, 1)
  {
    var h := [Event(p, Delete), Event(p, Tempfile)];
    assert h[..1] == [Event(p, Delete)] && h[..1][..0] == [];
    assert Coalesce(h[..1]) == [Event(p, Delete)];
    forall q
      ensures LegalAt(h, q)
    {
      assert At(h[..1], q) == if q == p then [Delete] else [];
      assert At(h, q) == if q == p then [Delete, Tempfile] else [];
      assert [Delete, Tempfile][..1] == [Delete] && [Delete][..0] == [];
      assert Replay(true, [Delete]) == Some(false);
      assert q == p ==> Replay(true, At(h, q)) == Some(false);
      assert q != p ==> Replay(true, At(h, q)) == Some(true);
    }
  }
}
