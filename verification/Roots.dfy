/** The worker's root list (src/worker.rs, `process_notifications`): kept in path order,
    and rid of roots that a new recursive root covers. */
module Roots {
  import opened Paths
  import opened Events
  import opened TreeModel
  import opened CrawlModel
  import opened Filters

  datatype Root = Root(node: NodeId, recursive: bool)

  ghost predicate InTree(t: Tree, roots: seq<Root>) {
    forall k :: 0 <= k < |roots| ==> roots[k].node < |t.nodes|
  }

  function PathOf(t: Tree, r: Root): Path {
    if r.node < |t.nodes| then t.nodes[r.node].path else []
  }

  /** In path order; the same path may occur twice. */
  ghost predicate InOrder(t: Tree, roots: seq<Root>) {
    forall i, j :: 0 <= i < j < |roots| ==> !Before(PathOf(t, roots[j]), PathOf(t, roots[i]))
  }

  /** ... and no path occurs twice. */
  ghost predicate StrictlyInOrder(t: Tree, roots: seq<Root>) {
    forall i, j :: 0 <= i < j < |roots| ==> Before(PathOf(t, roots[i]), PathOf(t, roots[j]))
  }

  ghost predicate Rooted(t: Tree, roots: seq<Root>, p: Path) {
    exists r :: r in roots && PathOf(t, r) == p
  }

  /** A crawl of `p` covers `r`: it lies below and is not ignored. */
  ghost predicate Covers(t: Tree, filter: Filter, p: Path, r: Root) {
    p < PathOf(t, r) && !IgnoredRec(filter, PathOf(t, r), Some(true))
  }

  /** The roots a crawl of `p` does not cover. */
  ghost function Standing(t: Tree, filter: Filter, p: Path, roots: seq<Root>): (r: seq<Root>)
    ensures |r| <= |roots|
  {
    if roots == [] then []
    else (if Covers(t, filter, p, roots[0]) then [] else [roots[0]]) + Standing(t, filter, p, roots[1..])
  }

  /** `partition_point` of an ordered list: how many entries come before `p`. */
  function Position(t: Tree, p: Path, roots: seq<Root>): (n: nat)
    ensures n <= |roots|
  {
    if roots != [] && Before(PathOf(t, roots[0]), p) then 1 + Position(t, p, roots[1..]) else 0
  }

  /** How many of the next entries lie below `p`. */
  function Stretch(t: Tree, p: Path, roots: seq<Root>): (n: nat)
    ensures n <= |roots|
  {
    if roots != [] && p < PathOf(t, roots[0]) then 1 + Stretch(t, p, roots[1..]) else 0
  }

  /** The list with a new root: what the loop leaves of the stretch below it. */
  ghost function WithRoot(t: Tree, filter: Filter, roots: seq<Root>, root: Root): seq<Root> {
    var p := PathOf(t, root);
    var i := Position(t, p, roots);
    var n := if root.recursive then Stretch(t, p, roots[i..]) else 0;
    roots[..i] + [root] + Standing(t, filter, p, roots[i..i + n]) + roots[i + n..]
  }

  // ---------------------------------------------------------------- the object

  class RootList {
    var roots: seq<Root>

    constructor ()
      ensures roots == []
    {
      roots := [];
    }

    method Insert(t: Tree, filter: Filter, root: Root)
      requires InTree(t, roots) && root.node < |t.nodes|
      modifies this
      ensures roots == WithRoot(t, filter, old(roots), root)
      ensures InTree(t, roots)
    {
      hide Standing, Stretch, Position, WithRoot, InTree;
      ghost var all := roots;
      var p := PathOf(t, root);
      var i := Position(t, p, roots);
      WithRootIs(t, filter, roots, root);
      if root.recursive {
        RemoveCovered(t, filter, p, i, i + Stretch(t, p, roots[i..]));
        ghost var n := Stretch(t, p, all[i..]);
        Spliced(all[..i], root, Standing(t, filter, p, all[i..i + n]), all[i + n..]);
      } else {
        StandingStart(t, filter, p, all, i);
        Spliced(all[..i], root, [], all[i..]);
      }
      InsertedInTree(t, roots, i, root);
      roots := roots[..i] + [root] + roots[i..];
    }

    /** Entries are removed at `j` while the bound shrinks with them. */
    method RemoveCovered(t: Tree, filter: Filter, p: Path, i: nat, bound: nat)
      requires InTree(t, roots) && i <= |roots| && bound == i + Stretch(t, p, roots[i..])
      modifies this
      ensures InTree(t, roots)
      ensures roots == old(roots[..i]) + Standing(t, filter, p, old(roots[i..bound])) + old(roots[bound..])
    {
      hide Standing, Stretch, IgnoredRec, InTree;
      ghost var all := roots;
      var end := bound;
      var j := i;
      ghost var k := i;
      ghost var kept := [];
      StandingStart(t, filter, p, all, i);
      while j < end
        invariant i <= k <= bound <= |all| && end - j == bound - k
        invariant kept == Standing(t, filter, p, all[i..k]) && j == i + |kept|
        invariant roots == all[..i] + kept + all[k..]
        invariant InTree(t, roots)
      {
        StandingRound(t, filter, p, all, i, k, kept);
        var ignored := IgnorePathRec(filter, PathOf(t, roots[j]), Some(true));
        if ignored {
          kept := kept + [all[k]];
          j := j + 1;
        } else {
          RemovedInTree(t, roots, j);
          roots := roots[..j] + roots[j + 1..];
          end := end - 1;
        }
        k := k + 1;
      }
    }
  }

  lemma {:induction false} InsertedInTree(t: Tree, roots: seq<Root>, i: nat, root: Root)
    requires InTree(t, roots) && i <= |roots| && root.node < |t.nodes|
    ensures InTree(t, roots[..i] + [root] + roots[i..])
  {
  }

  lemma {:induction false} RemovedInTree(t: Tree, roots: seq<Root>, j: nat)
    requires InTree(t, roots) && j < |roots|
    ensures InTree(t, roots[..j] + roots[j + 1..])
  {
  }

  lemma {:induction false} StandingStart(t: Tree, filter: Filter, p: Path, all: seq<Root>, i: nat)
    requires i <= |all|
    ensures Standing(t, filter, p, all[i..i]) == [] && all == all[..i] + [] + all[i..]
  {
  }

  /** One round of the removal loop, which looks at `all[k]`. */
  lemma {:induction false} StandingRound(t: Tree, filter: Filter, p: Path, all: seq<Root>, i: nat, k: nat,
                                         kept: seq<Root>)
    requires i <= k < |all| && k < i + Stretch(t, p, all[i..]) && kept == Standing(t, filter, p, all[i..k])
    ensures var roots := all[..i] + kept + all[k..]; var j := i + |kept|;
            && roots[j] == all[k]
            && (Covers(t, filter, p, all[k]) <==> !IgnoredRec(filter, PathOf(t, all[k]), Some(true)))
            && roots == all[..i] + (kept + [all[k]]) + all[k + 1..]
            && roots[..j] + roots[j + 1..] == all[..i] + kept + all[k + 1..]
            && Standing(t, filter, p, all[i..k + 1]) == if Covers(t, filter, p, all[k]) then kept else kept + [all[k]]
  {
    hide Stretch, Standing, IgnoredRec;
    StretchBelow(t, p, all[i..], k - i);
    assert all[i..][k - i] == all[k];
    StandingSnoc(t, filter, p, all[i..k], all[k]);
    assert all[i..k] + [all[k]] == all[i..k + 1] && all[k..] == [all[k]] + all[k + 1..];
  }

  lemma {:induction false} StretchBelow(t: Tree, p: Path, roots: seq<Root>, k: nat)
    ensures k < Stretch(t, p, roots) ==> p < PathOf(t, roots[k])
    ensures k == Stretch(t, p, roots) && k < |roots| ==> !(p < PathOf(t, roots[k]))
  {
    if roots != [] && p < PathOf(t, roots[0]) && k > 0 {
      StretchBelow(t, p, roots[1..], k - 1);
    }
  }

  lemma {:induction false} StandingSnoc(t: Tree, filter: Filter, p: Path, roots: seq<Root>, r: Root)
    ensures Standing(t, filter, p, roots + [r])
         == Standing(t, filter, p, roots) + (if Covers(t, filter, p, r) then [] else [r])
  {
    hide Covers;
    StandingAppend(t, filter, p, roots, [r]);
    assert [r][1..] == [];
  }

  // ---------------------------------------------------------------- what it means

  lemma {:induction false} StandingAppend(t: Tree, filter: Filter, p: Path, a: seq<Root>, b: seq<Root>)
    ensures Standing(t, filter, p, a + b) == Standing(t, filter, p, a) + Standing(t, filter, p, b)
  {
    if a == [] {
      assert a + b == b;
    } else {
      assert (a + b)[1..] == a[1..] + b;
      StandingAppend(t, filter, p, a[1..], b);
    }
  }

  lemma {:induction false} StandingMembers(t: Tree, filter: Filter, p: Path, roots: seq<Root>)
    ensures forall r :: r in Standing(t, filter, p, roots) <==> r in roots && !Covers(t, filter, p, r)
    ensures (forall r :: r in roots ==> !Covers(t, filter, p, r)) ==> Standing(t, filter, p, roots) == roots
  {
    if roots != [] {
      StandingMembers(t, filter, p, roots[1..]);
      assert roots == [roots[0]] + roots[1..];
    }
  }

  lemma {:induction false} PositionSplits(t: Tree, p: Path, roots: seq<Root>)
    requires InOrder(t, roots)
    ensures forall k :: 0 <= k < Position(t, p, roots) ==> Before(PathOf(t, roots[k]), p)
    ensures forall k :: Position(t, p, roots) <= k < |roots| ==> !Before(PathOf(t, roots[k]), p)
  {
    if roots != [] {
      if Before(PathOf(t, roots[0]), p) {
        PositionSplits(t, p, roots[1..]);
        forall k | 0 < k < |roots|
          ensures k < Position(t, p, roots) <==> Before(PathOf(t, roots[k]), p)
        {
          assert roots[k] == roots[1..][k - 1];
        }
      } else {
        forall k | 0 <= k < |roots|
          ensures !Before(PathOf(t, roots[k]), p)
        {
          NotBeforeTransitive(p, PathOf(t, roots[0]), PathOf(t, roots[k]));
        }
      }
    }
  }

  lemma {:induction false} NotBeforeTransitive(p: Path, x: Path, y: Path)
    requires !Before(x, p) && (x == y || !Before(y, x))
    ensures !Before(y, p)
  {
    BeforeTotal(x, p);
    BeforeTotal(y, x);
    BeforeTotal(y, p);
    BeforeTotal(p, x);
    BeforeTotal(x, y);
    BeforeTotal(p, y);
    if p != x && x != y { BeforeTransitive(p, x, y); }
  }

  /** If `p` is not in the list, everything below it is in the stretch after its place;
      if it is, that stretch is empty. */
  lemma {:induction false} StretchIsAll(t: Tree, p: Path, roots: seq<Root>)
    requires InOrder(t, roots)
    ensures var i := Position(t, p, roots); var n := Stretch(t, p, roots[i..]);
            && (forall k :: 0 <= k < i ==> !(p < PathOf(t, roots[k])))
            && (!Rooted(t, roots, p) ==> forall k :: i + n <= k < |roots| ==> !(p < PathOf(t, roots[k])))
            && (Rooted(t, roots, p) ==> i < |roots| && PathOf(t, roots[i]) == p && n == 0)
  {
    hide Before, Position, Stretch, InOrder;
    var i := Position(t, p, roots);
    var n := Stretch(t, p, roots[i..]);
    PositionSplits(t, p, roots);
    forall k | 0 <= k < i
      ensures !(p < PathOf(t, roots[k]))
    {
      NotBelowEarlier(p, PathOf(t, roots[k]));
    }
    if Rooted(t, roots, p) {
      FirstIsRoot(t, p, roots, i);
    } else {
      hide Rooted;
      forall k | i + n <= k < |roots|
        ensures !(p < PathOf(t, roots[k]))
      {
        NothingPastStretch(t, p, roots, i, k);
      }
    }
  }

  lemma {:induction false} NothingPastStretch(t: Tree, p: Path, roots: seq<Root>, i: nat, k: nat)
    requires InOrder(t, roots) && !Rooted(t, roots, p) && i <= |roots|
    requires forall j :: i <= j < |roots| ==> !Before(PathOf(t, roots[j]), p)
    requires i + Stretch(t, p, roots[i..]) <= k < |roots|
    ensures !(p < PathOf(t, roots[k]))
  {
    var n := Stretch(t, p, roots[i..]);
    var x := PathOf(t, roots[i + n]);
    assert roots[i..][n] == roots[i + n] && roots[i + n] in roots;
    hide Before;
    StretchBelow(t, p, roots[i..], n);
    BeforeTotal(x, x);
    hide Stretch;
    if p < PathOf(t, roots[k]) { DescendantsContiguous(p, p, x, PathOf(t, roots[k])); }
  }

  lemma {:induction false} NotBelowEarlier(p: Path, x: Path)
    requires Before(x, p)
    ensures !(p < x)
  {
    BeforeTotal(x, p);
    BeforeTotal(p, x);
    if p < x { AncestorFirst(p, x); }
  }

  lemma {:induction false} FirstIsRoot(t: Tree, p: Path, roots: seq<Root>, i: nat)
    requires InOrder(t, roots) && Rooted(t, roots, p) && i <= |roots|
    requires forall k :: 0 <= k < i ==> Before(PathOf(t, roots[k]), p)
    requires forall k :: i <= k < |roots| ==> !Before(PathOf(t, roots[k]), p)
    ensures i < |roots| && PathOf(t, roots[i]) == p && Stretch(t, p, roots[i..]) == 0
  {
    var r :| r in roots && PathOf(t, r) == p;
    var k :| 0 <= k < |roots| && roots[k] == r;
    BeforeTotal(p, p);
    assert i <= k;
    BeforeTotal(PathOf(t, roots[i]), p);
    BeforeTotal(p, PathOf(t, roots[i]));
  }

  /** `result` is `rest` with `root` put at `i`, where its path belongs. */
  ghost predicate PutInPlace(t: Tree, rest: seq<Root>, root: Root, i: nat, result: seq<Root>) {
    && i <= |rest| && result == rest[..i] + [root] + rest[i..]
    && (forall k :: 0 <= k < i ==> Before(PathOf(t, rest[k]), PathOf(t, root)))
    && (forall k :: i <= k < |rest| ==> !Before(PathOf(t, rest[k]), PathOf(t, root)))
  }

  lemma {:induction false} PlaceOf(t: Tree, filter: Filter, roots: seq<Root>, root: Root)
    requires InOrder(t, roots) && (root.recursive ==> Rooted(t, roots, PathOf(t, root)))
    ensures var p := PathOf(t, root); var i := Position(t, p, roots);
            && i <= |roots|
            && (forall k :: 0 <= k < i ==> Before(PathOf(t, roots[k]), p))
            && (forall k :: i <= k < |roots| ==> !Before(PathOf(t, roots[k]), p))
            && WithRoot(t, filter, roots, root)
               == roots[..i] + [root] + Standing(t, filter, p, roots[i..i + 0]) + roots[i + 0..]
  {
    hide InOrder, Rooted, Before, Position, Stretch, Covers, WithRoot, Standing, PathOf;
    var p := PathOf(t, root);
    PositionSplits(t, p, roots);
    StretchIsAll(t, p, roots);
    WithRootIs(t, filter, roots, root);
  }

  lemma {:induction false} StretchOf(t: Tree, filter: Filter, roots: seq<Root>, root: Root)
    requires InOrder(t, roots) && root.recursive && !Rooted(t, roots, PathOf(t, root))
    ensures var p := PathOf(t, root); var i := Position(t, p, roots); var n := Stretch(t, p, roots[i..]);
            && i + n <= |roots|
            && (forall k :: 0 <= k < i ==> !(p < PathOf(t, roots[k])) && Before(PathOf(t, roots[k]), p))
            && (forall k :: i <= k < |roots| ==> !Before(PathOf(t, roots[k]), p))
            && (forall k :: i + n <= k < |roots| ==> !(p < PathOf(t, roots[k])))
            && WithRoot(t, filter, roots, root)
               == roots[..i] + [root] + Standing(t, filter, p, roots[i..i + n]) + roots[i + n..]
  {
    hide InOrder, Rooted, Before, Position, Stretch, Covers, WithRoot, Standing, PathOf;
    var p := PathOf(t, root);
    PositionSplits(t, p, roots);
    StretchIsAll(t, p, roots);
    WithRootIs(t, filter, roots, root);
  }

  /** The new list is the old one, less the roots a new recursive root covers, with the
      new root put in its place once. Nothing is removed if the path was listed already. */
  lemma {:induction false} RootIsInserted(t: Tree, filter: Filter, roots: seq<Root>, root: Root)
    requires InOrder(t, roots)
    ensures var p := PathOf(t, root);
            var rest := if root.recursive && !Rooted(t, roots, p) then Standing(t, filter, p, roots) else roots;
            PutInPlace(t, rest, root, Position(t, p, roots), WithRoot(t, filter, roots, root))
  {
    hide InOrder, Rooted, Before, Position, Stretch, Covers, WithRoot, Standing, PutInPlace;
    var p := PathOf(t, root);
    var i := Position(t, p, roots);
    if root.recursive && !Rooted(t, roots, p) {
      StretchOf(t, filter, roots, root);
      CoveredRemoved(t, filter, roots, root, i, Stretch(t, p, roots[i..]));
    } else {
      PlaceOf(t, filter, roots, root);
      NothingRemoved(t, filter, roots, root, i);
    }
  }

  lemma {:induction false} NothingRemoved(t: Tree, filter: Filter, roots: seq<Root>, root: Root, i: nat)
    requires i <= |roots|
    requires forall k :: 0 <= k < i ==> Before(PathOf(t, roots[k]), PathOf(t, root))
    requires forall k :: i <= k < |roots| ==> !Before(PathOf(t, roots[k]), PathOf(t, root))
    ensures PutInPlace(t, roots, root, i,
                       roots[..i] + [root] + Standing(t, filter, PathOf(t, root), roots[i..i + 0]) + roots[i + 0..])
  {
    StandingStart(t, filter, PathOf(t, root), roots, i);
  }

  lemma {:induction false} CoveredRemoved(t: Tree, filter: Filter, roots: seq<Root>, root: Root, i: nat, n: nat)
    requires i + n <= |roots|
    requires forall k :: 0 <= k < i ==>
             !(PathOf(t, root) < PathOf(t, roots[k])) && Before(PathOf(t, roots[k]), PathOf(t, root))
    requires forall k :: i <= k < |roots| ==> !Before(PathOf(t, roots[k]), PathOf(t, root))
    requires forall k :: i + n <= k < |roots| ==> !(PathOf(t, root) < PathOf(t, roots[k]))
    ensures var p := PathOf(t, root);
            PutInPlace(t, Standing(t, filter, p, roots), root, i,
                       roots[..i] + [root] + Standing(t, filter, p, roots[i..i + n]) + roots[i + n..])
  {
    hide Before, Covers, Standing;
    var p := PathOf(t, root);
    NoneBelow(t, filter, p, roots[..i]);
    NoneBelow(t, filter, p, roots[i + n..]);
    StandingParts(t, filter, p, roots, i, i + n);
    Spliced(roots[..i], root, Standing(t, filter, p, roots[i..i + n]), roots[i + n..]);
  }

  lemma {:induction false} WithRootIs(t: Tree, filter: Filter, roots: seq<Root>, root: Root)
    ensures var p := PathOf(t, root); var i := Position(t, p, roots);
            var n := if root.recursive then Stretch(t, p, roots[i..]) else 0;
            i + n <= |roots|
            && WithRoot(t, filter, roots, root)
               == roots[..i] + [root] + Standing(t, filter, p, roots[i..i + n]) + roots[i + n..]
  {
  }

  lemma {:induction false} Spliced(a: seq<Root>, r: Root, s: seq<Root>, c: seq<Root>)
    ensures var rest := a + (s + c); rest[..|a|] == a && rest[..|a|] + [r] + rest[|a|..] == a + [r] + s + c
    ensures a + s + c == a + (s + c)
  {
    var rest := a + (s + c);
    assert rest[|a|..] == s + c;
  }

  lemma {:induction false} NoneBelow(t: Tree, filter: Filter, p: Path, roots: seq<Root>)
    requires forall k :: 0 <= k < |roots| ==> !(p < PathOf(t, roots[k]))
    ensures Standing(t, filter, p, roots) == roots
  {
    StandingMembers(t, filter, p, roots);
  }

  lemma {:induction false} StandingParts(t: Tree, filter: Filter, p: Path, roots: seq<Root>, i: nat, j: nat)
    requires i <= j <= |roots|
    requires Standing(t, filter, p, roots[..i]) == roots[..i] && Standing(t, filter, p, roots[j..]) == roots[j..]
    requires forall k :: i <= k < |roots| ==> !Before(PathOf(t, roots[k]), p)
    ensures var rest := Standing(t, filter, p, roots);
            && rest == roots[..i] + (Standing(t, filter, p, roots[i..j]) + roots[j..])
            && (forall k :: i <= k < |rest| ==> !Before(PathOf(t, rest[k]), p))
  {
    hide Standing, Before;
    var a, b, c := roots[..i], roots[i..j], roots[j..];
    assert roots == a + b + c;
    StandingAppend(t, filter, p, a + b, c);
    StandingAppend(t, filter, p, a, b);
    StandingMembers(t, filter, p, b);
    var rest := a + (Standing(t, filter, p, b) + c);
    forall k | i <= k < |rest|
      ensures !Before(PathOf(t, rest[k]), p)
    {
      assert rest[k] in b || rest[k] in c;
    }
  }

  /** Removing entries and putting one in its place keeps the order. */
  lemma {:induction false} StandingInOrder(t: Tree, filter: Filter, p: Path, roots: seq<Root>)
    ensures InOrder(t, roots) ==> InOrder(t, Standing(t, filter, p, roots))
    ensures StrictlyInOrder(t, roots) ==> StrictlyInOrder(t, Standing(t, filter, p, roots))
  {
    hide Before, PathOf, Covers;
    if roots != [] {
      var r := Standing(t, filter, p, roots[1..]);
      StandingInOrder(t, filter, p, roots[1..]);
      StandingMembers(t, filter, p, roots[1..]);
      assert roots == [roots[0]] + roots[1..];
      PrependInOrder(t, roots, r);
    }
  }

  lemma {:induction false} PrependInOrder(t: Tree, roots: seq<Root>, r: seq<Root>)
    requires roots != [] && forall x :: x in r ==> x in roots[1..]
    ensures InOrder(t, roots) && InOrder(t, r) ==> InOrder(t, [roots[0]] + r)
    ensures StrictlyInOrder(t, roots) && StrictlyInOrder(t, r) ==> StrictlyInOrder(t, [roots[0]] + r)
    ensures InOrder(t, roots) ==> InOrder(t, roots[1..])
    ensures StrictlyInOrder(t, roots) ==> StrictlyInOrder(t, roots[1..])
  {
    hide Before, PathOf;
    forall k | 0 <= k < |r|
      ensures InOrder(t, roots) ==> !Before(PathOf(t, r[k]), PathOf(t, roots[0]))
      ensures StrictlyInOrder(t, roots) ==> Before(PathOf(t, roots[0]), PathOf(t, r[k]))
    {
      assert r[k] in roots[1..];
      var j :| 0 <= j < |roots[1..]| && roots[1..][j] == r[k];
      assert roots[j + 1] == r[k];
    }
  }

  lemma {:induction false} InsertedInOrder(t: Tree, rest: seq<Root>, i: nat, root: Root, result: seq<Root>)
    requires InOrder(t, rest) && PutInPlace(t, rest, root, i, result)
    ensures InOrder(t, result)
  {
    forall k | 0 <= k < i
      ensures !Before(PathOf(t, root), PathOf(t, rest[k]))
    {
      BeforeTotal(PathOf(t, rest[k]), PathOf(t, root));
      BeforeTotal(PathOf(t, root), PathOf(t, rest[k]));
    }
  }

  /** The list stays in path order whatever root is added. */
  lemma {:induction false} OrderIsKept(t: Tree, filter: Filter, roots: seq<Root>, root: Root)
    requires InOrder(t, roots)
    ensures InOrder(t, WithRoot(t, filter, roots, root))
  {
    var p := PathOf(t, root);
    RootIsInserted(t, filter, roots, root);
    StandingInOrder(t, filter, p, roots);
    var rest := if root.recursive && !Rooted(t, roots, p) then Standing(t, filter, p, roots) else roots;
    hide InOrder, WithRoot, PutInPlace;
    InsertedInOrder(t, rest, Position(t, p, roots), root, WithRoot(t, filter, roots, root));
  }

  lemma {:induction false} WithRootMembers(t: Tree, filter: Filter, roots: seq<Root>, root: Root)
    requires InOrder(t, roots)
    ensures var p := PathOf(t, root);
            forall r :: r in WithRoot(t, filter, roots, root) <==>
              r == root || (r in roots && !(root.recursive && !Rooted(t, roots, p) && Covers(t, filter, p, r)))
  {
    hide InOrder, Rooted, Before, WithRoot, Position, Covers, Standing, PutInPlace;
    var p := PathOf(t, root);
    RootIsInserted(t, filter, roots, root);
    StandingMembers(t, filter, p, roots);
    var rest := if root.recursive && !Rooted(t, roots, p) then Standing(t, filter, p, roots) else roots;
    InsertedMembers(t, rest, Position(t, p, roots), root, WithRoot(t, filter, roots, root));
  }

  lemma {:induction false} InsertedMembers(t: Tree, rest: seq<Root>, i: nat, root: Root, result: seq<Root>)
    requires PutInPlace(t, rest, root, i, result)
    ensures forall r :: r in result <==> r == root || r in rest
  {
    assert rest == rest[..i] + rest[i..];
  }

  /** After adding a recursive root, no other root it covers is left if and only if the
      path was not listed before or there was none: an upgraded root is listed twice and
      its covered roots stay. */
  lemma {:induction false} OverlapRemovedIff(t: Tree, filter: Filter, roots: seq<Root>, root: Root)
    requires InOrder(t, roots) && root.recursive
    ensures var p := PathOf(t, root);
            (forall r :: r in WithRoot(t, filter, roots, root) ==> !Covers(t, filter, p, r))
            <==> !Rooted(t, roots, p) || (forall r :: r in roots ==> !Covers(t, filter, p, r))
  {
    WithRootMembers(t, filter, roots, root);
  }

  /** No path is listed twice afterwards if and only if it was not listed before. */
  lemma {:induction false} DistinctIff(t: Tree, filter: Filter, roots: seq<Root>, root: Root)
    requires StrictlyInOrder(t, roots)
    ensures StrictlyInOrder(t, WithRoot(t, filter, roots, root)) <==> !Rooted(t, roots, PathOf(t, root))
  {
    hide InOrder, Rooted, Before, WithRoot, Position, Covers, Standing, StrictlyInOrder;
    var p := PathOf(t, root);
    var i := Position(t, p, roots);
    StrictIsInOrder(t, roots);
    RootIsInserted(t, filter, roots, root);
    StandingInOrder(t, filter, p, roots);
    StandingMembers(t, filter, p, roots);
    StretchIsAll(t, p, roots);
    if Rooted(t, roots, p) {
      TwiceListed(t, roots, i, root);
    } else {
      var rest := if root.recursive then Standing(t, filter, p, roots) else roots;
      NotRooted(t, roots, rest, p);
      InsertedStrictly(t, rest, i, root);
    }
  }

  lemma {:induction false} TwiceListed(t: Tree, roots: seq<Root>, i: nat, root: Root)
    requires i < |roots| && PathOf(t, roots[i]) == PathOf(t, root)
    ensures !StrictlyInOrder(t, roots[..i] + [root] + roots[i..])
  {
    var r := roots[..i] + [root] + roots[i..];
    assert r[i] == root && r[i + 1] == roots[i];
    BeforeTotal(PathOf(t, root), PathOf(t, root));
  }

  lemma {:induction false} NotRooted(t: Tree, roots: seq<Root>, rest: seq<Root>, p: Path)
    requires !Rooted(t, roots, p) && forall r :: r in rest ==> r in roots
    ensures forall k :: 0 <= k < |rest| ==> PathOf(t, rest[k]) != p
  {
  }

  lemma {:induction false} InsertedStrictly(t: Tree, rest: seq<Root>, i: nat, root: Root)
    requires StrictlyInOrder(t, rest) && i <= |rest|
    requires forall k :: 0 <= k < i ==> Before(PathOf(t, rest[k]), PathOf(t, root))
    requires forall k :: i <= k < |rest| ==> !Before(PathOf(t, rest[k]), PathOf(t, root))
    requires forall k :: 0 <= k < |rest| ==> PathOf(t, rest[k]) != PathOf(t, root)
    ensures StrictlyInOrder(t, rest[..i] + [root] + rest[i..])
  {
    forall k | i <= k < |rest|
      ensures Before(PathOf(t, root), PathOf(t, rest[k]))
    {
      BeforeTotal(PathOf(t, root), PathOf(t, rest[k]));
      BeforeTotal(PathOf(t, rest[k]), PathOf(t, root));
    }
  }

  lemma {:induction false} StrictIsInOrder(t: Tree, roots: seq<Root>)
    requires StrictlyInOrder(t, roots)
    ensures InOrder(t, roots)
  {
    forall i, j | 0 <= i < j < |roots|
      ensures !Before(PathOf(t, roots[j]), PathOf(t, roots[i]))
    {
      BeforeTotal(PathOf(t, roots[i]), PathOf(t, roots[j]));
      BeforeTotal(PathOf(t, roots[j]), PathOf(t, roots[i]));
    }
  }
}
