/** Ignore filters (src/config.rs) and how the crawl prunes its walk with them
    (src/tree.rs, the `skip_current_dir` branch). */
module Filters {
  import opened Paths
  import opened Events
  import opened TreeModel
  import opened CrawlModel
  import opened CrawlStructure

  // ------------------------------------------------------------ ignore_path_rec

  /** A path is ignored recursively if it, or any ancestor read as a directory, is
      ignored. The empty component list is the file system's root directory. */
  ghost predicate IgnoredRec(filter: Filter, path: Path, isDir: Option<bool>) {
    filter(path, isDir) || exists n :: 0 <= n < |path| && filter(path[..n], Some(true))
  }

  method IgnorePathRec(filter: Filter, path: Path, isDir: Option<bool>) returns (ignored: bool)
    ensures ignored <==> IgnoredRec(filter, path, isDir)
  {
    var p, d := path, isDir;
    while true
      invariant p <= path && d == (if p == path then isDir else Some(true))
      invariant forall n :: |p| < n < |path| ==> !filter(path[..n], Some(true))
      invariant p != path ==> !filter(path, isDir)
      decreases |p|
    {
      assert p == path[..|p|];
      if filter(p, d) {
        return true;
      }
      if p == [] {
        break;
      }
      p, d := p[..|p| - 1], Some(true);
    }
    return false;
  }

  // -------------------------------------------------------------- the kept walk

  predicate IgnoredEntry(filter: Filter, e: Entry) {
    filter(e.path, Some(e.isDir))
  }

  /** The entries a crawl visits. */
  function Admit(filter: Filter, walk: seq<Entry>): seq<Entry>
    decreases |walk|
  {
    if walk == [] then []
    else if IgnoredEntry(filter, walk[0]) then
      Admit(filter, if walk[0].isDir then SkipDir(walk[1..], walk[0].path) else walk[1..])
    else [walk[0]] + Admit(filter, walk[1..])
  }

  /** `w` continues a pre-order listing whose last entry was `prev`. */
  ghost predicate Continues(root: Path, prev: Entry, w: seq<Entry>) {
    && root <= prev.path
    && (forall i, j :: 0 <= i < j < |w| ==> w[i].path != w[j].path)
    && (forall i :: 0 <= i < |w| ==> StepAt(root, prev, w, i))
  }

  ghost predicate StepAt(root: Path, prev: Entry, w: seq<Entry>, i: nat)
    requires i < |w|
  {
    !(w[i].path <= prev.path) && Step(root, if i == 0 then prev else w[i - 1], w[i])
  }

  ghost predicate Step(root: Path, prev: Entry, e: Entry) {
    e.path != [] && root <= Up(e.path) <= prev.path && (Up(e.path) == prev.path ==> prev.isDir)
  }

  lemma {:induction false} ProperPrefix(x: Path, y: Path)
    ensures y != [] && x <= y && x != y ==> x <= Up(y)
  {
    assert x <= y && |x| == |y| ==> x == y;
  }

  lemma {:induction false} ContinuesTail(root: Path, prev: Entry, w: seq<Entry>)
    requires Continues(root, prev, w) && w != []
    ensures Continues(root, w[0], w[1..])
  {
    var x, rest := w[0], w[1..];
    assert StepAt(root, prev, w, 0);
    forall i | 0 <= i < |rest|
      ensures StepAt(root, x, rest, i)
    {
      assert StepAt(root, prev, w, i + 1) && w[i + 1].path != x.path;
      ProperPrefix(rest[i].path, x.path);
    }
  }

  /** Once a listing has left `x`, it does not come back below it. */
  lemma {:induction false} NoReturn(root: Path, prev: Entry, w: seq<Entry>, x: Path)
    requires Continues(root, prev, w) && !(x <= prev.path)
    requires forall e :: e in w ==> e.path != x
    ensures forall e :: e in w ==> !(x <= e.path)
    decreases |w|
  {
    if w != [] {
      assert StepAt(root, prev, w, 0) && w[0] in w;
      ProperPrefix(x, w[0].path);
      ContinuesTail(root, prev, w);
      NoReturn(root, w[0], w[1..], x);
      assert w == [w[0]] + w[1..];
    }
  }

  /** Skipping a directory drops exactly what lies below it, and the rest continues the
      listing as if the directory had not been there. */
  lemma {:induction false} SkipDirDrops(root: Path, prev: Entry, last: Entry, x: Entry, w: seq<Entry>)
    requires Continues(root, last, w) && x.path <= last.path
    requires Step(root, prev, x) && root <= prev.path && !(x.path <= prev.path)
    requires forall e :: e in w ==> e.path != x.path && !(e.path <= prev.path)
    ensures var rest := SkipDir(w, x.path);
            && Continues(root, prev, rest)
            && (forall e :: e in w <==> e in rest || (e in w && x.path < e.path))
            && (forall e :: e in rest ==> !(x.path <= e.path))
    decreases |w|
  {
    if w != [] {
      assert StepAt(root, last, w, 0) && w[0] in w;
      assert w == [w[0]] + w[1..];
      if |w[0].path| > |x.path| {
        assert x.path <= Up(w[0].path);
        ContinuesTail(root, last, w);
        SkipDirDrops(root, prev, w[0], x, w[1..]);
      } else {
        assert !(x.path <= w[0].path) by { assert |x.path| == |w[0].path| ==> x.path != w[0].path; }
        assert Up(w[0].path) < x.path;
        assert Up(w[0].path) <= Up(x.path);
        LeavesTo(root, prev, last, x, w);
      }
    }
  }

  lemma {:induction false} LeavesTo(root: Path, prev: Entry, last: Entry, x: Entry, w: seq<Entry>)
    requires Continues(root, last, w) && w != [] && Step(root, prev, x) && root <= prev.path && !(x.path <= prev.path)
    requires Up(w[0].path) <= Up(x.path)
    requires forall e :: e in w ==> e.path != x.path && !(e.path <= prev.path)
    ensures Continues(root, prev, w)
    ensures forall e :: e in w ==> !(x.path <= e.path)
  {
    assert StepAt(root, last, w, 0);
    forall i | 0 <= i < |w|
      ensures StepAt(root, prev, w, i)
    {
      assert w[i] in w;
      assert StepAt(root, last, w, i);
      if i == 0 && Up(w[0].path) == prev.path { assert Up(x.path) == prev.path; }
    }
    NoReturn(root, prev, w, x.path);
  }

  /** Some ignored entry of `w` is `p` or an ancestor of it. */
  ghost predicate Blocked(filter: Filter, w: seq<Entry>, p: Path) {
    exists x :: x in w && IgnoredEntry(filter, x) && x.path <= p
  }

  /** `v` are the entries of `w` that are not blocked. */
  ghost predicate Admits(filter: Filter, w: seq<Entry>, v: seq<Entry>) {
    forall e :: e in v <==> e in w && !Blocked(filter, w, e.path)
  }

  lemma {:induction false} AdmitContinues(filter: Filter, root: Path, prev: Entry, w: seq<Entry>)
    requires Continues(root, prev, w)
    ensures Continues(root, prev, Admit(filter, w))
    ensures Admits(filter, w, Admit(filter, w))
    decreases |w|
  {
    hide Continues, Blocked, IgnoredEntry, Admits, Leaves;
    if w == [] {
      NothingAdmitted(filter);
    } else if !IgnoredEntry(filter, w[0]) {
      ContinuesTail(root, prev, w);
      AdmitContinues(filter, root, w[0], w[1..]);
      AdmitOne(filter, root, prev, w);
    } else {
      var kept := if w[0].isDir then SkipDir(w[1..], w[0].path) else w[1..];
      AdmitNone(filter, root, prev, w);
      AdmitContinues(filter, root, prev, kept);
      AdmitSkips(filter, w, kept, Admit(filter, kept));
    }
  }

  lemma {:induction false} NothingAdmitted(filter: Filter)
    ensures Admit(filter, []) == [] && Admits(filter, [], [])
  {
  }

  /** `kept` is what an ignored entry `w[0]` leaves. */
  ghost predicate Leaves(w: seq<Entry>, kept: seq<Entry>)
    requires w != []
  {
    && (forall e :: e in w[1..] <==> e in kept || (e in w[1..] && w[0].path < e.path))
    && (forall e :: e in kept ==> !(w[0].path <= e.path))
  }

  lemma {:induction false} AdmitSkips(filter: Filter, w: seq<Entry>, kept: seq<Entry>, v: seq<Entry>)
    requires w != [] && IgnoredEntry(filter, w[0]) && Leaves(w, kept) && Admits(filter, kept, v)
    ensures Admits(filter, w, v)
  {
    hide Blocked, Leaves, IgnoredEntry;
    forall e
      ensures e in v <==> e in w && !Blocked(filter, w, e.path)
    {
      assert e in v <==> e in kept && !Blocked(filter, kept, e.path);
      BlockedAfterSkip(filter, w, kept, e);
    }
  }

  lemma {:induction false} BlockedAfterSkip(filter: Filter, w: seq<Entry>, kept: seq<Entry>, e: Entry)
    requires w != [] && IgnoredEntry(filter, w[0]) && Leaves(w, kept)
    ensures e in kept ==> e in w && (Blocked(filter, kept, e.path) <==> Blocked(filter, w, e.path))
    ensures e in w && e !in kept ==> Blocked(filter, w, e.path)
  {
    hide IgnoredEntry;
    assert w == [w[0]] + w[1..];
    if e in kept {
      if Blocked(filter, kept, e.path) {
        var y :| y in kept && IgnoredEntry(filter, y) && y.path <= e.path;
        assert y in w;
      }
      if Blocked(filter, w, e.path) {
        var y :| y in w && IgnoredEntry(filter, y) && y.path <= e.path;
        assert y in kept;
      }
    } else if e in w {
      assert w[0] in w && w[0].path <= e.path;
    }
  }

  /** What is left after an ignored entry. */
  lemma {:induction false} AdmitNone(filter: Filter, root: Path, prev: Entry, w: seq<Entry>)
    requires Continues(root, prev, w) && w != []
    ensures var kept := if w[0].isDir then SkipDir(w[1..], w[0].path) else w[1..];
            Continues(root, prev, kept) && Leaves(w, kept)
  {
    var x, rest := w[0], w[1..];
    assert StepAt(root, prev, w, 0);
    assert forall e :: e in rest ==> e.path != x.path && !(e.path <= prev.path) by {
      assert forall i :: 0 <= i < |rest| ==> rest[i] == w[i + 1] && StepAt(root, prev, w, i + 1);
    }
    ContinuesTail(root, prev, w);
    if x.isDir {
      SkipDirDrops(root, prev, x, x, rest);
    } else {
      SkipFile(root, prev, x, rest);
    }
  }

  lemma {:induction false} SkipFile(root: Path, prev: Entry, x: Entry, rest: seq<Entry>)
    requires Continues(root, x, rest) && !x.isDir && Step(root, prev, x) && root <= prev.path && !(x.path <= prev.path)
    requires forall e :: e in rest ==> e.path != x.path && !(e.path <= prev.path)
    ensures Continues(root, prev, rest)
    ensures forall e :: e in rest ==> !(x.path <= e.path)
  {
    if rest != [] {
      assert StepAt(root, x, rest, 0);
      assert Up(rest[0].path) < x.path by { assert Up(rest[0].path) != x.path; }
      LeavesTo(root, prev, x, x, rest);
    }
  }

  lemma {:induction false} AdmitOne(filter: Filter, root: Path, prev: Entry, w: seq<Entry>)
    requires w != [] && Continues(root, prev, w) && !IgnoredEntry(filter, w[0])
    requires Continues(root, w[0], w[1..])
    requires Continues(root, w[0], Admit(filter, w[1..]))
    requires Admits(filter, w[1..], Admit(filter, w[1..]))
    ensures Continues(root, prev, Admit(filter, w)) && Admits(filter, w, Admit(filter, w))
  {
    hide Blocked, Continues, IgnoredEntry;
    var x, rest := w[0], w[1..];
    var a := Admit(filter, rest);
    assert Admit(filter, w) == [x] + a && w == [x] + rest;
    PrependContinues(root, prev, x, rest, a, w);
    NoneAbove(root, x, rest);
    AdmitOneMembers(filter, x, rest, a);
  }

  lemma {:induction false} NoneAbove(root: Path, prev: Entry, w: seq<Entry>)
    requires Continues(root, prev, w)
    ensures forall y :: y in w ==> !(y.path <= prev.path)
  {
    forall y | y in w
      ensures !(y.path <= prev.path)
    {
      var i :| 0 <= i < |w| && w[i] == y;
      assert StepAt(root, prev, w, i);
    }
  }

  lemma {:induction false} AdmitOneMembers(filter: Filter, x: Entry, rest: seq<Entry>, a: seq<Entry>)
    requires !IgnoredEntry(filter, x)
    requires forall y :: y in rest ==> !(y.path <= x.path)
    requires forall e :: e in a <==> e in rest && !Blocked(filter, rest, e.path)
    ensures forall e :: e in [x] + a <==> e in [x] + rest && !Blocked(filter, [x] + rest, e.path)
  {
    BlockedPrepend(filter, x, rest, x.path);
    forall e
      ensures e in [x] + a <==> e in [x] + rest && !Blocked(filter, [x] + rest, e.path)
    {
      BlockedPrepend(filter, x, rest, e.path);
      assert e in [x] + a <==> e == x || e in a;
    }
  }

  lemma {:induction false} BlockedPrepend(filter: Filter, x: Entry, rest: seq<Entry>, p: Path)
    ensures Blocked(filter, [x] + rest, p) <==> Blocked(filter, rest, p) || (IgnoredEntry(filter, x) && x.path <= p)
  {
    var w := [x] + rest;
    if Blocked(filter, w, p) {
      var y :| y in w && IgnoredEntry(filter, y) && y.path <= p;
      assert y == x || y in rest;
    }
    if Blocked(filter, rest, p) {
      var y :| y in rest && IgnoredEntry(filter, y) && y.path <= p;
      assert y in w;
    }
    assert x in w;
  }

  lemma {:induction false} PrependContinues(root: Path, prev: Entry, x: Entry, rest: seq<Entry>, a: seq<Entry>,
                                            w: seq<Entry>)
    requires w == [x] + rest && Continues(root, prev, w) && Continues(root, x, a)
    requires forall e :: e in a ==> e in rest
    ensures Continues(root, prev, [x] + a)
  {
    var r := [x] + a;
    assert StepAt(root, prev, w, 0);
    assert StepAt(root, prev, r, 0) && root <= prev.path;
    forall i | 0 <= i < |a|
      ensures a[i].path != x.path
    {
      PrependStep(root, prev, x, rest, a, w, i);
    }
    PrependDistinct(x, a);
    forall i | 0 <= i < |r|
      ensures StepAt(root, prev, r, i)
    {
      if i > 0 { PrependStep(root, prev, x, rest, a, w, i - 1); }
    }
    hide StepAt;
    ContinuesFrom(root, prev, r);
  }

  lemma {:induction false} PrependStep(root: Path, prev: Entry, x: Entry, rest: seq<Entry>, a: seq<Entry>,
                                       w: seq<Entry>, i: nat)
    requires w == [x] + rest && Continues(root, prev, w) && Continues(root, x, a)
    requires i < |a| && a[i] in rest
    ensures StepAt(root, prev, [x] + a, i + 1)
    ensures a[i].path != x.path
  {
    var k :| 0 <= k < |rest| && rest[k] == a[i];
    assert w[k + 1] == a[i] && StepAt(root, prev, w, k + 1) && StepAt(root, x, a, i);
    hide Continues;
    assert ([x] + a)[i + 1] == a[i];
  }

  lemma {:induction false} PrependDistinct(x: Entry, a: seq<Entry>)
    requires forall i, j :: 0 <= i < j < |a| ==> a[i].path != a[j].path
    requires forall i :: 0 <= i < |a| ==> a[i].path != x.path
    ensures forall i, j :: 0 <= i < j < |[x] + a| ==> ([x] + a)[i].path != ([x] + a)[j].path
  {
  }

  lemma {:induction false} ContinuesFrom(root: Path, prev: Entry, w: seq<Entry>)
    requires root <= prev.path && forall i :: 0 <= i < |w| ==> StepAt(root, prev, w, i)
    requires forall i, j :: 0 <= i < j < |w| ==> w[i].path != w[j].path
    ensures Continues(root, prev, w)
  {
  }

  // ------------------------------------------------------------------ the result

  /** `walk` lists everything of the snapshot below the root, in some pre-order. */
  ghost predicate Lists(fs: Snapshot, root: Path, walk: seq<Entry>) {
    && Preorder(root, walk) && Agrees(fs, walk)
    && (forall p :: p in fs && root < p ==> Entry(p, fs[p].Directory?) in walk)
  }

  lemma {:induction false} PreorderContinues(root: Path, w: seq<Entry>)
    ensures Preorder(root, w) <==> Continues(root, Entry(root, true), w)
  {
    if Preorder(root, w) {
      forall i | 0 <= i < |w|
        ensures StepAt(root, Entry(root, true), w, i)
      {
        assert Follows(root, w, i);
      }
      assert Continues(root, Entry(root, true), w);
    }
    if Continues(root, Entry(root, true), w) {
      forall i | 0 <= i < |w|
        ensures Follows(root, w, i)
      {
        assert StepAt(root, Entry(root, true), w, i);
      }
    }
  }

  /** What a crawl looks at: everything below the root, or only what lies directly in it. */
  predicate Reaches(recursive: bool, root: Path, p: Path) {
    root < p && (recursive || Up(p) == root)
  }

  /** The walk a crawl makes, read as a listing of what it looks at. */
  ghost predicate Covers(fs: Snapshot, recursive: bool, root: Path, w: seq<Entry>) {
    && Preorder(root, w) && Agrees(fs, w)
    && (forall e :: e in w ==> Reaches(recursive, root, e.path))
    && (forall p :: p in fs && Reaches(recursive, root, p) ==> Entry(p, fs[p].Directory?) in w)
  }

  /** Ignored for a crawl of `root`: by the path itself, or by a directory between the
      two. The root is not tested, nor is anything above it. */
  ghost predicate IgnoredBelow(filter: Filter, root: Path, p: Path, isDir: bool) {
    filter(p, Some(isDir)) || exists n :: |root| < n < |p| && filter(p[..n], Some(true))
  }

  ghost predicate Distinct(w: seq<Entry>) {
    forall i, j :: 0 <= i < j < |w| ==> w[i].path != w[j].path
  }

  lemma {:induction false} ShallowMembers(root: Path, walk: seq<Entry>)
    ensures forall e :: e in Shallow(root, walk) <==> e in walk && DepthOf(root, e.path) <= 1
  {
    if walk != [] {
      ShallowMembers(root, walk[1..]);
      assert walk == [walk[0]] + walk[1..];
    }
  }

  lemma {:induction false} ShallowIsDistinct(root: Path, walk: seq<Entry>)
    requires Distinct(walk)
    ensures Distinct(Shallow(root, walk))
  {
    if walk != [] {
      var x, rest := walk[0], walk[1..];
      assert forall i :: 0 <= i < |rest| ==> rest[i] == walk[i + 1];
      ShallowIsDistinct(root, rest);
      ShallowMembers(root, rest);
      var v := Shallow(root, rest);
      forall i | 0 <= i < |v|
        ensures v[i].path != x.path
      {
        assert v[i] in rest;
      }
      hide Shallow;
      DistinctMore(x, v);
    }
  }

  lemma {:induction false} DistinctMore(x: Entry, v: seq<Entry>)
    requires Distinct(v) && forall i :: 0 <= i < |v| ==> v[i].path != x.path
    ensures Distinct([x] + v) && Distinct([] + v)
  {
    assert [] + v == v;
  }

  lemma {:induction false} FlatIsPreorder(root: Path, w: seq<Entry>)
    requires forall i :: 0 <= i < |w| ==> root < w[i].path && Up(w[i].path) == root
    requires Distinct(w)
    ensures Preorder(root, w)
  {
  }

  lemma {:induction false} RootWalkCovers(fs: Snapshot, recursive: bool, root: Path, walk: seq<Entry>)
    requires Lists(fs, root, walk)
    ensures Covers(fs, recursive, root, RootWalk(recursive, root, walk))
  {
    var w := RootWalk(recursive, root, walk);
    ShallowMembers(root, walk);
    ShallowIsDistinct(root, walk);
    forall e | e in w
      ensures Reaches(recursive, root, e.path) && e in walk && e == Entry(e.path, fs[e.path].Directory?) && e.path in fs
    {
      ListedEntry(fs, root, walk, e);
      DepthOne(root, e.path);
    }
    assert forall i :: 0 <= i < |w| ==> w[i] in w;
    if !recursive { FlatIsPreorder(root, w); }
    forall p | p in fs && Reaches(recursive, root, p)
      ensures Entry(p, fs[p].Directory?) in w
    {
      DepthOne(root, p);
    }
  }

  lemma {:induction false} DepthOne(root: Path, p: Path)
    requires root < p
    ensures DepthOf(root, p) <= 1 <==> Up(p) == root
  {
    assert p[..|root|] == root;
  }

  /** The entries a pruning crawl visits form a pre-order listing, and they are exactly
      the entries it looks at that it does not ignore. */
  lemma {:induction false} PruningIsExact(fs: Snapshot, filter: Filter, recursive: bool, root: Path, w: seq<Entry>)
    requires Covers(fs, recursive, root, w)
    ensures var v := Admit(filter, w);
            && Preorder(root, v) && Agrees(fs, v) && (recursive || Flat(root, v))
            && forall p :: p in Seen(v) <==>
                 p in fs && Reaches(recursive, root, p) && !IgnoredBelow(filter, root, p, fs[p].Directory?)
  {
    var v := Admit(filter, w);
    PreorderContinues(root, w);
    AdmitContinues(filter, root, Entry(root, true), w);
    PreorderContinues(root, v);
    forall i | 0 <= i < |v|
      ensures v[i].path in fs && v[i].isDir == fs[v[i].path].Directory? && Reaches(recursive, root, v[i].path)
    {
      assert v[i] in v && v[i] in w;
    }
    forall p
      ensures p in Seen(v) <==>
                p in fs && Reaches(recursive, root, p) && !IgnoredBelow(filter, root, p, fs[p].Directory?)
    {
      AdmittedPath(fs, filter, recursive, root, w, p);
    }
  }

  lemma {:induction false} AdmittedPath(fs: Snapshot, filter: Filter, recursive: bool, root: Path, w: seq<Entry>,
                                        p: Path)
    requires Covers(fs, recursive, root, w)
    requires forall e :: e in Admit(filter, w) <==> e in w && !Blocked(filter, w, e.path)
    ensures p in Seen(Admit(filter, w))
       <==> p in fs && Reaches(recursive, root, p) && !IgnoredBelow(filter, root, p, fs[p].Directory?)
  {
    var v := Admit(filter, w);
    SeenMembers(v, p);
    if p in Seen(v) {
      var i :| 0 <= i < |v| && v[i].path == p;
      assert v[i] in w;
    }
    if p in fs && Reaches(recursive, root, p) {
      var e := Entry(p, fs[p].Directory?);
      assert e in w;
      BlockedIsIgnored(fs, filter, recursive, root, w, p);
      if !Blocked(filter, w, p) {
        assert e in v;
        var i :| 0 <= i < |v| && v[i] == e;
        assert v[i].path == p;
      } else {
        forall i | 0 <= i < |v|
          ensures v[i].path != p
        {
          assert v[i] in v;
        }
      }
    }
  }

  lemma {:induction false} ListedEntry(fs: Snapshot, root: Path, walk: seq<Entry>, e: Entry)
    requires Preorder(root, walk) && Agrees(fs, walk) && e in walk
    ensures e.path in fs && root < e.path && e == Entry(e.path, fs[e.path].Directory?)
  {
    var i :| 0 <= i < |walk| && walk[i] == e;
    assert Follows(root, walk, i);
  }

  lemma {:induction false} BlockedIsIgnored(fs: Snapshot, filter: Filter, recursive: bool, root: Path, w: seq<Entry>,
                                            p: Path)
    requires Covers(fs, recursive, root, w) && p in fs && Reaches(recursive, root, p)
    ensures Blocked(filter, w, p) <==> IgnoredBelow(filter, root, p, fs[p].Directory?)
  {
    if Blocked(filter, w, p) {
      var x :| x in w && IgnoredEntry(filter, x) && x.path <= p;
      ListedEntry(fs, root, w, x);
      if x.path != p {
        ListedAncestor(fs, recursive, root, w, x.path, p);
        assert p[..|x.path|] == x.path;
      }
    }
    if IgnoredBelow(filter, root, p, fs[p].Directory?) {
      if filter(p, Some(fs[p].Directory?)) {
        assert IgnoredEntry(filter, Entry(p, fs[p].Directory?));
      } else {
        var n :| |root| < n < |p| && filter(p[..n], Some(true));
        ListedAncestor(fs, recursive, root, w, p[..n], p);
        assert IgnoredEntry(filter, Entry(p[..n], true));
      }
    }
  }

  lemma {:induction false} ListedAncestor(fs: Snapshot, recursive: bool, root: Path, w: seq<Entry>, q: Path, p: Path)
    requires Covers(fs, recursive, root, w) && p in fs && Reaches(recursive, root, p) && root < q < p
    ensures q in fs && fs[q].Directory? && Entry(q, true) in w
  {
    var ctx := Ctx(EMPTY, fs, root, true);
    PreorderClosed(ctx, w);
    assert Entry(p, fs[p].Directory?) in w;
    var i :| 0 <= i < |w| && w[i] == Entry(p, fs[p].Directory?);
    SeenMembers(w, p);
    assert w[i].path == p;
    ClosedPrefix(ctx, Seen(w), q, p);
    SeenMembers(w, q);
    var k :| 0 <= k < |w| && w[k].path == q;
    assert w[k] in w;
  }

  lemma {:induction false} IgnoredFromRoot(filter: Filter, root: Path, p: Path, isDir: bool)
    requires root < p && !IgnoredRec(filter, root, Some(true))
    ensures IgnoredBelow(filter, root, p, isDir) <==> IgnoredRec(filter, p, Some(isDir))
  {
    forall n | 0 <= n <= |root|
      ensures !filter(p[..n], Some(true))
    {
      assert p[..n] == root[..n];
      assert n == |root| ==> p[..n] == root;
    }
  }

  /** If the root is not ignored, neither itself nor by anything above it, this is the
      recursive filter: what a crawl visits is exactly what `ignore_path_rec` admits. */
  lemma {:induction false} PruningIsTheRecursiveFilter(fs: Snapshot, filter: Filter, root: Path, walk: seq<Entry>)
    requires Lists(fs, root, walk) && !IgnoredRec(filter, root, Some(true))
    ensures forall p :: p in Seen(Admit(filter, walk)) <==>
              p in fs && root < p && !IgnoredRec(filter, p, Some(fs[p].Directory?))
  {
    RootWalkCovers(fs, true, root, walk);
    PruningIsExact(fs, filter, true, root, walk);
    forall p | p in fs && root < p
      ensures IgnoredBelow(filter, root, p, fs[p].Directory?) <==> IgnoredRec(filter, p, Some(fs[p].Directory?))
    {
      IgnoredFromRoot(filter, root, p, fs[p].Directory?);
    }
  }
}
