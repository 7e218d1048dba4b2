/** What the first crawl of a new root (src/tree.rs, `crawl_root`) finds: everything that
    is visible, except what the walk leaves when it meets an entry that cannot be added. If
    that is a directory, what lies below it; if not, the rest of the directory it is in. */
module FirstCrawl {
  import opened Paths
  import opened Events
  import opened TreeModel
  import opened CrawlModel
  import opened CrawlStructure
  import opened CrawlResult
  import opened Filters
  import opened Runs
  import opened Adding

  // ------------------------------------------------------ skipping one's siblings

  /** Leaving the directory `d` in the middle drops what else lies below it, and the rest
      continues the listing from anything in `d` that was kept. */
  lemma {:induction false} SkipRest(root: Path, prev: Entry, last: Entry, d: Path, w: seq<Entry>)
    requires Continues(root, last, w) && root <= prev.path && d <= last.path && d <= prev.path
    requires forall e :: e in w ==> !(e.path <= prev.path)
    ensures var rest := SkipDir(w, d);
            && Continues(root, prev, rest) && Dropped(w, rest, d)
            && (forall e :: e in rest ==> !(d < e.path))
    decreases |w|
  {
    hide Continues, Dropped;
    if w == [] {
      NothingLeft(root, prev);
      NoneDropped(w, d);
    } else if |w[0].path| > |d| {
      var tail := w[1..];
      ContinuesTail(root, last, w);
      StillInside(root, last, d, w);
      assert forall e :: e in tail ==> e in w;
      SkipRest(root, prev, w[0], d, tail);
      DroppedMore(w, SkipDir(tail, d), d);
    } else {
      StaysWith(root, prev, last, d, w);
      NoneDropped(w, d);
    }
  }

  /** `rest` is the end of `w`, and everything before it lies below `d`. */
  ghost predicate Dropped(w: seq<Entry>, rest: seq<Entry>, d: Path) {
    |rest| <= |w| && rest == w[|w| - |rest|..] && forall i :: 0 <= i < |w| - |rest| ==> d < w[i].path
  }

  lemma {:induction false} NoneDropped(w: seq<Entry>, d: Path)
    ensures Dropped(w, w, d)
  {
  }

  lemma {:induction false} DroppedMore(w: seq<Entry>, rest: seq<Entry>, d: Path)
    requires w != [] && Dropped(w[1..], rest, d) && d < w[0].path
    ensures Dropped(w, rest, d)
  {
    forall i | 0 <= i < |w| - |rest|
      ensures d < w[i].path
    {
      if i > 0 { assert w[i] == w[1..][i - 1]; }
    }
  }

  lemma {:induction false} NothingLeft(root: Path, prev: Entry)
    requires root <= prev.path
    ensures Continues(root, prev, [])
  {
  }

  lemma {:induction false} StillInside(root: Path, last: Entry, d: Path, w: seq<Entry>)
    requires Continues(root, last, w) && w != [] && d <= last.path && |w[0].path| > |d|
    ensures d < w[0].path
  {
    assert StepAt(root, last, w, 0);
    assert d <= Up(w[0].path);
  }

  lemma {:induction false} StaysWith(root: Path, prev: Entry, last: Entry, d: Path, w: seq<Entry>)
    requires Continues(root, last, w) && w != [] && root <= prev.path && d <= last.path && d <= prev.path
    requires |w[0].path| <= |d| && forall e :: e in w ==> !(e.path <= prev.path)
    ensures Continues(root, prev, w)
    ensures forall e :: e in w ==> !(d < e.path)
  {
    forall i | 0 <= i < |w|
      ensures StepAt(root, prev, w, i)
    {
      assert StepAt(root, last, w, i) && w[i] in w;
      if i == 0 { assert Up(w[0].path) < d; }
    }
    forall e | e in w
      ensures e.path != d
    {
    }
    assert w[0] in w;
    ContinuesTail(root, prev, w);
    NoReturn(root, w[0], w[1..], d);
    assert w == [w[0]] + w[1..];
  }

  // ------------------------------------------------------------ what gets dropped

  /** Which paths cannot be added. */
  type Refusal = Path -> bool

  /** What the walk skips after an entry that could not be added lies below this. */
  function Skipped(e: Entry): Path {
    if e.isDir then e.path else Up(e.path)
  }

  /** Entry `j`, not ignored but not added either, makes the walk skip entry `i`. */
  ghost predicate Cuts(no: Refusal, filter: Filter, w: seq<Entry>, j: nat, i: nat)
    requires j < |w| && i < |w|
  {
    j < i && no(w[j].path) && !Blocked(filter, w, w[j].path) && Skipped(w[j]) < w[i].path
  }

  ghost predicate CutOff(no: Refusal, filter: Filter, w: seq<Entry>, i: nat)
    requires i < |w|
  {
    exists j :: 0 <= j < |w| && Cuts(no, filter, w, j, i)
  }

  /** Entry `i` is added. */
  ghost predicate Found(no: Refusal, filter: Filter, w: seq<Entry>, i: nat)
    requires i < |w|
  {
    !no(w[i].path) && !Blocked(filter, w, w[i].path) && !CutOff(no, filter, w, i)
  }

  ghost predicate FoundPath(no: Refusal, filter: Filter, w: seq<Entry>, p: Path) {
    exists i :: 0 <= i < |w| && w[i].path == p && Found(no, filter, w, i)
  }

  // ---------------------------------------- what is found in what is left to walk

  /** The first `k` entries neither hide nor cut off any of the others. */
  ghost predicate Irrelevant(no: Refusal, filter: Filter, w: seq<Entry>, k: nat)
    requires k <= |w|
  {
    && (forall j, i :: 0 <= j < k <= i < |w| && IgnoredEntry(filter, w[j]) ==> !(w[j].path <= w[i].path))
    && (forall j, i :: 0 <= j < k <= i < |w| ==> !Cuts(no, filter, w, j, i))
  }

  lemma {:induction false} SuffixBlocked(no: Refusal, filter: Filter, w: seq<Entry>, k: nat, i: nat)
    requires k <= i < |w| && Irrelevant(no, filter, w, k)
    ensures Blocked(filter, w, w[i].path) <==> Blocked(filter, w[k..], w[i].path)
  {
    var p := w[i].path;
    if Blocked(filter, w, p) {
      var x :| x in w && IgnoredEntry(filter, x) && x.path <= p;
      var j :| 0 <= j < |w| && w[j] == x;
      assert j >= k && w[k..][j - k] == x;
    }
    if Blocked(filter, w[k..], p) {
      var x :| x in w[k..] && IgnoredEntry(filter, x) && x.path <= p;
      assert x in w;
    }
  }

  lemma {:induction false} SuffixFound(no: Refusal, filter: Filter, w: seq<Entry>, k: nat, i: nat)
    requires k <= i < |w| && Irrelevant(no, filter, w, k)
    ensures Found(no, filter, w, i) <==> Found(no, filter, w[k..], i - k)
  {
    hide Blocked;
    SuffixBlocked(no, filter, w, k, i);
    SuffixCutOff(no, filter, w, k, i);
    hide CutOff, Irrelevant;
  }

  lemma {:induction false} SuffixCutOff(no: Refusal, filter: Filter, w: seq<Entry>, k: nat, i: nat)
    requires k <= i < |w| && Irrelevant(no, filter, w, k)
    ensures CutOff(no, filter, w, i) <==> CutOff(no, filter, w[k..], i - k)
  {
    hide Blocked, Skipped;
    var v := w[k..];
    if CutOff(no, filter, w, i) {
      var j :| 0 <= j < |w| && Cuts(no, filter, w, j, i);
      SuffixBlocked(no, filter, w, k, j);
      assert Cuts(no, filter, v, j - k, i - k);
    }
    if CutOff(no, filter, v, i - k) {
      var j :| 0 <= j < |v| && Cuts(no, filter, v, j, i - k);
      SuffixBlocked(no, filter, w, k, j + k);
      assert Cuts(no, filter, w, j + k, i);
    }
  }

  lemma {:induction false} SuffixFinds(no: Refusal, filter: Filter, w: seq<Entry>, k: nat, p: Path)
    requires 1 <= k <= |w| && Irrelevant(no, filter, w, k)
    requires forall i :: 1 <= i < k ==> !Found(no, filter, w, i)
    ensures FoundPath(no, filter, w, p)
       <==> FoundPath(no, filter, w[k..], p) || (p == w[0].path && Found(no, filter, w, 0))
  {
    hide Found, Irrelevant;
    var v := w[k..];
    if FoundPath(no, filter, w, p) {
      var i :| 0 <= i < |w| && w[i].path == p && Found(no, filter, w, i);
      if i >= k {
        SuffixFound(no, filter, w, k, i);
        assert v[i - k].path == p;
      }
    }
    if FoundPath(no, filter, v, p) {
      var i :| 0 <= i < |v| && v[i].path == p && Found(no, filter, v, i);
      SuffixFound(no, filter, w, k, i + k);
      assert w[i + k].path == p;
    }
  }

  lemma {:induction false} FirstNotBlocked(filter: Filter, root: Path, prev: Entry, w: seq<Entry>)
    requires Continues(root, prev, w) && w != [] && !IgnoredEntry(filter, w[0])
    ensures !Blocked(filter, w, w[0].path)
  {
    ContinuesTail(root, prev, w);
    NoneAbove(root, w[0], w[1..]);
    assert w == [w[0]] + w[1..];
  }

  /** An entry that is added. */
  lemma {:induction false} TakenFinds(no: Refusal, filter: Filter, root: Path, prev: Entry, w: seq<Entry>, p: Path)
    requires Continues(root, prev, w) && w != [] && !IgnoredEntry(filter, w[0]) && !no(w[0].path)
    ensures FoundPath(no, filter, w, p) <==> FoundPath(no, filter, w[1..], p) || p == w[0].path
  {
    FirstNotBlocked(filter, root, prev, w);
    assert Irrelevant(no, filter, w, 1);
    assert Found(no, filter, w, 0);
    hide Found, Irrelevant;
    SuffixFinds(no, filter, w, 1, p);
  }

  /** An entry that is ignored, with all that lies below it. */
  lemma {:induction false} IgnoredFinds(no: Refusal, filter: Filter, w: seq<Entry>, k: nat, p: Path)
    requires 1 <= k <= |w| && IgnoredEntry(filter, w[0])
    requires forall i :: 0 < i < k ==> w[0].path < w[i].path
    requires forall i :: k <= i < |w| ==> !(w[0].path <= w[i].path)
    ensures FoundPath(no, filter, w, p) <==> FoundPath(no, filter, w[k..], p)
  {
    forall i | 0 <= i < k
      ensures Blocked(filter, w, w[i].path)
    {
      assert w[0] in w && w[0].path <= w[i].path;
    }
    hide Blocked;
    assert Irrelevant(no, filter, w, k);
    SuffixFinds(no, filter, w, k, p);
  }

  /** An entry that is not added, with all that is skipped for it. */
  lemma {:induction false} RefusedFinds(no: Refusal, filter: Filter, root: Path, prev: Entry, w: seq<Entry>, k: nat,
                                        p: Path)
    requires Continues(root, prev, w) && 1 <= k <= |w| && !IgnoredEntry(filter, w[0]) && no(w[0].path)
             && w[0].path != []
    requires forall i :: 0 < i < k ==> Skipped(w[0]) < w[i].path
    requires forall i :: k <= i < |w| ==> !(Skipped(w[0]) < w[i].path) && !(w[0].path <= w[i].path)
    ensures FoundPath(no, filter, w, p) <==> FoundPath(no, filter, w[k..], p)
  {
    FirstNotBlocked(filter, root, prev, w);
    hide Blocked, Continues;
    forall i | 0 < i < k
      ensures !Found(no, filter, w, i)
    {
      assert Cuts(no, filter, w, 0, i);
    }
    forall j, i | 0 <= j < k <= i < |w|
      ensures !(w[j].path <= w[i].path) && !(Skipped(w[j]) < w[i].path)
    {
      if j > 0 { SkippedInside(Skipped(w[0]), w[j], w[i].path); }
    }
    assert Irrelevant(no, filter, w, k);
    SuffixFinds(no, filter, w, k, p);
  }

  lemma {:induction false} SkippedInside(d: Path, e: Entry, p: Path)
    requires d < e.path && !(d < p)
    ensures !(e.path <= p) && !(Skipped(e) < p)
  {
    assert d <= Up(e.path);
  }

  /** What is found does not depend on what is refused elsewhere. */
  lemma {:induction false} SameRefusalsFind(no: Refusal, nope: Refusal, filter: Filter, w: seq<Entry>, p: Path)
    requires forall i :: 0 <= i < |w| ==> no(w[i].path) == nope(w[i].path)
    ensures FoundPath(no, filter, w, p) <==> FoundPath(nope, filter, w, p)
  {
    hide Blocked;
    forall i | 0 <= i < |w|
      ensures Found(no, filter, w, i) <==> Found(nope, filter, w, i)
    {
      assert forall j :: 0 <= j < |w| ==> (Cuts(no, filter, w, j, i) <==> Cuts(nope, filter, w, j, i));
    }
  }

  // ------------------------------------------------------------------ the crawl

  predicate Covered(t: Tree, p: Path) {
    CoverageOf(t, p) == Recursive
  }

  /** `add` returns nothing: for what is neither a file nor a directory, and for what is
      known already, unless a recursive watch can take it over. */
  predicate Refused(t: Tree, fs: Snapshot, recursive: bool, p: Path) {
    if p in t.table then !recursive || Covered(t, p) else ForPath(fs, p).None?
  }

  function Refusals(t: Tree, fs: Snapshot, recursive: bool): Refusal {
    p => Refused(t, fs, recursive, p)
  }

  /** The tree knows everything down to the entry that was added last. */
  ghost predicate Under(t: Tree, fs: Snapshot, root: Path, prev: Entry, w: seq<Entry>) {
    && Forest(t) && Continues(root, prev, w) && Agrees(fs, w)
    && (forall i :: 0 <= i < |w| ==> w[i].path != [])
    && (forall n :: |root| <= n <= |prev.path| ==> prev.path[..n] in t.table)
  }

  /** `u` is `t` with `p` added or taken over. */
  ghost predicate Takes(t: Tree, u: Tree, fs: Snapshot, recursive: bool, p: Path) {
    && Forest(u) && p in u.table && CoverageOf(u, p) == (if recursive then Recursive else Uncovered)
    && (if p in t.table then Inode(u, p) == Inode(t, p) else NewFrom(u, fs, p))
    && (forall q :: q != p ==> SameSort(t, u, q))
  }

  /** `p` is known as the snapshot has it. */
  ghost predicate NewFrom(u: Tree, fs: Snapshot, p: Path) {
    && ForPath(fs, p).Some? && Meta(u, p) == MetaOf(ForPath(fs, p).value)
    && Inode(u, p) == ForPath(fs, p).value.inode
  }

  ghost predicate SameSort(t: Tree, u: Tree, q: Path) {
    (q in u.table <==> q in t.table) && CoverageOf(u, q) == CoverageOf(t, q) && Inode(u, q) == Inode(t, q)
  }

  lemma {:induction false} StaysIsSameSort(t: Tree, u: Tree, p: Path, q: Path)
    requires Forest(t) && StaysAt(t, u, p, q)
    ensures SameSort(t, u, q)
  {
    hide KidsAt;
  }

  lemma {:induction false} TakenIs(t: Tree, u: Tree, fs: Snapshot, p: Path)
    requires Forest(t) && Forest(u) && p in t.table && p in u.table && u.table[p] == t.table[p]
    requires RestStays(t, u, p) && Known(u, p) && u.nodes[t.table[p]] == t.nodes[t.table[p]].(coverage := Recursive)
    ensures Takes(t, u, fs, true, p)
  {
    forall q | q != p
      ensures SameSort(t, u, q)
    {
      StaysIsSameSort(t, u, p, q);
    }
    hide Forest, StaysAt, SameSort;
  }

  lemma {:induction false} NewIsTaken(t: Tree, u: Tree, fs: Snapshot, recursive: bool, n: Node, list: bool)
    requires Forest(t) && Forest(u) && n.path !in t.table && NewAt(t, u, n, list) && ForPath(fs, n.path).Some?
    requires n.meta == MetaOf(ForPath(fs, n.path).value) && n.inode == ForPath(fs, n.path).value.inode
    requires n.coverage == if recursive then Recursive else Uncovered
    ensures Takes(t, u, fs, recursive, n.path)
  {
    forall q | q != n.path
      ensures SameSort(t, u, q)
    {
      StaysIsSameSort(t, u, n.path, q);
    }
    hide Forest, StaysAt, SameSort, Kids, Linked;
  }

  lemma {:induction false} AddTakes(t: Tree, fs: Snapshot, recursive: bool, p: Path)
    requires Forest(t) && p != [] && Up(p) in t.table
    ensures var added := Add(t, fs, p, recursive, false);
            && (added.node.None? <==> Refused(t, fs, recursive, p))
            && (added.node.None? ==> added.tree == t)
            && (added.node.Some? ==> Takes(t, added.tree, fs, recursive, p))
  {
    hide Takes, Add, NewAt, RestStays, KidsAt, Forest;
    AddKeepsForest(t, fs, p, recursive, false);
    AddIs(t, fs, p, recursive, false);
    var u := Add(t, fs, p, recursive, false).tree;
    if Addable(t, fs, p, recursive, false) {
      if p in t.table {
        TakenIs(t, u, fs, p);
      } else {
        var m := ForPath(fs, p).value;
        NewIsTaken(t, u, fs, recursive, Node(p, MetaOf(m), m.inode, false, AddedCoverage(recursive, false), None),
                   m.isDir && recursive && m.size != 0);
      }
    }
  }

  lemma {:induction false} UnderAfterTake(t: Tree, u: Tree, fs: Snapshot, recursive: bool, root: Path, prev: Entry,
                                          w: seq<Entry>)
    requires Under(t, fs, root, prev, w) && w != [] && Takes(t, u, fs, recursive, w[0].path)
    ensures Under(u, fs, root, w[0], w[1..])
  {
    ContinuesTail(root, prev, w);
    assert StepAt(root, prev, w, 0);
    var e := w[0].path;
    hide Covered, Forest;
    forall n | |root| <= n <= |e|
      ensures e[..n] in u.table
    {
      if n < |e| {
        assert e[..n] == prev.path[..n] && e[..n] != e;
        assert SameSort(t, u, e[..n]);
      } else {
        assert e[..n] == e;
      }
    }
  }

  lemma {:induction false} UnderSuffix(t: Tree, fs: Snapshot, root: Path, prev: Entry, w: seq<Entry>, rest: seq<Entry>)
    requires Under(t, fs, root, prev, w) && |rest| <= |w| && rest == w[|w| - |rest|..] && Continues(root, prev, rest)
    ensures Under(t, fs, root, prev, rest)
  {
    hide Forest, Continues;
    assert forall i :: 0 <= i < |rest| ==> rest[i] == w[|w| - |rest| + i];
  }

  lemma {:induction false} TailIsLater(root: Path, prev: Entry, w: seq<Entry>)
    requires Continues(root, prev, w) && w != []
    ensures forall e :: e in w[1..] ==> e.path != w[0].path && !(e.path <= prev.path) && !(e.path <= w[0].path)
    ensures Filters.Step(root, prev, w[0]) && !(w[0].path <= prev.path)
  {
    assert StepAt(root, prev, w, 0);
    ContinuesTail(root, prev, w);
    NoneAbove(root, w[0], w[1..]);
    NoneAbove(root, prev, w);
    assert w == [w[0]] + w[1..];
  }

  /** Once nothing below `x` is left, the listing goes on as if `x` had not been there. */
  lemma {:induction false} LeavesEntry(root: Path, prev: Entry, x: Entry, rest: seq<Entry>)
    requires Continues(root, x, rest) && Filters.Step(root, prev, x) && root <= prev.path && !(x.path <= prev.path)
    requires forall e :: e in rest ==> e.path != x.path && !(e.path <= prev.path) && !(x.path < e.path)
    ensures Continues(root, prev, rest)
    ensures forall e :: e in rest ==> !(x.path <= e.path)
  {
    if rest != [] {
      assert rest[0] in rest;
      assert StepAt(root, x, rest, 0);
      assert Up(rest[0].path) != x.path;
      LeavesTo(root, prev, x, x, rest);
    }
  }

  /** Where the walk goes on after an entry that is not added. */
  function AfterSkip(filter: Filter, w: seq<Entry>): (rest: seq<Entry>)
    requires w != []
    ensures |rest| < |w|
  {
    if !IgnoredEntry(filter, w[0]) then SkipAfter(w[1..], w[0])
    else if w[0].isDir then SkipDir(w[1..], w[0].path)
    else w[1..]
  }

  /** Skipping a directory. */
  lemma {:induction false} AfterDir(root: Path, prev: Entry, w: seq<Entry>)
    requires Continues(root, prev, w) && w != [] && root <= prev.path
    ensures var rest := SkipDir(w[1..], w[0].path);
            && Continues(root, prev, rest) && Dropped(w[1..], rest, w[0].path)
            && (forall e :: e in rest ==> !(w[0].path <= e.path))
  {
    var x, tail := w[0], w[1..];
    TailIsLater(root, prev, w);
    ContinuesTail(root, prev, w);
    hide Continues, Filters.Step, Dropped;
    SkipRest(root, x, x, x.path, tail);
    var rest := SkipDir(tail, x.path);
    DroppedMembers(tail, rest, x.path);
    LeavesEntry(root, prev, x, rest);
  }

  /** An ignored entry takes along what lies below it. */
  lemma {:induction false} AfterIgnored(root: Path, prev: Entry, filter: Filter, w: seq<Entry>)
    requires Continues(root, prev, w) && w != [] && root <= prev.path && IgnoredEntry(filter, w[0])
    ensures var rest := AfterSkip(filter, w);
            && Continues(root, prev, rest) && Dropped(w[1..], rest, w[0].path)
            && (forall e :: e in rest ==> !(w[0].path <= e.path))
  {
    var x, tail := w[0], w[1..];
    TailIsLater(root, prev, w);
    ContinuesTail(root, prev, w);
    hide Continues, Filters.Step, Dropped;
    if x.isDir {
      AfterDir(root, prev, w);
    } else {
      SkipFile(root, prev, x, tail);
      NoneDropped(tail, x.path);
    }
  }

  lemma {:induction false} DroppedMembers(w: seq<Entry>, rest: seq<Entry>, d: Path)
    requires Dropped(w, rest, d)
    ensures forall e :: e in rest ==> e in w
  {
  }

  /** An entry that is not added takes along what is skipped for it. */
  lemma {:induction false} AfterRefused(root: Path, prev: Entry, filter: Filter, w: seq<Entry>)
    requires Continues(root, prev, w) && w != [] && w[0].path != [] && root <= prev.path
    requires !IgnoredEntry(filter, w[0])
    ensures var rest := AfterSkip(filter, w); var d := Skipped(w[0]);
            && Continues(root, prev, rest) && Dropped(w[1..], rest, d)
            && (forall e :: e in rest ==> !(d < e.path) && !(w[0].path <= e.path))
  {
    TailIsLater(root, prev, w);
    ContinuesTail(root, prev, w);
    hide Continues, Dropped;
    if w[0].isDir {
      AfterDir(root, prev, w);
    } else {
      var d := Up(w[0].path);
      SkipRest(root, prev, w[0], d, w[1..]);
      forall e: Entry | !(d < e.path)
        ensures !(w[0].path <= e.path)
      {
      }
    }
  }

  lemma {:induction false} Suffixes(w: seq<Entry>, rest: seq<Entry>, d: Path)
    requires w != [] && Dropped(w[1..], rest, d)
    ensures |rest| < |w| && rest == w[|w| - |rest|..]
    ensures forall i :: 0 < i < |w| - |rest| ==> d < w[i].path
    ensures forall i :: |w| - |rest| <= i < |w| ==> w[i] in rest
  {
    assert forall i :: 1 <= i < |w| ==> w[i] == w[1..][i - 1];
    forall i | |w| - |rest| <= i < |w|
      ensures w[i] in rest
    {
      assert rest[i - (|w| - |rest|)] == w[i];
    }
  }

  /** One step of the crawl. */
  lemma {:induction false} CrawlStep(t: Tree, fs: Snapshot, filter: Filter, recursive: bool, w: seq<Entry>)
    requires Forest(t) && w != [] && w[0].path != [] && forall i :: 0 <= i < |w| ==> w[i].path != []
    ensures var added := Add(t, fs, w[0].path, recursive, false);
            var taken := !IgnoredEntry(filter, w[0]) && added.node.Some?;
            var rest := if taken then w[1..] else AfterSkip(filter, w);
            var u := if IgnoredEntry(filter, w[0]) then t else added.tree;
            && Forest(u) && (forall i :: 0 <= i < |rest| ==> rest[i].path != [])
            && var r, later := CrawlRoot(t, fs, filter, recursive, w), CrawlRoot(u, fs, filter, recursive, rest);
               && r.tree == later.tree
               && r.watches
                  == (if taken && WatchesNode(added, recursive)
                      then [added.tree.nodes[added.node.value].path] else []) + later.watches
  {
    AddKeepsForest(t, fs, w[0].path, recursive, false);
    SkipDirMembers(w[1..], w[0].path);
    SkipDirMembers(w[1..], Up(w[0].path));
    hide Forest, Add;
  }

  predicate WatchesNode(added: Added, recursive: bool)
    requires added.node.Some?
  {
    added.node.value < |added.tree.nodes| && added.tree.nodes[added.node.value].meta.Dir? && recursive
  }

  lemma {:induction false} AddedNode(t: Tree, fs: Snapshot, p: Path, recursive: bool)
    requires Forest(t) && p != []
    ensures var added := Add(t, fs, p, recursive, false);
            added.node.Some? ==>
              added.node.value < |added.tree.nodes| && added.tree.nodes[added.node.value].path == p
              && added.tree.nodes[added.node.value].meta == Meta(added.tree, p)
  {
    hide Grow, ReserveDir, ListsOwned, Descending, KidsBelow;
    if p in t.table {
      assert t.nodes[t.table[p]].path == p;
    } else if ForPath(fs, p).Some? && Up(p) in t.table {
      var m := ForPath(fs, p).value;
      NewNode(t, t.table[Up(p)], Node(p, MetaOf(m), m.inode, false, if recursive then Recursive else Uncovered, None));
    }
  }

  lemma {:induction false} NewNode(t: Tree, parent: NodeId, n: Node)
    requires ListsOwned(t) && parent < |t.nodes|
    ensures var u := Grow(t, Some(parent), n); var v := ReserveDir(u, |t.nodes|);
            && |u.nodes| == |t.nodes| + 1 && u.table == t.table[n.path := |t.nodes|]
            && u.nodes[|t.nodes|].path == n.path && |v.nodes| == |u.nodes| && v.table == u.table
               && v.nodes[|t.nodes|].path == n.path
  {
    GrowIs(t, Some(parent), n);
    hide Grow;
  }

  lemma {:induction false} IgnoredSkips(no: Refusal, filter: Filter, root: Path, prev: Entry, w: seq<Entry>, p: Path)
    requires Continues(root, prev, w) && w != [] && root <= prev.path && IgnoredEntry(filter, w[0])
    ensures Continues(root, prev, AfterSkip(filter, w)) && AfterSkip(filter, w) == w[|w| - |AfterSkip(filter, w)|..]
    ensures FoundPath(no, filter, w, p) <==> FoundPath(no, filter, AfterSkip(filter, w), p)
  {
    hide Continues, FoundPath, Dropped, AfterSkip, IgnoredEntry;
    var rest := AfterSkip(filter, w);
    AfterIgnored(root, prev, filter, w);
    Suffixes(w, rest, w[0].path);
    IgnoredFinds(no, filter, w, |w| - |rest|, p);
  }

  lemma {:induction false} RefusedSkips(no: Refusal, filter: Filter, root: Path, prev: Entry, w: seq<Entry>, p: Path)
    requires Continues(root, prev, w) && w != [] && root <= prev.path && !IgnoredEntry(filter, w[0]) && no(w[0].path)
             && w[0].path != []
    ensures Continues(root, prev, AfterSkip(filter, w)) && AfterSkip(filter, w) == w[|w| - |AfterSkip(filter, w)|..]
    ensures FoundPath(no, filter, w, p) <==> FoundPath(no, filter, AfterSkip(filter, w), p)
  {
    hide Continues, FoundPath, Dropped, AfterSkip, IgnoredEntry, Skipped;
    var rest := AfterSkip(filter, w);
    AfterRefused(root, prev, filter, w);
    Suffixes(w, rest, Skipped(w[0]));
    RefusedFinds(no, filter, root, prev, w, |w| - |rest|, p);
  }

  /** What an entry that is not added takes along would not have been found. */
  lemma {:induction false} SkippedFinds(no: Refusal, t: Tree, fs: Snapshot, filter: Filter, root: Path, prev: Entry,
                                        w: seq<Entry>, p: Path)
    requires Under(t, fs, root, prev, w) && root <= prev.path && w != []
             && (IgnoredEntry(filter, w[0]) || no(w[0].path))
    ensures Under(t, fs, root, prev, AfterSkip(filter, w))
    ensures FoundPath(no, filter, w, p) <==> FoundPath(no, filter, AfterSkip(filter, w), p)
  {
    hide Continues, FoundPath, AfterSkip, IgnoredEntry, Under;
    UnderContinues(t, fs, root, prev, w);
    if IgnoredEntry(filter, w[0]) {
      IgnoredSkips(no, filter, root, prev, w, p);
    } else {
      RefusedSkips(no, filter, root, prev, w, p);
    }
    UnderSuffix(t, fs, root, prev, w, AfterSkip(filter, w));
  }

  lemma {:induction false} UnderContinues(t: Tree, fs: Snapshot, root: Path, prev: Entry, w: seq<Entry>)
    requires Under(t, fs, root, prev, w) && w != []
    ensures Continues(root, prev, w) && w[0].path != []
  {
  }

  /** Taking one entry refuses nothing of what is still to come. */
  lemma {:induction false} TakeRefusesNoMore(t: Tree, u: Tree, fs: Snapshot, filter: Filter, recursive: bool,
                                             root: Path, prev: Entry, w: seq<Entry>, p: Path)
    requires Continues(root, prev, w) && w != [] && Takes(t, u, fs, recursive, w[0].path)
    ensures FoundPath(Refusals(t, fs, recursive), filter, w[1..], p)
            <==> FoundPath(Refusals(u, fs, recursive), filter, w[1..], p)
  {
    TailIsLater(root, prev, w);
    hide FoundPath, Continues, CoverageOf, Forest;
    forall i | 0 <= i < |w[1..]|
      ensures Refusals(t, fs, recursive)(w[1..][i].path) == Refusals(u, fs, recursive)(w[1..][i].path)
    {
      assert w[1..][i] in w[1..];
      assert SameSort(t, u, w[1..][i].path);
    }
    SameRefusalsFind(Refusals(t, fs, recursive), Refusals(u, fs, recursive), filter, w[1..], p);
  }

  /** What the crawl is to leave at `p`: known if it was or is found, a new one with its kind
      and inode, and covered if it was or is found by a recursive crawl. */
  ghost predicate LeftAt(t: Tree, r: Tree, fs: Snapshot, recursive: bool, p: Path, found: bool) {
    && (p in r.table <==> p in t.table || found)
    && CoverageOf(r, p) == (if found && recursive then Recursive else CoverageOf(t, p))
    && (p in r.table && p !in t.table ==> NewFrom(r, fs, p))
    && (p in t.table ==> Meta(r, p) == Meta(t, p) && Inode(r, p) == Inode(t, p))
  }

  lemma {:induction false} TakenThenLeft(t: Tree, u: Tree, r: Tree, fs: Snapshot, recursive: bool, e: Path, p: Path,
                                         found: bool)
    requires Takes(t, u, fs, recursive, e) && !Refused(t, fs, recursive, e) && Silent(t, u)
    requires LeftAt(u, r, fs, recursive, p, found)
    ensures LeftAt(t, r, fs, recursive, p, found || p == e)
  {
    hide Forest, Inode, Meta;
    UnknownIsUncovered(t, p);
    if p != e { assert SameSort(t, u, p); }
    hide CoverageOf;
  }

  lemma {:induction false} UnknownIsUncovered(t: Tree, p: Path)
    ensures p !in t.table ==> CoverageOf(t, p) == Uncovered
  {
  }

  /** A crawl asks to watch the directories among what it finds, if it is recursive. */
  ghost predicate WatchedAt(r: RootCrawl, recursive: bool, p: Path, found: bool) {
    p in r.watches <==> recursive && found && Meta(r.tree, p).Dir?
  }

  lemma {:induction false} TakenThenWatched(u: Tree, r: RootCrawl, later: RootCrawl, recursive: bool, e: Path,
                                            p: Path, found: bool)
    requires r.tree == later.tree && e in u.table && Silent(u, r.tree)
    requires r.watches == (if recursive && Meta(u, e).Dir? then [e] else []) + later.watches
    requires WatchedAt(later, recursive, p, found)
    ensures WatchedAt(r, recursive, p, found || p == e)
  {
    hide Meta;
  }

  /** The crawl adds exactly what is found. */
  lemma {:induction false} CrawlAddsFound(t: Tree, fs: Snapshot, filter: Filter, recursive: bool, root: Path,
                                          prev: Entry,
                                          w: seq<Entry>, p: Path)
    requires Under(t, fs, root, prev, w) && root <= prev.path
    ensures var r := CrawlRoot(t, fs, filter, recursive, w);
            var found := FoundPath(Refusals(t, fs, recursive), filter, w, p);
            LeftAt(t, r.tree, fs, recursive, p, found) && WatchedAt(r, recursive, p, found)
    decreases |w|
  {
    hide Forest, Continues, Agrees, FoundPath, Add, IgnoredEntry, AfterSkip, Takes, Silent, Meta;
    var no := Refusals(t, fs, recursive);
    if w == [] {
      NothingFound(no, filter, p);
    } else {
      CrawlStep(t, fs, filter, recursive, w);
      ParentKnown(t, fs, root, prev, w);
      AddTakes(t, fs, recursive, w[0].path);
      hide CrawlRoot, LeftAt, WatchedAt;
      if IgnoredEntry(filter, w[0]) || Refused(t, fs, recursive, w[0].path) {
        SkippedFinds(no, t, fs, filter, root, prev, w, p);
        CrawlAddsFound(t, fs, filter, recursive, root, prev, AfterSkip(filter, w), p);
        SameWatches(CrawlRoot(t, fs, filter, recursive, w), CrawlRoot(t, fs, filter, recursive, AfterSkip(filter, w)));
      } else {
        CrawlTakes(t, fs, filter, recursive, root, prev, w, p);
      }
    }
  }

  lemma {:induction false} SameWatches(r: RootCrawl, later: RootCrawl)
    requires r.tree == later.tree && r.watches == [] + later.watches
    ensures r == later
  {
  }

  lemma {:induction false} CrawlTakes(t: Tree, fs: Snapshot, filter: Filter, recursive: bool, root: Path, prev: Entry,
                                      w: seq<Entry>, p: Path)
    requires Under(t, fs, root, prev, w) && root <= prev.path && w != [] && !IgnoredEntry(filter, w[0])
    requires !Refused(t, fs, recursive, w[0].path)
    ensures var r := CrawlRoot(t, fs, filter, recursive, w);
            var found := FoundPath(Refusals(t, fs, recursive), filter, w, p);
            LeftAt(t, r.tree, fs, recursive, p, found) && WatchedAt(r, recursive, p, found)
    decreases |w|, 0
  {
    hide Forest, Continues, Agrees, FoundPath, Add, IgnoredEntry, AfterSkip, Takes, Silent, Meta, CrawlRoot, LeftAt,
         WatchedAt;
    var no, e := Refusals(t, fs, recursive), w[0].path;
    ParentKnown(t, fs, root, prev, w);
    AddTakes(t, fs, recursive, e);
    CrawlStep(t, fs, filter, recursive, w);
    var u := Add(t, fs, e, recursive, false).tree;
    UnderAfterTake(t, u, fs, recursive, root, prev, w);
    TakenFinds(no, filter, root, prev, w, p);
    TakeRefusesNoMore(t, u, fs, filter, recursive, root, prev, w, p);
    CrawlAddsFound(u, fs, filter, recursive, root, w[0], w[1..], p);
    AddSilent(t, fs, e, recursive, false);
    var later := CrawlRoot(u, fs, filter, recursive, w[1..]);
    TakenThenLeft(t, u, later.tree, fs, recursive, e, p, FoundPath(no, filter, w[1..], p));
    AddedNode(t, fs, e, recursive);
    CrawlRootSilent(u, fs, filter, recursive, w[1..]);
    TakenIsKnown(t, u, fs, recursive, e);
    TakenThenWatched(u, CrawlRoot(t, fs, filter, recursive, w), later, recursive, e, p,
                     FoundPath(no, filter, w[1..], p));
  }

  lemma {:induction false} TakenIsKnown(t: Tree, u: Tree, fs: Snapshot, recursive: bool, e: Path)
    requires Takes(t, u, fs, recursive, e)
    ensures e in u.table
  {
  }

  lemma {:induction false} NothingFound(no: Refusal, filter: Filter, p: Path)
    ensures !FoundPath(no, filter, [], p)
  {
  }

  lemma {:induction false} ParentKnown(t: Tree, fs: Snapshot, root: Path, prev: Entry, w: seq<Entry>)
    requires Under(t, fs, root, prev, w) && w != []
    ensures w[0].path != [] && Up(w[0].path) in t.table && root <= w[0].path
    ensures Forest(t) && Continues(root, prev, w) && forall i :: 0 <= i < |w| ==> w[i].path != []
  {
    assert StepAt(root, prev, w, 0);
    var d := Up(w[0].path);
    assert d == prev.path[..|d|];
  }

  // ------------------------------------------------------------------- the result

  /** A first crawl over a listing of the snapshot: all that is asked is that the root is
      known, as it is right after it was added. */
  ghost predicate Begun(t: Tree, s: Scope, walk: seq<Entry>) {
    Forest(t) && s.root in t.table && Lists(s.fs, s.root, walk)
  }

  /** Visible, and a file or a directory. */
  ghost predicate VisibleEntry(s: Scope, p: Path) {
    VisibleFile(s, p) || VisibleDir(s, p)
  }

  /** Before `p` the walk meets a visible entry that cannot be added: a directory above
      `p`, or something else in a directory that `p` lies in too. */
  ghost predicate Behind(t: Tree, s: Scope, walk: seq<Entry>, p: Path) {
    exists j, i :: 0 <= j < i < |walk| && walk[i].path == p && Hides(t, s, walk[j].path, p)
  }

  ghost predicate Hides(t: Tree, s: Scope, q: Path, p: Path) {
    Visible(s, q).Some? && Refused(t, s.fs, s.recursive, q) && (if VisibleDir(s, q) then q else Up(q)) < p
  }

  lemma {:induction false} EntryIs(s: Scope, w: seq<Entry>, i: nat)
    requires Covers(s.fs, s.recursive, s.root, w) && i < |w|
    ensures var p := w[i].path;
            && s.root < p && p in s.fs && p != [] && w[i].isDir == s.fs[p].Directory?
            && (Blocked(s.filter, w, p) <==> Visible(s, p).None?)
  {
    assert w[i] in w;
    ListedEntry(s.fs, s.root, w, w[i]);
    BlockedIsIgnored(s.fs, s.filter, s.recursive, s.root, w, w[i].path);
  }

  lemma {:induction false} CutIsBehind(t: Tree, s: Scope, w: seq<Entry>, i: nat)
    requires Covers(s.fs, s.recursive, s.root, w) && i < |w|
    ensures CutOff(Refusals(t, s.fs, s.recursive), s.filter, w, i) <==> Behind(t, s, w, w[i].path)
  {
    hide Blocked, Refused;
    var p := w[i].path;
    var no := Refusals(t, s.fs, s.recursive);
    Distinct(s, w);
    forall j | 0 <= j < |w|
      ensures Cuts(no, s.filter, w, j, i) <==> j < i && Hides(t, s, w[j].path, p)
    {
      EntryIs(s, w, j);
    }
    hide Covers, Cuts, Hides;
  }

  lemma {:induction false} Distinct(s: Scope, w: seq<Entry>)
    requires Covers(s.fs, s.recursive, s.root, w)
    ensures forall i, j :: 0 <= i < j < |w| ==> w[i].path != w[j].path
  {
  }

  lemma {:induction false} FoundIsVisible(t: Tree, s: Scope, w: seq<Entry>, p: Path)
    requires Covers(s.fs, s.recursive, s.root, w)
    ensures FoundPath(Refusals(t, s.fs, s.recursive), s.filter, w, p)
       <==> Visible(s, p).Some? && !Refused(t, s.fs, s.recursive, p) && !Behind(t, s, w, p)
  {
    hide Covers, Blocked, Behind, CutOff, Refused;
    var no := Refusals(t, s.fs, s.recursive);
    forall i | 0 <= i < |w| && w[i].path == p
      ensures Found(no, s.filter, w, i)
              <==> Visible(s, p).Some? && !Refused(t, s.fs, s.recursive, p) && !Behind(t, s, w, p)
    {
      EntryIs(s, w, i);
      CutIsBehind(t, s, w, i);
    }
    hide Found;
    if Visible(s, p).Some? { ListedSomewhere(s, w, p); }
  }

  lemma {:induction false} ListedSomewhere(s: Scope, w: seq<Entry>, p: Path)
    requires Covers(s.fs, s.recursive, s.root, w) && Visible(s, p).Some?
    ensures exists i :: 0 <= i < |w| && w[i].path == p
  {
    var e := Entry(p, s.fs[p].Directory?);
    assert e in w;
    var i :| 0 <= i < |w| && w[i] == e;
    assert w[i].path == p;
  }

  /** The first crawl of a root, recursive or not. */
  ghost function FirstCrawled(t: Tree, s: Scope, walk: seq<Entry>): (r: RootCrawl)
    requires Begun(t, s, walk)
  {
    WalkIsProper(t, s, walk);
    CrawlRoot(t, s.fs, s.filter, s.recursive, RootWalk(s.recursive, s.root, walk))
  }

  lemma {:induction false} WalkIsProper(t: Tree, s: Scope, walk: seq<Entry>)
    requires Begun(t, s, walk)
    ensures var w := RootWalk(s.recursive, s.root, walk);
            Covers(s.fs, s.recursive, s.root, w) && forall i :: 0 <= i < |w| ==> w[i].path != []
  {
    var w := RootWalk(s.recursive, s.root, walk);
    RootWalkCovers(s.fs, s.recursive, s.root, walk);
    forall i | 0 <= i < |w|
      ensures w[i].path != []
    {
      EntryIs(s, w, i);
    }
  }

  /** What a first crawl leaves at every path: it is known if it was before, or if it is
      visible, can be added, and is not behind something visible that cannot. What is new
      has its kind, what was known keeps it, and a recursive crawl covers what it adds or
      takes over and nothing else, and asks to watch exactly the directories among that. */
  lemma {:induction false} FirstCrawlFinds(t: Tree, s: Scope, walk: seq<Entry>, p: Path)
    requires Begun(t, s, walk)
    ensures var added := && Visible(s, p).Some? && !Refused(t, s.fs, s.recursive, p)
                         && !Behind(t, s, RootWalk(s.recursive, s.root, walk), p);
            && LeftAt(t, FirstCrawled(t, s, walk).tree, s.fs, s.recursive, p, added)
            && WatchedAt(FirstCrawled(t, s, walk), s.recursive, p, added)
  {
    var w := RootWalk(s.recursive, s.root, walk);
    WalkIsProper(t, s, walk);
    StartsUnder(t, s, w);
    FoundIsVisible(t, s, w, p);
    hide Under, FoundPath, CrawlRoot, Behind, Visible, Refused, LeftAt, WatchedAt;
    CrawlAddsFound(t, s.fs, s.filter, s.recursive, s.root, Entry(s.root, true), w, p);
  }

  lemma {:induction false} StartsUnder(t: Tree, s: Scope, w: seq<Entry>)
    requires Forest(t) && s.root in t.table && Covers(s.fs, s.recursive, s.root, w)
    requires forall i :: 0 <= i < |w| ==> w[i].path != []
    ensures Under(t, s.fs, s.root, Entry(s.root, true), w)
  {
    PreorderContinues(s.root, w);
    assert s.root[..|s.root|] == s.root;
  }

  /** Nothing visible is missed by a first crawl if and only if no visible file or directory
      that is new comes behind a visible entry that cannot be added. */
  lemma {:induction false} FirstCrawlCompleteIff(t: Tree, s: Scope, walk: seq<Entry>)
    requires Begun(t, s, walk)
    ensures (forall p :: VisibleEntry(s, p) ==> p in FirstCrawled(t, s, walk).tree.table)
       <==> (forall p :: VisibleEntry(s, p) && p !in t.table ==> !Behind(t, s, RootWalk(s.recursive, s.root, walk), p))
  {
    hide Begun, FirstCrawled, Behind;
    forall p | VisibleEntry(s, p)
      ensures p in FirstCrawled(t, s, walk).tree.table
              <==> p in t.table || !Behind(t, s, RootWalk(s.recursive, s.root, walk), p)
    {
      FirstCrawlFinds(t, s, walk, p);
    }
  }
}
