/** The queue of changed paths (src/pending.rs). */
module Pending {
  import opened Paths

  datatype Flags = Flags(recursiveCrawl: bool, nonRecursiveCrawl: bool, markRecursive: bool, originWatcher: bool)

  const NO_FLAGS := Flags(false, false, false, false)

  function Union(a: Flags, b: Flags): Flags {
    Flags(a.recursiveCrawl || b.recursiveCrawl, a.nonRecursiveCrawl || b.nonRecursiveCrawl,
          a.markRecursive || b.markRecursive, a.originWatcher || b.originWatcher)
  }

  datatype PendingChange = PendingChange(path: Path, flags: Flags)

  /** A later flag set is merged without its origin bit. */
  function Consolidate(stored: Flags, new_: Flags): Flags {
    Union(stored, new_.(originWatcher := false))
  }

  // --------------------------------------------------------- the queue's value

  datatype Queue = Queue(pending: map<Path, Flags>, recrawl: bool) {
    predicate IsEmpty() {
      pending == map[] && !recrawl
    }

    function Add(change: PendingChange): Queue {
      if recrawl then this
      else if change.path in pending then
        this.(pending := pending[change.path := Consolidate(pending[change.path], change.flags)])
      else this.(pending := pending[change.path := change.flags])
    }

    function Recrawl(): Queue {
      Queue(map[], true)
    }
  }

  const EMPTY := Queue(map[], false)

  // -------------------------------------------------------- sorting a drained list

  ghost predicate StrictlySorted(s: seq<PendingChange>) {
    forall i, j :: 0 <= i < j < |s| ==> Before(s[i].path, s[j].path)
  }

  /** `s` lists the map: every entry once, and nothing else. */
  ghost predicate ListingOf(s: seq<PendingChange>, pending: map<Path, Flags>) {
    && (forall i :: 0 <= i < |s| ==> s[i].path in pending && pending[s[i].path] == s[i].flags)
    && (forall p :: p in pending ==> PendingChange(p, pending[p]) in s)
  }

  function Insert(c: PendingChange, s: seq<PendingChange>): seq<PendingChange> {
    if s == [] || Before(c.path, s[0].path) then [c] + s else [s[0]] + Insert(c, s[1..])
  }

  function Sorted(s: seq<PendingChange>): seq<PendingChange> {
    if s == [] then [] else Insert(s[0], Sorted(s[1..]))
  }

  lemma {:induction false} InsertSorted(c: PendingChange, s: seq<PendingChange>)
    requires StrictlySorted(s) && forall i :: 0 <= i < |s| ==> s[i].path != c.path
    ensures StrictlySorted(Insert(c, s))
    ensures forall x :: x in Insert(c, s) <==> x == c || x in s
  {
    if s == [] {
    } else if Before(c.path, s[0].path) {
      forall j | 1 <= j < |s|
        ensures Before(c.path, s[j].path)
      {
        BeforeTransitive(c.path, s[0].path, s[j].path);
      }
    } else {
      BeforeTotal(c.path, s[0].path);
      BeforeTotal(s[0].path, c.path);
      InsertSorted(c, s[1..]);
      assert s == [s[0]] + s[1..];
      var r := Insert(c, s[1..]);
      forall j | 0 <= j < |r|
        ensures Before(s[0].path, r[j].path)
      {
        assert r[j] in r;
        if r[j] != c {
          var k :| 0 <= k < |s[1..]| && s[1..][k] == r[j];
        }
      }
    }
  }

  lemma {:induction false} SortedIsSorted(s: seq<PendingChange>)
    requires forall i, j :: 0 <= i < j < |s| ==> s[i].path != s[j].path
    ensures StrictlySorted(Sorted(s))
    ensures forall x :: x in Sorted(s) <==> x in s
  {
    if s != [] {
      SortedIsSorted(s[1..]);
      assert s == [s[0]] + s[1..];
      var r := Sorted(s[1..]);
      forall i | 0 <= i < |r|
        ensures r[i].path != s[0].path
      {
        assert r[i] in s[1..];
        var k :| 0 <= k < |s[1..]| && s[1..][k] == r[i];
        assert s[0].path != s[k + 1].path;
      }
      InsertSorted(s[0], r);
    }
  }

  /** A strictly sorted list is determined by its members. */
  lemma {:induction false} SortedUnique(s: seq<PendingChange>, t: seq<PendingChange>)
    requires StrictlySorted(s) && StrictlySorted(t)
    requires forall x :: x in s <==> x in t
    ensures s == t
  {
    if s == [] {
      assert forall k :: 0 <= k < |t| ==> t[k] in t;
    } else {
      assert s[0] in t && t != [] && t[0] in s;
      FirstIsLeast(s, t[0]);
      FirstIsLeast(t, s[0]);
      BeforeTotal(s[0].path, t[0].path);
      forall x
        ensures x in s[1..] <==> x in t[1..]
      {
        MemberOfTail(s, x);
        MemberOfTail(t, x);
      }
      SortedUnique(s[1..], t[1..]);
      assert s == [s[0]] + s[1..] && t == [t[0]] + t[1..];
    }
  }

  lemma {:induction false} FirstIsLeast(s: seq<PendingChange>, x: PendingChange)
    requires StrictlySorted(s) && x in s
    ensures x == s[0] || Before(s[0].path, x.path)
  {
    var k :| 0 <= k < |s| && s[k] == x;
  }

  lemma {:induction false} MemberOfTail(s: seq<PendingChange>, x: PendingChange)
    requires s != [] && StrictlySorted(s)
    ensures x in s[1..] <==> x in s && x != s[0]
  {
    BeforeTotal(s[0].path, s[0].path);
    assert s == [s[0]] + s[1..];
    if x in s[1..] {
      var k :| 0 <= k < |s[1..]| && s[1..][k] == x;
      assert Before(s[0].path, s[k + 1].path);
    }
  }

  // ---------------------------------------------------------------- the object

  ghost predicate Indexed(pathSet: map<Path, nat>, changes: seq<PendingChange>) {
    && (forall p :: p in pathSet ==> pathSet[p] < |changes| && changes[pathSet[p]].path == p)
    && (forall i :: 0 <= i < |changes| ==> changes[i].path in pathSet && pathSet[changes[i].path] == i)
  }

  ghost function Contents(pathSet: map<Path, nat>, changes: seq<PendingChange>): map<Path, Flags>
    requires Indexed(pathSet, changes)
  {
    map p | p in pathSet :: changes[pathSet[p]].flags
  }

  lemma {:induction false} ContentsUpdated(pathSet: map<Path, nat>, changes: seq<PendingChange>, p: Path, flags: Flags)
    requires Indexed(pathSet, changes) && p in pathSet
    ensures pathSet[p] < |changes| && changes[pathSet[p]].path == p
            && Contents(pathSet, changes)[p] == changes[pathSet[p]].flags
    ensures var u := changes[pathSet[p] := PendingChange(p, flags)];
            Indexed(pathSet, u) && Contents(pathSet, u) == Contents(pathSet, changes)[p := flags]
  {
  }

  lemma {:induction false} ContentsExtended(pathSet: map<Path, nat>, changes: seq<PendingChange>, change: PendingChange)
    requires Indexed(pathSet, changes) && change.path !in pathSet
    ensures var m, u := pathSet[change.path := |changes|], changes + [change];
            Indexed(m, u) && Contents(m, u) == Contents(pathSet, changes)[change.path := change.flags]
  {
  }

  lemma {:induction false} ContentsKeys(pathSet: map<Path, nat>, changes: seq<PendingChange>)
    requires Indexed(pathSet, changes)
    ensures forall p :: p in Contents(pathSet, changes) <==> p in pathSet
    ensures Contents(map[], []) == map[]
  {
  }

  class PendingChanges {
    var pathSet: map<Path, nat>
    var changes: seq<PendingChange>
    var recrawl: bool

    /** Table and vector are in bijection; a raised flag means an empty vector. */
    ghost predicate Valid()
      reads this
    {
      Indexed(pathSet, changes) && (recrawl ==> changes == [])
    }

    ghost function Value(): Queue
      reads this
      requires Valid()
    {
      Queue(Contents(pathSet, changes), recrawl)
    }

    constructor ()
      ensures Valid() && Value() == EMPTY
    {
      pathSet := map[];
      changes := [];
      recrawl := false;
    }

    method IsEmpty() returns (empty: bool)
      requires Valid()
      ensures empty == Value().IsEmpty()
    {
      empty := |changes| == 0 && !recrawl;
      if |changes| != 0 {
        assert changes[0].path in Value().pending;
      }
    }

    method Recrawl()
      requires Valid()
      modifies this
      ensures Valid() && Value() == old(Value()).Recrawl()
    {
      pathSet := map[];
      changes := [];
      recrawl := true;
    }

    method Add(change: PendingChange)
      requires Valid()
      modifies this
      ensures Valid() && Value() == old(Value()).Add(change)
    {
      if recrawl {
        return;
      }
      hide Indexed, Contents;
      ContentsKeys(pathSet, changes);
      if change.path in pathSet {
        var i := pathSet[change.path];
        ContentsUpdated(pathSet, changes, change.path,
                        Consolidate(Contents(pathSet, changes)[change.path], change.flags));
        changes := changes[i := changes[i].(flags := Consolidate(changes[i].flags, change.flags))];
      } else {
        ContentsExtended(pathSet, changes, change);
        pathSet := pathSet[change.path := |changes|];
        changes := changes + [change];
      }
    }

    method AddWatcher(path: Path, flags: Flags)
      requires Valid()
      modifies this
      ensures Valid()
      ensures Value() == old(Value()).Add(PendingChange(path, flags.(originWatcher := true)))
    {
      Add(PendingChange(path, flags.(originWatcher := true)));
    }

    method TakeRecrawl() returns (was: bool)
      requires Valid()
      modifies this
      ensures Valid() && was == old(recrawl)
      ensures Value() == old(Value()).(recrawl := false)
    {
      was := recrawl;
      recrawl := false;
    }

    /** What `take` does under the lock: the two queues trade contents. */
    method Swap(other: PendingChanges)
      requires Valid() && other.Valid()
      modifies this, other
      ensures Valid() && other.Valid()
      ensures Value() == old(other.Value()) && other.Value() == old(Value())
    {
      pathSet, other.pathSet := other.pathSet, pathSet;
      changes, other.changes := other.changes, changes;
      recrawl, other.recrawl := other.recrawl, recrawl;
    }

    /** Empties the queue into the one strictly sorted listing of its contents. */
    method Drain() returns (drained: seq<PendingChange>)
      requires Valid()
      modifies this
      ensures Valid() && Value() == Queue(map[], old(recrawl))
      ensures StrictlySorted(drained) && ListingOf(drained, old(Value().pending))
    {
      ghost var before := Value().pending;
      pathSet := map[];
      changes := Sorted(changes);
      SortedIsSorted(old(changes));
      forall p | p in before
        ensures PendingChange(p, before[p]) in changes
      {
        assert old(changes)[old(pathSet)[p]] == PendingChange(p, before[p]);
      }
      forall i | 0 <= i < |changes|
        ensures changes[i].path in before && before[changes[i].path] == changes[i].flags
      {
        assert changes[i] in old(changes);
      }
      drained := changes;
      changes := [];
    }
  }

  /** Only one strictly sorted listing of a map exists. */
  lemma {:induction false} DrainUnique(s: seq<PendingChange>, t: seq<PendingChange>, pending: map<Path, Flags>)
    requires StrictlySorted(s) && ListingOf(s, pending)
    requires StrictlySorted(t) && ListingOf(t, pending)
    ensures s == t
  {
    forall x
      ensures x in s <==> x in t
    {
      if x in s { assert x == PendingChange(x.path, pending[x.path]); }
      if x in t { assert x == PendingChange(x.path, pending[x.path]); }
    }
    SortedUnique(s, t);
  }

  // ----------------------------------------------------- any run of operations

  datatype Op = Watcher(path: Path, flags: Flags) | Overflow

  function Replay(q: Queue, ops: seq<Op>): Queue {
    if ops == [] then q
    else
      var before := Replay(q, ops[..|ops| - 1]);
      match ops[|ops| - 1]
      case Watcher(p, f) => before.Add(PendingChange(p, f.(originWatcher := true)))
      case Overflow => before.Recrawl()
  }

  /** All flags ever reported for `p`. */
  function FlagsFor(ops: seq<Op>, p: Path): Flags {
    if ops == [] then NO_FLAGS
    else
      var before := FlagsFor(ops[..|ops| - 1], p);
      var op := ops[|ops| - 1];
      if op.Watcher? && op.path == p then Union(before, op.flags) else before
  }

  ghost predicate Reported(ops: seq<Op>, p: Path) {
    exists i :: 0 <= i < |ops| && ops[i].Watcher? && ops[i].path == p
  }

  /** After any run the queue is the flag-union map of what was reported, or it is
      empty with the recrawl flag up if there was an overflow. */
  lemma {:induction false} QueueIsUnionMap(ops: seq<Op>)
    ensures Overflow in ops ==> Replay(EMPTY, ops) == Queue(map[], true)
    ensures Overflow !in ops ==>
              var q := Replay(EMPTY, ops);
              && !q.recrawl
              && (forall p :: p in q.pending <==> Reported(ops, p))
              && (forall p :: p in q.pending ==> q.pending[p] == FlagsFor(ops, p).(originWatcher := true))
  {
    if ops != [] {
      var init, op := ops[..|ops| - 1], ops[|ops| - 1];
      assert ops == init + [op];
      QueueIsUnionMap(init);
      forall p
        ensures Reported(ops, p) <==> Reported(init, p) || (op.Watcher? && op.path == p)
      {
        if Reported(init, p) {
          var i :| 0 <= i < |init| && init[i].Watcher? && init[i].path == p;
          assert ops[i] == init[i];
        }
        if op.Watcher? && op.path == p { assert ops[|ops| - 1] == op; }
      }
      if Overflow !in ops && op.Watcher? && !Reported(init, op.path) {
        UnreportedHasNoFlags(init, op.path);
      }
    }
  }

  lemma {:induction false} UnreportedHasNoFlags(ops: seq<Op>, p: Path)
    requires !Reported(ops, p)
    ensures FlagsFor(ops, p) == NO_FLAGS
  {
    if ops != [] {
      var op := ops[|ops| - 1];
      assert !(op.Watcher? && op.path == p);
      var init := ops[..|ops| - 1];
      assert forall i :: 0 <= i < |init| ==> init[i] == ops[i];
      UnreportedHasNoFlags(init, p);
    }
  }

  // ------------------------------------------- changes with any flags, one by one

  function AddAll(q: Queue, changes: seq<PendingChange>): Queue {
    if changes == [] then q else AddAll(q, changes[..|changes| - 1]).Add(changes[|changes| - 1])
  }

  /** The flags of all these changes of `p` together. */
  function AllFlags(changes: seq<PendingChange>, p: Path): Flags {
    if changes == [] then NO_FLAGS
    else
      var before, c := AllFlags(changes[..|changes| - 1], p), changes[|changes| - 1];
      if c.path == p then Union(before, c.flags) else before
  }

  predicate About(changes: seq<PendingChange>, p: Path) {
    exists i :: 0 <= i < |changes| && changes[i].path == p
  }

  /** The first change of `p` came from a backend. */
  predicate FirstFromWatcher(changes: seq<PendingChange>, p: Path) {
    if changes == [] then false
    else
      var init, c := changes[..|changes| - 1], changes[|changes| - 1];
      if c.path == p && !About(init, p) then c.flags.originWatcher else FirstFromWatcher(init, p)
  }

  /** Changes of one path are merged into one entry with all their flags, but for the origin,
      which is that of the first. */
  lemma {:induction false} OriginIsOfFirst(changes: seq<PendingChange>, p: Path)
    ensures var q := AddAll(EMPTY, changes);
            && !q.recrawl && (p in q.pending <==> About(changes, p))
            && (p in q.pending ==>
                  q.pending[p] == AllFlags(changes, p).(originWatcher := FirstFromWatcher(changes, p)))
  {
    if changes != [] {
      var init, c := changes[..|changes| - 1], changes[|changes| - 1];
      OriginIsOfFirst(init, p);
      AboutSnoc(init, c, p);
      assert init + [c] == changes;
      if !About(init, p) { NotAbout(init, p); }
    }
  }

  lemma {:induction false} AboutSnoc(changes: seq<PendingChange>, c: PendingChange, p: Path)
    ensures About(changes + [c], p) <==> About(changes, p) || c.path == p
  {
    var all := changes + [c];
    if About(changes, p) {
      var i :| 0 <= i < |changes| && changes[i].path == p;
      assert all[i].path == p;
    }
    if c.path == p { assert all[|changes|].path == p; }
  }

  lemma {:induction false} NotAbout(changes: seq<PendingChange>, p: Path)
    requires !About(changes, p)
    ensures AllFlags(changes, p) == NO_FLAGS
  {
    if changes != [] {
      var init, c := changes[..|changes| - 1], changes[|changes| - 1];
      AboutSnoc(init, c, p);
      assert init + [c] == changes;
      NotAbout(init, p);
    }
  }
}
