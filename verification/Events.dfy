/** File events and the debouncer that merges them (src/events.rs). */
module Events {
  import opened Paths

  datatype Option<+T> = None | Some(value: T)

  datatype EventType = Create | Delete | Modified | Tempfile

  datatype Event = Event(path: Path, ty: EventType)

  // -------------------------------------------------------- the merge table

  /** True unless merging ends in the arm that logs "this should be impossible". */
  predicate CanMerge(stored: EventType, next: EventType) {
    match (stored, next)
    case (_, Delete) => true
    case (Delete, Create) => true
    case (Tempfile, Create) => true
    case (Create, Modified) => true
    case (Modified, Modified) => true
    case _ => false
  }

  function Merge(stored: EventType, next: EventType): EventType {
    match (stored, next)
    case (Create, Delete) => Tempfile
    case (_, Delete) => Delete
    case (Delete, Create) => Modified
    case (Tempfile, Create) => Create
    case _ => stored
  }

  // ------------------------------------------ coalescing a history, as a value

  function Find(es: seq<Event>, p: Path): (r: Option<nat>)
    ensures r.Some? ==> r.value < |es| && es[r.value].path == p
    ensures r.None? ==> forall i :: 0 <= i < |es| ==> es[i].path != p
  {
    if es == [] then None
    else if es[|es| - 1].path == p then Some(|es| - 1)
    else Find(es[..|es| - 1], p)
  }

  function AddEvent(es: seq<Event>, e: Event): seq<Event> {
    var i := Find(es, e.path);
    if i.None? then es + [e] else es[i.value := Event(e.path, Merge(es[i.value].ty, e.ty))]
  }

  function Coalesce(history: seq<Event>): seq<Event> {
    if history == [] then []
    else AddEvent(Coalesce(history[..|history| - 1]), history[|history| - 1])
  }

  /** True if feeding `history` never reaches the error arm. */
  ghost predicate AlwaysMerges(history: seq<Event>) {
    forall k :: 0 <= k < |history| ==> MergesAt(history, k)
  }

  ghost predicate MergesAt(history: seq<Event>, k: nat)
    requires k < |history|
  {
    var es := Coalesce(history[..k]);
    var i := Find(es, history[k].path);
    i.Some? ==> CanMerge(es[i.value].ty, history[k].ty)
  }

  // -------------------------------------------------------------- the object

  lemma {:induction false} CoalesceNext(h: seq<Event>, e: Event)
    ensures (h + [e])[..|h|] == h && Coalesce(h + [e]) == AddEvent(Coalesce(h), e)
  {
    assert (h + [e])[..|h|] == h;
  }

  /** The table finds every path's entry, and each path has one. */
  ghost predicate Indexed(table: map<Path, nat>, events: seq<Event>) {
    && (forall p :: p in table ==> table[p] < |events| && events[table[p]].path == p)
    && (forall i :: 0 <= i < |events| ==> events[i].path in table && table[events[i].path] == i)
  }

  lemma {:induction false} IndexFinds(table: map<Path, nat>, events: seq<Event>, p: Path)
    requires Indexed(table, events)
    ensures p in table ==> table[p] < |events| && events[table[p]].path == p
    ensures Find(events, p) == if p in table then Some(table[p]) else None
  {
  }

  lemma {:induction false} IndexKept(table: map<Path, nat>, events: seq<Event>, e: Event)
    requires Indexed(table, events)
    ensures if e.path in table then table[e.path] < |events| && Indexed(table, events[table[e.path] := e])
            else Indexed(table[e.path := |events|], events + [e])
  {
  }

  class EventDebouncer {
    var table: map<Path, nat>
    var events: seq<Event>
    /** Everything added since the last `Take`. */
    ghost var history: seq<Event>

    ghost predicate Valid()
      reads this
    {
      Indexed(table, events) && events == Coalesce(history)
    }

    constructor ()
      ensures Valid() && history == []
    {
      table := map[];
      events := [];
      history := [];
    }

    /** `merged` is false exactly when the source logs an impossible merge. */
    method Add(path: Path, ty: EventType) returns (merged: bool)
      requires Valid()
      modifies this
      ensures Valid() && history == old(history) + [Event(path, ty)]
      ensures merged == MergesAt(history, |history| - 1)
    {
      hide Indexed, Find, Coalesce;
      merged := true;
      ghost var h := history;
      CoalesceNext(h, Event(path, ty));
      IndexFinds(table, events, path);
      if path in table {
        var i := table[path];
        var stored := events[i].ty;
        match (stored, ty) {
          case (Create, Delete) => events := events[i := Event(path, Tempfile)];
          case (_, Delete) => events := events[i := Event(path, Delete)];
          case (Delete, Create) => events := events[i := Event(path, Modified)];
          case (Tempfile, Create) => events := events[i := Event(path, Create)];
          case (Create, Modified) =>
          case (Modified, Modified) =>
          case _ => merged := false;
        }
        IndexKept(table, old(events), Event(path, Merge(stored, ty)));
        assert events == old(events)[i := Event(path, Merge(stored, ty))];
      } else {
        IndexKept(table, events, Event(path, ty));
        table := table[path := |events|];
        events := events + [Event(path, ty)];
      }
      history := history + [Event(path, ty)];
    }

    method Take() returns (batch: seq<Event>)
      requires Valid()
      modifies this
      ensures Valid() && history == [] && batch == Coalesce(old(history))
    {
      batch := events;
      table := map[];
      events := [];
      history := [];
    }

    method IsEmpty() returns (empty: bool)
      requires Valid()
      ensures empty == (Coalesce(history) == [])
    {
      empty := |events| == 0;
    }
  }

  // ------------------------------------------------- what a path went through

  /** The stream of event types of one path. */
  function At(history: seq<Event>, p: Path): seq<EventType> {
    if history == [] then []
    else
      var init := At(history[..|history| - 1], p);
      if history[|history| - 1].path == p then init + [history[|history| - 1].ty] else init
  }

  lemma {:induction false} AtAppend(h: seq<Event>, g: seq<Event>, p: Path)
    ensures At(h + g, p) == At(h, p) + At(g, p)
  {
    if g == [] {
      assert h + g == h;
    } else {
      var e := g[|g| - 1];
      assert (h + g)[..|h + g| - 1] == h + g[..|g| - 1];
      AtAppend(h, g[..|g| - 1], p);
    }
  }

  lemma {:induction false} AtOne(e: Event, p: Path)
    ensures At([e], p) == if e.path == p then [e.ty] else []
  {
    assert [e][..0] == [];
  }

  /** One event read as a transition of "the file is there". */
  function Next(there: bool, ty: EventType): Option<bool> {
    match ty
    case Create => if there then None else Some(true)
    case Delete => if there then Some(false) else None
    case Modified => if there then Some(true) else None
    case Tempfile => if there then None else Some(false)
  }

  /** Replays a stream; `None` if some event does not fit. */
  function Replay(there: bool, s: seq<EventType>): Option<bool> {
    if s == [] then Some(there)
    else
      var before := Replay(there, s[..|s| - 1]);
      if before.None? then None else Next(before.value, s[|s| - 1])
  }

  ghost predicate Legal(history: seq<Event>) {
    forall p :: LegalAt(history, p)
  }

  ghost predicate LegalAt(history: seq<Event>, p: Path) {
    Replay(true, At(history, p)).Some? || Replay(false, At(history, p)).Some?
  }

  /** The event that reports the difference between two moments. */
  function Net(was: bool, now: bool): EventType {
    if was then (if now then Modified else Delete) else (if now then Create else Tempfile)
  }

  function Fold(s: seq<EventType>): EventType
    requires s != []
  {
    if |s| == 1 then s[0] else Merge(Fold(s[..|s| - 1]), s[|s| - 1])
  }

  lemma {:induction false} ReplayAppend(b: bool, s: seq<EventType>, t: seq<EventType>)
    ensures Replay(b, s + t)
         == if Replay(b, s).None? then None else Replay(Replay(b, s).value, t)
  {
    if t == [] {
      assert s + t == s;
    } else {
      assert (s + t)[..|s + t| - 1] == s + t[..|t| - 1];
      ReplayAppend(b, s, t[..|t| - 1]);
    }
  }

  /** Folding a legal stream yields the net change. */
  lemma {:induction false} FoldIsNet(b: bool, s: seq<EventType>)
    requires s != [] && Replay(b, s).Some?
    ensures Fold(s) == Net(b, Replay(b, s).value)
  {
    if |s| == 1 {
      assert s[..0] == [];
    } else {
      FoldIsNet(b, s[..|s| - 1]);
    }
  }

  /** What any stream, legal or not, says about now: the last creation or deletion counts,
      and if there is none, whatever came first. */
  predicate There(s: seq<EventType>)
    requires s != []
  {
    match s[|s| - 1]
    case Create => true
    case Delete => false
    case _ => if |s| == 1 then s[0].Modified? else There(s[..|s| - 1])
  }

  /** What it says about before: the first event tells, unless later on a deletion comes when
      the file was gone already. */
  predicate WasThere(s: seq<EventType>)
    requires s != []
  {
    if |s| == 1 then s[0].Delete? || s[0].Modified?
    else WasThere(s[..|s| - 1]) || (s[|s| - 1].Delete? && !There(s[..|s| - 1]))
  }

  /** Folding any stream whatever yields the net change between the two. */
  lemma {:induction false} FoldIs(s: seq<EventType>)
    requires s != []
    ensures Fold(s) == Net(WasThere(s), There(s))
  {
    if |s| > 1 { FoldIs(s[..|s| - 1]); }
  }

  // ------------------------------------------------------------ the debouncer

  function PathsOf(es: seq<Event>): seq<Path> {
    seq(|es|, i requires 0 <= i < |es| => es[i].path)
  }

  /** The distinct elements in first-seen order. */
  function FirstSeen(s: seq<Path>): seq<Path> {
    if s == [] then []
    else
      var init, x := s[..|s| - 1], s[|s| - 1];
      if x in init then FirstSeen(init) else FirstSeen(init) + [x]
  }

  lemma {:induction false} FirstSeenMembers(s: seq<Path>)
    ensures forall p :: p in FirstSeen(s) <==> p in s
    ensures forall i, j :: 0 <= i < j < |FirstSeen(s)| ==> FirstSeen(s)[i] != FirstSeen(s)[j]
  {
    if s != [] {
      var init, x := s[..|s| - 1], s[|s| - 1];
      FirstSeenMembers(init);
      assert s == init + [x];
    }
  }

  lemma {:induction false} FirstSeenSnoc(s: seq<Path>, x: Path)
    ensures FirstSeen(s + [x]) == if x in s then FirstSeen(s) else FirstSeen(s) + [x]
  {
    assert (s + [x])[..|s|] == s;
  }

  lemma {:induction false} FirstSeenAbsorbs(s: seq<Path>, t: seq<Path>)
    ensures FirstSeen(s + FirstSeen(t)) == FirstSeen(s + t)
  {
    if t == [] {
      assert FirstSeen(t) == [];
    } else {
      hide FirstSeen;
      var init, x := t[..|t| - 1], t[|t| - 1];
      assert t == init + [x];
      FirstSeenAbsorbs(s, init);
      AbsorbOneMore(s, init, x);
    }
  }

  lemma {:induction false} AbsorbOneMore(s: seq<Path>, init: seq<Path>, x: Path)
    requires FirstSeen(s + FirstSeen(init)) == FirstSeen(s + init)
    ensures FirstSeen(s + FirstSeen(init + [x])) == FirstSeen(s + (init + [x]))
  {
    hide FirstSeen;
    var f := FirstSeen(init);
    FirstSeenMembers(init);
    FirstSeenSnoc(init, x);
    FirstSeenSnoc(s + init, x);
    assert s + (init + [x]) == (s + init) + [x];
    if x !in init {
      FirstSeenSnoc(s + f, x);
      assert s + (f + [x]) == (s + f) + [x];
    }
  }

  lemma {:induction false} AtEmpty(h: seq<Event>, p: Path)
    ensures At(h, p) == [] <==> p !in PathsOf(h)
  {
    if h != [] {
      var init := h[..|h| - 1];
      AtEmpty(init, p);
      assert PathsOf(h) == PathsOf(init) + [h[|h| - 1].path];
    }
  }

  /** What the debouncer holds: one entry per path, in first-seen order, folded. */
  lemma {:induction false} CoalesceShape(h: seq<Event>)
    ensures PathsOf(Coalesce(h)) == FirstSeen(PathsOf(h))
    ensures forall i :: 0 <= i < |Coalesce(h)| ==>
              At(h, Coalesce(h)[i].path) != [] && Coalesce(h)[i].ty == Fold(At(h, Coalesce(h)[i].path))
  {
    if h != [] {
      hide AddEvent, FirstSeen, Fold, At, PathsOf;
      var init, e := h[..|h| - 1], h[|h| - 1];
      assert h == init + [e];
      assert Coalesce(h) == AddEvent(Coalesce(init), e);
      CoalesceShape(init);
      hide Coalesce;
      CoalesceStep(init, e, Coalesce(init));
    } else {
      assert PathsOf(h) == [] && FirstSeen([]) == [];
    }
  }

  lemma {:induction false} CoalesceStep(init: seq<Event>, e: Event, es: seq<Event>)
    requires PathsOf(es) == FirstSeen(PathsOf(init))
    requires forall i :: 0 <= i < |es| ==> At(init, es[i].path) != [] && es[i].ty == Fold(At(init, es[i].path))
    ensures var h := init + [e]; var r := AddEvent(es, e);
            && PathsOf(r) == FirstSeen(PathsOf(h))
            && forall i :: 0 <= i < |r| ==> At(h, r[i].path) != [] && r[i].ty == Fold(At(h, r[i].path))
  {
    hide FirstSeen, Find, PathsOf, At, Fold;
    PathsSnoc(init, e);
    FirstSeenMembers(PathsOf(init));
    FirstSeenSnoc(PathsOf(init), e.path);
    PathsAre(es);
    AtEmpty(init, e.path);
    var r := AddEvent(es, e);
    var i := Find(es, e.path);
    if i.Some? {
      AddedInPlace(es, i.value, Merge(es[i.value].ty, e.ty));
      FoldSnoc(At(init, e.path), e.ty);
    } else {
      PathsSnoc(es, e);
      FoldOne(e.ty);
    }
    forall k | 0 <= k < |r|
      ensures At(init + [e], r[k].path) != [] && r[k].ty == Fold(At(init + [e], r[k].path))
    {
      AtSnoc(init, e, r[k].path);
    }
  }

  lemma {:induction false} PathsAre(es: seq<Event>)
    ensures |PathsOf(es)| == |es| && forall k :: 0 <= k < |es| ==> es[k].path == PathsOf(es)[k]
  {
  }

  lemma {:induction false} PathsSnoc(es: seq<Event>, e: Event)
    ensures PathsOf(es + [e]) == PathsOf(es) + [e.path]
  {
  }

  lemma {:induction false} AddedInPlace(es: seq<Event>, i: nat, ty: EventType)
    requires i < |es|
    ensures PathsOf(es[i := Event(es[i].path, ty)]) == PathsOf(es)
  {
  }

  lemma {:induction false} FoldSnoc(s: seq<EventType>, ty: EventType)
    requires s != []
    ensures Fold(s + [ty]) == Merge(Fold(s), ty)
  {
    assert (s + [ty])[..|s|] == s;
  }

  lemma {:induction false} FoldOne(ty: EventType)
    ensures Fold([] + [ty]) == ty
  {
    assert [] + [ty] == [ty];
  }

  lemma {:induction false} AtSnoc(h: seq<Event>, e: Event, p: Path)
    ensures At(h + [e], p) == if p == e.path then At(h, p) + [e.ty] else At(h, p)
  {
    assert (h + [e])[..|h|] == h;
  }

  lemma {:induction false} CoalesceAt(h: seq<Event>, p: Path)
    ensures At(Coalesce(h), p) == if At(h, p) == [] then [] else [Fold(At(h, p))]
  {
    var es := Coalesce(h);
    CoalesceShape(h);
    AtEmpty(h, p);
    FirstSeenMembers(PathsOf(h));
    AtEmpty(es, p);
    if At(h, p) != [] {
      var i :| 0 <= i < |es| && PathsOf(es)[i] == p;
      SingleEntry(es, i, p);
    }
  }

  lemma {:induction false} SingleEntry(es: seq<Event>, i: nat, p: Path)
    requires i < |es| && es[i].path == p
    requires forall j, k :: 0 <= j < k < |es| ==> PathsOf(es)[j] != PathsOf(es)[k]
    ensures At(es, p) == [es[i].ty]
  {
    var before, after := es[..i], es[i + 1..];
    assert es == before + ([es[i]] + after);
    AtAppend(before, [es[i]] + after, p);
    AtAppend([es[i]], after, p);
    AtOne(es[i], p);
    AtEmpty(before, p);
    AtEmpty(after, p);
    forall k | 0 <= k < |es| && k != i
      ensures es[k].path != p
    {
      assert PathsOf(es)[k] != PathsOf(es)[i];
    }
  }

  /** The reported event of every path is the net effect of its stream. */
  lemma {:induction false} NetEffect(h: seq<Event>, p: Path, was: bool, now: bool)
    requires Replay(was, At(h, p)) == Some(now)
    ensures At(Coalesce(h), p) == if At(h, p) == [] then [] else [Net(was, now)]
  {
    CoalesceAt(h, p);
    if At(h, p) != [] { FoldIsNet(was, At(h, p)); }
  }

  /** On a legal history the error arm is reached exactly by a tempfile that is fed
      for a path already stored, which only a consumer of delivered batches does. */
  lemma {:induction false} ErrorArmExactly(h: seq<Event>, k: nat)
    requires k < |h| && LegalAt(h, h[k].path)
    ensures MergesAt(h, k) <==> (h[k].ty == Tempfile ==> At(h[..k], h[k].path) == [])
  {
    var init, e := h[..k], h[k];
    CoalesceShape(init);
    AtEmpty(init, e.path);
    FirstSeenMembers(PathsOf(init));
    var es := Coalesce(init);
    var i := Find(es, e.path);
    if i.Some? {
      assert PathsOf(es)[i.value] == e.path;
      StepOfLegal(h, k);
    } else {
      assert forall j :: 0 <= j < |es| ==> PathsOf(es)[j] == es[j].path;
    }
  }

  lemma {:induction false} StepOfLegal(h: seq<Event>, k: nat)
    requires k < |h| && LegalAt(h, h[k].path) && At(h[..k], h[k].path) != []
    ensures CanMerge(Fold(At(h[..k], h[k].path)), h[k].ty) <==> h[k].ty != Tempfile
  {
    hide At, Replay, Fold;
    var init, e, later := h[..k], h[k], h[k + 1..];
    assert h == init + ([e] + later);
    AtAppend(init, [e] + later, e.path);
    AtAppend([e], later, e.path);
    AtOne(e, e.path);
    ReplayedStep(Replay(true, At(h, e.path)).Some?, At(init, e.path), e.ty, At(later, e.path));
  }

  /** Of a stream that replays, every event fits what was folded before it. */
  lemma {:induction false} ReplayedStep(b: bool, s: seq<EventType>, ty: EventType, rest: seq<EventType>)
    requires s != [] && Replay(b, s + ([ty] + rest)).Some?
    ensures CanMerge(Fold(s), ty) <==> ty != Tempfile
  {
    ReplayAppend(b, s, [ty] + rest);
    ReplayAppend(Replay(b, s).value, [ty], rest);
    FoldIsNet(b, s);
    assert [ty][..0] == [];
    hide Fold;
  }

  /** Histories the tree produces are legal and carry no tempfiles: they always merge. */
  lemma {:induction false} LegalAlwaysMerges(h: seq<Event>)
    requires Legal(h)
    requires forall i :: 0 <= i < |h| ==> h[i].ty != Tempfile
    ensures AlwaysMerges(h)
  {
    forall k | 0 <= k < |h|
      ensures MergesAt(h, k)
    {
      assert LegalAt(h, h[k].path);
      ErrorArmExactly(h, k);
    }
  }

  /** A debouncer's contents are determined by first-seen order and per-path folds. */
  lemma {:induction false} SameContents(h: seq<Event>, k: seq<Event>)
    requires FirstSeen(PathsOf(h)) == FirstSeen(PathsOf(k))
    requires forall p :: At(k, p) != [] ==> At(h, p) != [] && Fold(At(h, p)) == Fold(At(k, p))
    ensures Coalesce(h) == Coalesce(k)
  {
    CoalesceShape(h);
    CoalesceShape(k);
    var x, y := Coalesce(h), Coalesce(k);
    assert |x| == |PathsOf(x)| == |PathsOf(y)| == |y|;
    forall i | 0 <= i < |y|
      ensures x[i] == y[i]
    {
      assert x[i].path == PathsOf(x)[i] == PathsOf(y)[i] == y[i].path;
    }
  }

  /** Replacing the end of a history by its delivered batch changes nothing. */
  lemma {:induction false} BatchAbsorbs(h: seq<Event>, g: seq<Event>)
    requires Legal(h + g)
    ensures Coalesce(h + Coalesce(g)) == Coalesce(h + g)
    ensures Legal(h + Coalesce(g))
  {
    hide FirstSeen, Coalesce, Fold, At, LegalAt;
    var b := Coalesce(g);
    CoalesceShape(g);
    assert PathsOf(h + b) == PathsOf(h) + PathsOf(b);
    assert PathsOf(h + g) == PathsOf(h) + PathsOf(g);
    FirstSeenAbsorbs(PathsOf(h), PathsOf(g));
    forall p
      ensures At(h + g, p) != [] ==> At(h + b, p) != [] && Fold(At(h + b, p)) == Fold(At(h + g, p))
      ensures LegalAt(h + b, p)
    {
      BatchAbsorbsAt(h, g, p);
    }
    SameContents(h + b, h + g);
  }

  lemma {:induction false} BatchAbsorbsAt(h: seq<Event>, g: seq<Event>, p: Path)
    requires Legal(h + g)
    ensures At(h + g, p) != [] ==>
              At(h + Coalesce(g), p) != [] && Fold(At(h + Coalesce(g), p)) == Fold(At(h + g, p))
    ensures LegalAt(h + Coalesce(g), p)
  {
    AtAppend(h, g, p);
    AtAppend(h, Coalesce(g), p);
    CoalesceAt(g, p);
    assert LegalAt(h + g, p);
    var b := Replay(true, At(h + g, p)).Some?;
    var s, t := At(h, p), At(g, p);
    ReplayAppend(b, s, t);
    if t != [] {
      var mid := Replay(b, s).value;
      FoldIsNet(mid, t);
      ReplayAppend(b, s, [Fold(t)]);
      assert [Fold(t)][..0] == [];
      FoldIsNet(b, s + [Fold(t)]);
      FoldIsNet(b, s + t);
    }
  }

  function Flatten(batches: seq<seq<Event>>): seq<Event> {
    if batches == [] then [] else Flatten(batches[..|batches| - 1]) + batches[|batches| - 1]
  }

  /** The delivered batches when the history is cut by `take` after each piece. */
  function Delivered(pieces: seq<seq<Event>>): seq<Event> {
    if pieces == [] then []
    else Delivered(pieces[..|pieces| - 1]) + Coalesce(pieces[|pieces| - 1])
  }

  /** Where a history is cut into batches is invisible to a consumer that coalesces
      the delivered batches again. The tail `g` is still undelivered. */
  lemma {:induction false} BatchSplittingInvisible(pieces: seq<seq<Event>>, g: seq<Event>)
    requires Legal(Flatten(pieces) + g)
    ensures Coalesce(Delivered(pieces) + g) == Coalesce(Flatten(pieces) + g)
    ensures Legal(Delivered(pieces) + g)
    decreases |pieces|
  {
    if pieces != [] {
      var init, last := pieces[..|pieces| - 1], pieces[|pieces| - 1];
      assert Flatten(init) + (last + g) == Flatten(pieces) + g;
      BatchSplittingInvisible(init, last + g);
      var d := Delivered(init);
      assert d + (last + g) == (d + last) + g;
      assert Delivered(pieces) == d + Coalesce(last);
      MiddleBatchAbsorbs(d, last, g);
    }
  }

  lemma {:induction false} MiddleBatchAbsorbs(d: seq<Event>, last: seq<Event>, g: seq<Event>)
    requires Legal(d + last + g)
    ensures Coalesce(d + Coalesce(last) + g) == Coalesce(d + last + g)
    ensures Legal(d + Coalesce(last) + g)
  {
    LegalPrefix(d + last, g);
    BatchAbsorbs(d, last);
    CoalesceAppend(d + Coalesce(last), d + last, g);
    forall p
      ensures LegalAt(d + Coalesce(last) + g, p)
    {
      AtAppend(d + last, g, p);
      AtAppend(d + Coalesce(last), g, p);
      assert LegalAt(d + last + g, p);
      SameEnd(d, last, p, true);
      SameEnd(d, last, p, false);
      ReplayAppend(true, At(d + last, p), At(g, p));
      ReplayAppend(false, At(d + last, p), At(g, p));
      ReplayAppend(true, At(d + Coalesce(last), p), At(g, p));
      ReplayAppend(false, At(d + Coalesce(last), p), At(g, p));
    }
  }

  lemma {:induction false} SameEnd(d: seq<Event>, last: seq<Event>, p: Path, b: bool)
    ensures Replay(b, At(d + last, p)).Some? ==>
              Replay(b, At(d + Coalesce(last), p)) == Replay(b, At(d + last, p))
  {
    AtAppend(d, last, p);
    AtAppend(d, Coalesce(last), p);
    CoalesceAt(last, p);
    var s, t := At(d, p), At(last, p);
    ReplayAppend(b, s, t);
    if Replay(b, s + t).Some? && t != [] {
      FoldIsNet(Replay(b, s).value, t);
      ReplayAppend(b, s, [Fold(t)]);
      assert [Fold(t)][..0] == [];
    }
  }

  lemma {:induction false} LegalPrefix(h: seq<Event>, g: seq<Event>)
    requires Legal(h + g)
    ensures Legal(h)
  {
    forall p
      ensures LegalAt(h, p)
    {
      assert LegalAt(h + g, p);
      AtAppend(h, g, p);
      ReplayAppend(true, At(h, p), At(g, p));
      ReplayAppend(false, At(h, p), At(g, p));
    }
  }

  lemma {:induction false} CoalesceAppend(h: seq<Event>, k: seq<Event>, g: seq<Event>)
    requires Coalesce(h) == Coalesce(k)
    ensures Coalesce(h + g) == Coalesce(k + g)
  {
    if g == [] {
      assert h + g == h && k + g == k;
    } else {
      var init := g[..|g| - 1];
      CoalesceAppend(h, k, init);
      assert (h + g)[..|h + g| - 1] == h + init && (k + g)[..|k + g| - 1] == k + init;
    }
  }
}
