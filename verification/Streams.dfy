/** Streams of events of one path in which a deletion may be reported of a file that stays:
    what the tree emits if a sweep reports a node without marking it. */
module Streams {
  import opened Paths
  import opened Events

  /** Every event but a deletion leaves the path as it says, and none is a tempfile. */
  predicate Loose(was: bool, s: seq<EventType>, now: bool) {
    if s == [] then now == was
    else
      var init := s[..|s| - 1];
      match s[|s| - 1]
      case Create => now && Loose(was, init, false)
      case Modified => now && Loose(was, init, true)
      case Delete => Loose(was, init, true)
      case Tempfile => false
  }

  lemma {:induction false} LooseAppend(was: bool, s: seq<EventType>, mid: bool, t: seq<EventType>, now: bool)
    requires Loose(was, s, mid) && Loose(mid, t, now)
    ensures Loose(was, s + t, now)
  {
    if t == [] {
      assert s + t == s;
    } else {
      assert (s + t)[..|s + t| - 1] == s + t[..|t| - 1];
      LooseAppend(was, s, mid, t[..|t| - 1], !t[|t| - 1].Create?);
    }
  }

  lemma {:induction false} ReplayIsLoose(was: bool, s: seq<EventType>, now: bool)
    requires Replay(was, s) == Some(now) && Tempfile !in s
    ensures Loose(was, s, now)
  {
    if s != [] {
      assert s[|s| - 1] in s;
      ReplayIsLoose(was, s[..|s| - 1], Replay(was, s[..|s| - 1]).value);
    }
  }

  lemma {:induction false} LooseHasNoTempfile(was: bool, s: seq<EventType>, now: bool)
    requires Loose(was, s, now)
    ensures Tempfile !in s
  {
    if s != [] {
      LooseHasNoTempfile(was, s[..|s| - 1], !s[|s| - 1].Create?);
      assert s == s[..|s| - 1] + [s[|s| - 1]];
    }
  }

  // ------------------------------------------------------------------ going astray

  /** From `was` the stream does not lead to `now`: it says that the file went, though it
      is there, or goes on as if it had never said so. */
  predicate StrayFrom(was: bool, s: seq<EventType>, now: bool) {
    match Replay(was, s)
    case None => true
    case Some(there) => !there && now
  }

  predicate Stray(s: seq<EventType>, now: bool) {
    StrayFrom(true, s, now) && StrayFrom(false, s, now)
  }

  lemma {:induction false} LooseFromThere(t: seq<EventType>, now: bool)
    requires Loose(true, t, now) && t != []
    ensures Replay(false, t) == None
  {
    if |t| == 1 {
      assert t[..0] == [];
    } else {
      LooseFromThere(t[..|t| - 1], !t[|t| - 1].Create?);
    }
  }

  /** Nothing that happens later makes up for it. */
  lemma {:induction false} StrayStays(s: seq<EventType>, mid: bool, t: seq<EventType>, now: bool)
    requires Stray(s, mid) && Loose(mid, t, now)
    ensures Stray(s + t, now)
  {
    hide Loose;
    ReplayAppend(true, s, t);
    ReplayAppend(false, s, t);
    if t == [] {
      NothingIsLoose(mid, now);
      assert s + t == s;
    } else if mid {
      LooseFromThere(t, now);
    }
  }

  lemma {:induction false} NothingIsLoose(was: bool, now: bool)
    ensures Loose(was, [], now) ==> now == was
  {
  }

  lemma {:induction false} DeletedYetThere(s: seq<EventType>)
    ensures Stray(s + [Delete], true)
  {
    ReplayAppend(true, s, [Delete]);
    ReplayAppend(false, s, [Delete]);
    assert [Delete][..0] == [];
  }

  // ---------------------------------------------------- what the debouncer makes of it

  /** A deletion was reported, and since then nothing but modifications. */
  predicate Erased(s: seq<EventType>) {
    s != [] && (s[|s| - 1].Delete? || (s[|s| - 1].Modified? && Erased(s[..|s| - 1])))
  }

  predicate SaysThere(ty: EventType) {
    ty.Create? || ty.Modified?
  }

  /** What is stored for a path says that the file is gone exactly if its stream is erased. */
  lemma {:induction false} FoldOfLoose(was: bool, s: seq<EventType>, now: bool)
    requires s != [] && Loose(was, s, now)
    ensures SaysThere(Fold(s)) <==> !Erased(s)
    ensures !Erased(s) ==> now
  {
    if |s| > 1 { FoldOfLoose(was, s[..|s| - 1], !s[|s| - 1].Create?); }
  }

  lemma {:induction false} MergeOfLoose(was: bool, s: seq<EventType>, ty: EventType, now: bool)
    requires s != [] && Loose(was, s + [ty], now)
    ensures CanMerge(Fold(s), ty) <==> !(ty.Modified? && Erased(s))
  {
    assert (s + [ty])[..|s|] == s;
    FoldOfLoose(was, s, !ty.Create?);
    if ty.Create? { LooseEnds(was, s); }
  }

  lemma {:induction false} LooseEnds(was: bool, s: seq<EventType>)
    requires s != [] && Loose(was, s, false)
    ensures s[|s| - 1].Delete?
  {
  }

  lemma {:induction false} LoosePrefix(was: bool, s: seq<EventType>, t: seq<EventType>, now: bool)
    requires Loose(was, s + t, now)
    ensures Loose(was, s, true) || Loose(was, s, false)
  {
    if t == [] {
      assert s + t == s;
    } else {
      assert (s + t)[..|s + t| - 1] == s + t[..|t| - 1];
      LoosePrefix(was, s, t[..|t| - 1], !t[|t| - 1].Create?);
    }
  }

  /** The arm "this should be impossible" is reached exactly by a modification of a path
      whose last creation or deletion, as far as the debouncer knows, was a deletion. */
  lemma {:induction false} ArmOfLoose(h: seq<Event>, k: nat, was: bool, now: bool)
    requires k < |h| && Loose(was, At(h, h[k].path), now)
    ensures MergesAt(h, k) <==> !(h[k].ty.Modified? && Erased(At(h[..k], h[k].path)))
  {
    hide Loose, Erased, Fold, At;
    var init, e, later := h[..k], h[k], h[k + 1..];
    var s := At(init, e.path);
    assert h == init + ([e] + later);
    AtAppend(init, [e] + later, e.path);
    AtAppend([e], later, e.path);
    AtOne(e, e.path);
    assert At(h, e.path) == (s + [e.ty]) + At(later, e.path);
    LoosePrefix(was, s + [e.ty], At(later, e.path), now);
    var es := Coalesce(init);
    var i := Find(es, e.path);
    StoredIsFold(init, e.path);
    if s == [] {
      NothingErased();
    } else if Loose(was, s + [e.ty], true) {
      MergeOfLoose(was, s, e.ty, true);
    } else {
      MergeOfLoose(was, s, e.ty, false);
    }
  }

  lemma {:induction false} NothingErased()
    ensures !Erased([])
  {
  }

  lemma {:induction false} StoredIsFold(h: seq<Event>, p: Path)
    ensures var i := Find(Coalesce(h), p);
            && (i.Some? <==> At(h, p) != [])
            && (i.Some? ==> Coalesce(h)[i.value].ty == Fold(At(h, p)))
  {
    hide Coalesce, Fold, At, FirstSeen;
    var es := Coalesce(h);
    CoalesceShape(h);
    AtEmpty(h, p);
    FirstSeenMembers(PathsOf(h));
    PathsAre(es);
    if At(h, p) != [] { assert p in PathsOf(es); }
  }

  // ------------------------------------------------------------ any stream whatever

  lemma {:induction false} MergesNet(was: bool, there: bool, ty: EventType)
    ensures CanMerge(Net(was, there), ty) <==> ty.Delete? || (ty.Create? && !there) || (ty.Modified? && there)
    ensures !CanMerge(Net(was, there), ty) ==> Merge(Net(was, there), ty) == Net(was, there)
  {
  }

  lemma {:induction false} ArmKeeps(es: seq<Event>, e: Event)
    requires var i := Find(es, e.path); i.Some? && Merge(es[i.value].ty, e.ty) == es[i.value].ty
    ensures AddEvent(es, e) == es
  {
    hide Find, Merge;
    var i := Find(es, e.path);
    assert es[i.value] == Event(e.path, es[i.value].ty);
  }

  /** Whatever is fed into the debouncer: it holds the net change that the path's stream
      stands for, and its impossible arm is reached exactly by a creation of what is there, a
      modification of what is not, or a tempfile, of a path that it holds already; then what
      it holds stays as it is. */
  lemma {:induction false} StoredIs(h: seq<Event>, k: nat)
    requires k < |h|
    ensures var s, ty := At(h[..k], h[k].path), h[k].ty;
            && Find(Coalesce(h[..k]), h[k].path).None? == (s == [])
            && (s != [] ==> Coalesce(h[..k])[Find(Coalesce(h[..k]), h[k].path).value].ty == Net(WasThere(s), There(s)))
            && (MergesAt(h, k)
                <==> s == [] || ty.Delete? || (ty.Create? && !There(s)) || (ty.Modified? && There(s)))
            && (!MergesAt(h, k) ==> Coalesce(h[..k + 1]) == Coalesce(h[..k]))
  {
    var init, e := h[..k], h[k];
    var s := At(init, e.path);
    assert MergesAt(h, k) <==>
             var i := Find(Coalesce(init), e.path);
               i.Some? ==> CanMerge(Coalesce(init)[i.value].ty, e.ty);
    hide At, Fold, There, WasThere, Find, Coalesce, Merge, CanMerge, Net, MergesAt, AddEvent;
    StoredIsFold(init, e.path);
    assert h[..k + 1] == init + [e];
    CoalesceNext(init, e);
    if s != [] {
      FoldIs(s);
      MergesNet(WasThere(s), There(s), e.ty);
      if !MergesAt(h, k) { ArmKeeps(Coalesce(init), e); }
    }
  }
}
