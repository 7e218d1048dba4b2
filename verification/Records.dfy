/** The parser for a buffer of directory-change records (src/windows.rs,
    `handle_records`). A record is three 32-bit numbers (distance to the next record,
    action, name length in bytes) and a name in 16-bit units, all little-endian. */
module Records {
  import opened Paths
  import opened Events
  import opened CrawlModel
  import Pending

  type U32 = x: int | 0 <= x < 0x1_0000_0000
  type Unit = x: int | 0 <= x < 0x1_0000

  const HEADER := 12

  const ACTION_ADDED: U32 := 1
  const ACTION_REMOVED: U32 := 2
  const ACTION_MODIFIED: U32 := 3
  const ACTION_RENAMED_OLD_NAME: U32 := 4
  const ACTION_RENAMED_NEW_NAME: U32 := 5

  const USIZE_MAX := 0xFFFF_FFFF_FFFF_FFFF

  /** No slice is longer than half the address space. */
  const SLICE_MAX := 0x7FFF_FFFF_FFFF_FFFF

  datatype Record = Record(action: U32, name: seq<Unit>)

  // ------------------------------------------------------------------- layout

  function ReadU32(b: seq<Byte>): U32
    requires |b| == 4
  {
    (b[0] as int) + 0x100 * (b[1] as int) + 0x1_0000 * (b[2] as int) + 0x100_0000 * (b[3] as int)
  }

  function WriteU32(n: U32): (r: seq<Byte>)
    ensures |r| == 4
  {
    var high := n / 0x100;
    var higher := high / 0x100;
    [n % 0x100, high % 0x100, higher % 0x100, higher / 0x100]
  }

  /** Whole units only: an odd last byte is dropped. */
  function ReadUnits(b: seq<Byte>): (r: seq<Unit>)
    ensures |r| == |b| / 2
  {
    if |b| < 2 then [] else [(b[0] as int) + 0x100 * (b[1] as int)] + ReadUnits(b[2..])
  }

  function WriteUnits(name: seq<Unit>): (r: seq<Byte>)
    ensures |r| == 2 * |name|
  {
    if name == [] then [] else [name[0] % 0x100, name[0] / 0x100] + WriteUnits(name[1..])
  }

  function SaturatingAdd(a: nat, b: nat): nat {
    if a + b > USIZE_MAX then USIZE_MAX else a + b
  }

  function Least(a: nat, b: nat): nat {
    if a < b then a else b
  }

  /** The record at `offset`; a name that claims to go on past the buffer is cut. */
  function RecordAt(buf: seq<Byte>, offset: nat): Record
    requires offset + HEADER <= |buf| <= SLICE_MAX
  {
    var start := offset + HEADER;
    var end := Least(SaturatingAdd(start, ReadU32(buf[offset + 8..offset + 12])), |buf|);
    Record(ReadU32(buf[offset + 4..offset + 8]), ReadUnits(buf[start..end]))
  }

  function NextAt(buf: seq<Byte>, offset: nat): U32
    requires offset + HEADER <= |buf|
  {
    ReadU32(buf[offset..offset + 4])
  }

  /** All records found by following the chain from `offset`, whatever the bytes are. */
  function Chain(buf: seq<Byte>, offset: nat): (r: seq<Record>)
    requires |buf| <= SLICE_MAX
    ensures r == [] || offset + |r| < |buf|
    decreases |buf| - offset
  {
    if offset + HEADER > |buf| then []
    else
      var next := NextAt(buf, offset);
      [RecordAt(buf, offset)] + (if next == 0 then [] else Chain(buf, offset + next))
  }

  // ----------------------------------------------------------- what is reported

  /** What a record is reported as: anything that adds or removes a name may concern a
      whole directory. */
  function Notice(filter: Filter, target: seq<Unit> -> Path, r: Record): seq<Pending.Op> {
    var path := target(r.name);
    if filter(path, None) then []
    else if r.action in {ACTION_ADDED, ACTION_REMOVED, ACTION_RENAMED_OLD_NAME, ACTION_RENAMED_NEW_NAME} then
      [Pending.Watcher(path, Pending.NO_FLAGS.(recursiveCrawl := true))]
    else if r.action == ACTION_MODIFIED then [Pending.Watcher(path, Pending.NO_FLAGS)]
    else []
  }

  function Notices(filter: Filter, target: seq<Unit> -> Path, rs: seq<Record>): seq<Pending.Op> {
    if rs == [] then [] else Notice(filter, target, rs[0]) + Notices(filter, target, rs[1..])
  }

  /** Translates a buffer into pending changes. `target` joins the decoded name to the
      watched root. Every slice is in bounds and no sum of an offset overflows, for any bytes. */
  method HandleRecords(queue: Pending.PendingChanges, filter: Filter, target: seq<Unit> -> Path, buf: seq<Byte>)
    requires queue.Valid() && |buf| <= SLICE_MAX
    modifies queue
    ensures queue.Valid()
    ensures queue.Value() == Pending.Replay(old(queue.Value()), Notices(filter, target, Chain(buf, 0)))
  {
    hide Pending.Replay, Chain, Notices, Notice, RecordAt, NextAt;
    var offset: nat := 0;
    ghost var done: seq<Pending.Op> := [];
    ReplayNothing(queue.Value());
    while offset + HEADER <= |buf|
      invariant offset + HEADER <= USIZE_MAX && queue.Valid()
      invariant queue.Value() == Pending.Replay(old(queue.Value()), done)
      invariant done + Notices(filter, target, Chain(buf, offset)) == Notices(filter, target, Chain(buf, 0))
      decreases |buf| - offset
    {
      var action, name, nextEntry := ReadRecord(buf, offset);
      ghost var r := RecordAt(buf, offset);
      ghost var op := Notice(filter, target, r);
      HandleRecord(queue, filter, target, action, name);
      ReplayNotice(old(queue.Value()), done, op);
      NoticesFrom(filter, target, buf, offset, done);
      done := done + op;
      if nextEntry == 0 {
        return;
      }
      offset := offset + nextEntry;
    }
    NoticesEnd(filter, target, buf, offset, done);
  }

  /** Adds what one record says, if anything, to the queue. */
  method HandleRecord(queue: Pending.PendingChanges, filter: Filter, target: seq<Unit> -> Path,
                      action: U32, name: seq<Unit>)
    requires queue.Valid()
    modifies queue
    ensures queue.Valid()
    ensures var op := Notice(filter, target, Record(action, name));
            && |op| <= 1 && (op != [] ==> op[0].Watcher?)
            && queue.Value() == if op == [] then old(queue.Value()) else Added(old(queue.Value()), op[0])
  {
    var path := target(name);
    if !filter(path, None) {
      if action == ACTION_ADDED || action == ACTION_REMOVED || action == ACTION_RENAMED_OLD_NAME
          || action == ACTION_RENAMED_NEW_NAME {
        queue.AddWatcher(path, Pending.NO_FLAGS.(recursiveCrawl := true));
      } else if action == ACTION_MODIFIED {
        queue.AddWatcher(path, Pending.NO_FLAGS);
      }
    }
  }

  /** The queue with one notice more. */
  function Added(q: Pending.Queue, op: Pending.Op): Pending.Queue
    requires op.Watcher?
  {
    q.Add(Pending.PendingChange(op.path, op.flags.(originWatcher := true)))
  }

  /** Reads the header and the name of one record. */
  method ReadRecord(buf: seq<Byte>, offset: nat) returns (action: U32, name: seq<Unit>, nextEntry: U32)
    requires offset + HEADER <= |buf| <= SLICE_MAX
    ensures Record(action, name) == RecordAt(buf, offset) && nextEntry == NextAt(buf, offset)
  {
    hide ReadUnits, ReadU32;
    var hdr := buf[offset..offset + HEADER];
    nextEntry := ReadU32(hdr[0..4]);
    action := ReadU32(hdr[4..8]);
    var nameLen := ReadU32(hdr[8..12]);
    var nameStart := offset + HEADER;
    var nameEnd := Least(SaturatingAdd(nameStart, nameLen), |buf|);
    name := ReadUnits(buf[nameStart..nameEnd]);
    assert hdr[0..4] == buf[offset..offset + 4] && hdr[4..8] == buf[offset + 4..offset + 8]
           && hdr[8..12] == buf[offset + 8..offset + 12];
  }

  lemma {:induction false} NoticesEnd(filter: Filter, target: seq<Unit> -> Path, buf: seq<Byte>, offset: nat,
                                      done: seq<Pending.Op>)
    requires |buf| <= SLICE_MAX
    ensures offset + HEADER > |buf| ==> done + Notices(filter, target, Chain(buf, offset)) == done
  {
  }

  lemma {:induction false} ReplayNothing(q: Pending.Queue)
    ensures Pending.Replay(q, []) == q
  {
  }

  lemma {:induction false} ReplayNotice(q: Pending.Queue, done: seq<Pending.Op>, op: seq<Pending.Op>)
    requires |op| <= 1 && (op != [] ==> op[0].Watcher?)
    ensures var before := Pending.Replay(q, done);
            Pending.Replay(q, done + op)
            == if op == [] then before else Added(before, op[0])
  {
    if op == [] {
      assert done + op == done;
    } else {
      assert (done + op)[..|done + op| - 1] == done;
    }
  }

  lemma {:induction false} NoticesFrom(filter: Filter, target: seq<Unit> -> Path, buf: seq<Byte>, offset: nat,
                                       done: seq<Pending.Op>)
    requires offset + HEADER <= |buf| <= SLICE_MAX
    ensures var next := NextAt(buf, offset);
            var here := done + Notice(filter, target, RecordAt(buf, offset));
            done + Notices(filter, target, Chain(buf, offset))
            == if next == 0 then here else here + Notices(filter, target, Chain(buf, offset + next))
  {
    hide RecordAt, NextAt, Notice;
    var next := NextAt(buf, offset);
    var r := RecordAt(buf, offset);
    var rest := if next == 0 then [] else Chain(buf, offset + next);
    assert Chain(buf, offset) == [r] + rest;
    hide Chain;
    NoticesCons(filter, target, r, rest);
  }

  lemma {:induction false} NoticesCons(filter: Filter, target: seq<Unit> -> Path, r: Record, rest: seq<Record>)
    ensures Notices(filter, target, [r] + rest) == Notice(filter, target, r) + Notices(filter, target, rest)
    ensures Notices(filter, target, []) == []
  {
    assert ([r] + rest)[1..] == rest;
  }

  // ---------------------------------------------------------------- round trip

  /** A record as a sender lays it out, with any padding after the name. */
  datatype Item = Item(record: Record, padding: seq<Byte>) {
    function Size(): nat {
      HEADER + 2 * |record.name| + |padding|
    }

    predicate Fits() {
      Size() < 0x1_0000_0000
    }

    function Encode(next: U32): (r: seq<Byte>)
      requires Fits()
      ensures |r| == Size()
    {
      WriteU32(next) + WriteU32(record.action) + WriteU32(2 * |record.name|) + WriteUnits(record.name) + padding
    }
  }

  ghost predicate AllFit(items: seq<Item>) {
    forall i :: 0 <= i < |items| ==> items[i].Fits()
  }

  /** The last record of a chain says 0 for the distance to the next. */
  function EncodeChain(items: seq<Item>): seq<Byte>
    requires AllFit(items)
  {
    if items == [] then []
    else if |items| == 1 then items[0].Encode(0)
    else items[0].Encode(items[0].Size()) + EncodeChain(items[1..])
  }

  function RecordsOf(items: seq<Item>): seq<Record> {
    seq(|items|, i requires 0 <= i < |items| => items[i].record)
  }

  lemma {:induction false} U32RoundTrip(n: U32)
    ensures ReadU32(WriteU32(n)) == n
  {
  }

  lemma {:induction false} UnitsRoundTrip(name: seq<Unit>)
    ensures ReadUnits(WriteUnits(name)) == name
  {
    if name != [] {
      assert WriteUnits(name)[2..] == WriteUnits(name[1..]);
      UnitsRoundTrip(name[1..]);
    }
  }

  /** One encoded record is read back wherever it stands. */
  lemma {:induction false} RecordRoundTrip(buf: seq<Byte>, offset: nat, item: Item, next: U32)
    requires item.Fits() && offset + item.Size() <= |buf| <= SLICE_MAX
    requires buf[offset..offset + item.Size()] == item.Encode(next)
    ensures RecordAt(buf, offset) == item.record && NextAt(buf, offset) == next
  {
    var e := item.Encode(next);
    EncodedFields(item, next);
    hide ReadU32, ReadUnits, Item.Encode;
    Within(buf, offset, e, 0, 4);
    Within(buf, offset, e, 4, 8);
    Within(buf, offset, e, 8, 12);
    Within(buf, offset, e, 12, 12 + 2 * |item.record.name|);
  }

  lemma {:induction false} EncodedFields(item: Item, next: U32)
    requires item.Fits()
    ensures var e := item.Encode(next); var n := 2 * |item.record.name|;
            && ReadU32(e[0..4]) == next && ReadU32(e[4..8]) == item.record.action && ReadU32(e[8..12]) == n
            && 12 + n <= |e| && ReadUnits(e[12..12 + n]) == item.record.name
  {
    var e := item.Encode(next);
    var n := 2 * |item.record.name|;
    U32RoundTrip(next);
    U32RoundTrip(item.record.action);
    U32RoundTrip(n);
    UnitsRoundTrip(item.record.name);
    hide WriteU32, ReadU32, ReadUnits, WriteUnits;
    assert e[0..4] == WriteU32(next);
    assert e[4..8] == WriteU32(item.record.action);
    assert e[8..12] == WriteU32(n);
    assert e[12..12 + n] == WriteUnits(item.record.name);
  }

  lemma {:induction false} Within(buf: seq<Byte>, offset: nat, e: seq<Byte>, i: nat, j: nat)
    requires offset + |e| <= |buf| && buf[offset..offset + |e|] == e && i <= j <= |e|
    ensures buf[offset + i..offset + j] == e[i..j]
  {
    assert forall k :: 0 <= k < |e| ==> buf[offset + k] == e[k] by {
      forall k | 0 <= k < |e|
        ensures buf[offset + k] == e[k]
      {
        assert buf[offset..offset + |e|][k] == buf[offset + k];
      }
    }
  }

  /** The parser inverts the layout: from a buffer that holds a chain, whatever pads the
      names and whatever follows the chain, it recovers the records in order. */
  lemma {:induction false} ChainRoundTrip(before: seq<Byte>, items: seq<Item>, rest: seq<Byte>)
    requires AllFit(items) && items != []
    requires |before + EncodeChain(items) + rest| <= SLICE_MAX
    ensures Chain(before + EncodeChain(items) + rest, |before|) == RecordsOf(items)
    decreases |items|
  {
    hide Chain, EncodeChain, RecordAt, NextAt;
    var item := items[0];
    assert item.Fits();
    if |items| == 1 {
      EncodedHead(before, items, rest);
    } else {
      EncodedHead(before, items, rest);
      var e := item.Encode(item.Size());
      ChainRoundTrip(before + e, items[1..], rest);
      assert |before + e| == |before| + item.Size();
    }
    assert RecordsOf(items) == [item.record] + RecordsOf(items[1..]);
  }

  /** The first record of an encoded chain is read, and the rest is where it says. */
  lemma {:induction false} EncodedHead(before: seq<Byte>, items: seq<Item>, rest: seq<Byte>)
    requires AllFit(items) && items != []
    requires |before + EncodeChain(items) + rest| <= SLICE_MAX
    ensures var buf := before + EncodeChain(items) + rest; var item := items[0];
            if |items| == 1 then Chain(buf, |before|) == [item.record]
            else
              && buf == (before + item.Encode(item.Size())) + EncodeChain(items[1..]) + rest
              && Chain(buf, |before|) == [item.record] + Chain(buf, |before| + item.Size())
  {
    hide RecordAt, NextAt, ReadU32, WriteU32, ReadUnits, WriteUnits;
    var buf := before + EncodeChain(items) + rest;
    var item := items[0];
    var next := if |items| == 1 then 0 else item.Size();
    var e := item.Encode(next);
    var tail := if |items| == 1 then rest else EncodeChain(items[1..]) + rest;
    assert buf == before + e + tail;
    assert buf[|before|..|before| + |e|] == e;
    RecordRoundTrip(buf, |before|, item, next);
  }

  // ------------------------------------------------- what a whole buffer reports

  predicate Structural(action: U32) {
    action in {ACTION_ADDED, ACTION_REMOVED, ACTION_RENAMED_OLD_NAME, ACTION_RENAMED_NEW_NAME}
  }

  /** `r` is about `p`, which is not ignored, and is of a known kind. */
  ghost predicate About(filter: Filter, target: seq<Unit> -> Path, r: Record, p: Path) {
    target(r.name) == p && !filter(p, None) && (Structural(r.action) || r.action == ACTION_MODIFIED)
  }

  ghost predicate SomeAbout(filter: Filter, target: seq<Unit> -> Path, rs: seq<Record>, p: Path, structural: bool) {
    exists r :: r in rs && About(filter, target, r, p) && (structural ==> Structural(r.action))
  }

  lemma {:induction false} NoticesMembers(filter: Filter, target: seq<Unit> -> Path, rs: seq<Record>, op: Pending.Op)
    ensures op in Notices(filter, target, rs) <==> exists r :: r in rs && op in Notice(filter, target, r)
  {
    if rs != [] {
      NoticesMembers(filter, target, rs[1..], op);
      assert rs == [rs[0]] + rs[1..];
    }
  }

  lemma {:induction false} FlagsMembers(ops: seq<Pending.Op>, p: Path)
    requires forall op :: op in ops ==> op.Watcher?
    ensures Pending.FlagsFor(ops, p).recursiveCrawl
       <==> exists op: Pending.Op :: op in ops && op.path == p && op.flags.recursiveCrawl
  {
    if ops != [] {
      var init, last := ops[..|ops| - 1], ops[|ops| - 1];
      FlagsMembers(init, p);
      assert ops == init + [last];
    }
  }

  /** An encoded buffer, handled on an empty queue, leaves exactly the paths it speaks of
      pending, and asks for a recursive crawl where a name was added or removed. */
  lemma {:induction false} BufferIsReported(filter: Filter, target: seq<Unit> -> Path, items: seq<Item>,
                                            rest: seq<Byte>, p: Path)
    requires AllFit(items) && items != [] && |EncodeChain(items) + rest| <= SLICE_MAX
    ensures var q := Pending.Replay(Pending.EMPTY, Notices(filter, target, Chain(EncodeChain(items) + rest, 0)));
            && !q.recrawl
            && (p in q.pending <==> SomeAbout(filter, target, RecordsOf(items), p, false))
            && (p in q.pending ==>
                (q.pending[p].recursiveCrawl <==> SomeAbout(filter, target, RecordsOf(items), p, true)))
  {
    hide Chain, EncodeChain, RecordsOf, Notices, SomeAbout;
    assert [] + EncodeChain(items) + rest == EncodeChain(items) + rest;
    ChainRoundTrip([], items, rest);
    RecordsAreReported(filter, target, RecordsOf(items), p);
  }

  lemma {:induction false} RecordsAreReported(filter: Filter, target: seq<Unit> -> Path, rs: seq<Record>, p: Path)
    ensures var q := Pending.Replay(Pending.EMPTY, Notices(filter, target, rs));
            && !q.recrawl
            && (p in q.pending <==> SomeAbout(filter, target, rs, p, false))
            && (p in q.pending ==> (q.pending[p].recursiveCrawl <==> SomeAbout(filter, target, rs, p, true)))
  {
    hide Notices, SomeAbout, Notice, Pending.Reported;
    var ops := Notices(filter, target, rs);
    forall op
      ensures op in ops ==> op.Watcher?
      ensures op in ops <==> SomeNotice(filter, target, rs, op)
    {
      NoticesMembers(filter, target, rs, op);
      forall r
        ensures op in Notice(filter, target, r) ==> op.Watcher?
      {
        NoticeIs(filter, target, r, op);
      }
    }
    Pending.QueueIsUnionMap(ops);
    FlagsMembers(ops, p);
    AboutOps(filter, target, rs, ops, p);
  }

  ghost predicate SomeNotice(filter: Filter, target: seq<Unit> -> Path, rs: seq<Record>, op: Pending.Op) {
    exists r :: r in rs && op in Notice(filter, target, r)
  }

  /** A record is reported once if it is about its path, and not at all otherwise. */
  lemma {:induction false} NoticeIs(filter: Filter, target: seq<Unit> -> Path, r: Record, op: Pending.Op)
    ensures op in Notice(filter, target, r)
       <==> About(filter, target, r, target(r.name))
            && op == Pending.Watcher(target(r.name), Pending.NO_FLAGS.(recursiveCrawl := Structural(r.action)))
  {
  }

  lemma {:induction false} AboutOps(filter: Filter, target: seq<Unit> -> Path, rs: seq<Record>, ops: seq<Pending.Op>,
                                    p: Path)
    requires forall op :: op in ops <==> SomeNotice(filter, target, rs, op)
    requires forall op :: op in ops ==> op.Watcher?
    ensures Pending.Reported(ops, p) <==> SomeAbout(filter, target, rs, p, false)
    ensures (exists op: Pending.Op :: op in ops && op.path == p && op.flags.recursiveCrawl)
            <==> SomeAbout(filter, target, rs, p, true)
  {
    hide Structural, Notice;
    forall r | r in rs && About(filter, target, r, p)
      ensures Pending.Watcher(p, Pending.NO_FLAGS.(recursiveCrawl := Structural(r.action))) in ops
    {
      var op := Pending.Watcher(p, Pending.NO_FLAGS.(recursiveCrawl := Structural(r.action)));
      NoticeIs(filter, target, r, op);
      assert SomeNotice(filter, target, rs, op);
    }
    forall op | op in ops && op.path == p
      ensures SomeAbout(filter, target, rs, p, op.flags.recursiveCrawl)
    {
      assert SomeNotice(filter, target, rs, op);
      var r :| r in rs && op in Notice(filter, target, r);
      NoticeIs(filter, target, r, op);
    }
    ReportedMembers(ops, p);
    assert forall structural :: SomeAbout(filter, target, rs, p, structural) ==>
           SomeAbout(filter, target, rs, p, false);
  }

  lemma {:induction false} ReportedMembers(ops: seq<Pending.Op>, p: Path)
    ensures Pending.Reported(ops, p) <==> exists op :: op in ops && op.Watcher? && op.path == p
  {
    if op :| op in ops && op.Watcher? && op.path == p {
      var i :| 0 <= i < |ops| && ops[i] == op;
    }
  }
}
