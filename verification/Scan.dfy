/**
 The two ways a query reads a collection (scan.go): one pass over the whole file that picks out
 the collection's insert records, or one read per index entry. Their agreement on collections
 that are not dirty is what lets the engine choose by a ratio.
 */
module Scan {
  import opened Framing
  import opened Slots
  import opened Database
  import opened Live
  import opened Ticks
  import opened Recovery

  /** What a reader copies under the lock: the file and the index as they were. */
  datatype Snapshot = Snapshot(file: Bytes, offsets: seq<int>, lengths: seq<int>, size: nat, total: int, dirty: bool) {
    predicate Sound() {
      && |offsets| == |lengths| && FILE_HEADER <= size <= |file|
      && forall i | 0 <= i < |offsets| :: 0 <= offsets[i] && 0 <= lengths[i] && offsets[i] + lengths[i] <= size
    }

    /** The documents the index entries point at. */
    function Docs(): seq<Bytes>
      requires Sound()
    {
      seq(|offsets|, i requires 0 <= i < |offsets| => file[offsets[i]..offsets[i] + lengths[i]])
    }
  }

  /**
   The visitor: told every payload handed out so far, the last one being the present one, it says
   whether to go on. A callback that keeps state is such a function of what it has been given.
   */
  type Visitor = seq<Bytes> -> bool

  /** How many documents have been handed out when the visitor stops the scan or they run out. */
  ghost function Stop(docs: seq<Bytes>, go: Visitor, i: nat): (n: nat)
    requires i <= |docs|
    ensures i <= n <= |docs|
    decreases |docs| - i
  {
    if i == |docs| then i else if go(docs[..i + 1]) then Stop(docs, go, i + 1) else i + 1
  }

  /** The documents a scan hands out. */
  ghost function Visited(docs: seq<Bytes>, go: Visitor): seq<Bytes> {
    docs[..Stop(docs, go, 0)]
  }

  /** The documents from position i on are still to come, and so far the visitor has let all pass. */
  ghost predicate Visiting(docs: seq<Bytes>, go: Visitor, visits: seq<Bytes>, i: nat) {
    i <= |docs| && visits == docs[..i] && Stop(docs, go, i) == Stop(docs, go, 0)
  }

  lemma VisitEnds(docs: seq<Bytes>, go: Visitor, visits: seq<Bytes>)
    ensures Visiting(docs, go, [], 0)
    ensures Visiting(docs, go, visits, |docs|) ==> visits == Visited(docs, go)
  {
  }

  /** One more visit. */
  lemma VisitStep(docs: seq<Bytes>, go: Visitor, visits: seq<Bytes>, i: nat)
    requires i < |docs| && Visiting(docs, go, visits, i)
    ensures if go(visits + [docs[i]]) then Visiting(docs, go, visits + [docs[i]], i + 1)
            else Visited(docs, go) == visits + [docs[i]]
  {
    assert docs[..i + 1] == docs[..i] + [docs[i]];
  }

  /** Reads one payload per index entry, in index order. */
  method ScanStrided(snap: Snapshot, go: Visitor) returns (visits: seq<Bytes>)
    requires snap.Sound()
    ensures visits == Visited(snap.Docs(), go)
  {
    hide Visited, Stop, Visiting;
    ghost var docs := snap.Docs();
    visits := [];
    VisitEnds(docs, go, visits);
    for i := 0 to |snap.offsets|
      invariant Visiting(docs, go, visits, i)
    {
      var buf := snap.file[snap.offsets[i]..snap.offsets[i] + snap.lengths[i]];
      VisitStep(docs, go, visits, i);
      visits := visits + [buf];
      if !go(visits) {
        return;
      }
    }
    VisitEnds(docs, go, visits);
  }

  // ----- the insert records of a log -----

  /** The slots of the insert records a collection ever wrote, in log order. */
  ghost function InsertSlots(recs: seq<Record>, coll: Word16): seq<Slot> {
    if recs == [] then []
    else
      var n := |recs| - 1;
      InsertSlots(recs[..n], coll) +
      (if recs[n].op == OP_INSERT && recs[n].coll == coll
       then [Slot(FILE_HEADER + LogSize(recs[..n]) + RECORD_HEADER, recs[n].payload)] else [])
  }

  ghost function DocsOf(s: seq<Slot>): (docs: seq<Bytes>)
    ensures |docs| == |s|
  {
    seq(|s|, i requires 0 <= i < |s| => s[i].doc)
  }

  lemma InsertSlotsSnoc(recs: seq<Record>, r: Record, coll: Word16)
    ensures InsertSlots(recs + [r], coll) ==
            InsertSlots(recs, coll) +
            (if r.op == OP_INSERT && r.coll == coll
             then [Slot(FILE_HEADER + LogSize(recs) + RECORD_HEADER, r.payload)] else [])
  {
    assert (recs + [r])[..|recs|] == recs;
  }

  lemma {:induction false} InsertSlotsPrefix(recs: seq<Record>, coll: Word16, j: nat)
    requires j <= |recs|
    ensures InsertSlots(recs[..j], coll) <= InsertSlots(recs, coll)
    decreases |recs|
  {
    if j < |recs| {
      var n := |recs| - 1;
      InsertSlotsPrefix(recs[..n], coll, j);
      assert recs[..n][..j] == recs[..j];
    } else {
      assert recs[..j] == recs;
    }
  }

  // ----- the sequential pass -----

  /** The file of a snapshot is a header and a log of whole records up to the snapshot's size. */
  ghost predicate Backed(k: Codec, snap: Snapshot, header: Bytes, recs: seq<Record>) {
    && snap.Sound() && Fits(recs) && |header| == FILE_HEADER
    && snap.size == FILE_HEADER + LogSize(recs)
    && snap.file[..snap.size] == header + LogBytes(k.crc, recs)
  }

  /** Where record j starts. */
  ghost function OffsetOf(recs: seq<Record>, j: nat): nat
    requires j <= |recs|
  {
    FILE_HEADER + LogSize(recs[..j])
  }

  lemma SplitLog(recs: seq<Record>, j: nat)
    requires j < |recs|
    ensures recs == recs[..j] + ([recs[j]] + recs[j + 1..]) && recs[..j + 1] == recs[..j] + [recs[j]]
  {
  }

  /** The log around record j. */
  lemma LogAround(crc: Checksum, recs: seq<Record>, j: nat)
    requires j < |recs|
    ensures LogBytes(crc, recs) ==
            LogBytes(crc, recs[..j]) + (Encode(crc, recs[j]) + LogBytes(crc, recs[j + 1..]))
    ensures LogSize(recs[..j + 1]) == LogSize(recs[..j]) + recs[j].Size()
  {
    hide *;
    var r, rest := recs[j], recs[j + 1..];
    SplitLog(recs, j);
    LogConcat(crc, recs[..j], [r] + rest);
    LogConcat(crc, [r], rest);
    LogOne(crc, r);
    LogSnoc(crc, recs[..j], r);
  }

  /** Record j of the log, read at its offset. */
  lemma ReadRecord(k: Codec, snap: Snapshot, header: Bytes, recs: seq<Record>, j: nat)
    requires Backed(k, snap, header, recs) && j < |recs|
    ensures var off, r := OffsetOf(recs, j), recs[j];
            && off + RECORD_HEADER + |r.payload| == OffsetOf(recs, j + 1) <= snap.size
            && HeaderAt(snap.file, off).length == |r.payload|
            && HeaderAt(snap.file, off).op == r.op
            && HeaderAt(snap.file, off).coll == r.coll
            && PayloadAt(snap.file, off) == r.payload
  {
    hide LogBytes, LogSize, Encode, HeaderAt, PayloadAt;
    var r := recs[j];
    assert r in recs;
    LogAround(k.crc, recs, j);
    ReadFramed(k, snap.file, snap.size, header, LogBytes(k.crc, recs[..j]), r, LogBytes(k.crc, recs[j + 1..]));
  }

  lemma ReadFramed(k: Codec, file: Bytes, size: nat, header: Bytes, a: Bytes, r: Record, b: Bytes)
    requires |r.payload| <= MAX_PAYLOAD && size <= |file|
    requires file[..size] == header + (a + (Encode(k.crc, r) + b))
    ensures var off := |header| + |a|;
            && off + r.Size() <= size
            && HeaderAt(file, off).length == |r.payload|
            && HeaderAt(file, off).op == r.op
            && HeaderAt(file, off).coll == r.coll
            && PayloadAt(file, off) == r.payload
  {
    hide Encode, DecodeHeader;
    var e, tail := Encode(k.crc, r), file[size..];
    assert file == (header + a) + (e + (b + tail)) by {
      assert file == file[..size] + tail;
      FiveParts(header, a, e, b, tail);
    }
    FramedRecord(k, header + a, r, b + tail);
  }

  lemma FiveParts<T>(h: seq<T>, a: seq<T>, e: seq<T>, b: seq<T>, t: seq<T>)
    ensures (h + (a + (e + b))) + t == (h + a) + (e + (b + t))
  {
  }

  /** How many of the first j records are the collection's inserts. */
  ghost function CountOf(recs: seq<Record>, coll: Word16, j: nat): nat
    requires j <= |recs|
  {
    |InsertSlots(recs[..j], coll)|
  }

  lemma CountEnds(recs: seq<Record>, coll: Word16)
    ensures CountOf(recs, coll, 0) == 0 && OffsetOf(recs, 0) == FILE_HEADER
    ensures CountOf(recs, coll, |recs|) == |InsertSlots(recs, coll)|
  {
    assert recs[..0] == [] && recs[..|recs|] == recs;
  }

  /** The j-th record is the next document of the collection, or none of it. */
  lemma CountStep(recs: seq<Record>, coll: Word16, j: nat)
    requires j < |recs|
    ensures var i, docs := CountOf(recs, coll, j), DocsOf(InsertSlots(recs, coll));
            if recs[j].op == OP_INSERT && recs[j].coll == coll
            then i < |docs| && docs[i] == recs[j].payload && CountOf(recs, coll, j + 1) == i + 1
            else CountOf(recs, coll, j + 1) == i
  {
    hide InsertSlots, LogSize;
    SplitLog(recs, j);
    InsertSlotsSnoc(recs[..j], recs[j], coll);
    InsertSlotsPrefix(recs, coll, j + 1);
    var s, t := InsertSlots(recs, coll), InsertSlots(recs[..j + 1], coll);
    assert forall m | 0 <= m < |t| :: s[m] == t[m];
  }

  /**
   One pass over the file from the first record, visiting the payloads of the collection's insert
   records until the index count is reached, the visitor stops it or the snapshot ends.
   */
  method ScanSequential(snap: Snapshot, coll: Word16, go: Visitor,
                        ghost k: Codec, ghost header: Bytes, ghost recs: seq<Record>)
    returns (visits: seq<Bytes>, failed: bool)
    requires Backed(k, snap, header, recs)
    requires |InsertSlots(recs, coll)| == |snap.offsets|
    ensures !failed && visits == Visited(DocsOf(InsertSlots(recs, coll)), go)
  {
    assert snap.size <= |snap.file|;
    hide Backed, CountOf, OffsetOf, InsertSlots, HeaderAt, PayloadAt, Visited, Stop, Visiting;
    ghost var docs := DocsOf(InsertSlots(recs, coll));
    var n := |snap.offsets|;
    var i, off := 0, FILE_HEADER;
    ghost var j := 0;
    visits, failed := [], false;
    CountEnds(recs, coll);
    VisitEnds(docs, go, visits);
    while i < n
      invariant j <= |recs| && off == OffsetOf(recs, j) && i == CountOf(recs, coll, j) <= n
      invariant Visiting(docs, go, visits, i) && !failed
      decreases |recs| - j
    {
      ReadRecord(k, snap, header, recs, j);
      CountStep(recs, coll, j);
      if off + RECORD_HEADER > snap.size {
        assert false;
        return;
      }
      var h := HeaderAt(snap.file, off);
      var next := off + RECORD_HEADER + h.length;
      if next > snap.size {
        failed := true;
        return;
      }
      if h.coll == coll && h.op == OP_INSERT {
        var buf := PayloadAt(snap.file, off);
        VisitStep(docs, go, visits, i);
        visits := visits + [buf];
        if !go(visits) {
          return;
        }
        i := i + 1;
      }
      off := next;
      j := j + 1;
    }
    VisitEnds(docs, go, visits);
  }

  /**
   scanRecords: nothing for an empty collection, the sequential pass for a clean collection when
   the ratio favours it, one read per entry otherwise. The answer does not depend on the ratio.
   */
  method ScanRecords(snap: Snapshot, coll: Word16, go: Visitor, favoursSequential: bool,
                     ghost k: Codec, ghost header: Bytes, ghost recs: seq<Record>)
    returns (visits: seq<Bytes>, failed: bool)
    requires snap.Sound()
    requires !snap.dirty ==> Backed(k, snap, header, recs) && DocsOf(InsertSlots(recs, coll)) == snap.Docs()
    ensures !failed && visits == Visited(snap.Docs(), go)
  {
    if |snap.offsets| == 0 {
      VisitEnds(snap.Docs(), go, []);
      return [], false;
    }
    if !snap.dirty && snap.total > 0 && favoursSequential {
      visits, failed := ScanSequential(snap, coll, go, k, header, recs);
    } else {
      visits := ScanStrided(snap, go);
      failed := false;
    }
  }

  // ----- clean collections are their insert records -----

  /** A slot's payload is where the slot says it is. */
  ghost predicate InLog(k: Codec, recs: seq<Record>, x: Slot) {
    && FILE_HEADER <= x.off && x.off - FILE_HEADER + |x.doc| <= LogSize(recs)
    && LogBytes(k.crc, recs)[x.off - FILE_HEADER..x.off - FILE_HEADER + |x.doc|] == x.doc
  }

  ghost predicate AllInLog(k: Codec, recs: seq<Record>, s: seq<Slot>) {
    forall i | 0 <= i < |s| :: InLog(k, recs, s[i])
  }

  /** The append point is the end of the log and every index entry points into it. */
  ghost predicate PointsIntoLog(k: Codec, e: Effect) {
    && e.db.size == FILE_HEADER + LogSize(e.recs)
    && forall id | id in e.db.byID :: AllInLog(k, e.recs, e.db.byID[id].slots)
  }

  /** A collection that is not dirty is exactly the insert records the log holds for its id. */
  ghost predicate CleanAt(e: Effect, id: Word16) {
    if id in e.db.byID then !e.db.byID[id].dirty ==> e.db.byID[id].slots == InsertSlots(e.recs, id)
    else InsertSlots(e.recs, id) == []
  }

  ghost predicate CleanIsInserts(e: Effect) {
    e.db.size == FILE_HEADER + LogSize(e.recs) && forall id: Word16 :: CleanAt(e, id)
  }

  lemma InLogGrows(k: Codec, recs: seq<Record>, r: Record, x: Slot)
    requires InLog(k, recs, x)
    ensures InLog(k, recs + [r], x)
  {
    hide LogBytes, LogSize, Encode;
    LogSnoc(k.crc, recs, r);
    var a, b := LogBytes(k.crc, recs), Encode(k.crc, r);
    var lo := x.off - FILE_HEADER;
    assert (a + b)[lo..lo + |x.doc|] == a[lo..lo + |x.doc|];
  }

  lemma TailSlice<T>(a: seq<T>, b: seq<T>, i: nat, j: nat)
    requires i <= j <= |b|
    ensures (a + b)[|a| + i..|a| + j] == b[i..j]
  {
  }

  lemma EncodedPayload(crc: Checksum, r: Record)
    requires |r.payload| <= MAX_PAYLOAD
    ensures Encode(crc, r)[RECORD_HEADER..r.Size()] == r.payload
  {
    hide Encode, DecodeHeader;
    DecodeEncode(crc, r, []);
    assert Encode(crc, r) + [] == Encode(crc, r);
  }

  lemma NewSlotInLog(k: Codec, recs: seq<Record>, r: Record)
    requires |r.payload| <= MAX_PAYLOAD
    ensures InLog(k, recs + [r], Slot(FILE_HEADER + LogSize(recs) + RECORD_HEADER, r.payload))
  {
    hide LogBytes, LogSize, Encode;
    LogSnoc(k.crc, recs, r);
    EncodedPayload(k.crc, r);
    TailSlice(LogBytes(k.crc, recs), Encode(k.crc, r), RECORD_HEADER, r.Size());
  }

  lemma AllInLogGrows(k: Codec, recs: seq<Record>, r: Record, s: seq<Slot>)
    requires AllInLog(k, recs, s)
    ensures AllInLog(k, recs + [r], s)
  {
    forall i | 0 <= i < |s|
      ensures InLog(k, recs + [r], s[i])
    {
      InLogGrows(k, recs, r, s[i]);
    }
  }

  /** The touched collection after a step that appends record r. */
  lemma TouchedStaysInLog(k: Codec, e: Effect, t: Tick, r: Record)
    requires TickOk(k, e.db, t) && PointsIntoLog(k, e) && (t.Add? || t.Repoint? || t.Drop?)
    requires Ticked(k, e, t).recs == e.recs + [r] && |r.payload| <= MAX_PAYLOAD
    ensures AllInLog(k, e.recs + [r], Ticked(k, e, t).db.byID[t.coll].slots)
  {
    hide InLog, LogSize;
    AllInLogGrows(k, e.recs, r, e.db.byID[t.coll].slots);
    assert r == (e.recs + [r])[|e.recs|];
    NewSlotInLog(k, e.recs, r);
  }

  lemma TickPoints(k: Codec, e: Effect, t: Tick)
    requires TickOk(k, e.db, t) && PointsIntoLog(k, e)
    requires t.Index? || |t.payload| <= MAX_PAYLOAD
    ensures PointsIntoLog(k, Ticked(k, e, t))
  {
    hide AllInLog, LogSize, HasId, RemoveAt;
    var e' := Ticked(k, e, t);
    if !t.Index? {
      var r := e'.recs[|e.recs|];
      assert e'.recs == e.recs + [r];
      LogSnoc(k.crc, e.recs, r);
      forall id | id in e'.db.byID
        ensures AllInLog(k, e'.recs, e'.db.byID[id].slots)
      {
        if id == Touched(t) && !t.Lose? {
          TouchedPoints(k, e, t, r);
        } else {
          AllInLogGrows(k, e.recs, r, e.db.byID[id].slots);
        }
      }
    }
  }

  /** The collection a step is for, old, changed or new. */
  lemma TouchedPoints(k: Codec, e: Effect, t: Tick, r: Record)
    requires TickOk(k, e.db, t) && PointsIntoLog(k, e) && !t.Index? && !t.Lose? && |t.payload| <= MAX_PAYLOAD
    requires Ticked(k, e, t).recs == e.recs + [r]
    ensures AllInLog(k, e.recs + [r], Ticked(k, e, t).db.byID[Touched(t)].slots)
  {
    hide AllInLog, LogSize, HasId, RemoveAt, PointsIntoLog;
    if t.Catalog? {
      assert Ticked(k, e, t).db.byID[Touched(t)].slots == [];
      NoneInLog(k, e.recs + [r]);
    } else {
      assert r == (e.recs + [r])[|e.recs|];
      TouchedStaysInLog(k, e, t, r);
    }
  }

  lemma NoneInLog(k: Codec, recs: seq<Record>)
    ensures AllInLog(k, recs, [])
  {
  }

  lemma TickCleanAt(k: Codec, e: Effect, t: Tick, id: Word16)
    requires TickOk(k, e.db, t) && e.db.size == FILE_HEADER + LogSize(e.recs) && CleanAt(e, id)
    requires t.Catalog? ==> t.d.id !in e.db.byID
    ensures CleanAt(Ticked(k, e, t), id)
  {
    hide InsertSlots, LogSize, HasId, RemoveAt;
    if !t.Index? {
      var e' := Ticked(k, e, t);
      var r := e'.recs[|e.recs|];
      assert e'.recs == e.recs + [r];
      InsertSlotsSnoc(e.recs, r, id);
    }
  }

  lemma TickInserts(k: Codec, e: Effect, t: Tick)
    requires TickOk(k, e.db, t) && CleanIsInserts(e)
    requires t.Catalog? ==> t.d.id !in e.db.byID
    ensures CleanIsInserts(Ticked(k, e, t))
  {
    hide LogSize, HasId, RemoveAt, CleanAt;
    var e' := Ticked(k, e, t);
    if !t.Index? {
      LogSnoc(k.crc, e.recs, e'.recs[|e.recs|]);
    }
    forall id: Word16
      ensures CleanAt(e', id)
    {
      TickCleanAt(k, e, t, id);
    }
  }

  lemma {:induction false} TicksInserts(k: Codec, e: Effect, ts: seq<Tick>)
    requires TicksOk(k, e, ts) && CleanIsInserts(e) && CatalogOk(e.db)
    ensures CleanIsInserts(TickedAll(k, e, ts)) && CatalogOk(TickedAll(k, e, ts).db)
  {
    if ts != [] {
      var n := |ts| - 1;
      hide TickOk, Ticked, CleanIsInserts, CatalogOk;
      TicksInserts(k, e, ts[..n]);
      var e1 := TickedAll(k, e, ts[..n]);
      TickCatalogOk(k, e1, ts[n]);
      TickInserts(k, e1, ts[n]);
    }
  }

  /** Every payload a step writes is within the limit. */
  ghost predicate SmallTicks(ts: seq<Tick>) {
    forall t <- ts :: t.Index? || |t.payload| <= MAX_PAYLOAD
  }

  lemma {:induction false} TicksPoint(k: Codec, e: Effect, ts: seq<Tick>)
    requires TicksOk(k, e, ts) && PointsIntoLog(k, e) && SmallTicks(ts)
    ensures PointsIntoLog(k, TickedAll(k, e, ts))
  {
    if ts != [] {
      var n := |ts| - 1;
      assert ts[n] in ts && SmallTicks(ts[..n]);
      hide TickOk, Ticked, PointsIntoLog, SmallTicks;
      TicksPoint(k, e, ts[..n]);
      TickPoints(k, TickedAll(k, e, ts[..n]), ts[n]);
    }
  }

  /** The payloads of the steps are the payloads of the records they append. */
  lemma {:induction false} FittingTicksAreSmall(k: Codec, e: Effect, ts: seq<Tick>)
    requires TicksOk(k, e, ts) && Fits(TickedAll(k, e, ts).recs)
    ensures SmallTicks(ts)
  {
    if ts != [] {
      var n := |ts| - 1;
      var e1 := TickedAll(k, e, ts[..n]);
      var e2 := Ticked(k, e1, ts[n]);
      assert e1.recs <= e2.recs && (ts[n].Index? || e2.recs[|e1.recs|].payload == ts[n].payload);
      hide TickOk, Ticked;
      assert Fits(e1.recs) by {
        assert forall i | 0 <= i < |e1.recs| :: e1.recs[i] == e2.recs[i];
      }
      assert ts[n].Index? || e2.recs[|e1.recs|] in e2.recs;
      FittingTicksAreSmall(k, e, ts[..n]);
      assert ts == ts[..n] + [ts[n]];
    }
  }

  lemma StepFits(k: Codec, e: Effect, op: Op)
    requires Legal(k, e.db, op) && Fits(e.recs)
    ensures Fits(e.recs + Step(k, e.db, op).recs)
  {
    hide Step, Legal, Attempted, Whole;
    var a := Attempted(k, e.db, op);
    StepWritesWholeRecords(k, e.db, op);
    BatchFits(e.recs, a.op, a.coll, a.payloads, Whole(a.payloads, op.landed));
  }

  lemma {:induction false} RunFits(k: Codec, start: Effect, ops: seq<Op>)
    requires LegalRun(k, start, ops) && Fits(start.recs)
    ensures Fits(After(k, start, ops).recs)
  {
    if ops != [] {
      var n := |ops| - 1;
      hide Step, Legal, Fits;
      RunFits(k, start, ops[..n]);
      StepFits(k, After(k, start, ops[..n]), ops[n]);
    }
  }

  /** The snapshot of a collection over a file that begins with the header and the log. */
  ghost function SnapshotOf(e: Effect, id: Word16, file: Bytes): Snapshot
    requires id in e.db.byID
  {
    var s := e.db.byID[id].slots;
    Snapshot(file, seq(|s|, i requires 0 <= i < |s| => s[i].off), seq(|s|, i requires 0 <= i < |s| => |s[i].doc|),
             e.db.size, e.db.total, e.db.byID[id].dirty)
  }

  /** What every state of a run has in common with its log. */
  ghost predicate Consistent(k: Codec, e: Effect) {
    LiveOk(k, e.db) && CatalogOk(e.db) && PointsIntoLog(k, e) && CleanIsInserts(e) && Fits(e.recs)
  }

  lemma {:induction false} RunConsistent(k: Codec, start: Effect, ops: seq<Op>)
    requires k.Lawful() && Consistent(k, start) && LegalRun(k, start, ops)
    ensures Consistent(k, After(k, start, ops))
  {
    hide After, LegalRun, TicksOk, TickedAll, EveryDefineKept, LiveOk, CatalogOk, SmallTicks;
    var ts := RunTicks(k, start, ops);
    RunFits(k, start, ops);
    FittingTicksAreSmall(k, start, ts);
    TicksPoint(k, start, ts);
    TicksInserts(k, start, ts);
    TicksLiveOk(k, start, ts);
  }

  lemma StepConsistent(k: Codec, e: Effect, op: Op)
    requires k.Lawful() && Consistent(k, e) && Legal(k, e.db, op)
    ensures var s := Step(k, e.db, op); Consistent(k, Effect(s.db, e.recs + s.recs))
  {
    hide Step, Legal, Consistent;
    assert [op][..0] == [];
    RunConsistent(k, e, [op]);
  }

  /** The first bytes of a file are a header and a log. */
  ghost predicate Holding(k: Codec, file: Bytes, header: Bytes, e: Effect) {
    && |header| == FILE_HEADER && e.db.size <= |file|
    && file[..e.db.size] == header + LogBytes(k.crc, e.recs)
  }

  /**
   In every state of every run, over a file whose first bytes are the log and whatever lies past
   them: each index entry reads back its document, and for a collection that is not dirty the
   sequential pass visits the same documents in the same order.
   */
  lemma ScansAgreeOnEveryRun(k: Codec, start: Effect, ops: seq<Op>, id: Word16, header: Bytes, file: Bytes)
    requires k.Lawful() && Consistent(k, start) && LegalRun(k, start, ops)
    requires id in After(k, start, ops).db.byID && Holding(k, file, header, After(k, start, ops))
    ensures var e := After(k, start, ops);
            var snap := SnapshotOf(e, id, file);
            && snap.Sound()
            && snap.Docs() == DocsOf(e.db.byID[id].slots)
            && (!snap.dirty ==> Backed(k, snap, header, e.recs) && DocsOf(InsertSlots(e.recs, id)) == snap.Docs())
  {
    RunConsistent(k, start, ops);
    ScansAgree(k, After(k, start, ops), id, header, file);
  }

  lemma ScansAgree(k: Codec, e: Effect, id: Word16, header: Bytes, file: Bytes)
    requires Consistent(k, e) && id in e.db.byID && Holding(k, file, header, e)
    ensures var snap := SnapshotOf(e, id, file);
            && snap.Sound()
            && snap.Docs() == DocsOf(e.db.byID[id].slots)
            && (!snap.dirty ==> Backed(k, snap, header, e.recs) && DocsOf(InsertSlots(e.recs, id)) == snap.Docs())
  {
    hide LiveOk, CatalogOk;
    SnapshotReads(k, e, id, header, file);
    assert CleanAt(e, id);
  }

  lemma SnapshotReads(k: Codec, e: Effect, id: Word16, header: Bytes, file: Bytes)
    requires PointsIntoLog(k, e) && id in e.db.byID && |header| == FILE_HEADER && e.db.size <= |file|
    requires file[..e.db.size] == header + LogBytes(k.crc, e.recs)
    ensures SnapshotOf(e, id, file).Sound()
    ensures SnapshotOf(e, id, file).Docs() == DocsOf(e.db.byID[id].slots)
  {
    var s := e.db.byID[id].slots;
    assert AllInLog(k, e.recs, s);
    hide LogBytes, LogSize, InLog;
    forall i | 0 <= i < |s|
      ensures s[i].off + |s[i].doc| <= e.db.size && file[s[i].off..s[i].off + |s[i].doc|] == s[i].doc
    {
      SlotReads(k, e, s[i], header, file);
    }
    hide AllInLog, PointsIntoLog;
    SlotsAreDocs(SnapshotOf(e, id, file), s);
  }

  lemma SlotsAreDocs(snap: Snapshot, s: seq<Slot>)
    requires |snap.offsets| == |snap.lengths| == |s| && FILE_HEADER <= snap.size <= |snap.file|
    requires forall i | 0 <= i < |s| :: snap.offsets[i] == s[i].off && snap.lengths[i] == |s[i].doc|
    requires forall i | 0 <= i < |s| ::
               s[i].off + |s[i].doc| <= snap.size && snap.file[s[i].off..s[i].off + |s[i].doc|] == s[i].doc
    ensures snap.Sound() && snap.Docs() == DocsOf(s)
  {
  }

  lemma SlotReads(k: Codec, e: Effect, x: Slot, header: Bytes, file: Bytes)
    requires e.db.size == FILE_HEADER + LogSize(e.recs) && InLog(k, e.recs, x)
    requires |header| == FILE_HEADER && e.db.size <= |file| && file[..e.db.size] == header + LogBytes(k.crc, e.recs)
    ensures x.off + |x.doc| <= e.db.size && file[x.off..x.off + |x.doc|] == x.doc
  {
    hide LogBytes, LogSize;
    SliceOfTail(file, e.db.size, header, LogBytes(k.crc, e.recs), x.off, |x.doc|);
  }

  lemma SliceOfTail<T>(file: seq<T>, size: nat, h: seq<T>, a: seq<T>, off: nat, len: nat)
    requires size <= |file| && file[..size] == h + a && |h| <= off && off - |h| + len <= |a|
    ensures off + len <= size && file[off..off + len] == a[off - |h|..off - |h| + len]
  {
    assert file[off..off + len] == file[..size][off..off + len];
    assert (h + a)[off..off + len] == a[off - |h|..off - |h| + len];
  }

  /** The empty database is in step with its empty log. */
  lemma EmptyConsistent(k: Codec)
    ensures Consistent(k, Effect(Empty(), []))
  {
  }
}
