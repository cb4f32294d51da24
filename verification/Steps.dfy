/**
 What each write operation comes to, in the form the code computes it: a batch published at once
 instead of a document at a time, the case an operation falls into, the one collection it changes.
 */
module Steps {
  import opened Wrappers
  import opened Framing
  import opened Slots
  import opened Database
  import opened Replay
  import opened Live
  import opened Ticks
  import opened Legibility
  import opened Mirror
  import opened Rebuild
  import opened Recovery
  import opened Scan
  import opened Collections
  import opened Appends
  import opened Find

  // ----- what a batch of inserts does to the state, in closed form -----

  /** Publishing a batch moves the append point past it and extends one index. */
  lemma {:induction false} AddDocsShape(db: Db, coll: Word16, ps: seq<Bytes>)
    requires coll in db.byID
    ensures var r := AddDocs(db, coll, ps);
            && r.size == db.size + LogSize(Records(OP_INSERT, coll, ps))
            && r.total == db.total + |ps| && r.dead == db.dead && r.nextID == db.nextID && r.names == db.names
            && r.byID == db.byID[coll := db.byID[coll].(slots := r.byID[coll].slots)]
  {
    hide LogSize, LogBytes, Records;
    var crc: Checksum := _ => 0;
    EmptyBatch(crc, OP_INSERT, coll, ps);
    if ps != [] {
      var n := |ps| - 1;
      AddDocsShape(db, coll, ps[..n]);
      BatchSnoc(crc, OP_INSERT, coll, ps, n);
      assert ps[..n + 1] == ps;
    } else {
      assert ps[..0] == ps;
    }
  }

  lemma AddDocsNext(db: Db, coll: Word16, ps: seq<Bytes>, i: nat, off: int)
    requires coll in db.byID && i < |ps|
    requires off == db.size + LogSize(Records(OP_INSERT, coll, ps[..i]))
    ensures var r, r' := AddDocs(db, coll, ps[..i]), AddDocs(db, coll, ps[..i + 1]);
            && r'.total == r.total + 1
            && r'.byID[coll] == r.byID[coll].(slots := r.byID[coll].slots + [Slot(off + RECORD_HEADER, ps[i])])
  {
    AddDocsShape(db, coll, ps[..i]);
    assert ps[..i + 1][..i] == ps[..i];
  }

  /** Every slot of every collection reads back from a file that holds the log. */
  lemma LogOnDisk(k: Codec, e: Effect, id: Word16, header: Bytes, file: Bytes)
    requires Consistent(k, e) && id in e.db.byID && Holding(k, file, header, e)
    ensures OnDisk(e.db.byID[id].slots, file, e.db.size)
  {
    hide LiveOk, CatalogOk, CleanIsInserts, LogBytes, LogSize, InLog;
    var s := e.db.byID[id].slots;
    assert AllInLog(k, e.recs, s);
    forall i | 0 <= i < |s|
      ensures SlotOnDisk(s[i], file, e.db.size)
    {
      SlotReads(k, e, s[i], header, file);
    }
  }

  /** Equality as values, without looking inside. */
  ghost predicate Same<T>(a: T, b: T): (r: bool)
    ensures r <==> a == b
  {
    a == b
  }

  /** A state and its log after one operation. */
  ghost function Stepped(k: Codec, e: Effect, op: Op): Effect
    requires Legal(k, e.db, op)
  {
    var s := Step(k, e.db, op);
    Effect(s.db, e.recs + s.recs)
  }

  /** A define that gets as far as registering the collection. */
  ghost predicate Registering(k: Codec, db: Db, name: string, landed: nat, synced: bool) {
    var payload := k.encodeDefinition(Definition(db.nextID, name));
    db.nextID != 0 && |payload| <= MAX_PAYLOAD && landed >= RECORD_HEADER + |payload| && synced
  }

  /** Only one collection differs between two states. */
  ghost predicate OnlyIn(coll: Word16, before: Db, after: Db) {
    && after.names == before.names && after.nextID == before.nextID
    && coll in before.byID && coll in after.byID && after.byID == before.byID[coll := after.byID[coll]]
  }

  lemma TombstonesLength(k: Codec, s: seq<Slot>, ps: seq<nat>)
    requires Ascending(ps, |s|)
    ensures |Tombstones(k, s, ps)| == |ps|
  {
  }

  lemma NoneUnnamed(k: Codec, s: seq<Slot>, ps: seq<nat>)
    requires IdsOk(k, s) && Ascending(ps, |s|)
    ensures !AnyUnnamed(k, s, ps)
  {
  }

  lemma DeleteStep(k: Codec, db: Db, coll: Word16, accepts: Bytes -> bool, limit: int, landed: nat)
    requires Legal(k, db, DeleteOp(coll, accepts, limit, landed))
    ensures coll in db.byID
    ensures Step(k, db, DeleteOp(coll, accepts, limit, landed)) == DeleteEffect(k, db, coll, accepts, limit, landed)
  {
  }

  /** The tombstones for a list of documents, from their _ids. */
  method Entomb(k: Codec, ghost s: seq<Slot>, ps: seq<nat>, ids: seq<string>) returns (tombs: seq<Bytes>)
    requires Ascending(ps, |s|) && |ids| == |ps|
    requires forall i | 0 <= i < |ps| :: k.exact(s[ps[i]].doc) == ids[i]
    ensures tombs == Tombstones(k, s, ps)
  {
    tombs := [];
    for i := 0 to |ids|
      invariant |tombs| == i && forall j | 0 <= j < i :: tombs[j] == k.tombstone(ids[j])
    {
      tombs := tombs + [k.tombstone(ids[i])];
    }
  }

  /** A delete drops exactly the documents whose tombstones it writes. */
  lemma DeleteIs(k: Codec, db: Db, coll: Word16, accepts: Bytes -> bool, limit: int, landed: nat)
    requires coll in db.byID && IdsOk(k, db.byID[coll].slots)
    ensures var s := db.byID[coll].slots;
            var ps := Matches(s, accepts, limit);
            var tombs := Tombstones(k, s, ps);
            if ps == [] then DeleteEffect(k, db, coll, accepts, limit, landed) == Effect(db, [])
            else |tombs| == |ps| && DeleteEffect(k, db, coll, accepts, limit, landed) ==
                 Dropped(db, coll, ps, tombs, if AnyTooLong(tombs) then 0 else Whole(tombs, landed))
    ensures forall ps, tombs, n: nat |
              Ascending(ps, |db.byID[coll].slots|) && n <= |ps| == |tombs| ::
              |Dropped(db, coll, ps, tombs, n).recs| == n
  {
    hide Matches, Tombstones, Ascending, Whole, AnyTooLong, Without, AnyUnnamed, IdsOk;
    var s := db.byID[coll].slots;
    var ps := Matches(s, accepts, limit);
    TombstonesLength(k, s, ps);
    NoneUnnamed(k, s, ps);
    DropNone(db, coll, ps, Tombstones(k, s, ps));
    assert Records(OP_DELETE, coll, Tombstones(k, s, ps)[..0]) == [];
  }

  /** The bytes that dropping the first n documents abandons, tombstones included. */
  ghost function Buried(s: seq<Slot>, ps: seq<nat>, tombs: seq<Bytes>, n: nat): nat
    requires Ascending(ps, |s|) && n <= |ps| == |tombs|
  {
    if n == 0 then 0
    else Buried(s, ps, tombs, n - 1) + (RECORD_HEADER + |s[ps[n - 1]].doc|) + (RECORD_HEADER + |tombs[n - 1]|)
  }

  /** A batch of tombstones as an effect. */
  ghost function Dropped(db: Db, coll: Word16, ps: seq<nat>, tombs: seq<Bytes>, n: nat): Effect
    requires coll in db.byID && Ascending(ps, |db.byID[coll].slots|) && n <= |ps| == |tombs|
  {
    Effect(DropDocs(db, coll, ps, tombs, n), Records(OP_DELETE, coll, tombs[..n]))
  }

  /** One more drop, in closed form. */
  lemma DropStep(db: Db, coll: Word16, ps: seq<nat>, tombs: seq<Bytes>, n: nat)
    requires coll in db.byID && Ascending(ps, |db.byID[coll].slots|) && n < |ps| == |tombs|
    ensures var r, d, s := DropDocs(db, coll, ps, tombs, n + 1), DropDocs(db, coll, ps, tombs, n), db.byID[coll].slots;
            && r.size == d.size + (RECORD_HEADER + |tombs[n]|) && r.total == d.total - 1
            && r.dead == d.dead + (RECORD_HEADER + |s[ps[n]].doc|) + (RECORD_HEADER + |tombs[n]|)
            && r.nextID == d.nextID && r.byID[coll] == d.byID[coll].(slots := Keep(s, ps[..n + 1]), dirty := true)
  {
    hide Keep, Ascending, RemoveAt;
    WithoutNext(db.byID[coll].slots, ps, n);
    assert Without(db.byID[coll].slots, ps, n + 1) == Keep(db.byID[coll].slots, ps[..n + 1]);
  }

  /** Dropping documents one at a time comes to the same as dropping them all at once. */
  lemma {:induction false} DropDocsShape(db: Db, coll: Word16, ps: seq<nat>, tombs: seq<Bytes>, n: nat)
    requires coll in db.byID && Ascending(ps, |db.byID[coll].slots|) && n <= |ps| == |tombs|
    ensures var r, c := DropDocs(db, coll, ps, tombs, n), db.byID[coll];
            && r.size == db.size + LogSize(Records(OP_DELETE, coll, tombs[..n])) && r.total == db.total - n
            && r.dead == db.dead + Buried(c.slots, ps, tombs, n) && r.nextID == db.nextID
            && r.byID[coll] == c.(slots := Keep(c.slots, ps[..n]), dirty := c.dirty || n > 0)
  {
    hide LogSize, LogBytes, Records, Keep, DropDocs, Ascending, Without;
    var crc: Checksum := _ => 0;
    EmptyBatch(crc, OP_DELETE, coll, tombs);
    DropNone(db, coll, ps, tombs);
    if n > 0 {
      DropDocsShape(db, coll, ps, tombs, n - 1);
      BatchSnoc(crc, OP_DELETE, coll, tombs, n - 1);
      DropStep(db, coll, ps, tombs, n - 1);
    }
  }

  lemma DropNone(db: Db, coll: Word16, ps: seq<nat>, tombs: seq<Bytes>)
    requires coll in db.byID && Ascending(ps, |db.byID[coll].slots|) && |ps| == |tombs|
    ensures DropDocs(db, coll, ps, tombs, 0) == db && Keep(db.byID[coll].slots, ps[..0]) == db.byID[coll].slots
  {
    WithoutNone(db.byID[coll].slots, ps);
  }

  lemma DroppedNone(db: Db, coll: Word16, ps: seq<nat>, tombs: seq<Bytes>)
    requires coll in db.byID && Ascending(ps, |db.byID[coll].slots|) && |ps| == |tombs|
    ensures Dropped(db, coll, ps, tombs, 0) == Effect(db, []) && LogBytes(_ => 0, []) == []
  {
  }

  lemma DroppedIs(db: Db, coll: Word16, ps: seq<nat>, tombs: seq<Bytes>, n: nat)
    requires coll in db.byID && Ascending(ps, |db.byID[coll].slots|) && n <= |ps| == |tombs|
    ensures var s, c := Dropped(db, coll, ps, tombs, n), db.byID[coll];
            && s.recs == Records(OP_DELETE, coll, tombs[..n]) && coll in s.db.byID
            && s.db.size == db.size + LogSize(Records(OP_DELETE, coll, tombs[..n])) && s.db.total == db.total - n
            && s.db.dead == db.dead + Buried(c.slots, ps, tombs, n) && s.db.nextID == db.nextID
            && s.db.byID[coll] == c.(slots := Keep(c.slots, ps[..n]), dirty := c.dirty || n > 0)
            && Ascending(ps[..n], |c.slots|)
  {
    hide DropDocs, LogSize, Records, Keep, Buried;
    DropDocsShape(db, coll, ps, tombs, n);
  }

  /** What replacing the document at a position comes to. */
  ghost function ReplacedAt(k: Codec, db: Db, coll: Word16, pos: nat, suppliedID: string,
                            encode: string -> Bytes, landed: nat): Effect
    requires coll in db.byID && pos < |db.byID[coll].slots|
  {
    match k.probe(db.byID[coll].slots[pos].doc)
    case None => Effect(db, [])
    case Some(id) =>
      if suppliedID != "" && suppliedID != id then Effect(db, [])
      else Replaced(db, coll, pos, encode(id), |encode(id)| <= MAX_PAYLOAD && landed >= RECORD_HEADER + |encode(id)|)
  }

  lemma ReplaceIs(k: Codec, db: Db, coll: Word16, accepts: Bytes -> bool, suppliedID: string,
                  encode: string -> Bytes, landed: nat)
    requires Legal(k, db, ReplaceOp(coll, accepts, suppliedID, encode, landed))
    requires coll in db.byID && IdsOk(k, db.byID[coll].slots)
    ensures var s, ps := db.byID[coll].slots, Matches(db.byID[coll].slots, accepts, 1);
            var r := Step(k, db, ReplaceOp(coll, accepts, suppliedID, encode, landed));
            if ps == [] then r == Effect(db, [])
            else ps[0] < |s| && s[ps[0]].doc != [] && r == ReplacedAt(k, db, coll, ps[0], suppliedID, encode, landed)
    ensures forall id: string :: Carries(k, encode(id), id)
  {
    hide Matches, RepointDoc;
  }

  /** A replacement that landed, or did not. */
  ghost function Replaced(db: Db, coll: Word16, pos: nat, payload: Bytes, ok: bool): Effect
    requires coll in db.byID && pos < |db.byID[coll].slots|
  {
    if ok then Effect(RepointDoc(db, coll, pos, payload), [Record(OP_REPLACE, coll, payload)]) else Effect(db, [])
  }

  lemma ReplacedIs(db: Db, coll: Word16, pos: nat, payload: Bytes)
    requires coll in db.byID && pos < |db.byID[coll].slots|
    ensures Replaced(db, coll, pos, payload, false) == Effect(db, [])
    ensures var s, c := Replaced(db, coll, pos, payload, true), db.byID[coll];
            && s.recs == [Record(OP_REPLACE, coll, payload)] && coll in s.db.byID
            && s.db.size == db.size + RECORD_HEADER + |payload| && s.db.total == db.total
            && s.db.dead == db.dead + (RECORD_HEADER + |c.slots[pos].doc|) && s.db.nextID == db.nextID
            && s.db.byID[coll] == c.(slots := c.slots[pos := Slot(db.size + RECORD_HEADER, payload)], dirty := true)
  {
  }

  lemma ReadColumns(offsets: seq<int>, lengths: seq<int>, s: seq<Slot>)
    requires Describes(offsets, lengths, s)
    ensures offsets == seq(|s|, i requires 0 <= i < |s| => s[i].off)
    ensures lengths == seq(|s|, i requires 0 <= i < |s| => |s[i].doc|)
  {
  }

  lemma OneLanded(crc: Checksum, r: Record)
    ensures LogBytes(crc, [r]) == Encode(crc, r) && LogSize([r]) == RECORD_HEADER + |r.payload|
    ensures LogBytes(crc, []) == [] && LogSize([]) == 0
  {
    LogOne(crc, r);
  }

  lemma VisitedIds(k: Codec, s: seq<Slot>, accepts: Bytes -> bool, limit: int)
    requires IdsOk(k, s)
    ensures var v := Visited(DocsOf(s), Quota(accepts, limit));
            var ids := IdsAt(k, v, Accepted(v, accepts));
            && ids.Some? && |ids.value| == |Accepted(v, accepts)|
            && forall i | 0 <= i < |ids.value| :: k.exact(s[Accepted(v, accepts)[i]].doc) == ids.value[i]
  {
    hide IdsOk, Accepted, IdsAt;
    var v := Visited(DocsOf(s), Quota(accepts, limit));
    IdsAreThere(k, s, v, Accepted(v, accepts));
  }

  /** The same state, with the _id table of one collection built. */
  ghost function WithTable(db: Db, coll: Word16, indexed: bool): (r: Db)
    requires coll in db.byID
    ensures coll in r.byID
  {
    db.(byID := db.byID[coll := db.byID[coll].(indexed := indexed)])
  }

  /** A single insert that landed, or did not. */
  ghost function AddedOne(db: Db, coll: Word16, payload: Bytes, ok: bool): Effect
    requires coll in db.byID
  {
    if ok then Effect(AddDoc(db, coll, payload), [Record(OP_INSERT, coll, payload)]) else Effect(db, [])
  }

  lemma AddedOneIs(db: Db, coll: Word16, payload: Bytes)
    requires coll in db.byID
    ensures AddedOne(db, coll, payload, false) == Effect(db, [])
    ensures var s, r := AddedOne(db, coll, payload, true), Record(OP_INSERT, coll, payload);
            && s.recs == [r] && coll in s.db.byID && s.db.size == db.size + RECORD_HEADER + |payload|
            && s.db.total == db.total + 1 && s.db.dead == db.dead && s.db.nextID == db.nextID
            && s.db.byID[coll] ==
               db.byID[coll].(slots := db.byID[coll].slots + [Slot(db.size + RECORD_HEADER, payload)])
  {
  }

  /** An insert of one document, case by case. */
  lemma InsertOneIs(k: Codec, db: Db, coll: Word16, doc: NewDoc, landed: nat)
    requires Legal(k, db, InsertOp(coll, [doc], landed))
    ensures coll in db.byID && doc.id != "" && Carries(k, doc.payload, doc.id)
    ensures var s, fits := Step(k, db, InsertOp(coll, [doc], landed)),
                           |doc.payload| <= MAX_PAYLOAD && landed >= RECORD_HEADER + |doc.payload|;
            s == if !doc.supplied then AddedOne(db, coll, doc.payload, fits)
                 else if !CanIndex(k, db.byID[coll]) then Effect(db, [])
                 else if Blocked(k, db.byID[coll].slots, doc.id) then Effect(WithTable(db, coll, true), [])
                 else AddedOne(WithTable(db, coll, true), coll, doc.payload, fits)
  {
    var p := doc.payload;
    var c := db.byID[coll];
    LegalIds(k, db, coll, [doc], landed);
    assert doc == [doc][0];
    OneCheck(k, c, doc);
    assert Payloads([doc]) == [p];
    assert AnyTooLong([p]) <==> |p| > MAX_PAYLOAD by {
      assert p in [p];
    }
    OneWhole(p, landed);
    OneAdded(WithTable(db, coll, c.indexed || doc.supplied), coll, p);
    SameTable(db, coll);
    hide CheckIds, AnyTooLong, Whole, Payloads, HasId, AddDocs, AddDoc, Legal, Records, CanIndex, Blocked;
  }

  lemma OneCheck(k: Codec, c: Coll, doc: NewDoc)
    ensures CheckIds(k, c, [doc], 0, {}) ==
            if !doc.supplied then (true, c.indexed)
            else if !CanIndex(k, c) then (false, c.indexed)
            else (!Blocked(k, c.slots, doc.id), true)
  {
    hide CheckIds, Blocked, CanIndex;
    CheckIdsStep(k, c, [doc], 0, {});
    CheckIdsEnd(k, c, [doc], {});
    CheckIdsEnd(k, c.(indexed := true), [doc], {doc.id});
    assert {} + {doc.id} == {doc.id};
  }

  lemma SameTable(db: Db, coll: Word16)
    requires coll in db.byID
    ensures WithTable(db, coll, db.byID[coll].indexed) == db
  {
  }

  lemma OneWhole(p: Bytes, landed: nat)
    ensures Whole([p], landed) == if landed < RECORD_HEADER + |p| then 0 else 1
  {
    assert [p][1..] == [];
  }

  lemma OneAdded(db: Db, coll: Word16, p: Bytes)
    requires coll in db.byID
    ensures AddDocs(db, coll, [p][..0]) == db && Records(OP_INSERT, coll, [p][..0]) == []
    ensures AddDocs(db, coll, [p][..1]) == AddDoc(db, coll, p)
    ensures Records(OP_INSERT, coll, [p][..1]) == [Record(OP_INSERT, coll, p)]
  {
    assert [p][..1] == [p] && [p][..0] == [];
  }

  lemma OnlyInBoth(coll: Word16, a: Db, b: Db, c: Db)
    requires OnlyIn(coll, a, b) && OnlyIn(coll, b, c)
    ensures OnlyIn(coll, a, c)
  {
  }

  lemma CheckedTouches(k: Codec, db: Db, coll: Word16, docs: seq<NewDoc>)
    requires coll in db.byID
    ensures OnlyIn(coll, db, Checked(k, db, coll, docs))
  {
    hide CheckIds;
  }

  lemma AddDocsTouches(db: Db, coll: Word16, ps: seq<Bytes>)
    requires coll in db.byID
    ensures OnlyIn(coll, db, AddDocs(db, coll, ps))
  {
    hide AddDocs, Records, LogSize;
    AddDocsShape(db, coll, ps);
  }

  /** An insert changes nothing but the collection it is for. */
  lemma InsertTouches(k: Codec, db: Db, coll: Word16, docs: seq<NewDoc>, landed: nat)
    requires Legal(k, db, InsertOp(coll, docs, landed))
    ensures OnlyIn(coll, db, Step(k, db, InsertOp(coll, docs, landed)).db)
  {
    hide CheckIds, AnyTooLong, Whole, Payloads, Step, Legal, Checked, OnlyIn, AddDocs, Records;
    InsertIs(k, db, coll, docs, landed);
    var all, db1 := Payloads(docs), Checked(k, db, coll, docs);
    var ps := all[..if AnyTooLong(all) then 0 else Whole(all, landed)];
    CheckedTouches(k, db, coll, docs);
    AddDocsTouches(db1, coll, ps);
    OnlyInBoth(coll, db, db1, AddDocs(db1, coll, ps));
  }

  lemma RepointTouches(db: Db, coll: Word16, i: nat, payload: Bytes)
    requires coll in db.byID && i < |db.byID[coll].slots|
    ensures OnlyIn(coll, db, RepointDoc(db, coll, i, payload))
  {
  }

  lemma {:induction false} DropDocsTouches(db: Db, coll: Word16, ps: seq<nat>, tombs: seq<Bytes>, n: nat)
    requires coll in db.byID && Ascending(ps, |db.byID[coll].slots|) && n <= |ps| == |tombs|
    ensures OnlyIn(coll, db, DropDocs(db, coll, ps, tombs, n))
  {
    hide Without, Ascending;
    if n > 0 {
      DropDocsTouches(db, coll, ps, tombs, n - 1);
    }
  }

  /** An operation on one collection changes nothing of the others. */
  lemma StepTouches(k: Codec, db: Db, op: Op)
    requires Legal(k, db, op) && !op.DefineOp?
    ensures OnlyIn(op.coll, db, Step(k, db, op).db)
  {
    hide Step, Legal, OnlyIn;
    if op.InsertOp? {
      InsertTouches(k, db, op.coll, op.docs, op.landed);
    } else if op.ReplaceOp? {
      ReplaceTouches(k, db, op);
    } else {
      DeleteTouches(k, db, op);
    }
  }

  lemma ReplaceTouches(k: Codec, db: Db, op: Op)
    requires Legal(k, db, op) && op.ReplaceOp?
    ensures OnlyIn(op.coll, db, Step(k, db, op).db)
  {
    hide Matches, RepointDoc;
    var s := db.byID[op.coll].slots;
    var ps := Matches(s, op.accepts, 1);
    if Step(k, db, op).recs != [] {
      RepointTouches(db, op.coll, ps[0], op.encode(k.probe(s[ps[0]].doc).value));
    }
  }

  lemma DeleteTouches(k: Codec, db: Db, op: Op)
    requires Legal(k, db, op) && op.DeleteOp?
    ensures OnlyIn(op.coll, db, Step(k, db, op).db)
  {
    var s := db.byID[op.coll].slots;
    var ps := Matches(s, op.accepts, op.limit);
    var tombs := Tombstones(k, s, ps);
    DropDocsTouches(db, op.coll, ps, tombs, Whole(tombs, op.landed));
    hide Matches, Tombstones, DropDocs, Whole;
  }

  /** A file holding a log, grown by some records at its append point, holds the longer log. */
  lemma HoldingGrows(k: Codec, before: Bytes, file: Bytes, header: Bytes, from: Effect, s: Effect)
    requires Holding(k, before, header, from) && s.db.size == from.db.size + LogSize(s.recs) <= |file|
    requires file[..s.db.size] == before[..from.db.size] + LogBytes(k.crc, s.recs)
    ensures Holding(k, file, header, Effect(s.db, from.recs + s.recs))
  {
    hide LogBytes, LogSize;
    LogConcat(k.crc, from.recs, s.recs);
    ConcatAssoc(header, LogBytes(k.crc, from.recs), LogBytes(k.crc, s.recs));
  }

  lemma LegalIds(k: Codec, db: Db, coll: Word16, docs: seq<NewDoc>, landed: nat)
    requires Legal(k, db, InsertOp(coll, docs, landed))
    ensures forall i | 0 <= i < |docs| :: docs[i].id != "" && Carries(k, docs[i].payload, docs[i].id)
  {
    assert forall i | 0 <= i < |docs| :: docs[i] in docs;
  }

  /** A batch of inserts as an effect. */
  ghost function Inserted(db: Db, coll: Word16, ps: seq<Bytes>): Effect
    requires coll in db.byID
  {
    Effect(AddDocs(db, coll, ps), Records(OP_INSERT, coll, ps))
  }

  /** The state once the duplicate check has run: the _id table may exist now. */
  ghost function Checked(k: Codec, db: Db, coll: Word16, docs: seq<NewDoc>): Db
    requires coll in db.byID
  {
    db.(byID := db.byID[coll := db.byID[coll].(indexed := CheckIds(k, db.byID[coll], docs, 0, {}).1)])
  }

  lemma CheckedIs(k: Codec, db: Db, coll: Word16, docs: seq<NewDoc>)
    requires coll in db.byID
    ensures var r := Checked(k, db, coll, docs);
            && r == db.(byID := r.byID) && coll in r.byID
            && r.byID[coll] == db.byID[coll].(indexed := CheckIds(k, db.byID[coll], docs, 0, {}).1)
  {
  }

  /** An insert of nothing is refused by no check. */
  lemma NothingToInsert(k: Codec, db: Db, coll: Word16, docs: seq<NewDoc>)
    requires coll in db.byID
    ensures docs == [] ==> CheckIds(k, db.byID[coll], docs, 0, {}).0 && !AnyTooLong(Payloads(docs))
  {
  }

  /** An insert publishes exactly the documents it writes. */
  lemma InsertIs(k: Codec, db: Db, coll: Word16, docs: seq<NewDoc>, landed: nat)
    requires Legal(k, db, InsertOp(coll, docs, landed))
    ensures coll in db.byID && coll in Checked(k, db, coll, docs).byID
    ensures var all, db1 := Payloads(docs), Checked(k, db, coll, docs);
            Step(k, db, InsertOp(coll, docs, landed)) ==
            if !CheckIds(k, db.byID[coll], docs, 0, {}).0 then Effect(db1, [])
            else Inserted(db1, coll, all[..if AnyTooLong(all) then 0 else Whole(all, landed)])
    ensures var s := Step(k, db, InsertOp(coll, docs, landed));
            forall ps | s == Inserted(Checked(k, db, coll, docs), coll, ps) :: |s.recs| == |ps|
  {
    hide CheckIds, Whole, AnyTooLong;
    assert Records(OP_INSERT, coll, Payloads(docs)[..0]) == [];
  }

  lemma ReadsBack(k: Codec, e: Effect, id: Word16, header: Bytes, file: Bytes)
    requires Consistent(k, e) && id in e.db.byID && Holding(k, file, header, e)
    ensures OnDisk(e.db.byID[id].slots, file, e.db.size) && IdsOk(k, e.db.byID[id].slots) && e.db.size <= |file|
  {
    hide OnDisk, CatalogOk, CleanIsInserts, PointsIntoLog, LogBytes, LogSize, Fits, IdsOk;
    LogOnDisk(k, e, id, header, file);
  }

  lemma AddDocsNone(db: Db, coll: Word16, ps: seq<Bytes>)
    requires coll in db.byID
    ensures AddDocs(db, coll, ps[..0]) == db
  {
  }

  lemma HoldsHas(k: Codec, s: seq<Slot>, id: string, i: nat)
    requires Holds(k, s, id, i)
    ensures HasId(k, s, id)
  {
  }

  lemma CheckIdsStep(k: Codec, c: Coll, docs: seq<NewDoc>, i: nat, seen: set<string>)
    requires i < |docs|
    ensures CheckIds(k, c, docs, i, seen) ==
            if !docs[i].supplied then CheckIds(k, c, docs, i + 1, seen)
            else if docs[i].id in seen then (false, c.indexed)
            else if !CanIndex(k, c) then (false, c.indexed)
            else if Blocked(k, c.slots, docs[i].id) then (false, true)
            else CheckIds(k, c.(indexed := true), docs, i + 1, seen + {docs[i].id})
  {
  }

  lemma CheckIdsEnd(k: Codec, c: Coll, docs: seq<NewDoc>, seen: set<string>)
    ensures CheckIds(k, c, docs, |docs|, seen) == (true, c.indexed)
  {
  }

  lemma NextIsFree(k: Codec, e: Effect)
    requires Consistent(k, e)
    ensures e.db.nextID != 0 ==> e.db.nextID !in e.db.byID
  {
  }

  // ----- what a record comes to during the walk -----

  /** An insert record appends a slot; only a collection with a table has to read it. */
  lemma AddIs(k: Codec, w: Walk, coll: Word16, doc: Bytes)
    requires coll in w.db.byID
    ensures var a, w' := ApplyInsert(k, w, coll, doc), w.(db := AddDoc(w.db, coll, doc));
            && (a.Applied? <==> !w.db.byID[coll].indexed || k.probe(doc).Some?)
            && (a.Applied? ==> a.w == w')
            && w'.db.size == w.db.size + RECORD_HEADER + |doc| && w'.db.total == w.db.total + 1
            && w'.db.dead == w.db.dead && w'.db.nextID == w.db.nextID && OnlyIn(coll, w.db, w'.db)
            && w'.db.byID[coll] ==
               w.db.byID[coll].(slots := w.db.byID[coll].slots + [Slot(w.db.size + RECORD_HEADER, doc)])
  {
  }

  /** Slots found below an offset, and a new one between it and the end of its record, are all on disk. */
  lemma NewOnDisk(s: seq<Slot>, file: Bytes, off: nat, doc: Bytes)
    requires OnDisk(s, file, off) && off + RECORD_HEADER + |doc| <= |file|
    requires doc == file[off + RECORD_HEADER..off + RECORD_HEADER + |doc|]
    ensures OnDisk(s + [Slot(off + RECORD_HEADER, doc)], file, off + RECORD_HEADER + |doc|)
  {
  }

  lemma MovedOnDisk(s: seq<Slot>, file: Bytes, off: nat, i: nat, doc: Bytes)
    requires OnDisk(s, file, off) && off + RECORD_HEADER + |doc| <= |file| && i < |s|
    requires doc == file[off + RECORD_HEADER..off + RECORD_HEADER + |doc|]
    ensures OnDisk(s[i := Slot(off + RECORD_HEADER, doc)], file, off + RECORD_HEADER + |doc|)
  {
  }

  lemma MarkOnDisk(s: seq<Slot>, file: Bytes, off: nat, i: nat, off': nat)
    requires OnDisk(s, file, off) && i < |s| && off <= off' <= |file|
    ensures OnDisk(s[i := s[i].Mark()], file, off')
  {
  }

  /** What the source does with a record agrees with what the walk says, wherever the walk is clear. */
  ghost predicate Agrees(a: Applied, ok: bool, w: Walk) {
    match a
    case Applied(w') => ok && w == w'
    case Refused => !ok
    case Unclear => true
  }

  lemma UnnamedIs(k: Codec, w: Walk, isDelete: bool, coll: Word16, payload: Bytes)
    requires coll in w.db.byID && (k.probe(payload) == None || k.probe(payload) == Some(""))
    ensures Agrees(ApplyNamed(k, w, isDelete, coll, payload), false, w)
  {
  }

  /** During the walk a collection with a table holds only documents payloadID can read. */
  ghost predicate TablesRead(k: Codec, db: Db) {
    forall id | id in db.byID && db.byID[id].indexed :: AllRead(k, db.byID[id].slots)
  }

  lemma TablesStayRead(k: Codec, before: Db, after: Db, coll: Word16)
    requires TablesRead(k, before) && OnlyIn(coll, before, after)
    requires after.byID[coll].indexed ==> AllRead(k, after.byID[coll].slots)
    ensures TablesRead(k, after)
  {
    hide AllRead;
  }

  lemma TablesGain(k: Codec, before: Db, after: Db, coll: Word16, name: string)
    requires TablesRead(k, before) && after.byID == before.byID[coll := Coll(name, [], false, false)]
    ensures TablesRead(k, after)
  {
    hide AllRead;
  }

  lemma ReadAppend(k: Codec, s: seq<Slot>, x: Slot)
    requires AllRead(k, s) && k.probe(x.doc).Some?
    ensures AllRead(k, s + [x])
  {
  }

  lemma ReadSet(k: Codec, s: seq<Slot>, i: nat, x: Slot)
    requires AllRead(k, s) && i < |s| && (x.doc != [] ==> k.probe(x.doc).Some?)
    ensures AllRead(k, s[i := x])
  {
  }

  lemma {:induction false} ReadUnmarked(k: Codec, s: seq<Slot>, n: nat)
    requires AllRead(k, s) && n <= |s|
    ensures AllRead(k, UnmarkedUpTo(s, n))
  {
    if n > 0 {
      ReadUnmarked(k, s, n - 1);
    }
  }

  lemma ReadUnmarkedAll(k: Codec, s: seq<Slot>)
    requires AllRead(k, s)
    ensures AllRead(k, Unmarked(s))
  {
    ReadUnmarked(k, s, |s|);
  }

  lemma IndexedCan(k: Codec, c: Coll)
    ensures c.indexed ==> CanIndex(k, c)
  {
  }

  /** What a lookup says of an _id: found, or failed, exactly when it is blocked. */
  lemma Blocks(k: Codec, s: seq<Slot>, id: string, pos: Option<nat>, ok: bool)
    ensures pos.Some? && Holds(k, s, id, pos.value) ==> Blocked(k, s, id)
    ensures !ok && (exists i: nat :: Hides(k, s, id, i)) ==> Blocked(k, s, id)
  {
  }

  lemma NotBlocked(k: Codec, s: seq<Slot>, id: string)
    ensures !Blocked(k, s, id) ==> !HasId(k, s, id)
  {
  }

  /** A record that names the document of a slot is filed as it is. */
  lemma HeldAs(k: Codec, s: seq<Slot>, id: string, pos: nat, payload: Bytes)
    requires Holds(k, s, id, pos) && k.probe(payload) == Some(id)
    ensures pos < |s| && s[pos].doc != [] && FiledAs(k, s[pos].doc) == FiledAs(k, payload)
  {
  }

  /** Where everything can be read nothing is hidden, and a table can be built. */
  lemma NothingHidden(k: Codec, c: Coll, id: string)
    ensures AllRead(k, c.slots) ==> forall i: nat :: !Hides(k, c.slots, id, i)
    ensures AllRead(k, c.slots) && Blocked(k, c.slots, id) ==> HasId(k, c.slots, id)
    ensures CanIndex(k, c) && !c.indexed ==> AllRead(k, c.slots)
  {
  }

  /** No slot below pos holds the _id. */
  ghost predicate IsLowest(k: Codec, s: seq<Slot>, id: string, pos: nat) {
    forall i: nat | i < pos :: !Holds(k, s, id, i)
  }

  /** A replace or delete record, by what its _id resolves to. */
  lemma NamedIs(k: Codec, w: Walk, isDelete: bool, coll: Word16, payload: Bytes, pos: nat)
    requires coll in w.db.byID && k.probe(payload).Some? && k.probe(payload).value != ""
    ensures var c, id := w.db.byID[coll], k.probe(payload).value;
            && (!(CanIndex(k, c) && HasId(k, c.slots, id)) ==>
                  Agrees(ApplyNamed(k, w, isDelete, coll, payload), false, w))
            && (CanIndex(k, c) && Holds(k, c.slots, id, pos) && (c.indexed || IsLowest(k, c.slots, id, pos)) ==>
                  && pos < |c.slots| && c.slots[pos].doc != [] && k.probe(c.slots[pos].doc) == Some(id)
                  && var w' := NamedWalk(w, isDelete, coll, payload, pos);
                     && Agrees(ApplyNamed(k, w, isDelete, coll, payload), true, w')
                     && OnlyIn(coll, w.db, w'.db) && w'.db.size == w.db.size + RECORD_HEADER + |payload|)
  {
  }

  /** The walk after a replace or delete record that is about slot pos. */
  ghost function NamedWalk(w: Walk, isDelete: bool, coll: Word16, payload: Bytes, pos: nat): Walk
    requires coll in w.db.byID && pos < |w.db.byID[coll].slots|
  {
    var db := SetIndexed(w.db, coll);
    if isDelete then Walk(MarkDoc(db, coll, pos, payload), w.tombstoned + {coll})
    else w.(db := RepointDoc(db, coll, pos, payload))
  }

  lemma NamedWalkIs(w: Walk, isDelete: bool, coll: Word16, payload: Bytes, pos: nat)
    requires coll in w.db.byID && pos < |w.db.byID[coll].slots|
    ensures var w', c := NamedWalk(w, isDelete, coll, payload, pos), w.db.byID[coll];
            && coll in w'.db.byID && w'.db.nextID == w.db.nextID
            && w'.db.total == (if isDelete then w.db.total - 1 else w.db.total)
            && w'.db.dead == w.db.dead + c.slots[pos].Size() + (if isDelete then RECORD_HEADER + |payload| else 0)
            && w'.tombstoned == (if isDelete then w.tombstoned + {coll} else w.tombstoned)
            && w'.db.byID[coll] ==
               c.(slots := c.slots[pos := if isDelete then c.slots[pos].Mark()
                                          else Slot(w.db.size + RECORD_HEADER, payload)],
                  dirty := true, indexed := true)
  {
  }

  lemma NoneOnDisk(file: Bytes, off: nat)
    requires off <= |file|
    ensures OnDisk([], file, off)
  {
  }

  /** A catalog record, when it is accepted. */
  lemma DefinedIs(k: Codec, w: Walk, payload: Bytes)
    ensures var a, d := ApplyDefine(k, w, payload), k.decodeDefinition(payload);
            && !a.Unclear?
            && a.Applied? == (d.Some? && d.value.id != 0 && ValidName(d.value.name)
                              && d.value.id !in w.db.byID && d.value.name !in w.db.names)
            && (a.Applied? ==>
                  && a.w.tombstoned == w.tombstoned && a.w.db.size == w.db.size + RECORD_HEADER + |payload|
                  && a.w.db.total == w.db.total && a.w.db.dead == w.db.dead
                  && a.w.db.nextID == (if d.value.id >= w.db.nextID then (d.value.id + 1) % 0x1_0000 else w.db.nextID)
                  && a.w.db.names == w.db.names[d.value.name := d.value.id]
                  && a.w.db.byID == w.db.byID[d.value.id := Coll(d.value.name, [], false, false)])
  {
  }

  /** A record for a collection that exists, by its op. */
  ghost function ApplyTo(k: Codec, w: Walk, op: Byte, coll: Word16, doc: Bytes): Applied
    requires coll in w.db.byID
  {
    if op == OP_INSERT then ApplyInsert(k, w, coll, doc) else ApplyNamed(k, w, op == OP_DELETE, coll, doc)
  }

  lemma ApplyIs(k: Codec, w: Walk, op: Byte, coll: Word16, doc: Bytes)
    ensures var a := Apply(k, w, Record(op, coll, doc));
            if op == OP_DEFINE then a == ApplyDefine(k, w, doc)
            else if (op == OP_INSERT || op == OP_REPLACE || op == OP_DELETE) && coll in w.db.byID
            then a == ApplyTo(k, w, op, coll, doc)
            else a == Refused
  {
    hide ApplyNamed, ApplyInsert, ApplyDefine;
  }

  /** What fast open may skip: an insert into a collection without a table, and ops no case handles. */
  lemma ReadIs(db: Db, h: Header)
    ensures h.op == OP_DEFINE || h.op == OP_REPLACE || h.op == OP_DELETE ==> MustRead(db, h, true, false)
    ensures h.op == OP_INSERT && h.coll in db.byID ==> MustRead(db, h, true, false) == db.byID[h.coll].indexed
  {
  }

  lemma InsertKeeps(k: Codec, w: Walk, coll: Word16, doc: Bytes)
    requires coll in w.db.byID
    ensures var a := ApplyInsert(k, w, coll, doc);
            !a.Unclear? && (a.Applied? ==> a.w.tombstoned == w.tombstoned)
  {
  }

  // ----- the walk over bytes, one record at a time -----

  /** What the walk does with the record framed at its offset. */
  lemma WalkBytesAt(k: Codec, file: Bytes, fast: bool, w: Walk)
    requires w.db.size < |file| && Framed(file, w.db.size)
    ensures var off := w.db.size;
            var h, payload := HeaderAt(file, off), PayloadAt(file, off);
            var isLast := off + RECORD_HEADER + h.length >= |file|;
            var a := Apply(k, w, Record(h.op, h.coll, payload));
            if h.flags != 0 then WalkBytes(k, file, fast, w) == Failed
            else if MustRead(w.db, h, fast, isLast) && !ChecksumOk(k, file, off)
            then WalkBytes(k, file, fast, w) == if isLast then Torn(w) else Failed
            else Followed(k, file, fast, w, a)
  {
    hide Apply, ChecksumOk, MustRead, DecodeHeader;
    var h := HeaderAt(file, w.db.size);
    ApplyAdvances(k, w, Record(h.op, h.coll, PayloadAt(file, w.db.size)));
  }

  lemma WalkBytesEnd(k: Codec, file: Bytes, fast: bool, w: Walk)
    requires w.db.size == |file|
    ensures WalkBytes(k, file, fast, w) == Clean(w)
  {
  }

  /** Nothing is skipped that fast open must read; the read rule only ever adds to that of a middle record. */
  lemma MustReadMore(db: Db, h: Header, fast: bool, isLast: bool)
    ensures MustRead(db, h, true, false) ==> MustRead(db, h, fast, isLast)
  {
  }

  // ----- compaction -----

  /** The walk with the marks taken out of some collections. */
  ghost function Compacted(w: Walk, done: set<Word16>): (r: Walk)
    ensures r.db.byID.Keys == w.db.byID.Keys
  {
    w.(db := w.db.(byID := map id | id in w.db.byID ::
                     if id in done then w.db.byID[id].(slots := Unmarked(w.db.byID[id].slots)) else w.db.byID[id]))
  }

  lemma CompactedEnds(w: Walk)
    ensures Compacted(w, {}) == w && Compacted(w, w.tombstoned) == w.(db := Finish(w))
  {
    assert Compacted(w, {}).db.byID == w.db.byID;
  }

  lemma CompactedStep(w: Walk, done: set<Word16>, id: Word16)
    requires id in w.db.byID && id !in done
    ensures var a, b := Compacted(w, done), Compacted(w, done + {id});
            && OnlyIn(id, a.db, b.db) && b.db == a.db.(byID := b.db.byID)
            && b.db.byID[id] == a.db.byID[id].(slots := Unmarked(a.db.byID[id].slots))
            && a.db.byID.Keys == w.db.byID.Keys
  {
  }

  lemma {:induction false} UnmarkedOnDisk(s: seq<Slot>, file: Bytes, off: nat, n: nat)
    requires OnDisk(s, file, off) && n <= |s|
    ensures OnDisk(UnmarkedUpTo(s, n), file, off)
  {
    hide SlotOnDisk;
    if n > 0 {
      UnmarkedOnDisk(s, file, off, n - 1);
    }
  }

  lemma UnmarkedAllOnDisk(s: seq<Slot>, file: Bytes, off: nat)
    requires OnDisk(s, file, off)
    ensures OnDisk(Unmarked(s), file, off)
  {
    UnmarkedOnDisk(s, file, off, |s|);
  }

  /** What reading the next record leads to: cut the file here, refuse it, or apply the record. */
  datatype Act = Cut | Reject | Take(h: Header, payload: Bytes)

  ghost predicate Acted(k: Codec, file: Bytes, fast: bool, w: Walk, act: Act)
    requires w.db.size <= |file|
  {
    match act
    case Cut => WalkBytes(k, file, fast, w) == Torn(w)
    case Reject => WalkBytes(k, file, fast, w) == Failed
    case Take(h, payload) =>
      var off := w.db.size;
      && Framed(file, off) && h == HeaderAt(file, off)
      && (payload == PayloadAt(file, off) || !MustRead(w.db, h, true, false))
      && Followed(k, file, fast, w, Apply(k, w, Record(h.op, h.coll, PayloadAt(file, off))))
  }

  /** The walk goes where the record leads. */
  ghost predicate Followed(k: Codec, file: Bytes, fast: bool, w: Walk, a: Applied)
    requires w.db.size <= |file|
  {
    match a
    case Applied(w') => w'.db.size <= |file| && WalkBytes(k, file, fast, w) == WalkBytes(k, file, fast, w')
    case Refused => WalkBytes(k, file, fast, w) == Failed
    case Unclear => WalkBytes(k, file, fast, w) == Undetermined
  }

  lemma ChecksumIs(k: Codec, file: Bytes, off: nat)
    requires Framed(file, off)
    ensures ChecksumOk(k, file, off) ==
            (k.crc(file[off + 4..off + 8] + PayloadAt(file, off)) == HeaderAt(file, off).crc)
  {
  }

  /** How replay ends: at the end of the file, at a torn tail it cut off, or with an error. */
  datatype End = Going | Ended | Repaired | Corrupt

  /** The walk so far is the walk from the start, unless a record with an ambiguous _id lies behind it. */
  ghost predicate Traced(k: Codec, file: Bytes, fast: bool, w: Walk, clear: bool) {
    && FILE_HEADER <= |file| && w.db.size <= |file|
    && if clear then WalkBytes(k, file, fast, Start()) == WalkBytes(k, file, fast, w)
       else WalkBytes(k, file, fast, Start()) == Undetermined
  }

  lemma TraceStarts(k: Codec, file: Bytes, fast: bool)
    requires FILE_HEADER <= |file|
    ensures Traced(k, file, fast, Start(), true)
  {
  }

  lemma TraceEnds(k: Codec, file: Bytes, fast: bool, w: Walk, clear: bool)
    requires Traced(k, file, fast, w, clear) && w.db.size == |file|
    ensures WalkBytes(k, file, fast, Start()) == if clear then Clean(w) else Undetermined
  {
    WalkBytesEnd(k, file, fast, w);
    hide WalkBytes;
  }

  lemma TraceStops(k: Codec, file: Bytes, fast: bool, w: Walk, clear: bool, act: Act)
    requires Traced(k, file, fast, w, clear) && Acted(k, file, fast, w, act)
    ensures var o := WalkBytes(k, file, fast, Start());
            && (act.Cut? ==> o == Undetermined || o == Torn(w))
            && (act.Reject? ==> o == Undetermined || o == Failed)
  {
    hide WalkBytes, Followed;
  }

  lemma TraceTakes(k: Codec, file: Bytes, fast: bool, w: Walk, clear: bool, a: Applied, ok: bool, w': Walk)
    requires Traced(k, file, fast, w, clear) && Followed(k, file, fast, w, a) && Agrees(a, ok, w')
    ensures ok && w'.db.size <= |file| ==> Traced(k, file, fast, w', clear && a.Applied?)
    ensures !ok ==> WalkBytes(k, file, fast, Start()) == Undetermined || WalkBytes(k, file, fast, Start()) == Failed
  {
    hide WalkBytes;
  }

  // ----- reopening -----

  /** Which _id tables exist is no part of what a state and its log have in common. */
  lemma SameConsistent(k: Codec, e: Effect, db: Db)
    requires Consistent(k, e) && Visible(db) == Visible(e.db)
    ensures Consistent(k, Effect(db, e.recs))
  {
    hide IdsOk, AllInLog, InsertSlots, LogSize;
    VisibleAt(db, e.db);
    forall id: Word16
      ensures CleanAt(Effect(db, e.recs), id)
    {
      assert CleanAt(e, id);
    }
  }

  /** A state that shows what a rebuilt one does is a starting point for further runs as well. */
  lemma SameRebuilt(k: Codec, e: Effect, db: Db)
    requires Rebuilt(k, e) && Visible(db) == Visible(e.db)
    ensures Rebuilt(k, Effect(db, e.recs))
  {
    hide IdsOk, WalkLog, NoMarks, Unmarked;
    VisibleAt(db, e.db);
    var w := WalkLog(k, e.recs).w;
    forall id | id in db.byID
      ensures MirrorsColl(k, db.byID[id], w.db.byID[id], id in w.tombstoned)
    {
      assert MirrorsColl(k, e.db.byID[id], w.db.byID[id], id in w.tombstoned);
    }
  }

  lemma VisibleAt(a: Db, b: Db)
    requires Visible(a) == Visible(b)
    ensures a.size == b.size && a.nextID == b.nextID && a.byID.Keys == b.byID.Keys
    ensures forall id | id in b.byID :: a.byID[id] == b.byID[id].(indexed := a.byID[id].indexed)
  {
    assert Visible(a).byID.Keys == a.byID.Keys && Visible(b).byID.Keys == b.byID.Keys;
    forall id | id in b.byID
      ensures a.byID[id] == b.byID[id].(indexed := a.byID[id].indexed)
    {
      assert Visible(a).byID[id] == Visible(b).byID[id];
    }
  }

  /** The bytes of a log, and of a further record as many as a write that died had written. */
  ghost function TornFile(k: Codec, header: Bytes, recs: seq<Record>, r: Record, m: nat): Bytes
    requires m <= r.Size()
  {
    header + (LogBytes(k.crc, recs) + Encode(k.crc, r)[..m])
  }

  /**
   How the file of a run ends when it is opened after m bytes of a further record: refused when its
   log is not legible, and otherwise publishing a state that is the run's exactly when the file
   ends with the log or the log holds no tombstone.
   */
  lemma RunReopens(k: Codec, header: Bytes, start: Effect, ops: seq<Op>, r: Record, m: nat, fast: bool)
    returns (e: Effect)
    requires k.Lawful() && Rebuilt(k, start) && Consistent(k, start)
    requires LegalRun(k, start, ops) && EveryDefineKept(k, start, ops) && |header| == FILE_HEADER
    requires |r.payload| <= MAX_PAYLOAD && m < r.Size()
    ensures var file, a := TornFile(k, header, After(k, start, ops).recs, r, m), After(k, start, ops);
            FILE_HEADER <= |file| && file[..FILE_HEADER] == header &&
            var o := WalkBytes(k, file, fast, Start());
            && (!Legible(k, a.recs) ==> o == Failed)
            && (Legible(k, a.recs) ==>
                  && (if m == 0 then o.Clean? else o.Torn?) && e == Effect(Published(o), a.recs)
                  && o.w.db.size <= |file| && file[..o.w.db.size] == header + LogBytes(k.crc, a.recs)
                  && (m == 0 ==> file == header + LogBytes(k.crc, a.recs))
                  && (Visible(e.db) == Visible(a.db) <==> m == 0 || !HasDelete(a.recs))
                  && (Visible(e.db) == Visible(a.db) ==>
                        Rebuilt(k, e) && Consistent(k, e) && Holding(k, header + LogBytes(k.crc, a.recs), header, e)))
  {
    hide After, LegalRun, EveryDefineKept, Rebuilt, Consistent, WalkLog, WalkBytes, Finish, Visible, LogBytes,
      LogSize, Fits, Legible, HasDelete, Holding, Encode, Published;
    var a := After(k, start, ops);
    RunConsistent(k, start, ops);
    RunRebuilt(k, start, ops);
    ConsistentFits(k, a);
    TornFileStarts(k, header, a.recs, r, m);
    e := Effect(Empty(), []);
    if Legible(k, a.recs) {
      RebuiltWalk(k, a);
      var w := WalkLog(k, a.recs).w;
      WalkSize(k, a.recs);
      LogFileSize(k, header, a.recs);
      if m == 0 {
        CleanEnd(k, header, a.recs, fast);
      } else {
        TornTail(k, header, a.recs, r, m, fast);
      }
      FinishMirrors(k, a.db, w);
      TornTailPublishes(k, a);
      e := Effect(if m == 0 then Finish(w) else w.db, a.recs);
      PublishedIs(w);
      if Visible(e.db) == Visible(a.db) {
        SameConsistent(k, a, e.db);
        SameRebuilt(k, a, e.db);
        WholeFile(k, header, a, e.db);
      }
    } else {
      RefusedLogFails(k, header, a.recs, Encode(k.crc, r)[..m], fast);
    }
  }

  lemma PublishedIs(w: Walk)
    ensures Published(Clean(w)) == Finish(w) && Published(Torn(w)) == w.db
  {
  }

  lemma LogFileSize(k: Codec, header: Bytes, recs: seq<Record>)
    ensures |header + LogBytes(k.crc, recs)| == |header| + LogSize(recs)
  {
  }

  lemma TornFileStarts(k: Codec, header: Bytes, recs: seq<Record>, r: Record, m: nat)
    requires |header| == FILE_HEADER && m <= r.Size()
    ensures var file, whole := TornFile(k, header, recs, r, m), header + LogBytes(k.crc, recs);
            && |whole| <= |file| && file[..|whole|] == whole && FILE_HEADER <= |file| && file[..FILE_HEADER] == header
            && (m == 0 ==> file == whole)
  {
    hide LogBytes, Encode;
  }

  lemma ConsistentFits(k: Codec, e: Effect)
    requires Consistent(k, e)
    ensures Fits(e.recs)
  {
  }

  lemma WholeFile(k: Codec, header: Bytes, a: Effect, db: Db)
    requires Consistent(k, a) && Visible(db) == Visible(a.db) && |header| == FILE_HEADER
    ensures var file := header + LogBytes(k.crc, a.recs);
            Holding(k, file, header, Effect(db, a.recs)) && |file| >= FILE_HEADER && file[..FILE_HEADER] == header
  {
    VisibleAt(db, a.db);
    assert a.db.size == FILE_HEADER + LogSize(a.recs);
    hide LogBytes, LogSize, Consistent, Visible;
    var file := header + LogBytes(k.crc, a.recs);
    assert file[..|file|] == file;
  }
}
