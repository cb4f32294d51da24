/**
 The database object (nosqlite.go, store.go, collection.go, catalog.go): its fields, the write
 operations that update them in place, what each leaves in memory and in the file, and the replay
 that rebuilds them from the file. The ghost parameter e is the state as a value together with the
 log it rests on: each operation takes the object from e to exactly the step it stands for.
 */
module Store {
  import opened Wrappers
  import opened Framing
  import opened Slots
  import opened Database
  import opened IdTables
  import opened Replay
  import opened Live
  import opened Recovery
  import opened Scan
  import opened Collections
  import opened Appends
  import opened Find
  import opened Steps
  import opened Rebuild
  import opened Legibility

  class DB {
    const k: Codec
    var file: Bytes
    var size: nat
    var total: int
    var dead: nat
    var nextID: Word16
    var catalog: map<string, Collection>
    var byID: map<Word16, Collection>
    ghost const header: Bytes

    /** The two maps agree, and with the scalar fields they are what e says. */
    ghost predicate Linked(e: Effect)
      reads this
    {
      && size == e.db.size && total == e.db.total && dead == e.db.dead && nextID == e.db.nextID
      && catalog.Keys == e.db.names.Keys && byID.Keys == e.db.byID.Keys
      && (forall n | n in catalog ::
            catalog[n].id == e.db.names[n] && catalog[n].id in byID && byID[catalog[n].id] == catalog[n])
      && (forall i | i in byID :: byID[i].id == i)
    }

    ghost function Tables(): set<object?>
      reads this, byID.Values
    {
      set i | i in byID :: byID[i].ids
    }

    ghost function Parts(): set<object>
      reads this, byID.Values, Tables()
    {
      set i, o | i in byID && o in byID[i].Footprint() :: o
    }

    /** No two collections share a part, and none has the database as one. */
    ghost predicate Apart()
      reads this, byID.Values, Tables()
    {
      && (forall i | i in byID :: this !in byID[i].Footprint())
      && (forall i, j | i in byID && j in byID && i != j :: byID[i].Footprint() !! byID[j].Footprint())
    }

    /** Collection c is well formed and holds what e says of it. */
    ghost predicate Shown(c: Collection, e: Effect)
      reads c, c.Footprint()
    {
      c.id in e.db.byID && c.Valid(k) && c.View() == e.db.byID[c.id]
    }

    /** The object, its collections and its file are this state and this log. */
    ghost predicate Valid(e: Effect)
      reads this, byID.Values, Tables(), Parts()
    {
      && Linked(e) && Apart()
      && (forall i | i in byID :: Shown(byID[i], e))
      && k.Lawful() && Consistent(k, e) && Holding(k, file, header, e)
    }

    /** A brand-new database: a file of nothing but its header. */
    constructor (k: Codec, created: Bytes)
      requires k.Lawful() && |created| == 8
      ensures this.k == k && Valid(Effect(Empty(), [])) && catalog == map[]
      ensures file == header == FileHeader(created)
    {
      this.k, this.header := k, FileHeader(created);
      file, size, total, dead, nextID := FileHeader(created), FILE_HEADER, 0, 0, 1;
      catalog, byID := map[], map[];
      new;
      EmptyConsistent(k);
      assert file[..FILE_HEADER] == header + LogBytes(k.crc, []);
      hide Consistent, LogBytes, FileHeader;
    }

    /** A database object over an existing file, before replay has read any of it. */
    constructor Existing(k: Codec, file: Bytes)
      requires k.Lawful() && FILE_HEADER <= |file|
      ensures this.k == k && this.file == file && this.header == file[..FILE_HEADER]
      ensures Walking(Start(), FILE_HEADER) && Parts() == {}
    {
      this.k, this.file, this.header := k, file, file[..FILE_HEADER];
      size, total, dead, nextID := 0, 0, 0, 1;
      catalog, byID := map[], map[];
    }

    /** One of this database's collections. */
    ghost predicate Owns(c: Collection)
      reads this
    {
      c.id in byID && byID[c.id] == c
    }

    // ----- appending -----

    /** Appends one record; the append point moves only when every byte landed. */
    method AppendRecord(op: Byte, coll: Word16, payload: Bytes, landed: nat) returns (off: nat, total: nat, ok: bool)
      requires size <= |file|
      modifies this`file, this`size
      ensures ok <==> |payload| <= MAX_PAYLOAD && landed >= RECORD_HEADER + |payload|
      ensures ok ==> off == old(size) && total == RECORD_HEADER + |payload| && size == old(size) + total <= |file|
      ensures ok ==> file[..size] == old(file[..size]) + Encode(k.crc, Record(op, coll, payload))
      ensures !ok ==> size == old(size) <= |file| && file[..size] == old(file[..size])
      ensures var buf := Encode(k.crc, Record(op, coll, payload));
              file == if |payload| > MAX_PAYLOAD then old(file)
                      else WriteAt(old(file), old(size), if landed < |buf| then buf[..landed] else buf)
    {
      hide Encode;
      off, total, ok := 0, 0, false;
      if |payload| > MAX_PAYLOAD {
        return;
      }
      total := RECORD_HEADER + |payload|;
      var buf := Encode(k.crc, Record(op, coll, payload));
      off := size;
      if landed < total {
        var landing := buf[..landed];
        ghost var before := file[..size];
        file := WriteAt(file, off, landing);
        PrefixOfPrefix(file, before, landing, 0);
        return;
      }
      file := WriteAt(file, off, buf);
      size := size + total;
      ok := true;
    }

    /**
     Appends several records with one write. The append point moves past the records that landed
     in full and no further, so a torn one is overwritten by the next append.
     */
    method AppendBatch(op: Byte, coll: Word16, ps: seq<Bytes>, landed: nat)
      returns (offs: seq<int>, written: nat, ok: bool)
      requires size <= |file|
      modifies this`file, this`size
      ensures ok <==> !AnyTooLong(ps) && Whole(ps, landed) == |ps|
      ensures AnyTooLong(ps) ==> written == 0 && file == old(file) && size == old(size)
      ensures !AnyTooLong(ps) ==>
                written == Whole(ps, landed) && StartsAt(op, coll, ps, old(size), offs) && |offs| == |ps|
      ensures !AnyTooLong(ps) ==>
                (&& size == old(size) + LogSize(Records(op, coll, ps[..written])) <= |file|
                 && file[..size] == old(file[..size]) + LogBytes(k.crc, Records(op, coll, ps[..written])))
      ensures !AnyTooLong(ps) ==>
                var buf := LogBytes(k.crc, Records(op, coll, ps));
                file == WriteAt(old(file), old(size), if landed < |buf| then buf[..landed] else buf)
    {
      hide LogBytes, LogSize, Encode, Records, Whole, AnyTooLong, StartsAt, WriteAt;
      offs, written, ok := [], 0, false;
      var fits, total := Measure(op, coll, ps);
      if !fits {
        return;
      }
      var buf;
      buf, offs := Frame(k.crc, op, coll, ps, size);
      var n := if landed < total then landed else total;
      WholeOfAll(op, coll, ps, landed, total);
      BatchSize(k.crc, Records(op, coll, ps));
      assert buf[..|buf|] == buf;
      ghost var before := file;
      file := WriteAt(file, size, buf[..n]);
      LandedRecords(k.crc, before, size, file, op, coll, ps, n);
      var consumed;
      written, consumed := CountWritten(op, coll, ps, n);
      size := size + consumed;
      ok := n == total;
    }

    // ----- inserting -----

    /**
     ensureIDTable, then hasID: whether a supplied _id is turned away, because the table cannot be
     built, the lookup comes upon a document it cannot read, or the _id is there already.
     */
    method HasID(c: Collection, id: string) returns (refused: bool)
      requires k.Lawful() && c.Valid(k) && OnDisk(c.slots, file, size) && id != ""
      modifies c`ids, c`filed
      ensures c.Valid(k) && c.Grown()
      ensures c.View() == old(c.View()).(indexed := old(c.ids) != null || CanIndex(k, old(c.View())))
      ensures refused <==> !CanIndex(k, old(c.View())) || Blocked(k, c.slots, id)
    {
      hide OnDisk, Holds, HasId, CanIndex, Blocked, Hides;
      IndexedCan(k, c.View());
      ViewSlots(c);
      var built := c.EnsureIDTable(k, file, size);
      if !built {
        return true;
      }
      var pos, ok := c.LookupID(k, file, size, id);
      Blocks(k, c.slots, id, pos, ok);
      refused := !ok || pos.Some?;
    }

    /** CheckSupplied, stated of the database. */
    method CheckDuplicates(c: Collection, docs: seq<NewDoc>, ghost db: Db) returns (ok: bool)
      requires k.Lawful() && this !in c.Footprint() && Reflects(c, Effect(db, []), file, size)
      requires OnDisk(c.slots, file, size)
      requires forall i | 0 <= i < |docs| :: docs[i].id != ""
      modifies c`ids, c`filed
      ensures c.Grown() && this !in c.Footprint()
      ensures ok == CheckIds(k, db.byID[c.id], docs, 0, {}).0
      ensures Reflects(c, Effect(Checked(k, db, c.id, docs), []), file, size)
    {
      hide OnDisk, CheckIds, Checked, Collection.Valid, LogSize, LogBytes;
      CheckedIs(k, db, c.id, docs);
      ok := CheckSupplied(c, docs);
    }

    /** The duplicate check: builds the _id table at the first supplied _id and looks each one up. */
    method CheckSupplied(c: Collection, docs: seq<NewDoc>) returns (ok: bool)
      requires k.Lawful() && c.Valid(k) && OnDisk(c.slots, file, size)
      requires forall i | 0 <= i < |docs| :: docs[i].id != ""
      modifies c`ids, c`filed
      ensures c.Valid(k) && c.Grown()
      ensures c.View() == old(c.View()).(indexed := c.ids != null)
      ensures (ok, c.ids != null) == CheckIds(k, old(c.View()), docs, 0, {})
    {
      hide OnDisk, Holds, HasId, CheckIds, Collection.Valid, CanIndex, Blocked;
      ok := true;
      ghost var v := c.View();
      var seen: set<string> := {};
      var i := 0;
      while i < |docs|
        invariant i <= |docs| && ok && c.Valid(k) && c.Grown()
        invariant c.View() == v.(indexed := c.ids != null)
        invariant CheckIds(k, v, docs, 0, {}) == CheckIds(k, c.View(), docs, i, seen)
      {
        CheckIdsStep(k, c.View(), docs, i, seen);
        if docs[i].supplied {
          if docs[i].id in seen {
            return false;
          }
          seen := seen + {docs[i].id};
          IndexedCan(k, c.View());
          var refused := HasID(c, docs[i].id);
          if refused {
            return false;
          }
        }
        i := i + 1;
      }
      CheckIdsEnd(k, c.View(), docs, seen);
    }

    /** Publishes the index entries of the documents that landed. */
    method PublishAll(c: Collection, offs: seq<int>, docs: seq<NewDoc>, written: nat, ghost db: Db)
      requires k.Lawful() && c.Valid(k) && this !in c.Footprint()
      requires c.id in db.byID && db.byID[c.id] == c.View() && total == db.total
      requires written <= |docs| == |offs| && StartsAt(OP_INSERT, c.id, Payloads(docs), db.size, offs)
      requires forall i | 0 <= i < |docs| :: Carries(k, docs[i].payload, docs[i].id)
      modifies this`total, c.Footprint()
      ensures c.Valid(k) && c.Grown()
      ensures c.View() == AddDocs(db, c.id, Payloads(docs)[..written]).byID[c.id]
      ensures total == AddDocs(db, c.id, Payloads(docs)[..written]).total
    {
      hide Collection.Valid, LogSize, Records, AddDocs;
      ghost var ps := Payloads(docs);
      AddDocsNone(db, c.id, ps);
      var i := 0;
      while i < written
        invariant i <= written && c.Valid(k) && this !in c.Footprint() && c.Grown()
        invariant c.View() == AddDocs(db, c.id, ps[..i]).byID[c.id]
        invariant total == AddDocs(db, c.id, ps[..i]).total
      {
        AddDocsNext(db, c.id, ps, i, offs[i]);
        c.Publish(k, offs[i] + RECORD_HEADER, |docs[i].payload|, docs[i].id, docs[i].payload);
        total := total + 1;
        i := i + 1;
      }
    }

    /** The scalar fields and the file agree with e. */
    ghost predicate Aligned(e: Effect)
      reads `file, `size, `total, `dead, `nextID
    {
      && size == e.db.size && total == e.db.total && dead == e.db.dead && nextID == e.db.nextID
      && Holding(k, file, header, e)
    }

    /** A collection none of whose parts changed still holds what e says of it. */
    twostate lemma OtherStands(d: Collection, new from: Effect, new e: Effect)
      requires old(Shown(d, from)) && d.Untouched()
      requires d.id in e.db.byID && e.db.byID[d.id] == from.db.byID[d.id]
      ensures Shown(d, e) && d.Footprint() == old(d.Footprint())
    {
    }

    twostate lemma ApartStands(c: Collection)
      requires old(Apart()) && old(Owns(c)) && Same(byID, old(byID))
      requires forall i | i in byID && i != c.id :: byID[i].Footprint() == old(byID[i].Footprint())
      requires this !in c.Footprint() && c.Grown()
      ensures Apart()
    {
      forall i | i in byID && i != c.id
        ensures byID[i].Footprint() !! c.Footprint()
      {
        assert old(byID[i].Footprint() !! c.Footprint());
      }
    }

    /** A write confined to the database object and collection c leaves the others alone. */
    twostate lemma OthersUntouched(c: Collection)
      requires old(Apart()) && old(Owns(c)) && Same(byID, old(byID))
      requires forall o: object | old(allocated(o)) && o != this && o !in old(c.Footprint()) :: unchanged(o)
      ensures forall i | i in byID && i != c.id :: byID[i].Untouched()
    {
      forall i | i in byID && i != c.id
        ensures byID[i].Untouched()
      {
        var d := byID[i];
        assert old(d.Footprint() !! c.Footprint());
        assert forall o | o in old(d.Footprint()) :: unchanged(o);
      }
    }

    /** An operation that has changed only collection c, and that one as e says, leaves the database valid. */
    twostate lemma StepStands(c: Collection, new from: Effect, new e: Effect)
      requires k.Lawful() && old(Linked(from)) && old(Apart()) && old(Owns(c))
      requires Same(byID, old(byID)) && Same(catalog, old(catalog))
      requires forall i | i in byID && i != c.id :: old(Shown(byID[i], from)) && byID[i].Untouched()
      requires OnlyIn(c.id, from.db, e.db)
      requires Consistent(k, e) && Aligned(e) && Shown(c, e)
      requires this !in c.Footprint() && c.Grown()
      ensures Valid(e)
    {
      hide Consistent, Holding, Collection.Valid, Collection.Footprint, Collection.Untouched, Shown, Apart;
      assert Linked(e) by {
        assert old(Linked(from));
      }
      forall i | i in byID && i != c.id
        ensures Shown(byID[i], e)
        ensures byID[i].Footprint() == old(byID[i].Footprint())
      {
        OtherStands(byID[i], from, e);
      }
      ApartStands(c);
    }

    /** What an operation on one collection needs of a valid database, and where it will take it. */
    lemma Begin(c: Collection, e: Effect, op: Op)
      requires Valid(e) && Owns(c) && Legal(k, e.db, op) && !op.DefineOp? && op.coll == c.id
      ensures k.Lawful() && Ready(c, e) && Ready(c, Effect(e.db, [])) && this !in c.Footprint()
      ensures Consistent(k, Stepped(k, e, op)) && OnlyIn(c.id, e.db, Step(k, e.db, op).db)
    {
      hide Holding, Consistent, Collection.Valid, Step, Legal, OnlyIn;
      assert Shown(c, e);
      ReadsBack(k, e, c.id, header, file);
      StepConsistent(k, e, op);
      StepTouches(k, e.db, op);
    }

    /** What the fields hold after an operation is what the next state says. */
    lemma GrowsTo(c: Collection, from: Effect, s: Effect, before: Bytes, at: nat)
      requires from.db.size == at && Holding(k, before, header, from) && Reflects(c, s, before, at)
      ensures Aligned(Effect(s.db, from.recs + s.recs)) && Shown(c, Effect(s.db, from.recs + s.recs))
    {
      hide Holding, LogBytes, LogSize, Collection.Valid;
      HoldingGrows(k, before, file, header, from, s);
    }

    /** The second half of an insert: write the batch and publish what landed of it. */
    method WriteInserts(c: Collection, docs: seq<NewDoc>, landed: nat, ghost db: Db) returns (written: nat, ok: bool)
      requires k.Lawful() && this !in c.Footprint() && Reflects(c, Effect(db, []), file, size)
      requires forall i | 0 <= i < |docs| :: Carries(k, docs[i].payload, docs[i].id)
      modifies this`file, this`size, this`total, c.Footprint()
      ensures written == if AnyTooLong(Payloads(docs)) then 0 else Whole(Payloads(docs), landed)
      ensures ok <==> !AnyTooLong(Payloads(docs)) && written == |docs|
      ensures c.Grown() && this !in c.Footprint()
      ensures Reflects(c, Inserted(db, c.id, Payloads(docs)[..written]), old(file), old(size))
    {
      hide Collection.Valid, AddDocs, LogSize, LogBytes, Records, StartsAt, Whole, AnyTooLong;
      ghost var ps := Payloads(docs);
      AddDocsNone(db, c.id, ps);
      EmptyBatch(k.crc, OP_INSERT, c.id, ps);
      var offs;
      offs, written, ok := AppendBatch(OP_INSERT, c.id, Payloads(docs), landed);
      AddDocsShape(db, c.id, ps[..written]);
      if written > 0 {
        PublishAll(c, offs, docs, written, db);
      }
    }

    /** The file has grown by these records at its append point. */
    ghost predicate Landed(before: Bytes, from: nat, recs: seq<Record>)
      reads `file, `size
    {
      && from <= |before| && size == from + LogSize(recs) <= |file|
      && file[..size] == before[..from] + LogBytes(k.crc, recs)
    }

    /** The fields hold what an effect says of collection c, and its records are in the file. */
    ghost predicate Reflects(c: Collection, s: Effect, before: Bytes, from: nat)
      reads `file, `size, `total, `dead, `nextID, c, c.Footprint()
    {
      && c.Valid(k) && c.id in s.db.byID && c.View() == s.db.byID[c.id]
      && size == s.db.size && total == s.db.total && dead == s.db.dead && nextID == s.db.nextID
      && Landed(before, from, s.recs)
    }

    /** Once the fields hold what a step says of collection c, the database is in the next state. */
    twostate lemma Settle(c: Collection, new e: Effect, new op: Op)
      requires old(Valid(e)) && old(Owns(c)) && Same(byID, old(byID)) && Same(catalog, old(catalog))
      requires forall o: object | old(allocated(o)) && o != this && o !in old(c.Footprint()) :: unchanged(o)
      requires Legal(k, e.db, op) && OnlyIn(c.id, e.db, Step(k, e.db, op).db) && Consistent(k, Stepped(k, e, op))
      requires Reflects(c, Step(k, e.db, op), old(file), old(size)) && this !in c.Footprint() && c.Grown()
      ensures Valid(Stepped(k, e, op))
    {
      hide Consistent, Collection.Valid, Collection.View, Collection.Footprint, Collection.Untouched, Shown, Apart,
        OnlyIn, Holding, Aligned, Reflects, Step, Legal;
      OthersUntouched(c);
      assert old(Linked(e));
      GrowsTo(c, e, Step(k, e.db, op), old(file), old(size));
      StepStands(c, e, Stepped(k, e, op));
    }

    /** The work of InsertMany: everything but the ghost state. */
    method CheckAndInsert(c: Collection, docs: seq<NewDoc>, landed: nat, ghost db: Db) returns (written: nat, ok: bool)
      requires k.Lawful() && Ready(c, Effect(db, [])) && Legal(k, db, InsertOp(c.id, docs, landed))
      modifies this`file, this`size, this`total, c.Footprint()
      ensures c.Grown() && this !in c.Footprint()
      ensures Reflects(c, Step(k, db, InsertOp(c.id, docs, landed)), old(file), old(size))
      ensures written == |Step(k, db, InsertOp(c.id, docs, landed)).recs| <= |docs|
      ensures ok <==> written == |docs|
    {
      NothingToInsert(k, db, c.id, docs);
      LegalIds(k, db, c.id, docs, landed);
      InsertIs(k, db, c.id, docs, landed);
      hide Collection.Valid, Collection.View, Collection.Footprint, OnDisk, IdsOk, Step, Legal, CheckIds, Checked,
        Inserted, Whole, AnyTooLong, Payloads, Reflects;
      written := 0;
      ok := CheckDuplicates(c, docs, db);
      if ok {
        written, ok := WriteInserts(c, docs, landed, Checked(k, db, c.id, docs));
      }
    }

    /**
     InsertMany: check every supplied _id, write the batch with one write, and publish the index
     entries of the documents that landed. A failed sync is an error, but takes nothing back.
     */
    method InsertMany(c: Collection, docs: seq<NewDoc>, landed: nat, synced: bool, ghost e: Effect)
      returns (written: nat, ok: bool)
      requires Valid(e) && Owns(c) && Legal(k, e.db, InsertOp(c.id, docs, landed))
      modifies this, c.Footprint()
      ensures Valid(Stepped(k, e, InsertOp(c.id, docs, landed)))
      ensures Same(byID, old(byID)) && Same(catalog, old(catalog))
      ensures written == |Step(k, e.db, InsertOp(c.id, docs, landed)).recs|
      ensures ok <==> docs == [] || (written == |docs| && synced)
    {
      hide *;
      Begin(c, e, InsertOp(c.id, docs, landed));
      written, ok := CheckAndInsert(c, docs, landed, e.db);
      ok := ok && (docs == [] || synced);
      Settle(c, e, InsertOp(c.id, docs, landed));
    }

    /** The second half of a single insert: append the record and publish it if it landed. */
    method WriteInsert(c: Collection, doc: NewDoc, landed: nat, ghost db: Db) returns (ok: bool)
      requires k.Lawful() && this !in c.Footprint() && Reflects(c, Effect(db, []), file, size)
      requires Carries(k, doc.payload, doc.id)
      modifies this`file, this`size, this`total, c.Footprint()
      ensures c.Grown() && this !in c.Footprint()
      ensures ok <==> |doc.payload| <= MAX_PAYLOAD && landed >= RECORD_HEADER + |doc.payload|
      ensures Reflects(c, AddedOne(db, c.id, doc.payload, ok), old(file), old(size))
    {
      hide Collection.Valid, LogSize, LogBytes, Encode, AddedOne;
      OneLanded(k.crc, Record(OP_INSERT, c.id, doc.payload));
      AddedOneIs(db, c.id, doc.payload);
      var off, bytes;
      off, bytes, ok := AppendRecord(OP_INSERT, c.id, doc.payload, landed);
      if ok {
        c.Publish(k, off + RECORD_HEADER, |doc.payload|, doc.id, doc.payload);
        total := total + 1;
      }
    }

    /** HasID, stated of the database. */
    method CheckOne(c: Collection, id: string, ghost db: Db) returns (refused: bool)
      requires k.Lawful() && this !in c.Footprint() && Reflects(c, Effect(db, []), file, size)
      requires OnDisk(c.slots, file, size) && id != ""
      modifies c`ids, c`filed
      ensures c.Grown() && this !in c.Footprint()
      ensures refused <==> !CanIndex(k, db.byID[c.id]) || Blocked(k, db.byID[c.id].slots, id)
      ensures Reflects(c, Effect(if CanIndex(k, db.byID[c.id]) then WithTable(db, c.id, true) else db, []), file, size)
    {
      hide OnDisk, Blocked, CanIndex, Collection.Valid, LogSize, LogBytes;
      IndexedCan(k, db.byID[c.id]);
      ViewSlots(c);
      refused := HasID(c, id);
    }

    /** The work of Insert: the same as a batch of one, written with appendRecord. */
    method CheckAndInsertOne(c: Collection, doc: NewDoc, landed: nat, ghost db: Db) returns (ok: bool)
      requires k.Lawful() && Ready(c, Effect(db, [])) && Legal(k, db, InsertOp(c.id, [doc], landed))
      modifies this`file, this`size, this`total, c.Footprint()
      ensures c.Grown() && this !in c.Footprint()
      ensures Reflects(c, Step(k, db, InsertOp(c.id, [doc], landed)), old(file), old(size))
      ensures ok <==> |Step(k, db, InsertOp(c.id, [doc], landed)).recs| == 1
    {
      InsertOneIs(k, db, c.id, doc, landed);
      assert c in c.Footprint();
      hide Collection.Valid, Collection.View, Collection.Footprint, OnDisk, IdsOk, CanIndex, Blocked, Step, Legal,
        WithTable, AddedOne, Reflects;
      if doc.supplied {
        var refused := CheckOne(c, doc.id, db);
        if refused {
          return false;
        }
        ok := WriteInsert(c, doc, landed, WithTable(db, c.id, true));
      } else {
        ok := WriteInsert(c, doc, landed, db);
      }
    }

    /** Insert and InsertJSON. A document whose record landed is indexed even when the sync fails. */
    method Insert(c: Collection, doc: NewDoc, landed: nat, synced: bool, ghost e: Effect) returns (ok: bool)
      requires Valid(e) && Owns(c) && Legal(k, e.db, InsertOp(c.id, [doc], landed))
      modifies this, c.Footprint()
      ensures Valid(Stepped(k, e, InsertOp(c.id, [doc], landed)))
      ensures Same(byID, old(byID)) && Same(catalog, old(catalog))
      ensures ok <==> |Step(k, e.db, InsertOp(c.id, [doc], landed)).recs| == 1 && synced
    {
      hide *;
      Begin(c, e, InsertOp(c.id, [doc], landed));
      ok := CheckAndInsertOne(c, doc, landed, e.db);
      ok := ok && synced;
      Settle(c, e, InsertOp(c.id, [doc], landed));
    }

    // ----- finding -----

    /** What an operation on collection c works from. */
    ghost predicate Ready(c: Collection, e: Effect)
      reads `file, `size, `total, `dead, `nextID, c, c.Footprint()
    {
      && this !in c.Footprint() && Reflects(c, Effect(e.db, []), file, size)
      && OnDisk(c.slots, file, size) && IdsOk(k, c.slots)
    }

    /** What an operation works from is still there when nothing of it has changed. */
    twostate lemma StillReady(c: Collection, new e: Effect, new touched: set<object>)
      requires old(Ready(c, e)) && touched == {}
      requires forall o: object | old(allocated(o)) && o !in touched :: unchanged(o)
      ensures Ready(c, e)
    {
      hide Collection.Valid, Landed, OnDisk, IdsOk;
      assert this !in touched && c !in touched;
      if old(c.ids) != null {
        var t: IdTable := old(c.ids);
        assert t !in touched && old(t.fingerprints) !in touched && old(t.positions) !in touched;
      }
    }

    /** The snapshot of a valid database meets the scan's needs. */
    lemma CanScan(c: Collection, e: Effect)
      requires Valid(e) && Owns(c)
      ensures c.id in e.db.byID
      ensures var snap := Snapshot(file, c.offsets, c.lengths, size, total, c.dirty);
              && snap.Sound() && snap.Docs() == DocsOf(e.db.byID[c.id].slots)
              && (!snap.dirty ==> Backed(k, snap, header, e.recs) && DocsOf(InsertSlots(e.recs, c.id)) == snap.Docs())
    {
      hide Consistent, Holding, Backed, InsertSlots, DocsOf, Apart;
      assert Shown(c, e);
      ReadColumns(c.offsets, c.lengths, c.slots);
      ScansAgree(k, e, c.id, header, file);
      assert Snapshot(file, c.offsets, c.lengths, size, total, c.dirty) == SnapshotOf(e, c.id, file);
    }

    /** A scan of collection c hands out its documents until the callback stops it. */
    method ScanDocuments(c: Collection, go: Visitor, favoursSequential: bool, ghost e: Effect)
      returns (visits: seq<Bytes>)
      requires Valid(e) && Owns(c)
      ensures c.id in e.db.byID && visits == Visited(DocsOf(e.db.byID[c.id].slots), go)
    {
      CanScan(c, e);
      hide *;
      var snap := Snapshot(file, c.offsets, c.lengths, size, total, c.dirty);
      var failed;
      visits, failed := ScanRecords(snap, c.id, go, favoursSequential, k, header, e.recs);
    }

    /** The position of the first document a filter accepts, or -1. */
    method FindFirst(c: Collection, accepts: Bytes -> bool, favoursSequential: bool, ghost e: Effect) returns (pos: int)
      requires Valid(e) && Owns(c) && Ready(c, e)
      ensures var ps := Matches(e.db.byID[c.id].slots, accepts, 1); pos == if ps == [] then -1 else ps[0]
      ensures Ready(c, e)
    {
      hide *;
      ReadyView(c, e);
      FirstIsLast(e.db.byID[c.id].slots, accepts);
      var visits := ScanDocuments(c, Quota(accepts, 1), favoursSequential, e);
      pos := if visits != [] && accepts(visits[|visits| - 1]) then |visits| - 1 else -1;
      StillReady(c, e, {});
    }

    /** The positions and _ids of the first matches of a filter. */
    method FindAll(c: Collection, accepts: Bytes -> bool, limit: int, favoursSequential: bool, ghost e: Effect)
      returns (ps: seq<nat>, ids: seq<string>, ok: bool)
      requires Valid(e) && Owns(c) && Ready(c, e)
      ensures Ready(c, e)
      ensures ok && ps == Matches(e.db.byID[c.id].slots, accepts, limit) && |ids| == |ps|
      ensures forall i | 0 <= i < |ps| :: k.exact(e.db.byID[c.id].slots[ps[i]].doc) == ids[i]
    {
      hide *;
      ReadyView(c, e);
      VisitedMatches(e.db.byID[c.id].slots, accepts, limit);
      VisitedIds(k, e.db.byID[c.id].slots, accepts, limit);
      var visits := ScanDocuments(c, Quota(accepts, limit), favoursSequential, e);
      ps, ids, ok := Gather(k, visits, accepts);
      StillReady(c, e, {});
    }

    // ----- replacing -----

    /** The write half of Replace: append the new version and, if it landed, repoint the document to it. */
    method WriteReplacement(c: Collection, pos: nat, payload: Bytes, landed: nat, ghost db: Db) returns (ok: bool)
      requires this !in c.Footprint() && Reflects(c, Effect(db, []), file, size) && pos < |c.slots|
      requires c.slots[pos].doc != [] && FiledAs(k, c.slots[pos].doc) == FiledAs(k, payload)
      modifies this`file, this`size, this`dead, c`offsets, c`lengths, c`slots, c`dirty
      ensures ok <==> |payload| <= MAX_PAYLOAD && landed >= RECORD_HEADER + |payload|
      ensures c.ids == old(c.ids) && Reflects(c, Replaced(db, c.id, pos, payload, ok), old(file), old(size))
    {
      hide Collection.Valid, LogSize, LogBytes, Encode, Replaced;
      OneLanded(k.crc, Record(OP_REPLACE, c.id, payload));
      ReplacedIs(db, c.id, pos, payload);
      LengthAt(c, pos);
      var off, bytes;
      off, bytes, ok := AppendRecord(OP_REPLACE, c.id, payload, landed);
      if ok {
        dead := dead + (RECORD_HEADER + c.lengths[pos]);
        c.ReplaceIndex(k, pos, off + RECORD_HEADER, |payload|, payload);
        c.SetDirty(k);
      }
    }

    lemma LengthAt(c: Collection, pos: nat)
      requires c.Valid(k) && pos < |c.slots|
      ensures |c.lengths| == |c.slots| && c.lengths[pos] == |c.slots[pos].doc|
    {
    }

    /** idAt, once the document has been read. */
    method IdAt(c: Collection, pos: nat) returns (id: Option<string>)
      requires c.Valid(k) && OnDisk(c.slots, file, size) && pos < |c.slots|
      ensures id == k.probe(c.slots[pos].doc)
    {
      var doc := c.ReadDoc(file, size, pos);
      id := k.probe(doc);
    }

    /** Replace once the document is found: check the _id the caller gave, write the new version. */
    method ReplaceAt(c: Collection, pos: nat, suppliedID: string, encode: string -> Bytes, landed: nat, ghost db: Db)
      returns (n: nat)
      requires Ready(c, Effect(db, [])) && pos < |c.slots| && c.slots[pos].doc != []
      requires forall id: string :: Carries(k, encode(id), id)
      modifies this`file, this`size, this`dead, c`offsets, c`lengths, c`slots, c`dirty
      ensures c.ids == old(c.ids)
      ensures Reflects(c, ReplacedAt(k, db, c.id, pos, suppliedID, encode, landed), old(file), old(size))
      ensures n == |ReplacedAt(k, db, c.id, pos, suppliedID, encode, landed).recs|
    {
      ReplacedIs(db, c.id, pos, encode(match k.probe(c.slots[pos].doc) case None => "" case Some(x) => x));
      hide Collection.Valid, Collection.Footprint, OnDisk, Replaced, LogBytes, LogSize;
      var id := IdAt(c, pos);
      if id == None || (suppliedID != "" && suppliedID != id.value) {
        return 0;
      }
      var ok := WriteReplacement(c, pos, encode(id.value), landed, db);
      n := if ok then 1 else 0;
    }

    /** The work of Replace. */
    method FindAndReplace(c: Collection, accepts: Bytes -> bool, suppliedID: string, encode: string -> Bytes,
                          landed: nat, favoursSequential: bool, ghost e: Effect) returns (n: nat, found: bool)
      requires Valid(e) && Owns(c) && Legal(k, e.db, ReplaceOp(c.id, accepts, suppliedID, encode, landed))
      requires Ready(c, e)
      modifies this`file, this`size, this`dead, c.Footprint()
      ensures c.Grown() && this !in c.Footprint()
      ensures Reflects(c, Step(k, e.db, ReplaceOp(c.id, accepts, suppliedID, encode, landed)), old(file), old(size))
      ensures n == |Step(k, e.db, ReplaceOp(c.id, accepts, suppliedID, encode, landed)).recs|
      ensures c.id in e.db.byID && (found <==> Matches(e.db.byID[c.id].slots, accepts, 1) != [])
    {
      hide *;
      ReadyView(c, e);
      Itself(c);
      ReplaceIs(k, e.db, c.id, accepts, suppliedID, encode, landed);
      n := 0;
      var pos := FindFirst(c, accepts, favoursSequential, e);
      found := pos >= 0;
      ReadyView(c, e);
      if pos >= 0 {
        n := ReplaceAt(c, pos, suppliedID, encode, landed, e.db);
      }
      KeptTable(c);
    }

    lemma ReadyView(c: Collection, e: Effect)
      requires Ready(c, e)
      ensures c.id in e.db.byID && c.slots == e.db.byID[c.id].slots && IdsOk(k, c.slots) && this !in c.Footprint()
      ensures Ready(c, Effect(e.db, [])) && Reflects(c, Effect(e.db, []), file, size)
    {
    }

    /**
     Replace: the first document the filter accepts gives way to a new version under the same _id.
     After a failed sync 0 and an error are returned, though the new version stays.
     */
    method Replace(c: Collection, accepts: Bytes -> bool, suppliedID: string, encode: string -> Bytes, landed: nat,
                   synced: bool, favoursSequential: bool, ghost e: Effect) returns (n: nat, ok: bool)
      requires Valid(e) && Owns(c) && Legal(k, e.db, ReplaceOp(c.id, accepts, suppliedID, encode, landed))
      modifies this, c.Footprint()
      ensures Valid(Stepped(k, e, ReplaceOp(c.id, accepts, suppliedID, encode, landed)))
      ensures Same(byID, old(byID)) && Same(catalog, old(catalog))
      ensures n == if synced then |Step(k, e.db, ReplaceOp(c.id, accepts, suppliedID, encode, landed)).recs| else 0
      ensures c.id in e.db.byID && (ok <==> n == 1 || Matches(e.db.byID[c.id].slots, accepts, 1) == [])
    {
      hide *;
      Begin(c, e, ReplaceOp(c.id, accepts, suppliedID, encode, landed));
      var found;
      n, found := FindAndReplace(c, accepts, suppliedID, encode, landed, favoursSequential, e);
      n := if synced then n else 0;
      ok := n == 1 || !found;
      Settle(c, e, ReplaceOp(c.id, accepts, suppliedID, encode, landed));
    }

    lemma Itself(c: Collection)
      ensures c in c.Footprint()
    {
    }

    twostate lemma KeptTable(c: Collection)
      requires c.ids == old(c.ids) && this !in old(c.Footprint()) && (c.ids != null ==> unchanged(c.ids))
      ensures c.Grown() && this !in c.Footprint()
    {
    }

    // ----- deleting -----

    /** The dead-byte count of a delete: each document abandoned, and each tombstone written for it. */
    method AddDead(c: Collection, ps: seq<nat>, tombs: seq<Bytes>, written: nat)
      requires c.Valid(k) && Ascending(ps, |c.slots|) && written <= |ps| == |tombs|
      modifies this`dead
      ensures dead == old(dead) + Buried(c.slots, ps, tombs, written)
    {
      hide Collection.Valid, Collection.Footprint;
      LengthsAt(c);
      var i := 0;
      while i < written
        invariant i <= written && dead == old(dead) + Buried(c.slots, ps, tombs, i)
      {
        dead := dead + (RECORD_HEADER + c.lengths[ps[i]]);
        dead := dead + (RECORD_HEADER + |tombs[i]|);
        i := i + 1;
      }
    }

    lemma LengthsAt(c: Collection)
      requires c.Valid(k)
      ensures |c.lengths| == |c.slots| && forall i | 0 <= i < |c.slots| :: c.lengths[i] == |c.slots[i].doc|
    {
    }

    /** The documents whose tombstones landed leave the index. */
    method DropLanded(c: Collection, ps: seq<nat>, tombs: seq<Bytes>, written: nat)
      requires c.Valid(k) && this !in c.Footprint()
      requires 0 < written <= |ps| == |tombs|
      requires Ascending(ps, |c.View().slots|) && Ascending(ps[..written], |c.View().slots|)
      modifies this`total, this`dead, c
      ensures c.Grown() && this !in c.Footprint() && c.Valid(k)
      ensures total == old(total) - written && dead == old(dead) + Buried(old(c.View()).slots, ps, tombs, written)
      ensures c.View() == old(c.View()).(slots := Keep(old(c.View()).slots, ps[..written]), dirty := true)
    {
      hide Collection.Valid, Ascending, Buried, Keep;
      ghost var parts := c.Footprint();
      AddDead(c, ps, tombs, written);
      assert c.Footprint() == parts;
      c.RemoveIndex(k, ps[..written]);
      assert forall o | o in c.Footprint() :: o in parts || fresh(o);
      total := total - written;
      c.SetDirty(k);
    }

    /** The index and the counters after a batch of tombstones, of which some landed. */
    method DropWritten(c: Collection, ps: seq<nat>, tombs: seq<Bytes>, written: nat, ghost db: Db)
      requires c.Valid(k) && this !in c.Footprint() && c.id in db.byID && c.View() == db.byID[c.id]
      requires total == db.total && dead == db.dead && nextID == db.nextID
      requires Ascending(ps, |db.byID[c.id].slots|) && written <= |ps| == |tombs|
      modifies this`total, this`dead, c
      ensures c.Grown() && this !in c.Footprint() && c.Valid(k)
      ensures var r := Dropped(db, c.id, ps, tombs, written).db;
              && c.id in r.byID && c.View() == r.byID[c.id]
              && total == r.total && dead == r.dead && nextID == r.nextID
    {
      hide Collection.Valid, Collection.View, Records, LogSize, LogBytes, Ascending, Dropped, Buried, Keep;
      DroppedNone(db, c.id, ps, tombs);
      DroppedIs(db, c.id, ps, tombs, written);
      if written > 0 {
        DropLanded(c, ps, tombs, written);
      }
    }

    /** The write half of a delete: append the tombstones and drop the documents whose tombstones landed. */
    method WriteTombstones(c: Collection, ps: seq<nat>, tombs: seq<Bytes>, landed: nat, ghost db: Db)
      returns (written: nat, ok: bool)
      requires this !in c.Footprint() && Reflects(c, Effect(db, []), file, size)
      requires Ascending(ps, |db.byID[c.id].slots|) && |tombs| == |ps|
      modifies this`file, this`size, this`total, this`dead, c
      ensures c.Grown() && this !in c.Footprint()
      ensures written == if AnyTooLong(tombs) then 0 else Whole(tombs, landed)
      ensures tombs != [] ==> (ok <==> written == |tombs|)
      ensures Reflects(c, Dropped(db, c.id, ps, tombs, written), old(file), old(size))
    {
      hide Collection.Valid, Collection.View, AnyTooLong, Whole, LogSize, LogBytes, Records, StartsAt, Ascending,
        Dropped, Buried, Keep;
      EmptyBatch(k.crc, OP_DELETE, c.id, tombs);
      var offs;
      offs, written, ok := AppendBatch(OP_DELETE, c.id, tombs, landed);
      DroppedIs(db, c.id, ps, tombs, written);
      DropWritten(c, ps, tombs, written, db);
    }

    /** The work of Delete and DeleteMany. */
    method FindAndDelete(c: Collection, accepts: Bytes -> bool, limit: int, landed: nat, favoursSequential: bool,
                         ghost e: Effect) returns (n: nat, ok: bool)
      requires Valid(e) && Owns(c) && Ready(c, e)
      modifies this`file, this`size, this`total, this`dead, c
      ensures c.Grown() && this !in c.Footprint()
      ensures Reflects(c, DeleteEffect(k, e.db, c.id, accepts, limit, landed), old(file), old(size))
      ensures n == |DeleteEffect(k, e.db, c.id, accepts, limit, landed).recs|
      ensures ok <==> n == |Matches(e.db.byID[c.id].slots, accepts, limit)|
    {
      ReadyView(c, e);
      DeleteIs(k, e.db, c.id, accepts, limit, landed);
      hide *;
      n, ok := 0, true;
      var ps, tombs := FindDoomed(c, accepts, limit, favoursSequential, e);
      ReadyView(c, e);
      if |ps| > 0 {
        n, ok := WriteTombstones(c, ps, tombs, landed, e.db);
      } else {
        KeptTable(c);
      }
    }

    /** The documents a delete is for, and their tombstones. */
    method FindDoomed(c: Collection, accepts: Bytes -> bool, limit: int, favoursSequential: bool, ghost e: Effect)
      returns (ps: seq<nat>, tombs: seq<Bytes>)
      requires Valid(e) && Owns(c) && Ready(c, e)
      ensures Ready(c, e)
      ensures ps == Matches(e.db.byID[c.id].slots, accepts, limit) && tombs == Tombstones(k, e.db.byID[c.id].slots, ps)
    {
      hide *;
      ReadyView(c, e);
      var ids, ok;
      ps, ids, ok := FindAll(c, accepts, limit, favoursSequential, e);
      tombs := Entomb(k, e.db.byID[c.id].slots, ps, ids);
      StillReady(c, e, {});
    }

    /**
     Delete (limit 1) and DeleteMany (no limit): the documents a filter accepts, in index order. When
     there are none nothing is written or synced.
     */
    method DeleteMatching(c: Collection, accepts: Bytes -> bool, limit: int, landed: nat, synced: bool,
                          favoursSequential: bool, ghost e: Effect) returns (n: nat, ok: bool)
      requires Valid(e) && Owns(c) && Legal(k, e.db, DeleteOp(c.id, accepts, limit, landed))
      modifies this, c.Footprint()
      ensures Valid(Stepped(k, e, DeleteOp(c.id, accepts, limit, landed)))
      ensures Same(byID, old(byID)) && Same(catalog, old(catalog))
      ensures n == |Step(k, e.db, DeleteOp(c.id, accepts, limit, landed)).recs|
      ensures c.id in e.db.byID
      ensures var found := |Matches(e.db.byID[c.id].slots, accepts, limit)|;
              ok <==> n == found && (found == 0 || synced)
    {
      hide *;
      Begin(c, e, DeleteOp(c.id, accepts, limit, landed));
      Itself(c);
      DeleteStep(k, e.db, c.id, accepts, limit, landed);
      n, ok := FindAndDelete(c, accepts, limit, landed, favoursSequential, e);
      ok := ok && (n == 0 || synced);
      Settle(c, e, DeleteOp(c.id, accepts, limit, landed));
    }

    // ----- defining collections -----

    /** A write that touched no collection leaves every one of them standing. */
    twostate lemma AllStand(new from: Effect, new e: Effect)
      requires k.Lawful() && old(Linked(from)) && old(Apart())
      requires Same(byID, old(byID)) && Same(catalog, old(catalog))
      requires forall i | i in byID :: old(Shown(byID[i], from)) && byID[i].Untouched()
      requires e.db.names == from.db.names && e.db.byID == from.db.byID
      requires Consistent(k, e) && Aligned(e)
      ensures Valid(e)
    {
      hide Consistent, Holding, Collection.Valid, Collection.Footprint, Collection.Untouched, Shown, Apart;
      forall i | i in byID
        ensures Shown(byID[i], e)
        ensures byID[i].Footprint() == old(byID[i].Footprint())
      {
        OtherStands(byID[i], from, e);
      }
      AllApart();
    }

    twostate lemma AllApart()
      requires old(Apart()) && Same(byID, old(byID))
      requires forall i | i in byID :: byID[i].Footprint() == old(byID[i].Footprint())
      ensures Apart()
    {
      hide Collection.Footprint;
      forall i, j | i in byID && j in byID && i != j
        ensures byID[i].Footprint() !! byID[j].Footprint()
      {
        assert old(byID[i].Footprint() !! byID[j].Footprint());
      }
    }

    /** registerCollection: both maps gain the collection and nextID moves past it. */
    method RegisterCollection(id: Word16, name: string) returns (c: Collection)
      modifies `catalog, `byID, `nextID
      ensures fresh(c) && c.id == id && c.name == name && c.ids == null
      ensures c.View() == Coll(name, [], false, false) && c.Valid(k)
      ensures Same(catalog, old(catalog)[name := c]) && Same(byID, old(byID)[id := c])
      ensures nextID == if id >= old(nextID) then (id + 1) % 0x1_0000 else old(nextID)
    {
      c := new Collection(id, name);
      catalog := catalog[name := c];
      byID := byID[id := c];
      if id >= nextID {
        nextID := (id + 1) % 0x1_0000;
      }
    }

    /** The collections of a valid database, and a new one beside them. */
    twostate lemma Registers(new c: Collection, new from: Effect, new e: Effect)
      requires k.Lawful() && old(Linked(from)) && old(Apart()) && fresh(c) && c.ids == null
      requires c.id !in old(byID) && c.name !in old(catalog)
      requires Same(byID, old(byID)[c.id := c]) && Same(catalog, old(catalog)[c.name := c])
      requires forall i | i in old(byID) :: old(Shown(byID[i], from)) && old(byID[i]).Untouched()
      requires e.db.names == from.db.names[c.name := c.id] && e.db.byID == from.db.byID[c.id := c.View()]
      requires c.Valid(k) && Consistent(k, e) && Aligned(e)
      ensures Valid(e) && Owns(c)
    {
      hide Consistent, Holding, Collection.Valid, Collection.View, Collection.Footprint, Collection.Untouched,
        Shown, Apart, Linked, Aligned;
      OldIds(from);
      forall i | i in old(byID)
        ensures Shown(old(byID[i]), e)
        ensures old(byID[i]).Footprint() == old(byID[i].Footprint())
      {
        OtherStands(old(byID[i]), from, e);
      }
      AlignedHolds(e);
      NewLinked(c, from, e);
      NewShown(c, e);
      NewApart(c);
    }

    lemma AlignedHolds(e: Effect)
      requires Aligned(e)
      ensures Holding(k, file, header, e)
      ensures size == e.db.size && total == e.db.total && dead == e.db.dead && nextID == e.db.nextID
    {
    }

    twostate lemma NewLinked(new c: Collection, new from: Effect, new e: Effect)
      requires old(Linked(from))
      requires size == e.db.size && total == e.db.total && dead == e.db.dead && nextID == e.db.nextID
      requires c.id !in old(byID) && c.name !in old(catalog)
      requires Same(byID, old(byID)[c.id := c]) && Same(catalog, old(catalog)[c.name := c])
      requires e.db.names == from.db.names[c.name := c.id] && e.db.byID == from.db.byID[c.id := c.View()]
      ensures Linked(e)
    {
      hide Collection.View;
    }

    lemma OnlyItself(c: Collection)
      requires c.ids == null
      ensures c.Footprint() == {c}
    {
    }

    lemma NewShown(c: Collection, e: Effect)
      requires c.id in e.db.byID && c.Valid(k) && e.db.byID[c.id] == c.View()
      ensures Shown(c, e)
    {
    }

    twostate lemma NewApart(new c: Collection)
      requires old(Apart()) && Same(byID, old(byID)[c.id := c]) && fresh(c) && c.ids == null && c.id !in old(byID)
      requires forall i | i in old(byID) :: byID[i].Footprint() == old(byID[i].Footprint())
      ensures Apart()
    {
      forall i | i in byID
        ensures this !in byID[i].Footprint() && (i != c.id ==> c !in byID[i].Footprint())
      {
        if i != c.id {
          assert old(this !in byID[i].Footprint());
        }
      }
      forall i, j | i in old(byID) && j in old(byID) && i != j
        ensures byID[i].Footprint() !! byID[j].Footprint()
      {
        assert old(byID[i].Footprint() !! byID[j].Footprint());
      }
    }

    twostate lemma OldIds(new from: Effect)
      requires old(Linked(from))
      ensures forall i | i in old(byID) :: old(byID[i]).id == i && i in from.db.byID
    {
    }

    /**
     defineCollection: append the catalog record, sync it, and only then register the collection.
     A sync that fails returns with the record in the file and the append point past it.
     */
    method DefineCollection(name: string, landed: nat, synced: bool, ghost e: Effect) returns (c: Collection?)
      requires Valid(e) && ValidName(name) && name !in catalog
      modifies this
      ensures Valid(Stepped(k, e, DefineOp(name, landed, synced)))
      ensures c != null ==> fresh(c) && fresh(c.Footprint()) && Owns(c) && c.name == name
      ensures c == null ==> Same(byID, old(byID)) && Same(catalog, old(catalog))
      ensures c != null <==> Registering(k, e.db, name, landed, synced)
    {
      hide *;
      BeginDefine(name, landed, synced, e);
      c := WriteDefinition(name, landed, synced, e.db);
      FinishDefine(DefineEffect(k, e.db, name, landed, synced), old(file), e);
      AllUntouched({this});
      if c == null {
        AllStand(e, Stepped(k, e, DefineOp(name, landed, synced)));
      } else {
        OnlyItself(c);
        Registers(c, e, Stepped(k, e, DefineOp(name, landed, synced)));
      }
    }

    /** The work of defineCollection. */
    method WriteDefinition(name: string, landed: nat, synced: bool, ghost db: Db) returns (c: Collection?)
      requires size <= |file| && size == db.size && total == db.total && dead == db.dead && nextID == db.nextID
      requires ValidName(name) && name !in db.names
      modifies `file, `size, `catalog, `byID, `nextID
      ensures c != null ==> fresh(c) && c.id == old(nextID) != 0 && c.name == name && c.ids == null && c.Valid(k)
      ensures c != null ==> c.View() == Coll(name, [], false, false)
      ensures c != null ==> Same(catalog, old(catalog)[name := c]) && Same(byID, old(byID)[c.id := c])
      ensures c == null ==> Same(byID, old(byID)) && Same(catalog, old(catalog))
      ensures (c != null) == Registering(k, db, name, landed, synced)
      ensures Scalars(DefineEffect(k, db, name, landed, synced), old(file), old(size))
    {
      hide Collection.Valid, LogSize, LogBytes, Encode, ValidName, Same;
      OneLanded(k.crc, Record(OP_DEFINE, nextID, k.encodeDefinition(Definition(nextID, name))));
      c := null;
      if nextID == 0 {
        return;
      }
      var id := nextID;
      var payload := k.encodeDefinition(Definition(id, name));
      var off, bytes, ok := AppendRecord(OP_DEFINE, id, payload, landed);
      if !ok || !synced {
        return;
      }
      c := RegisterCollection(id, name);
    }

    /** The scalar fields are those of an effect, and its records are in the file. */
    ghost predicate Scalars(s: Effect, before: Bytes, from: nat)
      reads `file, `size, `total, `dead, `nextID
    {
      && size == s.db.size && total == s.db.total && dead == s.db.dead && nextID == s.db.nextID
      && Landed(before, from, s.recs)
    }

    /** What a define needs of a valid database, and where it will take it. */
    lemma BeginDefine(name: string, landed: nat, synced: bool, e: Effect)
      requires Valid(e) && ValidName(name) && name !in catalog
      ensures k.Lawful() && Linked(e) && Apart() && Holding(k, file, header, e)
      ensures forall i | i in byID :: Shown(byID[i], e)
      ensures size <= |file| && size == e.db.size && total == e.db.total && dead == e.db.dead && nextID == e.db.nextID
      ensures Legal(k, e.db, DefineOp(name, landed, synced)) && name !in e.db.names && (nextID != 0 ==> nextID !in byID)
      ensures Consistent(k, Stepped(k, e, DefineOp(name, landed, synced)))
      ensures var s, d := DefineEffect(k, e.db, name, landed, synced), e.db;
              && Stepped(k, e, DefineOp(name, landed, synced)) == Effect(s.db, e.recs + s.recs)
              && s.db.names == (if Registering(k, d, name, landed, synced) then d.names[name := d.nextID] else d.names)
              && s.db.byID == (if Registering(k, d, name, landed, synced)
                               then d.byID[d.nextID := Coll(name, [], false, false)] else d.byID)
    {
      StepConsistent(k, e, DefineOp(name, landed, synced));
      NextIsFree(k, e);
      hide Consistent, Collection.Valid, Shown, Apart;
    }

    /** The scalar fields and the file once a define's record is written. */
    lemma FinishDefine(s: Effect, before: Bytes, from: Effect)
      requires Holding(k, before, header, from) && Scalars(s, before, from.db.size)
      ensures Aligned(Effect(s.db, from.recs + s.recs))
    {
      hide Holding, LogBytes, LogSize;
      HoldingGrows(k, before, file, header, from, s);
    }

    /** A write to the database object alone leaves every collection alone. */
    twostate lemma AllUntouched(new touched: set<object>)
      requires old(Apart()) && touched == {this}
      requires forall o: object | old(allocated(o)) && o !in touched :: unchanged(o)
      ensures forall i | i in old(byID) :: old(byID[i]).Untouched()
    {
      forall i | i in old(byID)
        ensures old(byID[i]).Untouched()
      {
        var d := old(byID[i]);
        assert old(this !in d.Footprint()) && d !in touched;
        assert forall o | o in old(d.Footprint()) :: o !in touched;
      }
    }

    // ----- replay -----

    /**
     The state of the walk at an offset: every field but size is the walk's, and every index entry
     lies in the part of the file already passed. The size field is set only when the walk ends.
     */
    ghost predicate Walking(w: Walk, off: nat)
      reads this, byID.Values, Tables(), Parts()
    {
      && k.Lawful() && off == w.db.size <= |file| && TablesRead(k, w.db)
      && Linked(Effect(w.db.(size := size), [])) && Apart()
      && forall i | i in byID :: Shown(byID[i], Effect(w.db, [])) && OnDisk(byID[i].slots, file, off)
    }

    /** What a record for collection c works from. */
    lemma Reaches(c: Collection, w: Walk, off: nat)
      requires Walking(w, off) && Owns(c)
      ensures k.Lawful() && c.Valid(k) && OnDisk(c.slots, file, off) && this !in c.Footprint()
      ensures c.ids != null ==> AllRead(k, c.slots)
      ensures c.id in w.db.byID && c.View() == w.db.byID[c.id] && off == w.db.size
      ensures total == w.db.total && dead == w.db.dead && nextID == w.db.nextID
    {
      assert Shown(byID[c.id], Effect(w.db, []));
      hide OnDisk, Collection.Valid;
    }

    /** A record that has changed only collection c, and that one as the walk says, keeps the walk going. */
    twostate lemma WalkStands(c: Collection, new w: Walk, new off: nat, new w': Walk, new off': nat)
      requires old(Walking(w, off)) && old(Owns(c)) && Same(byID, old(byID)) && Same(catalog, old(catalog))
      requires Same(file, old(file)) && size == old(size)
      requires forall o: object | old(allocated(o)) && o != this && o !in old(c.Footprint()) :: unchanged(o)
      requires OnlyIn(c.id, w.db, w'.db) && off <= off' == w'.db.size <= |file|
      requires total == w'.db.total && dead == w'.db.dead && nextID == w'.db.nextID
      requires c.Valid(k) && c.View() == w'.db.byID[c.id] && OnDisk(c.slots, file, off')
      requires this !in c.Footprint() && c.Grown() && (c.ids != null ==> AllRead(k, c.slots))
      ensures Walking(w', off') && PartsGrown()
    {
      hide Collection.Valid, Collection.View, Collection.Footprint, Collection.Untouched, Shown, Apart, OnDisk,
        PartsGrown, TablesRead, AllRead;
      OthersUntouched(c);
      ViewSlots(c);
      TablesStayRead(k, w.db, w'.db, c.id);
      assert old(Linked(Effect(w.db.(size := size), [])));
      forall i | i in byID && i != c.id
        ensures Shown(byID[i], Effect(w'.db, [])) && OnDisk(byID[i].slots, file, off')
        ensures byID[i].Footprint() == old(byID[i].Footprint())
      {
        OtherStands(byID[i], Effect(w.db, []), Effect(w'.db, []));
        OtherOnDisk(byID[i], off, off');
      }
      NewShown(c, Effect(w'.db, []));
      ApartStands(c);
      PartsStand(c);
    }

    twostate lemma OtherOnDisk(d: Collection, new off: nat, new off': nat)
      requires d.Untouched() && Same(file, old(file)) && off <= off' <= |file|
      requires old(OnDisk(d.slots, file, off))
      ensures OnDisk(d.slots, file, off')
    {
    }

    /** Replay's case for an insert. */
    method ReplayInsert(c: Collection, off: nat, length: nat, payload: Bytes, ghost doc: Bytes, ghost w: Walk)
      returns (ok: bool)
      requires Walking(w, off) && Owns(c) && |doc| == length && (c.ids != null ==> payload == doc)
      requires off + RECORD_HEADER + length <= |file| && doc == file[off + RECORD_HEADER..off + RECORD_HEADER + length]
      modifies `total, c.Footprint()
      ensures c.id in w.db.byID && (ok <==> ApplyInsert(k, w, c.id, doc).Applied?)
      ensures ok ==> Walking(ApplyInsert(k, w, c.id, doc).w, off + RECORD_HEADER + length) && PartsGrown()
      ensures Same(byID, old(byID)) && Same(catalog, old(catalog))
    {
      hide Walking, Owns, PartsGrown, ApplyInsert, AddDoc, OnlyIn, OnDisk, Collection.Valid, Collection.View,
        Collection.Footprint;
      Reaches(c, w, off);
      ViewSlots(c);
      AddIs(k, w, c.id, doc);
      NewOnDisk(c.slots, file, off, doc);
      total := total + 1;
      StillThere(c, {this});
      ok := c.ReplayInsert(k, off + RECORD_HEADER, length, payload, doc);
      if ok {
        ViewSlots(c);
        if c.ids != null {
          ReadAppend(k, old(c.slots), Slot(off + RECORD_HEADER, doc));
        }
        WalkStands(c, w, off, w.(db := AddDoc(w.db, c.id, doc)), off + RECORD_HEADER + length);
      }
    }

    lemma ViewSlots(c: Collection)
      ensures c.View().slots == c.slots && c.View().indexed == (c.ids != null)
    {
    }

    /** ensureIDTable, then lookupID: the slot a replace or delete record is about. */
    method ResolveID(c: Collection, id: string, ghost off: nat) returns (ok: bool, pos: nat)
      requires k.Lawful() && c.Valid(k) && OnDisk(c.slots, file, off) && id != ""
      requires c.ids != null ==> AllRead(k, c.slots)
      modifies c`ids, c`filed
      ensures ok <==> CanIndex(k, old(c.View())) && HasId(k, c.slots, id)
      ensures c.Valid(k) && c.Grown()
      ensures ok ==> c.View() == old(c.View()).(indexed := true) && Holds(k, c.slots, id, pos) && AllRead(k, c.slots)
      ensures ok && old(c.ids) == null ==> IsLowest(k, c.slots, id, pos)
    {
      hide Collection.Valid, OnDisk, Holds, HasId, CanIndex, AllRead, Blocked, Hides, IdTable.Ordered;
      pos := 0;
      ViewSlots(c);
      NothingHidden(k, c.View(), id);
      ok := c.EnsureIDTable(k, file, off);
      if ok {
        var found, read := c.LookupID(k, file, off, id);
        Blocks(k, c.slots, id, found, read);
        ok := found.Some?;
        if ok {
          pos := found.value;
          HoldsHas(k, c.slots, id, pos);
        } else {
          NotBlocked(k, c.slots, id);
        }
      }
    }

    /** The parts of a collection, while only the database object has changed. */
    twostate lemma StillThere(c: Collection, new touched: set<object>)
      requires old(c.Valid(k)) && this !in old(c.Footprint()) && touched == {this}
      requires forall o: object | old(allocated(o)) && o !in touched :: unchanged(o)
      ensures c.Valid(k) && c.Footprint() == old(c.Footprint()) && c.View() == old(c.View()) && c.slots == old(c.slots)
    {
      assert c !in touched;
      if old(c.ids) != null {
        var t: IdTable := old(c.ids);
        assert t !in touched && old(t.fingerprints) !in touched && old(t.positions) !in touched;
      }
    }

    /** The in-place half of applyReplay: count the old record dead, then repoint the slot. */
    method RepointTo(c: Collection, pos: nat, off: nat, length: nat, ghost doc: Bytes)
      requires c.Valid(k) && this !in c.Footprint() && pos < |c.slots| && |doc| == length
      requires c.slots[pos].doc != [] && FiledAs(k, c.slots[pos].doc) == FiledAs(k, doc)
      modifies `dead, c`offsets, c`lengths, c`slots, c`dirty
      ensures c.Valid(k) && c.Footprint() == old(c.Footprint())
      ensures c.View() == old(c.View()).(slots := old(c.slots)[pos := Slot(off, doc)], dirty := true)
      ensures dead == old(dead) + old(c.slots[pos]).Size()
    {
      hide Collection.Valid;
      LengthAt(c, pos);
      dead := dead + (RECORD_HEADER + c.lengths[pos]);
      c.RepointSlot(k, pos, off, length, doc);
    }

    /** The in-place half of applyDeleteReplay: count both records dead, drop the count, mark the slot. */
    method MarkAt(c: Collection, pos: nat, length: nat)
      requires c.Valid(k) && this !in c.Footprint() && pos < |c.slots|
      modifies `dead, `total, c`lengths, c`slots, c`dirty
      ensures c.Valid(k) && c.Footprint() == old(c.Footprint()) && total == old(total) - 1
      ensures c.View() == old(c.View()).(slots := old(c.slots)[pos := old(c.slots[pos]).Mark()], dirty := true)
      ensures dead == old(dead) + old(c.slots[pos]).Size() + (RECORD_HEADER + length)
    {
      hide Collection.Valid;
      LengthAt(c, pos);
      dead := dead + (RECORD_HEADER + c.lengths[pos]);
      dead := dead + (RECORD_HEADER + length);
      total := total - 1;
      c.MarkSlot(k, pos);
    }

    /** applyReplay: a replace record repoints the document it names. */
    method ApplyReplay(c: Collection, off: nat, length: nat, payload: Bytes, ghost w: Walk)
      returns (ok: bool, ghost w': Walk)
      requires Walking(w, off) && Owns(c) && |payload| == length && off + RECORD_HEADER + length <= |file|
      requires payload == file[off + RECORD_HEADER..off + RECORD_HEADER + length]
      modifies `dead, c.Footprint()
      ensures c.id in w.db.byID && Agrees(ApplyNamed(k, w, false, c.id, payload), ok, w')
      ensures ok ==> Walking(w', off + RECORD_HEADER + length) && w'.tombstoned == w.tombstoned && PartsGrown()
      ensures Same(byID, old(byID)) && Same(catalog, old(catalog))
    {
      hide Walking, Owns, PartsGrown, ApplyNamed, NamedWalk, Agrees, OnlyIn, OnDisk, Collection.Valid,
        Collection.View, Collection.Footprint, CanIndex, HasId, Holds, AllRead, FiledAs, IsLowest;
      Reaches(c, w, off);
      Itself(c);
      ViewSlots(c);
      w' := w;
      ok := false;
      var id := k.probe(payload);
      if id == None || id.value == "" {
        UnnamedIs(k, w, false, c.id, payload);
        return;
      }
      var pos;
      ok, pos := ResolveID(c, id.value, off);
      NamedIs(k, w, false, c.id, payload, pos);
      if ok {
        ViewSlots(c);
        MovedOnDisk(c.slots, file, off, pos, payload);
        ReadSet(k, c.slots, pos, Slot(off + RECORD_HEADER, payload));
        HeldAs(k, c.slots, id.value, pos, payload);
        RepointTo(c, pos, off + RECORD_HEADER, length, payload);
        ViewSlots(c);
        w' := NamedWalk(w, false, c.id, payload, pos);
        NamedWalkIs(w, false, c.id, payload, pos);
        WalkStands(c, w, off, w', off + RECORD_HEADER + length);
      }
    }

    /** applyDeleteReplay: a tombstone marks the document it names and leaves its table entry stale. */
    method ApplyDeleteReplay(c: Collection, off: nat, length: nat, payload: Bytes, ghost w: Walk)
      returns (ok: bool, ghost w': Walk)
      requires Walking(w, off) && Owns(c) && |payload| == length && off + RECORD_HEADER + length <= |file|
      modifies `dead, `total, c.Footprint()
      ensures c.id in w.db.byID && Agrees(ApplyNamed(k, w, true, c.id, payload), ok, w')
      ensures ok ==> Walking(w', off + RECORD_HEADER + length) && w'.tombstoned == w.tombstoned + {c.id} && PartsGrown()
      ensures Same(byID, old(byID)) && Same(catalog, old(catalog))
    {
      hide Walking, Owns, PartsGrown, ApplyNamed, NamedWalk, Agrees, OnlyIn, OnDisk, Collection.Valid,
        Collection.View, Collection.Footprint, CanIndex, HasId, Holds, AllRead, FiledAs, IsLowest;
      Reaches(c, w, off);
      Itself(c);
      ViewSlots(c);
      w' := w;
      ok := false;
      var id := k.probe(payload);
      if id == None || id.value == "" {
        UnnamedIs(k, w, true, c.id, payload);
        return;
      }
      var pos;
      ok, pos := ResolveID(c, id.value, off);
      NamedIs(k, w, true, c.id, payload, pos);
      if ok {
        ViewSlots(c);
        MarkOnDisk(c.slots, file, off, pos, off + RECORD_HEADER + length);
        HeldAs(k, c.slots, id.value, pos, payload);
        ReadSet(k, c.slots, pos, c.slots[pos].Mark());
        MarkAt(c, pos, length);
        ViewSlots(c);
        w' := NamedWalk(w, true, c.id, payload, pos);
        NamedWalkIs(w, true, c.id, payload, pos);
        WalkStands(c, w, off, w', off + RECORD_HEADER + length);
      }
    }

    /** Whatever the collections are made of now was part of them before or is newly allocated. */
    twostate predicate PartsGrown()
      reads this, byID.Values, Tables()
    {
      forall o | o in Parts() :: o in old(Parts()) || fresh(o)
    }

    twostate lemma PartsStand(c: Collection)
      requires old(Owns(c)) && Same(byID, old(byID)) && c.Grown()
      requires forall i | i in byID && i != c.id :: byID[i].Footprint() == old(byID[i].Footprint())
      ensures PartsGrown()
    {
      hide Collection.Footprint;
    }

    /** applyDefineCollection: a catalog record registers a collection under an unused id and name. */
    method ApplyDefineCollection(off: nat, payload: Bytes, ghost w: Walk) returns (ok: bool)
      requires Walking(w, off) && off + RECORD_HEADER + |payload| <= |file|
      modifies `catalog, `byID, `nextID
      ensures ok <==> ApplyDefine(k, w, payload).Applied?
      ensures ok ==> Walking(ApplyDefine(k, w, payload).w, off + RECORD_HEADER + |payload|)
      ensures ok ==> ApplyDefine(k, w, payload).w.tombstoned == w.tombstoned && PartsGrown()
      ensures ok ==> forall i | i in old(byID) :: i in byID && Same(byID[i], old(byID[i]))
    {
      hide *;
      var d := k.decodeDefinition(payload);
      DefinedIs(k, w, payload);
      WalkNames(w, off);
      ok := d.Some? && d.value.id != 0 && ValidName(d.value.name) && d.value.id !in byID && d.value.name !in catalog;
      if ok {
        var c := RegisterCollection(d.value.id, d.value.name);
        AllUntouched({this});
        WalkGains(c, w, off, ApplyDefine(k, w, payload).w, off + RECORD_HEADER + |payload|);
      }
    }

    lemma WalkNames(w: Walk, off: nat)
      requires Walking(w, off)
      ensures catalog.Keys == w.db.names.Keys && byID.Keys == w.db.byID.Keys && Apart() && off == w.db.size
      ensures total == w.db.total && dead == w.db.dead && nextID == w.db.nextID
    {
    }

    /** The walk goes on with a new collection beside the others. */
    twostate lemma WalkGains(new c: Collection, new w: Walk, new off: nat, new w': Walk, new off': nat)
      requires old(Walking(w, off)) && fresh(c) && c.ids == null && c.Valid(k)
      requires c.View() == Coll(c.name, [], false, false)
      requires Same(byID, old(byID)[c.id := c]) && Same(catalog, old(catalog)[c.name := c])
      requires c.id !in old(byID) && c.name !in old(catalog)
      requires Same(file, old(file)) && size == old(size)
      requires forall i | i in old(byID) :: old(byID[i]).Untouched()
      requires off <= off' == w'.db.size <= |file|
      requires total == w'.db.total && dead == w'.db.dead && nextID == w'.db.nextID
      requires w'.db.names == w.db.names[c.name := c.id] && w'.db.byID == w.db.byID[c.id := c.View()]
      ensures Walking(w', off') && PartsGrown()
      ensures forall i | i in old(byID) :: i in byID && Same(byID[i], old(byID[i]))
    {
      hide Collection.Valid, Collection.View, Collection.Footprint, Collection.Untouched, Shown, Apart, OnDisk,
        PartsGrown, Linked, TablesRead;
      TablesGain(k, w.db, w'.db, c.id, c.name);
      OldIds(Effect(w.db.(size := size), []));
      forall i | i in old(byID)
        ensures Shown(old(byID[i]), Effect(w'.db, [])) && OnDisk(old(byID[i]).slots, file, off')
        ensures old(byID[i]).Footprint() == old(byID[i].Footprint())
      {
        OtherStands(old(byID[i]), Effect(w.db, []), Effect(w'.db, []));
        OtherOnDisk(old(byID[i]), off, off');
      }
      NewLinked(c, Effect(w.db.(size := size), []), Effect(w'.db.(size := size), []));
      NewShown(c, Effect(w'.db, []));
      NoneOnDisk(file, off');
      ViewSlots(c);
      NewApart(c);
      PartsGain(c);
    }

    twostate lemma PartsGain(new c: Collection)
      requires Same(byID, old(byID)[c.id := c]) && c.id !in old(byID) && fresh(c) && c.ids == null
      requires forall i | i in old(byID) :: old(byID[i]).Footprint() == old(byID[i].Footprint())
      ensures PartsGrown()
    {
    }

    /** The switch over a record's op. A payload that was skipped over is one no case looks at. */
    method ReplayRecord(h: Header, off: nat, payload: Bytes, ghost doc: Bytes, ghost w: Walk)
      returns (ok: bool, ghost w': Walk)
      requires Walking(w, off) && |doc| == h.length && off + RECORD_HEADER + h.length <= |file|
      requires doc == file[off + RECORD_HEADER..off + RECORD_HEADER + h.length]
      requires payload == doc || !MustRead(w.db, h, true, false)
      modifies this, Parts()
      ensures Agrees(Apply(k, w, Record(h.op, h.coll, doc)), ok, w')
      ensures ok ==> Walking(w', off + RECORD_HEADER + h.length) && PartsGrown() && Same(file, old(file))
      ensures ok ==> w'.tombstoned == (if h.op == OP_DELETE then w.tombstoned + {h.coll} else w.tombstoned)
      ensures ok && h.op == OP_DELETE ==> h.coll in byID
      ensures ok ==> forall i | i in old(byID) :: i in byID && Same(byID[i], old(byID[i]))
    {
      hide Walking, Owns, PartsGrown, Parts, Apply, ApplyTo, ApplyDefine, MustRead, Collection.Footprint,
        Collection.Valid, Same;
      ok, w' := false, w;
      WalkNames(w, off);
      ApplyIs(k, w, h.op, h.coll, doc);
      ReadIs(w.db, h);
      DefinedIs(k, w, doc);
      if h.op == OP_DEFINE {
        ok := ApplyDefineCollection(off, payload, w);
        w' := if ok then ApplyDefine(k, w, doc).w else w;
      } else if h.op == OP_INSERT || h.op == OP_REPLACE || h.op == OP_DELETE {
        if h.coll in byID {
          Belongs(h.coll, w, off);
          ok, w' := ReplayDocument(byID[h.coll], h.op, off, h.length, payload, doc, w);
        }
      }
    }

    /** The three cases of a record that is for a collection. */
    method ReplayDocument(c: Collection, op: Byte, off: nat, length: nat, payload: Bytes, ghost doc: Bytes,
                          ghost w: Walk)
      returns (ok: bool, ghost w': Walk)
      requires Walking(w, off) && Owns(c) && |doc| == length && off + RECORD_HEADER + length <= |file|
      requires doc == file[off + RECORD_HEADER..off + RECORD_HEADER + length]
      requires op == OP_INSERT || op == OP_REPLACE || op == OP_DELETE
      requires c.id in w.db.byID && this !in c.Footprint() && (payload == doc || (op == OP_INSERT && c.ids == null))
      modifies `dead, `total, c.Footprint()
      ensures Agrees(ApplyTo(k, w, op, c.id, doc), ok, w')
      ensures ok ==> Walking(w', off + RECORD_HEADER + length) && PartsGrown()
      ensures ok ==> w'.tombstoned == (if op == OP_DELETE then w.tombstoned + {c.id} else w.tombstoned)
      ensures Same(byID, old(byID)) && Same(file, old(file))
    {
      hide Walking, Owns, PartsGrown, ApplyInsert, ApplyNamed, Collection.Footprint, Collection.Valid, Same;
      ok, w' := false, w;
      InsertKeeps(k, w, c.id, doc);
      if op == OP_INSERT {
        ok := ReplayInsert(c, off, length, payload, doc, w);
        w' := if ok then ApplyInsert(k, w, c.id, doc).w else w;
      } else if op == OP_REPLACE {
        ok, w' := ApplyReplay(c, off, length, payload, w);
      } else {
        ok, w' := ApplyDeleteReplay(c, off, length, payload, w);
      }
    }

    /** The collection a record names, among the parts of the database. */
    lemma Belongs(coll: Word16, w: Walk, off: nat)
      requires Walking(w, off) && coll in byID
      ensures Owns(byID[coll]) && byID[coll].id == coll && byID[coll].Footprint() <= Parts() && coll in w.db.byID
      ensures w.db.byID[coll].indexed == (byID[coll].ids != null) && this !in byID[coll].Footprint()
    {
      assert Shown(byID[coll], Effect(w.db, []));
      hide OnDisk, Collection.Valid;
    }

    /** One collection's share of phase two. */
    method CompactOne(c: Collection, ghost w: Walk, ghost done: set<Word16>, ghost off: nat)
      requires Walking(Compacted(w, done), off) && Owns(c) && c.id in w.db.byID && c.id !in done
      modifies c.Footprint()
      ensures Walking(Compacted(w, done + {c.id}), off) && PartsGrown()
      ensures Same(byID, old(byID)) && Same(file, old(file)) && size == old(size)
    {
      hide Walking, Owns, PartsGrown, Compacted, OnlyIn, OnDisk, Unmarked, Collection.Valid, Collection.View,
        Collection.Footprint;
      Reaches(c, Compacted(w, done), off);
      Itself(c);
      ViewSlots(c);
      CompactedStep(w, done, c.id);
      UnmarkedAllOnDisk(c.slots, file, off);
      if c.ids != null {
        ReadUnmarkedAll(k, c.slots);
      }
      NameIs(c);
      c.CompactMarkedSlots(k);
      ViewSlots(c);
      Compacts(c, old(c.View()));
      WalkStands(c, Compacted(w, done), off, Compacted(w, done + {c.id}), off);
    }

    lemma Compacts(c: Collection, v: Coll)
      requires c.slots == Unmarked(v.slots) && c.dirty == v.dirty && (c.ids != null) == v.indexed && c.name == v.name
      ensures c.View() == v.(slots := Unmarked(v.slots))
    {
    }

    lemma NameIs(c: Collection)
      ensures c.View().name == c.name && c.View().dirty == c.dirty
    {
    }

    /** Phase two of replay: the marked slots come out of every collection a tombstone touched. */
    method CompactAll(pending: map<Word16, Collection>, ghost w: Walk, ghost off: nat)
      requires Walking(w, off) && pending.Keys == w.tombstoned
      requires forall i | i in pending :: i in byID && pending[i] == byID[i]
      modifies Parts()
      ensures Walking(w.(db := Finish(w)), off) && PartsGrown()
      ensures Same(byID, old(byID)) && Same(file, old(file)) && size == old(size)
    {
      hide Walking, Parts, Compacted, Finish, Collection.Footprint;
      var rest := pending.Keys;
      ghost var done: set<Word16> := {};
      CompactedEnds(w);
      while rest != {}
        invariant rest + done == pending.Keys && rest !! done
        invariant Walking(Compacted(w, done), off) && PartsGrown()
        invariant Same(byID, old(byID)) && Same(file, old(file)) && size == old(size)
        decreases |rest|
      {
        var i :| i in rest;
        Belongs(i, Compacted(w, done), off);
        CompactOne(pending[i], w, done, off);
        rest := rest - {i};
        done := done + {i};
      }
    }

    /** The fields of the database hold this state, its index entries inside the file. */
    ghost predicate Shows(db: Db)
      reads this, byID.Values, Tables(), Parts()
    {
      size == db.size && Walking(Walk(db, {}), db.size)
    }

    /** truncateTail, or the append point set at a clean end: the file ends where the walk stopped. */
    method EndAt(off: nat, ghost w: Walk)
      requires Walking(w, off)
      modifies `file, `size
      ensures Walking(w, off) && size == off && file == old(file[..off])
      ensures Same(byID, old(byID)) && Same(catalog, old(catalog)) && PartsGrown()
    {
      hide *;
      WalkNames(w, off);
      WalkInFile(w, off);
      file := file[..off];
      size := off;
      AllUntouched({this});
      WalkCut(w, off);
    }

    lemma WalkInFile(w: Walk, off: nat)
      requires Walking(w, off)
      ensures off <= |file|
    {
    }

    twostate lemma WalkCut(new w: Walk, new off: nat)
      requires old(Walking(w, off)) && Same(byID, old(byID)) && Same(catalog, old(catalog))
      requires total == old(total) && dead == old(dead) && nextID == old(nextID)
      requires file == old(file)[..off] && off <= old(|file|)
      requires forall i | i in old(byID) :: old(byID[i]).Untouched()
      ensures Walking(w, off) && PartsGrown()
    {
      hide Collection.Valid, Collection.View, Collection.Footprint, Collection.Untouched, Shown, Apart, OnDisk;
      forall i | i in byID
        ensures Shown(byID[i], Effect(w.db, [])) && OnDisk(byID[i].slots, file, off)
        ensures byID[i].Footprint() == old(byID[i].Footprint())
      {
        OtherStands(byID[i], Effect(w.db, []), Effect(w.db, []));
        CutOnDisk(byID[i], off);
      }
      AllApart();
    }

    twostate lemma CutOnDisk(d: Collection, new off: nat)
      requires d.Untouched() && off <= old(|file|) && file == old(file)[..off] && old(OnDisk(d.slots, file, off))
      ensures OnDisk(d.slots, file, off)
    {
      forall i | 0 <= i < |d.slots|
        ensures SlotOnDisk(d.slots[i], file, off)
      {
        var x := d.slots[i];
        assert old(SlotOnDisk(x, file, off));
        assert file[x.off..x.off + |x.doc|] == old(file)[x.off..x.off + |x.doc|];
      }
    }

    /** Reads the record at an offset: its header, and its payload unless fast open may skip it. */
    method NextRecord(fast: bool, off: nat, ghost w: Walk) returns (act: Act)
      requires Walking(w, off) && off < |file|
      ensures Walking(w, off) && Acted(k, file, fast, w, act) && PartsGrown()
    {
      hide Walking, Apply, WalkBytes, ChecksumOk, MustRead, DecodeHeader, Collection.Valid, Collection.Footprint, Parts;
      WalkNames(w, off);
      if off + RECORD_HEADER > |file| {
        NotFramedIsTorn(k, file, fast, w);
        return Cut;
      }
      var h := HeaderAt(file, off);
      var isLast := off + RECORD_HEADER + h.length >= |file|;
      if h.length > MAX_PAYLOAD || off + RECORD_HEADER + h.length > |file| {
        NotFramedIsTorn(k, file, fast, w);
        return Cut;
      }
      WalkBytesAt(k, file, fast, w);
      MustReadMore(w.db, h, fast, isLast);
      ReadRule(w, off, h, fast, isLast);
      ChecksumIs(k, file, off);
      if h.flags != 0 {
        return Reject;
      }
      var mustRead := !fast || isLast || h.op == OP_DEFINE || h.op == OP_REPLACE || h.op == OP_DELETE;
      if !mustRead && h.op == OP_INSERT {
        if h.coll in byID && byID[h.coll].ids != null {
          mustRead := true;
        }
      }
      if mustRead {
        var payload := PayloadAt(file, off);
        if k.crc(file[off + 4..off + 8] + payload) != h.crc {
          return if isLast then Cut else Reject;
        }
        return Take(h, payload);
      }
      return Take(h, []);
    }

    /** The walk's rule for what must be read, in terms of the fields. */
    lemma ReadRule(w: Walk, off: nat, h: Header, fast: bool, isLast: bool)
      requires Walking(w, off)
      ensures MustRead(w.db, h, fast, isLast) ==
              (!fast || isLast || h.op == OP_DEFINE || h.op == OP_REPLACE || h.op == OP_DELETE
               || (h.op == OP_INSERT && h.coll in byID && byID[h.coll].ids != null))
    {
      WalkNames(w, off);
      if h.coll in byID {
        Belongs(h.coll, w, off);
      }
      hide Walking, Collection.Valid;
    }

    /** How replay ended, against how the walk over the bytes ends. */
    ghost predicate EndsAs(end: End, o: Opened, before: Bytes)
      reads this, byID.Values, Tables(), Parts()
    {
      match o
      case Clean(_) => end == Ended && file == before && Shows(Published(o))
      case Torn(w) => end == Repaired && w.db.size <= |before| && file == before[..w.db.size] && Shows(Published(o))
      case Failed => end == Corrupt
      case Undetermined => true
    }

    /** The collections whose marks are to come out at the end. */
    ghost predicate Pending(pending: map<Word16, Collection>, w: Walk)
      reads this
    {
      pending.Keys == w.tombstoned && forall i | i in pending :: i in byID && Same(pending[i], byID[i])
    }

    lemma ShowsWalk(w: Walk, off: nat)
      requires Walking(w, off) && size == off
      ensures Shows(w.db)
    {
    }

    lemma NonePending()
      ensures Pending(map[], Start())
    {
    }

    /** The end of the walk at a clean end of file. */
    method FinishAt(off: nat, pending: map<Word16, Collection>, fast: bool, ghost w: Walk, ghost clear: bool)
      requires Walking(w, off) && off == |file| && FILE_HEADER <= off
      requires Pending(pending, w) && Traced(k, file, fast, w, clear)
      modifies this, Parts()
      ensures EndsAs(Ended, WalkBytes(k, old(file), fast, Start()), old(file)) && PartsGrown()
    {
      hide Walking, Parts, Shows, WalkBytes, Finish, Collection.Footprint;
      WalkNames(w, off);
      EndAt(off, w);
      assert file == old(file);
      CompactAll(pending, w, off);
      ShowsWalk(w.(db := Finish(w)), off);
      TraceEnds(k, old(file), fast, w, clear);
    }

    /** One record of the walk. */
    method ReplayNext(fast: bool, off: nat, pending: map<Word16, Collection>, ghost w: Walk, ghost clear: bool)
      returns (next: nat, marked: map<Word16, Collection>, ghost w': Walk, ghost clear': bool, end: End)
      requires Walking(w, off) && FILE_HEADER <= off < |file| && Pending(pending, w) && Traced(k, file, fast, w, clear)
      modifies this, Parts()
      ensures end != Ended && (end != Corrupt ==> PartsGrown())
      ensures end == Going ==>
                (&& off < next <= |file| && Same(file, old(file)) && Walking(w', next)
                 && Pending(marked, w') && Traced(k, file, fast, w', clear'))
      ensures end != Going ==> EndsAs(end, WalkBytes(k, old(file), fast, Start()), old(file))
    {
      hide Walking, Parts, Shows, WalkBytes, Finish, Collection.Footprint, Acted, Followed, Agrees, Traced;
      next, marked, w', clear', end := off, pending, w, clear, Going;
      WalkNames(w, off);
      var act := NextRecord(fast, off, w);
      TraceStops(k, file, fast, w, clear, act);
      match act {
        case Cut =>
          EndAt(off, w);
          ShowsWalk(w, off);
          end := Repaired;
        case Reject =>
          end := Corrupt;
        case Take(h, payload) =>
          end, next, marked, w', clear' := TakeRecord(h, payload, fast, off, pending, w, clear);
      }
    }

    /** A record that has been read, applied to the fields. */
    method TakeRecord(h: Header, payload: Bytes, fast: bool, off: nat, pending: map<Word16, Collection>,
                      ghost w: Walk, ghost clear: bool)
      returns (end: End, next: nat, marked: map<Word16, Collection>, ghost w': Walk, ghost clear': bool)
      requires Walking(w, off) && FILE_HEADER <= off < |file| && Pending(pending, w) && Traced(k, file, fast, w, clear)
      requires off == w.db.size && Acted(k, file, fast, w, Take(h, payload))
      modifies this, Parts()
      ensures end == Going || end == Corrupt
      ensures end == Going ==>
                (&& off < next <= |file| && Same(file, old(file)) && Walking(w', next) && PartsGrown()
                 && Pending(marked, w') && Traced(k, file, fast, w', clear'))
      ensures end == Corrupt ==> EndsAs(end, WalkBytes(k, old(file), fast, Start()), old(file))
    {
      hide Walking, Parts, Shows, WalkBytes, Apply, Finish, Collection.Footprint, Followed, Agrees, Traced,
        PartsGrown, MustRead, DecodeHeader;
      ghost var doc := PayloadAt(file, off);
      ghost var a := Apply(k, w, Record(h.op, h.coll, doc));
      next, marked, clear' := off + RECORD_HEADER + h.length, pending, clear && a.Applied?;
      var ok;
      ok, w' := ReplayRecord(h, off, payload, doc, w);
      if ok {
        WalkNames(w', next);
      }
      TraceTakes(k, old(file), fast, w, clear, a, ok, w');
      end := if ok then Going else Corrupt;
      if ok && h.op == OP_DELETE {
        marked := marked[h.coll := byID[h.coll]];
      }
    }

    /**
     replay: walk every record in the file and rebuild the fields, then compact what tombstones
     marked. A torn tail is cut off and the walk's state published without that compaction.
     */
    method Replay(fast: bool) returns (end: End)
      requires Walking(Start(), FILE_HEADER)
      modifies this, Parts()
      ensures FILE_HEADER <= |old(file)| && EndsAs(end, WalkBytes(k, old(file), fast, Start()), old(file))
      ensures end != Corrupt ==> PartsGrown()
    {
      hide Walking, Parts, Shows, WalkBytes, Finish, Collection.Footprint, Pending, Traced, EndsAs;
      WalkInFile(Start(), FILE_HEADER);
      ghost var w, clear := Start(), true;
      var off := FILE_HEADER;
      var pending: map<Word16, Collection> := map[];
      NonePending();
      TraceStarts(k, file, fast);
      while off < |file|
        invariant FILE_HEADER <= off <= |file| && Walking(w, off) && Same(file, old(file)) && PartsGrown()
        invariant Pending(pending, w) && Traced(k, file, fast, w, clear)
        decreases |file| - off
      {
        off, pending, w, clear, end := ReplayNext(fast, off, pending, w, clear);
        if end != Going {
          return;
        }
      }
      FinishAt(off, pending, fast, w, clear);
      end := Ended;
    }

    /** What replay rebuilt is a valid database, when the file is a log it is consistent with. */
    lemma Reopened(db: Db, recs: seq<Record>)
      requires Shows(db) && Consistent(k, Effect(db, recs)) && Holding(k, file, header, Effect(db, recs))
      ensures Valid(Effect(db, recs))
    {
      hide Consistent, Holding, Collection.Valid, Apart, OnDisk;
    }

    /**
     DB.Collection: an existing collection is handed back, a name that is not valid refused, any
     other defined. The first lookup is under the read lock, the second under the write lock, for
     another writer may have created the collection in between; whatever state e that one meets, a
     name that exists by then is not defined again.
     */
    method CollectionOrDefine(name: string, landed: nat, synced: bool, ghost e: Effect) returns (c: Collection?)
      requires Valid(e)
      modifies this
      ensures Valid(Stepped(k, e, DefineOp(name, landed, synced)))
      ensures c != null ==> Owns(c) && (name in old(catalog) ==> c == old(catalog[name]))
      ensures c != null && name !in old(catalog) ==> fresh(c.Footprint())
      ensures c != null <==>
              name in old(catalog) || (ValidName(name) && Registering(k, e.db, name, landed, synced))
      ensures name in old(catalog) || !ValidName(name) ==>
                && Stepped(k, e, DefineOp(name, landed, synced)) == e
                && Same(file, old(file)) && Same(catalog, old(catalog)) && Same(byID, old(byID))
    {
      hide *;
      NothingToDefine(name, landed, synced, e);
      if name in catalog {
        return catalog[name];
      }
      if !ValidName(name) {
        return null;
      }
      c := DefineCollection(name, landed, synced, e);
    }

    /** A name that exists or is not valid is no define at all. */
    lemma NothingToDefine(name: string, landed: nat, synced: bool, e: Effect)
      requires Valid(e)
      ensures Legal(k, e.db, DefineOp(name, landed, synced))
      ensures name in catalog || !ValidName(name) ==> Stepped(k, e, DefineOp(name, landed, synced)) == e
      ensures name in catalog ==> Owns(catalog[name])
    {
      hide Consistent, Holding, Apart, ValidName;
      assert Linked(e);
    }
  }

  /**
   Open: a new database in an empty file, or the header of an existing one checked and its records
   replayed. A file too short for a header is no database.
   */
  method Open(k: Codec, file: Bytes, created: Bytes, fast: bool) returns (db: DB?, end: End)
    requires k.Lawful() && |created| == 8
    ensures db != null ==> fresh(db) && db.k == k
    ensures file == [] ==> db != null && db.Valid(Effect(Empty(), [])) && db.file == FileHeader(created)
    ensures file != [] && (|file| < FILE_HEADER || !GoodHeader(file)) ==> db == null
    ensures FILE_HEADER <= |file| && GoodHeader(file) ==>
              var o := WalkBytes(k, file, fast, Start());
              && (o.Failed? ==> db == null)
              && (o.Clean? || o.Torn? ==> db != null && db.EndsAs(end, o, file) && db.header == file[..FILE_HEADER])
  {
    hide DB.Walking, DB.EndsAs, DB.Valid, DB.Parts, DB.Tables, WalkBytes, GoodHeader, FileHeader;
    db, end := null, Corrupt;
    if |file| == 0 {
      db := new DB(k, created);
      end := Ended;
    } else if |file| >= FILE_HEADER && GoodHeader(file) {
      db := new DB.Existing(k, file);
      end := db.Replay(fast);
      EndedIs(db, end, WalkBytes(k, file, fast, Start()), file);
      if end == Corrupt {
        db := null;
      }
    }
  }

  lemma EndedIs(db: DB, end: End, o: Opened, file: Bytes)
    requires db.EndsAs(end, o, file)
    ensures (o.Failed? ==> end == Corrupt) && (o.Clean? || o.Torn? ==> end != Corrupt)
  {
  }

  /**
   The byte-level form of replay rebuilding every run, over the first size bytes of the run's file
   and whatever part of one further record a dying process had written behind them: opening it, in
   either mode, succeeds exactly when the log is legible, cuts the file back to the log, and shows
   the state the run ended in, up to which _id tables exist, exactly when there was nothing behind
   the log or the log holds no tombstone. Then the database is valid in that state, and further
   runs start from it.
   */
  method ReopenAfterRun(k: Codec, header: Bytes, file: Bytes, fast: bool, ghost start: Effect, ghost ops: seq<Op>,
                        ghost r: Record, ghost m: nat)
    returns (db: DB?, ghost e: Effect)
    requires k.Lawful() && Rebuilt(k, start) && Consistent(k, start)
    requires LegalRun(k, start, ops) && EveryDefineKept(k, start, ops)
    requires |r.payload| <= MAX_PAYLOAD && m < r.Size()
    requires |header| == FILE_HEADER && GoodHeader(header)
    requires file == TornFile(k, header, After(k, start, ops).recs, r, m)
    ensures db != null <==> Legible(k, After(k, start, ops).recs)
    ensures db != null ==> db.file == header + LogBytes(k.crc, After(k, start, ops).recs) && db.Shows(e.db)
    ensures db != null ==>
              (Visible(e.db) == Visible(After(k, start, ops).db) <==> m == 0 || !HasDelete(After(k, start, ops).recs))
    ensures db != null && Visible(e.db) == Visible(After(k, start, ops).db) ==>
              db.Valid(e) && Rebuilt(k, e) && e.recs == After(k, start, ops).recs
  {
    hide DB.Walking, DB.EndsAs, DB.Shows, DB.Valid, WalkBytes, After, LegalRun, EveryDefineKept, Rebuilt,
      Consistent, Finish, Visible, LogBytes, LogSize, Holding, Legible, HasDelete, TornFile, Published, GoodHeader;
    e := RunReopens(k, header, start, ops, r, m, fast);
    var end;
    TornHeader(k, header, After(k, start, ops).recs, r, m);
    db, end := Open(k, file, [0, 0, 0, 0, 0, 0, 0, 0], fast);
    if db != null {
      OpenShows(db, end, WalkBytes(k, file, fast, Start()), file);
      if Visible(e.db) == Visible(After(k, start, ops).db) {
        db.Reopened(e.db, e.recs);
      }
    }
  }

  lemma TornHeader(k: Codec, header: Bytes, recs: seq<Record>, r: Record, m: nat)
    requires |header| == FILE_HEADER && GoodHeader(header) && m <= r.Size()
    ensures var file := TornFile(k, header, recs, r, m); FILE_HEADER <= |file| && GoodHeader(file)
  {
    hide *;
    TornFileStarts(k, header, recs, r, m);
    GoodPrefix(header, TornFile(k, header, recs, r, m));
  }

  lemma GoodPrefix(header: Bytes, file: Bytes)
    requires |header| == FILE_HEADER <= |file| && file[..FILE_HEADER] == header
    ensures GoodHeader(file) <==> GoodHeader(header)
  {
    hide FromLe16;
    assert forall i | 0 <= i < FILE_HEADER :: file[i] == header[i];
    assert file[0..8] == header[0..8] && file[8..10] == header[8..10] && file[10..12] == header[10..12];
  }

  lemma OpenShows(db: DB, end: End, o: Opened, file: Bytes)
    requires db.EndsAs(end, o, file) && (o.Clean? || o.Torn?)
    ensures db.Shows(Published(o)) && (o.Clean? ==> db.file == file)
    ensures o.Torn? ==> o.w.db.size <= |file| && db.file == file[..o.w.db.size]
  {
    hide Finish, DB.Walking;
  }

  /**
   What a torn tail leaves uncompacted, the next open mends: opening twice in a row, after whatever
   part of a record the file ended with, gives a database valid in the state the run ended in.
   */
  method ReopenTwice(k: Codec, header: Bytes, file: Bytes, fast: bool, ghost start: Effect, ghost ops: seq<Op>,
                     ghost r: Record, ghost m: nat)
    returns (db: DB?, ghost e: Effect)
    requires k.Lawful() && Rebuilt(k, start) && Consistent(k, start)
    requires LegalRun(k, start, ops) && EveryDefineKept(k, start, ops)
    requires |r.payload| <= MAX_PAYLOAD && m < r.Size()
    requires |header| == FILE_HEADER && GoodHeader(header)
    requires file == TornFile(k, header, After(k, start, ops).recs, r, m)
    ensures db != null <==> Legible(k, After(k, start, ops).recs)
    ensures db != null ==>
              && db.Valid(e) && Rebuilt(k, e) && e.recs == After(k, start, ops).recs
              && Visible(e.db) == Visible(After(k, start, ops).db)
  {
    hide DB.Shows, DB.Valid, After, LegalRun, EveryDefineKept, Rebuilt, Consistent, Visible, LogBytes, Legible,
      HasDelete, TornFile, GoodHeader;
    var first;
    first, e := ReopenAfterRun(k, header, file, fast, start, ops, r, m);
    if first == null {
      return null, e;
    }
    TornFileStarts(k, header, After(k, start, ops).recs, r, 0);
    db, e := ReopenAfterRun(k, header, first.file, fast, start, ops, r, 0);
  }
}
