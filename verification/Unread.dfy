/**
 Documents whose stored _id is not what the engine takes it to be. One that payloadID cannot read is
 accepted by every write and makes the file unopenable in just the cases the log says; one whose
 stored _id differs from the _id it is filed under can be stored twice, and then a tombstone may hit
 the wrong document.
 */
module Unread {
  import opened Wrappers
  import opened Framing
  import opened Slots
  import opened Database
  import opened Replay
  import opened Live
  import opened Legibility
  import opened Rebuild
  import opened Recovery
  import opened Steps
  import opened Failures

  // ----- documents payloadID cannot read -----

  /**
   The file of a run that kept its defines opens, whatever lies behind the log, only if the log is
   legible; and when nothing does, it opens if it is.
   */
  lemma OpensIfLegible(k: Codec, header: Bytes, start: Effect, ops: seq<Op>, rest: Bytes, fast: bool)
    requires k.Lawful() && Rebuilt(k, start) && |header| == FILE_HEADER
    requires LegalRun(k, start, ops) && EveryDefineKept(k, start, ops) && Fits(After(k, start, ops).recs)
    ensures var recs := After(k, start, ops).recs;
            && (!Legible(k, recs) ==> WalkBytes(k, header + (LogBytes(k.crc, recs) + rest), fast, Start()) == Failed)
            && (Legible(k, recs) ==> WalkBytes(k, header + LogBytes(k.crc, recs), fast, Start()).Clean?)
  {
    hide After, LegalRun, EveryDefineKept, Rebuilt, WalkLog, WalkBytes, LogBytes, Fits, Legible;
    var e := After(k, start, ops);
    RunRebuilt(k, start, ops);
    if Legible(k, e.recs) {
      RebuiltWalk(k, e);
      CleanEnd(k, header, e.recs, fast);
    } else {
      RefusedLogFails(k, header, e.recs, rest, fast);
    }
  }

  /** A run from a new database whose log is not legible is refused. */
  lemma RefusedRun(k: Codec, ops: seq<Op>)
    requires k.Lawful() && LegalRun(k, NewDatabase(), ops) && EveryDefineKept(k, NewDatabase(), ops)
    requires !Legible(k, After(k, NewDatabase(), ops).recs)
    ensures WalkLog(k, After(k, NewDatabase(), ops).recs) == Refused
  {
    hide After, LegalRun, EveryDefineKept, WalkLog, Legible, Rebuilt;
    EmptyIsRebuilt(k);
    RunRebuilt(k, NewDatabase(), ops);
  }

  /** Inserted and deleted again: both succeed, the collection is empty, and the file never opens. */
  lemma UnreadThenDeleted(k: Codec, doc: Bytes, id: string)
    requires k.Lawful() && Small(k, doc, id) && doc != [] && id != "" && Carries(k, doc, id) && k.probe(doc) == None
    ensures var ops := InsertThenDelete(k, doc, id);
            && LegalRun(k, NewDatabase(), ops) && EveryDefineKept(k, NewDatabase(), ops)
            && var e := After(k, NewDatabase(), ops);
               1 in e.db.byID && e.db.byID[1].slots == [] && WalkLog(k, e.recs) == Refused
  {
    hide Legal, Small, Carries, LegalRun, After, EveryDefineKept, Legible, WalkLog, InsertThenDelete, UnreadIn, NamedIn;
    var e := InsertThenDeleteRuns(k, doc, id);
    var insert, tomb := Record(OP_INSERT, 1, doc), Record(OP_DELETE, 1, k.tombstone(id));
    assert e.recs == [e.recs[0], insert] + [tomb];
    OneMore(k, [e.recs[0]], insert, 1);
    assert [e.recs[0]] + [insert] == [e.recs[0], insert];
    LegibleSnoc(k, [e.recs[0], insert], tomb);
    RefusedRun(k, InsertThenDelete(k, doc, id));
  }

  /** Define, insert a document that can be read, and replace it by one that cannot. */
  function InsertThenReplace(k: Codec, doc: Bytes, id: string, encode: string -> Bytes): seq<Op> {
    InsertThenDelete(k, doc, id)[..2] + [ReplaceOp(1, _ => true, "", encode, RECORD_HEADER + |encode(id)|)]
  }

  /** A single replacement that payloadID cannot read is enough: its own record is refused. */
  lemma UnreadReplacement(k: Codec, doc: Bytes, id: string, encode: string -> Bytes)
    requires k.Lawful() && Small(k, doc, id) && doc != [] && id != "" && Carries(k, doc, id) && k.probe(doc).Some?
    requires forall x: string :: encode(x) != [] && Carries(k, encode(x), x)
    requires k.probe(encode(id)) == None && |encode(id)| <= MAX_PAYLOAD
    ensures var ops := InsertThenReplace(k, doc, id, encode);
            && LegalRun(k, NewDatabase(), ops) && EveryDefineKept(k, NewDatabase(), ops)
            && var e := After(k, NewDatabase(), ops);
               && 1 in e.db.byID && |e.db.byID[1].slots| == 1 && e.db.byID[1].slots[0].doc == encode(id)
               && WalkLog(k, e.recs) == Refused
  {
    hide Legal, Small, LegalRun, After, EveryDefineKept, Legible, WalkLog, LosesDefine, UnreadIn, NamedIn, Step;
    var e2 := InsertRuns(k, doc, id);
    var ops := InsertThenDelete(k, doc, id)[..2];
    var op := ReplaceOp(1, _ => true, "", encode, RECORD_HEADER + |encode(id)|);
    ReplaceOnly(k, e2.db, id, op);
    OthersLoseNothing(k, e2.db, op);
    RunSnoc(k, NewDatabase(), ops, op);
    var r := Record(OP_REPLACE, 1, encode(id));
    LegibleSnoc(k, e2.recs, r);
    RefusedRun(k, ops + [op]);
  }

  lemma InsertRuns(k: Codec, doc: Bytes, id: string) returns (e: Effect)
    requires k.Lawful() && Small(k, doc, id) && doc != [] && id != "" && Carries(k, doc, id)
    ensures var ops := InsertThenDelete(k, doc, id)[..2];
            && LegalRun(k, NewDatabase(), ops) && EveryDefineKept(k, NewDatabase(), ops)
            && e == After(k, NewDatabase(), ops)
    ensures 1 in e.db.byID && |e.db.byID[1].slots| == 1 && e.db.byID[1].slots[0].doc == doc
  {
    hide Legal, Stepped, Small, Carries, LegalRun, After, EveryDefineKept, LosesDefine;
    RunStarts(k);
    var ops := InsertThenDelete(k, doc, id);
    var e1 := DefineFirst(k, doc, id);
    RunSnoc(k, NewDatabase(), [], ops[0]);
    e := InsertSecond(k, doc, id, e1);
    OthersLoseNothing(k, e1.db, ops[1]);
    RunSnoc(k, NewDatabase(), [] + [ops[0]], ops[1]);
    assert [] + [ops[0]] + [ops[1]] == ops[..2];
  }

  /** Replacing the one document of a collection. */
  lemma ReplaceOnly(k: Codec, db: Db, id: string, op: Op)
    requires op.ReplaceOp? && op.coll == 1 && op.suppliedID == ""
    requires 1 in db.byID && |db.byID[1].slots| == 1 && Carries(k, db.byID[1].slots[0].doc, id)
    requires k.probe(db.byID[1].slots[0].doc).Some? && op.accepts(db.byID[1].slots[0].doc)
    requires forall x: string :: op.encode(x) != [] && Carries(k, op.encode(x), x)
    requires |op.encode(id)| <= MAX_PAYLOAD && op.landed == RECORD_HEADER + |op.encode(id)|
    ensures Legal(k, db, op)
    ensures var s := Step(k, db, op);
            && s.recs == [Record(OP_REPLACE, 1, op.encode(id))]
            && 1 in s.db.byID && |s.db.byID[1].slots| == 1 && s.db.byID[1].slots[0].doc == op.encode(id)
  {
    var s := db.byID[1].slots;
    assert MatchesUpTo(s, op.accepts, 1, 0) == [];
    assert Matches(s, op.accepts, 1) == [0];
  }

  /** Define, insert and delete one document, then insert another that payloadID cannot read. */
  function DeleteThenInsert(k: Codec, doc: Bytes, id: string, later: Bytes, laterID: string): seq<Op> {
    InsertThenDelete(k, doc, id) + [InsertOp(1, [NewDoc(later, laterID, false)], RECORD_HEADER + |later|)]
  }

  /** Nor does the order matter: inserted after any replace or delete in the collection, it is refused itself. */
  lemma UnreadAfterDelete(k: Codec, doc: Bytes, id: string, later: Bytes, laterID: string)
    requires k.Lawful() && Small(k, doc, id) && doc != [] && id != "" && Carries(k, doc, id) && k.probe(doc).Some?
    requires later != [] && laterID != "" && Carries(k, later, laterID) && |later| <= MAX_PAYLOAD
    requires k.probe(later) == None
    ensures var ops := DeleteThenInsert(k, doc, id, later, laterID);
            && LegalRun(k, NewDatabase(), ops) && EveryDefineKept(k, NewDatabase(), ops)
            && WalkLog(k, After(k, NewDatabase(), ops).recs) == Refused
  {
    hide Legal, Small, Carries, LegalRun, After, EveryDefineKept, Legible, WalkLog, LosesDefine, UnreadIn, NamedIn,
      Step, InsertThenDelete;
    var e := InsertThenDeleteRuns(k, doc, id);
    var d := NewDoc(later, laterID, false);
    var op := InsertOp(1, [d], RECORD_HEADER + |later|);
    InsertIntoEmpty(k, e.db, d);
    OthersLoseNothing(k, e.db, op);
    RunSnoc(k, NewDatabase(), InsertThenDelete(k, doc, id), op);
    var tomb, r := e.recs[2], Record(OP_INSERT, 1, later);
    assert e.recs == e.recs[..2] + [tomb];
    OneMore(k, e.recs[..2], tomb, 1);
    LegibleSnoc(k, e.recs, r);
    RefusedRun(k, InsertThenDelete(k, doc, id) + [op]);
  }

  lemma InsertIntoEmpty(k: Codec, db: Db, d: NewDoc)
    requires 1 in db.byID && db.byID[1].slots == [] && !d.supplied && |d.payload| <= MAX_PAYLOAD
    requires d.payload != [] && d.id != "" && Carries(k, d.payload, d.id)
    ensures var op := InsertOp(1, [d], RECORD_HEADER + |d.payload|);
            Legal(k, db, op) && Step(k, db, op).recs == [Record(OP_INSERT, 1, d.payload)]
  {
    var op := InsertOp(1, [d], RECORD_HEADER + |d.payload|);
    assert op.docs[0] == d && forall x <- op.docs :: x == d;
    InsertOneIs(k, db, 1, d, op.landed);
    hide Step, CheckIds;
  }

  // ----- one stored _id, twice -----

  /**
   The first record of a collection to name a document finds the lowest slot that stores the _id,
   for the table it is looked up in is built at that moment.
   */
  lemma FirstNamedTakesLowest(k: Codec, recs: seq<Record>, r: Record, id: string)
    requires WalkLog(k, recs).Applied? && Names(r) && k.probe(r.payload) == Some(id) && id != ""
    requires var db := WalkLog(k, recs).w.db;
             && r.coll in db.byID && !db.byID[r.coll].indexed && CanIndex(k, db.byID[r.coll])
             && HasId(k, db.byID[r.coll].slots, id)
    ensures var w := WalkLog(k, recs).w;
            var q := Lowest(k, w.db.byID[r.coll].slots, id, 0);
            && q < |w.db.byID[r.coll].slots|
            && WalkLog(k, recs + [r]) == Applied(NamedWalk(w, r.op == OP_DELETE, r.coll, r.payload, q))
  {
    WalkSnoc(k, recs, r);
    hide WalkLog;
  }

  /** Taking out one position or another leaves the same list only when they are the same. */
  lemma {:induction false} RemovedAlike(s: seq<Slot>, p: nat, q: nat)
    requires p < |s| && q < |s| && forall i, j | 0 <= i < j < |s| :: s[i] != s[j]
    ensures RemoveAt(s, p) == RemoveAt(s, q) <==> p == q
  {
    var a, b := RemoveAt(s, p), RemoveAt(s, q);
    if p < q {
      assert a[p] == s[p + 1] && b[p] == s[p];
    } else if q < p {
      assert b[q] == s[q + 1] && a[q] == s[q];
    }
  }

  /**
   When replay hits the wrong document. A delete took out the document at position p of a collection
   of which no record had named a document before. Replay takes out the same document if and only if
   no document before it stores the same _id.
   */
  lemma TombstoneHitsRight(k: Codec, recs: seq<Record>, tomb: Bytes, coll: Word16, p: nat)
    requires WalkLog(k, recs).Applied?
    requires var db := WalkLog(k, recs).w.db;
             && coll in db.byID && !db.byID[coll].indexed && CanIndex(k, db.byID[coll]) && NoMarks(db.byID[coll].slots)
             && p < |db.byID[coll].slots|
             && (forall i, j | 0 <= i < j < |db.byID[coll].slots| :: db.byID[coll].slots[i] != db.byID[coll].slots[j])
             && k.probe(tomb).Some? && k.probe(tomb).value != ""
             && Holds(k, db.byID[coll].slots, k.probe(tomb).value, p)
    ensures var s := WalkLog(k, recs).w.db.byID[coll].slots;
            var a := WalkLog(k, recs + [Record(OP_DELETE, coll, tomb)]);
            && a.Applied? && coll in a.w.db.byID
            && (Unmarked(a.w.db.byID[coll].slots) == RemoveAt(s, p) <==>
                forall i: nat | i < p :: !Holds(k, s, k.probe(tomb).value, i))
  {
    hide WalkLog, Unmarked, RemoveAt;
    var id, w := k.probe(tomb).value, WalkLog(k, recs).w;
    var s := w.db.byID[coll].slots;
    FirstNamedTakesLowest(k, recs, Record(OP_DELETE, coll, tomb), id);
    var q := Lowest(k, s, id, 0);
    NamedWalkIs(w, true, coll, tomb, q);
    MarkRemoves(s, q);
    RemovedAlike(s, p, q);
  }

  /** In an index without marks, marking a slot is removing it once the marks are taken out. */
  lemma MarkRemoves(s: seq<Slot>, q: nat)
    requires NoMarks(s) && q < |s|
    ensures Unmarked(s[q := s[q].Mark()]) == RemoveAt(s, q)
  {
    MarkCommutes(s, q, |s|);
    NothingToCompact(s, |s|);
    RankAll(s, q);
  }

  lemma {:induction false} RankAll(s: seq<Slot>, i: nat)
    requires NoMarks(s) && i <= |s|
    ensures Rank(s, i) == i
  {
    if i > 0 {
      RankAll(s, i - 1);
    }
  }

  /** Define a collection, insert two documents under a supplied _id that neither is stored with. */
  ghost predicate Disguised(k: Codec, one: Bytes, two: Bytes, id: string, stored: string) {
    && one != [] && two != [] && one != two && id != "" && stored != "" && id != stored
    && Carries(k, one, stored) && Carries(k, two, stored) && k.probe(one).Some? && k.probe(two).Some?
    && |k.encodeDefinition(Definition(1, "a"))| <= MAX_PAYLOAD
    && |one| <= MAX_PAYLOAD && |two| <= MAX_PAYLOAD && |k.tombstone(stored)| <= MAX_PAYLOAD
  }

  ghost predicate DocsAre(s: seq<Slot>, docs: seq<Bytes>) {
    |s| == |docs| && forall i | 0 <= i < |s| :: s[i].doc == docs[i]
  }

  /** A supplied _id that is not blocked gets its document in. */
  lemma InsertPasses(k: Codec, db: Db, d: NewDoc)
    requires 1 in db.byID && CanIndex(k, db.byID[1]) && !Blocked(k, db.byID[1].slots, d.id)
    requires d.supplied && |d.payload| <= MAX_PAYLOAD
    ensures var s := InsertEffect(k, db, 1, [d], RECORD_HEADER + |d.payload|);
            && s.recs == [Record(OP_INSERT, 1, d.payload)] && 1 in s.db.byID
            && |s.db.byID[1].slots| == |db.byID[1].slots| + 1
            && s.db.byID[1].slots[..|db.byID[1].slots|] == db.byID[1].slots
            && s.db.byID[1].slots[|db.byID[1].slots|].doc == d.payload
  {
    var c, p := db.byID[1], d.payload;
    OneCheck(k, c, d);
    assert Payloads([d]) == [p];
    OneWhole(p, RECORD_HEADER + |p|);
    OneAdded(WithTable(db, 1, true), 1, p);
    hide CheckIds, Whole, Payloads, AddDocs, Records, CanIndex, Blocked;
  }

  /** Documents stored under another _id do not block a lookup of this one. */
  lemma OthersDoNotBlock(k: Codec, s: seq<Slot>, docs: seq<Bytes>, id: string, stored: string)
    requires DocsAre(s, docs) && id != stored && forall i | 0 <= i < |docs| :: k.probe(docs[i]) == Some(stored)
    ensures !Blocked(k, s, id) && forall c: Coll | c.slots == s :: CanIndex(k, c)
  {
  }

  /** Deleting the one document a filter accepts. */
  lemma DeleteOne(k: Codec, db: Db, p: nat, accepts: Bytes -> bool)
    requires 1 in db.byID && p < |db.byID[1].slots|
    requires forall i | 0 <= i < |db.byID[1].slots| :: accepts(db.byID[1].slots[i].doc) <==> i == p
    requires var id := k.exact(db.byID[1].slots[p].doc); id != "" && |k.tombstone(id)| <= MAX_PAYLOAD
    ensures var t := k.tombstone(k.exact(db.byID[1].slots[p].doc));
            var s := DeleteEffect(k, db, 1, accepts, 0, RECORD_HEADER + |t|);
            && s.recs == [Record(OP_DELETE, 1, t)]
            && 1 in s.db.byID && s.db.byID[1].slots == RemoveAt(db.byID[1].slots, p)
  {
    hide Matches, DropDocs, Whole, Keep, RemoveAt, Tombstones, Records;
    var s, ps: seq<nat> := db.byID[1].slots, [p];
    var t := k.tombstone(k.exact(s[p].doc));
    OneMatch(s, accepts, p, |s|);
    OneTombstone(k, s, p);
    assert [t][..1] == [t] && ps[..1] == ps;
    OneWhole(t, RECORD_HEADER + |t|);
    DropDocsShape(db, 1, ps, [t], 1);
    DropDocsTouches(db, 1, ps, [t], 1);
    KeepOneLess(s, p);
    OneRecord(t);
  }

  lemma OneRecord(t: Bytes)
    ensures Records(OP_DELETE, 1, [t]) == [Record(OP_DELETE, 1, t)]
  {
  }

  lemma OneTombstone(k: Codec, s: seq<Slot>, p: nat)
    requires p < |s|
    ensures var ps: seq<nat> := [p]; Ascending(ps, |s|) && Tombstones(k, s, ps) == [k.tombstone(k.exact(s[p].doc))]
  {
  }

  lemma KeepOneLess(s: seq<Slot>, p: nat)
    requires p < |s|
    ensures Keep(s, [p]) == RemoveAt(s, p)
  {
    KeepAll(s, [], |s|);
    KeepOneMore(s, [], p);
    assert [] + [p] == [p];
  }

  lemma {:induction false} OneMatch(s: seq<Slot>, accepts: Bytes -> bool, p: nat, n: nat)
    requires p < |s| && n <= |s| && forall i | 0 <= i < |s| :: accepts(s[i].doc) <==> i == p
    ensures MatchesUpTo(s, accepts, 0, n) == if p < n then [p] else []
    ensures n == |s| ==> Matches(s, accepts, 0) == [p]
  {
    if n > 0 {
      OneMatch(s, accepts, p, n - 1);
    }
  }

  lemma DefinedLog(k: Codec, doc: Bytes, id: string, e: Effect)
    requires k.Lawful() && |k.encodeDefinition(Definition(1, "a"))| <= MAX_PAYLOAD
    requires e.recs == [Record(OP_DEFINE, 1, k.encodeDefinition(Definition(1, "a")))]
    ensures WalkLog(k, e.recs).Applied?
    ensures var db := WalkLog(k, e.recs).w.db; 1 in db.byID && db.byID[1] == Coll("a", [], false, false)
  {
    var p := k.encodeDefinition(Definition(1, "a"));
    assert e.recs == [] + [Record(OP_DEFINE, 1, p)];
    WalkSnoc(k, [], Record(OP_DEFINE, 1, p));
  }

  /** An insert record in a collection without a table is one more slot. */
  lemma InsertWalks(k: Codec, recs: seq<Record>, payload: Bytes, docs: seq<Bytes>)
    requires WalkLog(k, recs).Applied?
    requires var db := WalkLog(k, recs).w.db;
             1 in db.byID && !db.byID[1].indexed && DocsAre(db.byID[1].slots, docs)
    ensures var a := WalkLog(k, recs + [Record(OP_INSERT, 1, payload)]);
            && a.Applied? && 1 in a.w.db.byID && !a.w.db.byID[1].indexed
            && DocsAre(a.w.db.byID[1].slots, docs + [payload])
  {
    WalkSnoc(k, recs, Record(OP_INSERT, 1, payload));
    hide WalkLog;
  }

  /**
   An _id that is not valid UTF-8 is stored changed, so the check for duplicates, which compares it
   with what is stored, lets it in a second time. Deleting the second document writes a tombstone for
   the _id both store; replay takes out the first.
   */
  lemma WrongDocument(k: Codec, one: Bytes, two: Bytes, id: string, stored: string)
    requires k.Lawful() && Disguised(k, one, two, id, stored)
    ensures var e1 := Stepped(k, NewDatabase(), InsertThenDelete(k, one, id)[0]);
            1 in e1.db.byID &&
            var s2 := InsertEffect(k, e1.db, 1, [NewDoc(one, id, true)], RECORD_HEADER + |one|);
            1 in s2.db.byID &&
            var s3 := InsertEffect(k, s2.db, 1, [NewDoc(two, id, true)], RECORD_HEADER + |two|);
            1 in s3.db.byID &&
            var s4 := DeleteEffect(k, s3.db, 1, doc => doc == two, 0, RECORD_HEADER + |k.tombstone(stored)|);
            var a := WalkLog(k, e1.recs + s2.recs + s3.recs + s4.recs);
            && 1 in s4.db.byID && DocsAre(s3.db.byID[1].slots, [one, two]) && DocsAre(s4.db.byID[1].slots, [one])
            && a.Applied? && 1 in a.w.db.byID && DocsAre(Unmarked(a.w.db.byID[1].slots), [two])
  {
    hide InsertEffect, DeleteEffect, WalkLog, Stepped, Unmarked, RemoveAt, Blocked, CanIndex, InsertThenDelete, Lowest;
    var tomb := k.tombstone(stored);
    var e1 := DefineFirst(k, one, stored);
    SameDefine(k, one, id, stored);
    var d1, d2 := NewDoc(one, id, true), NewDoc(two, id, true);
    OthersDoNotBlock(k, e1.db.byID[1].slots, [], id, stored);
    InsertPasses(k, e1.db, d1);
    var s2 := InsertEffect(k, e1.db, 1, [d1], RECORD_HEADER + |one|);
    OthersDoNotBlock(k, s2.db.byID[1].slots, [one], id, stored);
    InsertPasses(k, s2.db, d2);
    var s3 := InsertEffect(k, s2.db, 1, [d2], RECORD_HEADER + |two|);
    FirstOfTwo(s2.db.byID[1].slots, s3.db.byID[1].slots);
    DeleteOne(k, s3.db, 1, doc => doc == two);
    RemovedDocs(s3.db.byID[1].slots, one, two, 1);
    DefinedLog(k, one, id, e1);
    InsertWalks(k, e1.recs, one, []);
    InsertWalks(k, e1.recs + s2.recs, two, [] + [one]);
    var log := e1.recs + s2.recs + s3.recs;
    var s := WalkLog(k, log).w.db.byID[1].slots;
    LowestOfTwo(k, log, one, two, tomb, stored);
    RemovedDocs(s, one, two, 0);
  }

  lemma SameDefine(k: Codec, doc: Bytes, id: string, other: string)
    ensures InsertThenDelete(k, doc, id)[0] == InsertThenDelete(k, doc, other)[0]
  {
  }

  lemma FirstOfTwo(s: seq<Slot>, t: seq<Slot>)
    requires |s| == 1 && |t| == 2 && t[..1] == s
    ensures t[0] == s[0]
  {
    assert t[0] == t[..1][0];
  }

  lemma RemovedDocs(s: seq<Slot>, one: Bytes, two: Bytes, p: nat)
    requires DocsAre(s, [one, two]) && p < 2
    ensures DocsAre(RemoveAt(s, p), if p == 0 then [two] else [one])
  {
  }

  /** A tombstone that both of two documents answer to marks the first. */
  lemma LowestOfTwo(k: Codec, log: seq<Record>, one: Bytes, two: Bytes, tomb: Bytes, stored: string)
    requires WalkLog(k, log).Applied? && k.probe(tomb) == Some(stored) && stored != "" && one != [] && two != []
    requires k.probe(one) == Some(stored) && k.probe(two) == Some(stored)
    requires var db := WalkLog(k, log).w.db;
             1 in db.byID && !db.byID[1].indexed && DocsAre(db.byID[1].slots, [one, two])
    ensures var s, a := WalkLog(k, log).w.db.byID[1].slots, WalkLog(k, log + [Record(OP_DELETE, 1, tomb)]);
            a.Applied? && 1 in a.w.db.byID && Unmarked(a.w.db.byID[1].slots) == RemoveAt(s, 0)
  {
    hide WalkLog, Unmarked, RemoveAt;
    var w := WalkLog(k, log).w;
    var s := w.db.byID[1].slots;
    assert Holds(k, s, stored, 0);
    FirstNamedTakesLowest(k, log, Record(OP_DELETE, 1, tomb), stored);
    assert Lowest(k, s, stored, 0) == 0;
    NamedWalkIs(w, true, 1, tomb, 0);
    MarkRemoves(s, 0);
  }
}
