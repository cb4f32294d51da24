/**
 Where the engine's promises stop. Each lemma names an input the code accepts, shows what becomes
 of it, and where a promise holds only under a condition, says exactly which.
 */
module Failures {
  import opened Framing
  import opened Slots
  import opened Database
  import opened Replay
  import opened Live
  import opened Legibility
  import opened Rebuild
  import opened Recovery
  import opened Appends
  import opened Steps

  /** One more operation of a run. */
  lemma RunSnoc(k: Codec, start: Effect, ops: seq<Op>, op: Op)
    requires LegalRun(k, start, ops) && Legal(k, After(k, start, ops).db, op)
    ensures LegalRun(k, start, ops + [op])
    ensures After(k, start, ops + [op]) == Stepped(k, After(k, start, ops), op)
    ensures EveryDefineKept(k, start, ops + [op]) <==>
              EveryDefineKept(k, start, ops) && !LosesDefine(k, After(k, start, ops).db, op)
  {
    hide Legal, Step, LosesDefine;
    assert (ops + [op])[..|ops|] == ops;
  }

  function NewDatabase(): Effect {
    Effect(Empty(), [])
  }

  // ----- a define whose sync fails -----

  /** Creating the collection "a" in a new database, the record written and the sync failed. */
  function LostDefine(k: Codec): Op {
    DefineOp("a", RECORD_HEADER + |k.encodeDefinition(Definition(1, "a"))|, false)
  }

  /** The smallest run whose log does not rebuild it. */
  lemma LostDefineIsNotRebuilt(k: Codec)
    requires k.Lawful() && |k.encodeDefinition(Definition(1, "a"))| <= MAX_PAYLOAD
    ensures LegalRun(k, NewDatabase(), [LostDefine(k)])
    ensures !RebuildsExactly(k, After(k, NewDatabase(), [LostDefine(k)]))
  {
    var op := LostDefine(k);
    assert LosesDefine(k, Empty(), op);
    RunSnoc(k, NewDatabase(), [], op);
    assert [] + [op] == [op];
    EmptyIsRebuilt(k);
    ReplayRebuildsEveryRun(k, NewDatabase(), [op]);
    hide LosesDefine, RebuildsExactly, Rebuilt;
  }

  // ----- a tombstone followed by a torn tail -----

  /** Define "a", insert one document, delete everything. */
  function InsertThenDelete(k: Codec, doc: Bytes, id: string): seq<Op> {
    [DefineOp("a", RECORD_HEADER + |k.encodeDefinition(Definition(1, "a"))|, true),
     InsertOp(1, [NewDoc(doc, id, true)], RECORD_HEADER + |doc|),
     DeleteOp(1, _ => true, 0, RECORD_HEADER + |k.tombstone(id)|)]
  }

  ghost predicate Small(k: Codec, doc: Bytes, id: string) {
    && |k.encodeDefinition(Definition(1, "a"))| <= MAX_PAYLOAD
    && |doc| <= MAX_PAYLOAD && |k.tombstone(id)| <= MAX_PAYLOAD
  }

  lemma DefineFirst(k: Codec, doc: Bytes, id: string) returns (e: Effect)
    requires k.Lawful() && Small(k, doc, id)
    ensures var op := InsertThenDelete(k, doc, id)[0];
            Legal(k, Empty(), op) && e == Stepped(k, NewDatabase(), op) && !LosesDefine(k, Empty(), op)
    ensures 1 in e.db.byID && e.db.byID[1] == Coll("a", [], false, false)
    ensures e.recs == [Record(OP_DEFINE, 1, k.encodeDefinition(Definition(1, "a")))]
  {
    e := Stepped(k, NewDatabase(), InsertThenDelete(k, doc, id)[0]);
  }

  lemma InsertSecond(k: Codec, doc: Bytes, id: string, e: Effect) returns (e': Effect)
    requires k.Lawful() && Small(k, doc, id) && doc != [] && id != "" && Carries(k, doc, id)
    requires 1 in e.db.byID && e.db.byID[1] == Coll("a", [], false, false)
    ensures var op := InsertThenDelete(k, doc, id)[1];
            Legal(k, e.db, op) && e' == Stepped(k, e, op)
    ensures 1 in e'.db.byID && |e'.db.byID[1].slots| == 1 && e'.db.byID[1].slots[0].doc == doc
    ensures e'.recs == e.recs + [Record(OP_INSERT, 1, doc)]
  {
    var op := InsertThenDelete(k, doc, id)[1];
    assert op.docs[0] == NewDoc(doc, id, true);
    InsertOneIs(k, e.db, 1, NewDoc(doc, id, true), op.landed);
    assert !Blocked(k, [], id);
    e' := Stepped(k, e, op);
    hide Step, Blocked;
  }

  lemma DeleteThird(k: Codec, doc: Bytes, id: string, e: Effect) returns (e': Effect)
    requires k.Lawful() && Small(k, doc, id) && doc != [] && id != "" && k.exact(doc) == id
    requires 1 in e.db.byID && |e.db.byID[1].slots| == 1 && e.db.byID[1].slots[0].doc == doc
    ensures var op := InsertThenDelete(k, doc, id)[2];
            Legal(k, e.db, op) && e' == Stepped(k, e, op)
    ensures e'.recs == e.recs + [Record(OP_DELETE, 1, k.tombstone(id))]
    ensures 1 in e'.db.byID && e'.db.byID[1].slots == []
  {
    var op := InsertThenDelete(k, doc, id)[2];
    e' := Stepped(k, e, op);
    DeleteOnly(k, e.db, id, op.accepts, op.landed);
  }

  /** Deleting the one document of a collection. */
  lemma DeleteOnly(k: Codec, db: Db, id: string, accepts: Bytes -> bool, landed: nat)
    requires 1 in db.byID && |db.byID[1].slots| == 1 && k.exact(db.byID[1].slots[0].doc) == id != ""
    requires accepts(db.byID[1].slots[0].doc) && |k.tombstone(id)| <= MAX_PAYLOAD
    requires landed == RECORD_HEADER + |k.tombstone(id)|
    ensures var s := DeleteEffect(k, db, 1, accepts, 0, landed);
            && s.recs == [Record(OP_DELETE, 1, k.tombstone(id))]
            && 1 in s.db.byID && s.db.byID[1].slots == []
  {
    hide Matches, Tombstones, DropDocs, Whole, Keep;
    var s, t := db.byID[1].slots, k.tombstone(id);
    OnlyMatch(k, s, accepts);
    OneWhole(t, landed);
    DropDocsShape(db, 1, [0], [t], 1);
    DropDocsTouches(db, 1, [0], [t], 1);
    assert [0][..1] == [0] && [t][..1] == [t];
  }

  lemma OnlyMatch(k: Codec, s: seq<Slot>, accepts: Bytes -> bool)
    requires |s| == 1 && accepts(s[0].doc)
    ensures Matches(s, accepts, 0) == [0] && Tombstones(k, s, [0]) == [k.tombstone(k.exact(s[0].doc))]
    ensures Keep(s, [0]) == []
  {
    assert MatchesUpTo(s, accepts, 0, 0) == [];
    var ps: seq<nat> := [0];
    assert 0 in ps && KeepUpTo(s, ps, 0) == [];
  }

  /**
   A database that only ever held one document and deleted it: after a torn write, recovery
   publishes a collection of one unreadable entry where the live one was empty.
   */
  lemma TornTailAfterDelete(k: Codec, doc: Bytes, id: string, header: Bytes, r: Record, m: nat, fast: bool)
    requires k.Lawful() && Small(k, doc, id) && doc != [] && id != "" && Carries(k, doc, id) && k.probe(doc).Some?
    requires |header| == FILE_HEADER && |r.payload| <= MAX_PAYLOAD && 0 < m < r.Size()
    ensures var ops := InsertThenDelete(k, doc, id);
            LegalRun(k, NewDatabase(), ops) && EveryDefineKept(k, NewDatabase(), ops)
    ensures var e := After(k, NewDatabase(), InsertThenDelete(k, doc, id));
            var o := WalkBytes(k, header + (LogBytes(k.crc, e.recs) + Encode(k.crc, r)[..m]), fast, Start());
            && 1 in e.db.byID && e.db.byID[1].slots == []
            && o.Torn? && Visible(Published(o)) != Visible(e.db)
  {
    var e := InsertThenDeleteRuns(k, doc, id);
    var ops := InsertThenDelete(k, doc, id);
    EmptyIsRebuilt(k);
    RunRebuilt(k, NewDatabase(), ops);
    DocsReadLegible(k, e.recs);
    RebuiltWalk(k, e);
    RunFitsHere(k, ops);
    TornTail(k, header, e.recs, r, m, fast);
    TornTailPublishes(k, e);
    hide LegalRun, After, EveryDefineKept, WalkBytes, WalkLog, Rebuilt, Visible, Published, InsertThenDelete,
      Carries, Small, Legible, HasDelete;
  }

  /** A log whose documents can all be read is legible. */
  lemma DocsReadLegible(k: Codec, recs: seq<Record>)
    requires forall r <- recs | r.op == OP_INSERT || r.op == OP_REPLACE :: k.probe(r.payload).Some?
    ensures Legible(k, recs)
  {
  }

  lemma RunFitsHere(k: Codec, ops: seq<Op>)
    requires LegalRun(k, NewDatabase(), ops)
    ensures Fits(After(k, NewDatabase(), ops).recs)
  {
    Scan.RunFits(k, NewDatabase(), ops);
  }

  lemma InsertThenDeleteRuns(k: Codec, doc: Bytes, id: string) returns (e: Effect)
    requires k.Lawful() && Small(k, doc, id) && doc != [] && id != "" && Carries(k, doc, id)
    ensures var ops := InsertThenDelete(k, doc, id);
            && LegalRun(k, NewDatabase(), ops) && EveryDefineKept(k, NewDatabase(), ops)
            && e == After(k, NewDatabase(), ops)
    ensures HasDelete(e.recs) && 1 in e.db.byID && e.db.byID[1].slots == []
    ensures e.recs == [Record(OP_DEFINE, 1, k.encodeDefinition(Definition(1, "a"))), Record(OP_INSERT, 1, doc),
                       Record(OP_DELETE, 1, k.tombstone(id))]
  {
    hide Legal, Stepped, Small, Carries, LegalRun, After, EveryDefineKept, LosesDefine;
    RunStarts(k);
    var ops := InsertThenDelete(k, doc, id);
    var e1 := DefineFirst(k, doc, id);
    RunSnoc(k, NewDatabase(), [], ops[0]);
    var e2 := InsertSecond(k, doc, id, e1);
    OthersLoseNothing(k, e1.db, ops[1]);
    RunSnoc(k, NewDatabase(), [] + [ops[0]], ops[1]);
    CarriesExact(k, doc, id);
    e := DeleteThird(k, doc, id, e2);
    OthersLoseNothing(k, e2.db, ops[2]);
    RunSnoc(k, NewDatabase(), [] + [ops[0]] + [ops[1]], ops[2]);
    assert [] + [ops[0]] + [ops[1]] + [ops[2]] == ops;
    assert e.recs[|e2.recs|] in e.recs;
  }

  lemma RunStarts(k: Codec)
    ensures LegalRun(k, NewDatabase(), []) && After(k, NewDatabase(), []) == NewDatabase()
    ensures EveryDefineKept(k, NewDatabase(), [])
  {
  }

  lemma OthersLoseNothing(k: Codec, db: Db, op: Op)
    ensures !op.DefineOp? ==> !LosesDefine(k, db, op)
  {
  }

  lemma CarriesExact(k: Codec, doc: Bytes, id: string)
    requires Carries(k, doc, id)
    ensures k.exact(doc) == id
  {
  }

  // ----- residue of an earlier failed write -----

  /** The header at the start of some bytes. */
  function FirstHeader(tail: Bytes): Header
    requires |tail| >= RECORD_HEADER
  {
    DecodeHeader(tail[..RECORD_HEADER])
  }

  /** The bytes hold the whole of the record their header declares, and where it ends. */
  ghost predicate Declares(tail: Bytes, end: nat) {
    && |tail| >= RECORD_HEADER && FirstHeader(tail).length <= MAX_PAYLOAD
    && end == RECORD_HEADER + FirstHeader(tail).length <= |tail|
  }

  /** The record declared at the start of the bytes does not check out. */
  ghost predicate Mismatched(k: Codec, tail: Bytes)
    requires |tail| >= RECORD_HEADER && RECORD_HEADER + FirstHeader(tail).length <= |tail|
  {
    k.crc(tail[4..8] + tail[RECORD_HEADER..RECORD_HEADER + FirstHeader(tail).length]) != FirstHeader(tail).crc
  }

  lemma TailFrames(k: Codec, pre: Bytes, tail: Bytes)
    ensures var file, off := pre + tail, |pre|;
            && (Framed(file, off) <==> exists end: nat :: Declares(tail, end))
            && (Framed(file, off) ==>
                  && HeaderAt(file, off) == FirstHeader(tail)
                  && PayloadAt(file, off) == tail[RECORD_HEADER..RECORD_HEADER + FirstHeader(tail).length]
                  && (ChecksumOk(k, file, off) <==> !Mismatched(k, tail)))
  {
    hide DecodeHeader;
    var file, off := pre + tail, |pre|;
    if |tail| >= RECORD_HEADER {
      assert file[off..off + RECORD_HEADER] == tail[..RECORD_HEADER];
      assert file[off + 4..off + 8] == tail[4..8];
      var end := RECORD_HEADER + FirstHeader(tail).length;
      if FirstHeader(tail).length <= MAX_PAYLOAD && end <= |tail| {
        assert Declares(tail, end);
        assert file[off + RECORD_HEADER..off + end] == tail[RECORD_HEADER..end];
      }
    }
  }

  /**
   How the walk ends on a log followed by any bytes whatever, by the record those bytes declare:
   cut off when it is not all there, refused when its flags are set, cut off or refused when it is
   read and does not check out, by whether it ends the file, and otherwise taken for a record.
   */
  lemma ResidueEnds(k: Codec, header: Bytes, recs: seq<Record>, tail: Bytes, fast: bool)
    requires |header| == FILE_HEADER && Fits(recs) && WalkLog(k, recs).Applied? && tail != []
    ensures var file, w := header + (LogBytes(k.crc, recs) + tail), WalkLog(k, recs).w;
            && ((forall end: nat :: !Declares(tail, end)) ==> WalkBytes(k, file, fast, Start()) == Torn(w))
            && (forall end: nat | Declares(tail, end) ::
                  var h := FirstHeader(tail);
                  if h.flags != 0 then WalkBytes(k, file, fast, Start()) == Failed
                  else if MustRead(w.db, h, fast, end == |tail|) && Mismatched(k, tail)
                  then WalkBytes(k, file, fast, Start()) == if end == |tail| then Torn(w) else Failed
                  else
                    && w.db.size <= |file| && WalkBytes(k, file, fast, Start()) == WalkBytes(k, file, fast, w)
                    && Followed(k, file, fast, w, Apply(k, w, Record(h.op, h.coll, tail[RECORD_HEADER..end]))))
  {
    hide LogBytes, LogSize, WalkLog, WalkBytes, Framed, HeaderAt, PayloadAt, ChecksumOk, Apply, MustRead, Followed,
      Mismatched, FirstHeader, DecodeHeader;
    var a, w := LogBytes(k.crc, recs), WalkLog(k, recs).w;
    WalkSize(k, recs);
    LogFileSize(k, header, recs);
    WalkBytesLog(k, header, recs, tail, fast);
    ConcatAssoc(header, a, tail);
    TailFrames(k, header + a, tail);
    var file := (header + a) + tail;
    if forall end: nat :: !Declares(tail, end) {
      NotFramedIsTorn(k, file, fast, w);
    } else {
      WalkBytesAt(k, file, fast, w);
    }
  }

  /** The last record of a file is checked in either mode, and cut off when it does not check out. */
  lemma LastRecordIsChecked(k: Codec, header: Bytes, recs: seq<Record>, tail: Bytes, fast: bool)
    requires |header| == FILE_HEADER && Fits(recs) && WalkLog(k, recs).Applied?
    requires Declares(tail, |tail|) && FirstHeader(tail).flags == 0 && Mismatched(k, tail)
    ensures WalkBytes(k, header + (LogBytes(k.crc, recs) + tail), fast, Start()) == Torn(WalkLog(k, recs).w)
  {
    hide LogBytes, WalkLog, WalkBytes, Mismatched, FirstHeader, DecodeHeader, Followed;
    ResidueEnds(k, header, recs, tail, fast);
  }

  /**
   A record further in that does not check out is corruption, and the file is refused: in full mode
   whatever it is, and with fast open if it is a define, a replace, a tombstone, or an insert into a
   collection whose _id table exists by then.
   */
  lemma CorruptionIsRefused(k: Codec, header: Bytes, recs: seq<Record>, tail: Bytes, end: nat, fast: bool)
    requires |header| == FILE_HEADER && Fits(recs) && WalkLog(k, recs).Applied?
    requires Declares(tail, end) && end < |tail| && Mismatched(k, tail)
    requires var db, h := WalkLog(k, recs).w.db, FirstHeader(tail);
             || !fast || h.op == OP_DEFINE || h.op == OP_REPLACE || h.op == OP_DELETE
             || (h.op == OP_INSERT && h.coll in db.byID && db.byID[h.coll].indexed)
    ensures WalkBytes(k, header + (LogBytes(k.crc, recs) + tail), fast, Start()) == Failed
  {
    hide LogBytes, WalkLog, WalkBytes, Mismatched, FirstHeader, DecodeHeader, Followed;
    ResidueEnds(k, header, recs, tail, fast);
  }

  /** What two writes at the same point leave when the second is the shorter or the longer. */
  lemma WriteOver(base: Bytes, x: Bytes, y: Bytes)
    ensures WriteAt(WriteAt(base, |base|, x), |base|, y) == base + (y + (if |y| <= |x| then x[|y|..] else []))
  {
    var f := WriteAt(base, |base|, x);
    assert f == base + x;
    assert f[..|base|] == base;
  }

  /** The m bytes of a record that landed, over the m0 bytes of another that had landed before. */
  function Mixture(k: Codec, r0: Record, m0: nat, r: Record, m: nat): Bytes
    requires m0 <= r0.Size() && m <= r.Size()
  {
    Encode(k.crc, r)[..m] + (if m <= m0 then Encode(k.crc, r0)[..m0][m..] else [])
  }

  /** If the mixture declares a record that is all there, it is read, has no flags and does not check out. */
  ghost predicate Detected(k: Codec, db: Db, tail: Bytes, fast: bool) {
    forall end: nat | Declares(tail, end) ::
      && FirstHeader(tail).flags == 0 && Mismatched(k, tail)
      && MustRead(db, FirstHeader(tail), fast, end == |tail|)
  }

  /**
   A write that failed after m0 bytes of a record, then a crash after any number of bytes of another:
   as long as the mixture is told from a record, the file opens if and only if the record it
   declares is over the limit or does not end short of the end of the file.
   */
  lemma CrashAfterFailedWrite(k: Codec, header: Bytes, recs: seq<Record>, r0: Record, m0: nat, r: Record, m: nat,
                              fast: bool)
    requires |header| == FILE_HEADER && Fits(recs) && WalkLog(k, recs).Applied?
    requires m0 < r0.Size() && 0 < m < r.Size()
    requires Detected(k, WalkLog(k, recs).w.db, Mixture(k, r0, m0, r, m), fast)
    ensures var base := header + LogBytes(k.crc, recs);
            var file := WriteAt(WriteAt(base, |base|, Encode(k.crc, r0)[..m0]), |base|, Encode(k.crc, r)[..m]);
            WalkBytes(k, file, fast, Start()) ==
            if exists end: nat :: end < |Mixture(k, r0, m0, r, m)| && Declares(Mixture(k, r0, m0, r, m), end)
            then Failed else Torn(WalkLog(k, recs).w)
  {
    hide LogBytes, LogSize, Encode, WalkLog, WalkBytes, WriteAt, Mismatched, FirstHeader, MustRead, Followed;
    var a, x, y := LogBytes(k.crc, recs), Encode(k.crc, r0)[..m0], Encode(k.crc, r)[..m];
    var tail := Mixture(k, r0, m0, r, m);
    WriteOver(header + a, x, y);
    ConcatAssoc(header, a, tail);
    ResidueEnds(k, header, recs, tail, fast);
    assert forall end: nat | Declares(tail, end) :: end <= |tail|;
  }

  /** Once the second write got past its header, that is whether the first had gone past the end of its record. */
  lemma HeaderLanded(k: Codec, r0: Record, m0: nat, r: Record, m: nat)
    requires m0 < r0.Size() && RECORD_HEADER <= m < r.Size() && |r.payload| <= MAX_PAYLOAD
    ensures var tail := Mixture(k, r0, m0, r, m);
            (exists end: nat :: end < |tail| && Declares(tail, end)) <==> m0 > r.Size()
    ensures FirstHeader(Mixture(k, r0, m0, r, m)).flags == 0
  {
    hide Encode, DecodeHeader, Meta;
    var tail, b := Mixture(k, r0, m0, r, m), Encode(k.crc, r);
    DecodeEncode(k.crc, r, []);
    assert b + [] == b;
    assert tail[..RECORD_HEADER] == b[..RECORD_HEADER];
    if m0 > r.Size() {
      assert Declares(tail, r.Size());
    }
  }

  /**
   A longer write does it too, if it dies before its length has landed: one byte of a record of 256
   bytes over twenty of one of 16 leaves a header that declares nothing, short of the end.
   */
  lemma LongerWriteOverResidue(k: Codec, header: Bytes, recs: seq<Record>, r0: Record, r: Record, fast: bool)
    requires |header| == FILE_HEADER && Fits(recs) && WalkLog(k, recs).Applied?
    requires |r0.payload| == 16 && |r.payload| == 256 && k.crc(Meta(r0) + []) != k.crc(Meta(r0) + r0.payload)
    requires r0.op == OP_DEFINE || r0.op == OP_REPLACE || r0.op == OP_DELETE || !fast
    ensures var base := header + LogBytes(k.crc, recs);
            var file := WriteAt(WriteAt(base, |base|, Encode(k.crc, r0)[..20]), |base|, Encode(k.crc, r)[..1]);
            WalkBytes(k, file, fast, Start()) == Failed
  {
    hide LogBytes, LogSize, Encode, WalkLog, WalkBytes, WriteAt, Meta, DecodeHeader, MustRead;
    var tail := Mixture(k, r0, 20, r, 1);
    MixedHeader(k, r0, r);
    ReadIs(WalkLog(k, recs).w.db, FirstHeader(tail));
    MustReadMore(WalkLog(k, recs).w.db, FirstHeader(tail), fast, false);
    EverythingIsRead(WalkLog(k, recs).w.db, FirstHeader(tail), fast);
    CrashAfterFailedWrite(k, header, recs, r0, 20, r, 1, fast);
    assert Declares(tail, RECORD_HEADER);
  }

  lemma EverythingIsRead(db: Db, h: Header, fast: bool)
    ensures !fast ==> MustRead(db, h, fast, false) && MustRead(db, h, fast, true)
  {
  }

  lemma MixedHeader(k: Codec, r0: Record, r: Record)
    requires |r0.payload| == 16 && |r.payload| == 256
    ensures var tail := Mixture(k, r0, 20, r, 1);
            && |tail| == 20 && tail[4..8] == Meta(r0)
            && FirstHeader(tail) == Header(0, r0.op, 0, r0.coll, k.crc(Meta(r0) + r0.payload))
  {
    hide DecodeHeader, Encode, Meta, Le32, FromLe32;
    var tail, a := Mixture(k, r0, 20, r, 1), Encode(k.crc, r0);
    DecodeEncode(k.crc, r0, []);
    assert a + [] == a;
    LengthBytes(k.crc, r0, r);
    assert forall i | 1 <= i < 20 :: tail[i] == a[i];
    assert tail[1..4] == a[1..4] && tail[..4] == tail[..1] + tail[1..4];
    assert tail[..4] == [0, 0, 0, 0];
    assert tail[4..8] == a[4..8];
    assert tail[..RECORD_HEADER][4..] == a[..RECORD_HEADER][4..];
    OtherLength(tail[..RECORD_HEADER], a[..RECORD_HEADER]);
    assert tail[..RECORD_HEADER][..4] == [0, 0, 0, 0];
  }

  /** The first four bytes of a record of 16 bytes and the first of one of 256. */
  lemma LengthBytes(crc: Checksum, r0: Record, r: Record)
    requires |r0.payload| == 16 && |r.payload| == 256
    ensures Encode(crc, r0)[1..4] == [0, 0, 0] && Encode(crc, r)[..1] == [0] && FromLe32([0, 0, 0, 0]) == 0
  {
    assert Le32(16) == [16, 0, 0, 0] && Le32(256)[0] == 0;
    assert Encode(crc, r0)[..4] == Le32(16);
    assert [0, 0, 0, 0][..2] == [0, 0] && [0, 0, 0, 0][2..] == [0, 0];
    hide Meta;
  }

  /** Headers that differ in their length bytes only decode to headers that differ in their length only. */
  lemma OtherLength(x: Bytes, y: Bytes)
    requires |x| == |y| == RECORD_HEADER && x[4..] == y[4..]
    ensures DecodeHeader(x) == DecodeHeader(y).(length := FromLe32(x[..4]))
  {
    hide FromLe32, FromLe16;
    assert x[4] == x[4..][0] && y[4] == y[4..][0] && x[5] == x[4..][1] && y[5] == y[4..][1];
    assert x[6..8] == x[4..][2..4] && y[6..8] == y[4..][2..4];
    assert x[8..12] == x[4..][4..8] && y[8..12] == y[4..][4..8];
  }

  /**
   Under fast open an insert that is not read is not checked either: when residue completes it short
   of the end of the file, what it is made up of is published as a document.
   */
  lemma FastOpenTakesResidue(k: Codec, header: Bytes, recs: seq<Record>, tail: Bytes, end: nat)
    requires |header| == FILE_HEADER && Fits(recs) && WalkLog(k, recs).Applied?
    requires Declares(tail, end) && end < |tail| && FirstHeader(tail).flags == 0 && FirstHeader(tail).op == OP_INSERT
    requires var db := WalkLog(k, recs).w.db;
             FirstHeader(tail).coll in db.byID && !db.byID[FirstHeader(tail).coll].indexed
    ensures var file, w := header + (LogBytes(k.crc, recs) + tail), WalkLog(k, recs).w;
            var w' := w.(db := AddDoc(w.db, FirstHeader(tail).coll, tail[RECORD_HEADER..end]));
            w'.db.size <= |file| && WalkBytes(k, file, true, Start()) == WalkBytes(k, file, true, w')
  {
    hide LogBytes, WalkLog, WalkBytes, Mismatched, FirstHeader, DecodeHeader;
    ResidueEnds(k, header, recs, tail, true);
  }
}
