/**
 Opening a file: the walk over its bytes with the torn-tail rule (store.go, replay), and what a
 crash part-way through a write leaves behind.
 */
module Recovery {
  import opened Framing
  import opened Slots
  import opened Database
  import opened Replay
  import opened Mirror
  import opened Live
  import opened Legibility
  import opened Rebuild

  /**
   How the walk over a file ends. A torn tail is cut off at w.db.size and the state of the walk is
   published as it stands: the compaction after a clean end of file does not run.
   */
  datatype Opened = Clean(w: Walk) | Torn(w: Walk) | Failed | Undetermined

  function Start(): Walk {
    Walk(Empty(), {})
  }

  /** Which payloads are read and checked; with fast open, most inserts are skipped over. */
  predicate MustRead(db: Db, h: Header, fast: bool, isLast: bool) {
    || !fast || isLast
    || h.op == OP_DEFINE || h.op == OP_REPLACE || h.op == OP_DELETE
    || (h.op == OP_INSERT && h.coll in db.byID && db.byID[h.coll].indexed)
  }

  lemma ApplyAdvances(k: Codec, w: Walk, r: Record)
    ensures Apply(k, w, r).Applied? ==> Apply(k, w, r).w.db.size == w.db.size + r.Size()
  {
  }

  /** The record framed at the append point, if a whole one is there. */
  ghost predicate Framed(file: Bytes, off: nat) {
    && off + RECORD_HEADER <= |file|
    && var h := DecodeHeader(file[off..off + RECORD_HEADER]);
    h.length <= MAX_PAYLOAD && off + RECORD_HEADER + h.length <= |file|
  }

  function HeaderAt(file: Bytes, off: nat): Header
    requires off + RECORD_HEADER <= |file|
  {
    DecodeHeader(file[off..off + RECORD_HEADER])
  }

  function PayloadAt(file: Bytes, off: nat): Bytes
    requires off + RECORD_HEADER <= |file| && off + RECORD_HEADER + HeaderAt(file, off).length <= |file|
  {
    file[off + RECORD_HEADER..off + RECORD_HEADER + HeaderAt(file, off).length]
  }

  ghost predicate ChecksumOk(k: Codec, file: Bytes, off: nat)
    requires Framed(file, off)
  {
    k.crc(file[off + 4..off + 8] + PayloadAt(file, off)) == HeaderAt(file, off).crc
  }

  ghost function WalkBytes(k: Codec, file: Bytes, fast: bool, w: Walk): Opened
    requires w.db.size <= |file|
    decreases |file| - w.db.size
  {
    var off := w.db.size;
    if off == |file| then Clean(w)
    else if !Framed(file, off) then Torn(w)
    else
      var h, payload := HeaderAt(file, off), PayloadAt(file, off);
      var isLast := off + RECORD_HEADER + h.length >= |file|;
      if h.flags != 0 then Failed
      else if MustRead(w.db, h, fast, isLast) && !ChecksumOk(k, file, off) then
        if isLast then Torn(w) else Failed
      else
        var r := Record(h.op, h.coll, payload);
        ApplyAdvances(k, w, r);
        match Apply(k, w, r)
        case Applied(w') => WalkBytes(k, file, fast, w')
        case Refused => Failed
        case Unclear => Undetermined
  }

  /** The state published once the file is open. */
  ghost function Published(o: Opened): Db
    requires o.Clean? || o.Torn?
  {
    if o.Clean? then Finish(o.w) else o.w.db
  }

  // ----- walking bytes is walking records -----

  lemma FramedRecord(k: Codec, pre: Bytes, r: Record, rest: Bytes)
    requires |r.payload| <= MAX_PAYLOAD
    ensures var file, off := pre + (Encode(k.crc, r) + rest), |pre|;
            && Framed(file, off)
            && HeaderAt(file, off) == Header(|r.payload|, r.op, 0, r.coll, k.crc(Meta(r) + r.payload))
            && PayloadAt(file, off) == r.payload
            && ChecksumOk(k, file, off)
  {
    hide Encode, DecodeHeader, Meta;
    var b := Encode(k.crc, r) + rest;
    var file, off := pre + b, |pre|;
    DecodeEncode(k.crc, r, rest);
    assert file[off..off + RECORD_HEADER] == b[..RECORD_HEADER];
    assert file[off + 4..off + 8] == b[4..8];
    assert file[off + RECORD_HEADER..off + r.Size()] == b[RECORD_HEADER..r.Size()];
  }

  lemma WalkBytesStep(k: Codec, pre: Bytes, r: Record, rest: Bytes, fast: bool, w: Walk)
    requires |r.payload| <= MAX_PAYLOAD && w.db.size == |pre| && Apply(k, w, r).Applied?
    ensures var file := pre + (Encode(k.crc, r) + rest);
            && Apply(k, w, r).w.db.size <= |file|
            && WalkBytes(k, file, fast, w) == WalkBytes(k, file, fast, Apply(k, w, r).w)
  {
    hide Encode, Framed, HeaderAt, PayloadAt, ChecksumOk, Apply;
    FramedRecord(k, pre, r, rest);
    ApplyAdvances(k, w, r);
  }

  lemma {:induction false} WalkSize(k: Codec, recs: seq<Record>)
    requires WalkLog(k, recs).Applied?
    ensures WalkLog(k, recs).w.db.size == FILE_HEADER + LogSize(recs)
  {
    if recs != [] {
      var n := |recs| - 1;
      WalkSize(k, recs[..n]);
      ApplyAdvances(k, WalkLog(k, recs[..n]).w, recs[n]);
    }
  }

  /** The walk over bytes gets past a log of whole records in the state the log determines. */
  lemma {:induction false} WalkBytesLog(k: Codec, header: Bytes, recs: seq<Record>, rest: Bytes, fast: bool)
    requires |header| == FILE_HEADER && Fits(recs) && WalkLog(k, recs).Applied?
    ensures var file := header + (LogBytes(k.crc, recs) + rest);
            && WalkLog(k, recs).w.db.size <= |file|
            && WalkBytes(k, file, fast, Start()) == WalkBytes(k, file, fast, WalkLog(k, recs).w)
  {
    WalkSize(k, recs);
    if recs != [] {
      var n := |recs| - 1;
      var init, r := recs[..n], recs[n];
      assert r in recs;
      var b, e := LogBytes(k.crc, init), Encode(k.crc, r);
      WalkSize(k, init);
      WalkBytesLog(k, header, init, e + rest, fast);
      WalkBytesStep(k, header + b, r, rest, fast, WalkLog(k, init).w);
      hide Encode, WalkBytes, Apply;
      ConcatAssoc(header, b, e + rest);
      ConcatAssoc(b, e, rest);
    }
  }

  /** One more record that the walk refuses ends it, whatever follows. */
  lemma WalkBytesRefused(k: Codec, pre: Bytes, r: Record, rest: Bytes, fast: bool, w: Walk)
    requires |r.payload| <= MAX_PAYLOAD && w.db.size == |pre| && Apply(k, w, r) == Refused
    ensures WalkBytes(k, pre + (Encode(k.crc, r) + rest), fast, w) == Failed
  {
    hide Encode, Framed, HeaderAt, PayloadAt, ChecksumOk, Apply;
    FramedRecord(k, pre, r, rest);
  }

  /** A file that begins with a log replay refuses does not open, whatever follows the log. */
  lemma {:induction false} RefusedLogFails(k: Codec, header: Bytes, recs: seq<Record>, rest: Bytes, fast: bool)
    requires |header| == FILE_HEADER && Fits(recs) && WalkLog(k, recs) == Refused
    ensures WalkBytes(k, header + (LogBytes(k.crc, recs) + rest), fast, Start()) == Failed
  {
    var n := |recs| - 1;
    var init, r := recs[..n], recs[n];
    assert r in recs;
    var b, e := LogBytes(k.crc, init), Encode(k.crc, r);
    ConcatAssoc(b, e, rest);
    if WalkLog(k, init) == Refused {
      RefusedLogFails(k, header, init, e + rest, fast);
    } else {
      WalkSize(k, init);
      WalkBytesLog(k, header, init, e + rest, fast);
      ConcatAssoc(header, b, e + rest);
      WalkBytesRefused(k, header + b, r, rest, fast, WalkLog(k, init).w);
    }
    hide Encode, WalkBytes, Apply;
  }

  // ----- crashes -----

  /** Part of one more record after a whole log is a torn tail: the walk stops where the log ends. */
  lemma TornTail(k: Codec, header: Bytes, recs: seq<Record>, r: Record, m: nat, fast: bool)
    requires |header| == FILE_HEADER && Fits(recs) && WalkLog(k, recs).Applied?
    requires |r.payload| <= MAX_PAYLOAD && 0 < m < r.Size()
    ensures var file := header + (LogBytes(k.crc, recs) + Encode(k.crc, r)[..m]);
            WalkBytes(k, file, fast, Start()) == Torn(WalkLog(k, recs).w)
  {
    hide *;
    var b, tail := LogBytes(k.crc, recs), Encode(k.crc, r)[..m];
    WalkSize(k, recs);
    WalkBytesLog(k, header, recs, tail, fast);
    ConcatAssoc(header, b, tail);
    PartialRecordIsNotFramed(k, header + b, r, m);
    NotFramedIsTorn(k, header + (b + tail), fast, WalkLog(k, recs).w);
  }

  lemma NotFramedIsTorn(k: Codec, file: Bytes, fast: bool, w: Walk)
    requires w.db.size < |file| && !Framed(file, w.db.size)
    ensures WalkBytes(k, file, fast, w) == Torn(w)
  {
    hide Framed, Apply;
  }

  lemma PartialRecordIsNotFramed(k: Codec, pre: Bytes, r: Record, m: nat)
    requires |r.payload| <= MAX_PAYLOAD && m < r.Size()
    ensures !Framed(pre + Encode(k.crc, r)[..m], |pre|)
  {
    hide Encode, DecodeHeader;
    var b := Encode(k.crc, r);
    var file, off := pre + b[..m], |pre|;
    DecodeEncode(k.crc, r, []);
    assert b + [] == b;
    if m >= RECORD_HEADER {
      assert file[off..off + RECORD_HEADER] == b[..RECORD_HEADER];
    }
  }

  lemma CleanEnd(k: Codec, header: Bytes, recs: seq<Record>, fast: bool)
    requires |header| == FILE_HEADER && Fits(recs) && WalkLog(k, recs).Applied?
    ensures WalkBytes(k, header + LogBytes(k.crc, recs), fast, Start()) == Clean(WalkLog(k, recs).w)
  {
    hide LogBytes, WalkLog;
    WalkSize(k, recs);
    WalkBytesLog(k, header, recs, [], fast);
    assert LogBytes(k.crc, recs) + [] == LogBytes(k.crc, recs);
  }

  lemma RecordsSplit(op: Byte, coll: Word16, ps: seq<Bytes>, j: nat)
    requires j <= |ps|
    ensures Records(op, coll, ps) == Records(op, coll, ps[..j]) + Records(op, coll, ps[j..])
  {
  }

  /** A batch is its first record followed by the batch of the others. */
  lemma BatchCons(crc: Checksum, op: Byte, coll: Word16, ps: seq<Bytes>)
    requires ps != []
    ensures LogSize(Records(op, coll, ps)) == RECORD_HEADER + |ps[0]| + LogSize(Records(op, coll, ps[1..]))
    ensures LogBytes(crc, Records(op, coll, ps)) ==
            Encode(crc, Record(op, coll, ps[0])) + LogBytes(crc, Records(op, coll, ps[1..]))
  {
    var r, rest := Record(op, coll, ps[0]), Records(op, coll, ps[1..]);
    assert Records(op, coll, ps) == [r] + rest;
    assert r.Size() == RECORD_HEADER + |ps[0]|;
    hide *;
    LogConcat(crc, [r], rest);
    LogOne(crc, r);
  }

  lemma EmptyBatch(crc: Checksum, op: Byte, coll: Word16, ps: seq<Bytes>)
    ensures LogBytes(crc, Records(op, coll, ps[..0])) == [] && LogSize(Records(op, coll, ps[..0])) == 0
    ensures ps[..|ps|] == ps
  {
  }

  /** Whole counts exactly the records that the first n bytes of a batch contain. */
  lemma {:induction false} WholeCovers(crc: Checksum, op: Byte, coll: Word16, ps: seq<Bytes>, n: nat)
    ensures var j := Whole(ps, n);
            && LogSize(Records(op, coll, ps[..j])) <= n
            && (j < |ps| ==> n < LogSize(Records(op, coll, ps[..j])) + RECORD_HEADER + |ps[j]|)
  {
    hide LogSize, LogBytes, Encode, Records;
    var j := Whole(ps, n);
    EmptyBatch(crc, op, coll, ps);
    if j > 0 {
      WholeCovers(crc, op, coll, ps[1..], n - RECORD_HEADER - |ps[0]|);
      BatchCons(crc, op, coll, ps[..j]);
      assert ps[1..][..j - 1] == ps[..j][1..];
    }
  }

  lemma PrefixOfThree<T>(a: seq<T>, b: seq<T>, c: seq<T>, n: nat)
    requires |a| <= n <= |a| + |b|
    ensures (a + (b + c))[..n] == a + b[..n - |a|]
  {
  }

  /** The first n bytes of a batch are its whole records and a proper prefix of the next. */
  lemma BatchPrefix(crc: Checksum, op: Byte, coll: Word16, ps: seq<Bytes>, n: nat)
    requires n <= LogSize(Records(op, coll, ps))
    ensures var j := Whole(ps, n);
            var whole := Records(op, coll, ps[..j]);
            && LogSize(whole) <= n
            && (j == |ps| ==> n == LogSize(whole))
            && (j < |ps| ==> n - LogSize(whole) < RECORD_HEADER + |ps[j]|)
            && LogBytes(crc, Records(op, coll, ps))[..n] ==
               LogBytes(crc, whole) +
               (if j == |ps| then [] else Encode(crc, Record(op, coll, ps[j]))[..n - LogSize(whole)])
  {
    var j := Whole(ps, n);
    WholeCovers(crc, op, coll, ps, n);
    if j == |ps| {
      assert ps[..j] == ps;
      hide *;
    } else {
      var whole, tail := Records(op, coll, ps[..j]), ps[j..];
      RecordsSplit(op, coll, ps, j);
      hide *;
      LogConcat(crc, whole, Records(op, coll, tail));
      BatchCons(crc, op, coll, tail);
      PrefixOfThree(LogBytes(crc, whole), Encode(crc, Record(op, coll, tail[0])),
                    LogBytes(crc, Records(op, coll, tail[1..])), n);
    }
  }

  lemma BatchFits(log: seq<Record>, op: Byte, coll: Word16, ps: seq<Bytes>, j: nat)
    requires Fits(log) && !AnyTooLong(ps) && j <= |ps|
    ensures Fits(log + Records(op, coll, ps[..j])) && (j < |ps| ==> |ps[j]| <= MAX_PAYLOAD)
  {
    assert forall i | 0 <= i < |ps| :: ps[i] in ps;
  }

  /** The walk over a log, the records a batch completed and m bytes of the batch's next record. */
  lemma WalkToTail(k: Codec, header: Bytes, log: seq<Record>, kept: seq<Record>, r: Record, m: nat, fast: bool)
    requires |header| == FILE_HEADER && Fits(log + kept) && WalkLog(k, log + kept).Applied?
    requires |r.payload| <= MAX_PAYLOAD && m < r.Size()
    ensures var file := header + (LogBytes(k.crc, log) + (LogBytes(k.crc, kept) + Encode(k.crc, r)[..m]));
            var w := WalkLog(k, log + kept).w;
            WalkBytes(k, file, fast, Start()) == if m == 0 then Clean(w) else Torn(w)
  {
    hide LogBytes, LogSize, Encode, WalkLog, WalkBytes;
    LogConcat(k.crc, log, kept);
    var a, b := LogBytes(k.crc, log), LogBytes(k.crc, kept);
    if m == 0 {
      CleanEnd(k, header, log + kept, fast);
      assert b + Encode(k.crc, r)[..m] == b;
    } else {
      TornTail(k, header, log + kept, r, m, fast);
      ConcatAssoc(a, b, Encode(k.crc, r)[..m]);
    }
  }

  /**
   A crash after n bytes of a batch keeps the records those bytes complete and nothing else: the
   walk reaches the state of the log cut there, and the file is cut back to that point.
   */
  lemma CrashInBatch(k: Codec, header: Bytes, log: seq<Record>, op: Byte, coll: Word16, ps: seq<Bytes>,
                     n: nat, fast: bool)
    requires |header| == FILE_HEADER && Fits(log) && !AnyTooLong(ps)
    requires n <= LogSize(Records(op, coll, ps))
    requires WalkLog(k, log + Records(op, coll, ps[..Whole(ps, n)])).Applied?
    ensures var file := header + (LogBytes(k.crc, log) + LogBytes(k.crc, Records(op, coll, ps))[..n]);
            var kept := Records(op, coll, ps[..Whole(ps, n)]);
            var w := WalkLog(k, log + kept).w;
            WalkBytes(k, file, fast, Start()) == if n == LogSize(kept) then Clean(w) else Torn(w)
  {
    hide LogBytes, LogSize, Encode, WalkLog, WalkBytes, Records, Fits, AnyTooLong, Whole;
    var j := Whole(ps, n);
    var kept := Records(op, coll, ps[..j]);
    BatchPrefix(k.crc, op, coll, ps, n);
    BatchFits(log, op, coll, ps, j);
    if j == |ps| {
      LogConcat(k.crc, log, kept);
      CleanEnd(k, header, log + kept, fast);
      assert LogBytes(k.crc, kept) + [] == LogBytes(k.crc, kept);
    } else {
      WalkToTail(k, header, log, kept, Record(op, coll, ps[j]), n - LogSize(kept), fast);
    }
  }

  // ----- crashes during an operation -----

  /** The batch an operation hands to the file system, of which `landed` bytes may arrive. */
  datatype Attempt = Attempt(op: Byte, coll: Word16, payloads: seq<Bytes>)

  ghost function Attempted(k: Codec, db: Db, op: Op): Attempt
    requires Legal(k, db, op)
  {
    match op
    case DefineOp(name, _, _) =>
      var payload := k.encodeDefinition(Definition(db.nextID, name));
      Attempt(OP_DEFINE, db.nextID,
              if name in db.names || !ValidName(name) || db.nextID == 0 || |payload| > MAX_PAYLOAD then []
              else [payload])
    case InsertOp(coll, docs, _) =>
      Attempt(OP_INSERT, coll,
              if !CheckIds(k, db.byID[coll], docs, 0, {}).0 || AnyTooLong(Payloads(docs)) then [] else Payloads(docs))
    case ReplaceOp(coll, accepts, suppliedID, encode, _) =>
      var s := db.byID[coll].slots;
      var ps := Matches(s, accepts, 1);
      Attempt(OP_REPLACE, coll,
              if ps == [] then []
              else
                match k.probe(s[ps[0]].doc)
                case None => []
                case Some(id) =>
                  if (suppliedID != "" && suppliedID != id) || |encode(id)| > MAX_PAYLOAD then [] else [encode(id)])
    case DeleteOp(coll, accepts, limit, _) =>
      var s := db.byID[coll].slots;
      var tombs := Tombstones(k, s, Matches(s, accepts, limit));
      Attempt(OP_DELETE, coll, if AnyUnnamed(k, s, Matches(s, accepts, limit)) || AnyTooLong(tombs) then [] else tombs)
  }

  /** The records an operation counts as written are those its landed bytes complete. */
  lemma StepWritesWholeRecords(k: Codec, db: Db, op: Op)
    requires Legal(k, db, op)
    ensures var a := Attempted(k, db, op);
            && !AnyTooLong(a.payloads)
            && Step(k, db, op).recs == Records(a.op, a.coll, a.payloads[..Whole(a.payloads, op.landed)])
  {
    hide Matches, Tombstones, CheckIds, AddDocs, DropDocs, HasId;
    var a := Attempted(k, db, op);
    if op.DefineOp? || op.ReplaceOp? {
      if a.payloads != [] {
        var p := a.payloads[0];
        assert Whole([p], op.landed) == if op.landed < RECORD_HEADER + |p| then 0 else 1;
        assert Whole([], op.landed) == 0;
      }
    }
  }

  /** The file after a whole log and the first n bytes of a batch. */
  ghost function CrashFile(k: Codec, header: Bytes, log: seq<Record>, a: Attempt, n: nat): Bytes
    requires n <= LogSize(Records(a.op, a.coll, a.payloads))
  {
    header + (LogBytes(k.crc, log) + LogBytes(k.crc, Records(a.op, a.coll, a.payloads))[..n])
  }

  lemma CrashFileSize(k: Codec, header: Bytes, log: seq<Record>, a: Attempt, n: nat)
    requires n <= LogSize(Records(a.op, a.coll, a.payloads)) && |header| == FILE_HEADER
    ensures |CrashFile(k, header, log, a, n)| >= FILE_HEADER
  {
  }

  /**
   If the process dies while an operation's write is under way, after any number of its bytes, and
   the file ended at the append point when the write began, opening the file walks to the very
   state whose log the operation would have left behind had the write failed there and the
   process lived; unless that log is not legible, in which case the file does not open. What an
   earlier failed write may have left past the append point is the subject of CrashAfterFailedWrite.
   */
  lemma CrashDuringOperation(k: Codec, header: Bytes, e: Effect, op: Op, fast: bool)
    requires k.Lawful() && |header| == FILE_HEADER && Rebuilt(k, e) && Fits(e.recs)
    requires Legal(k, e.db, op) && !LosesDefine(k, e.db, op)
    requires var a := Attempted(k, e.db, op);
             op.landed <= LogSize(Records(a.op, a.coll, a.payloads))
    ensures var s := Step(k, e.db, op);
            var o := WalkBytes(k, CrashFile(k, header, e.recs, Attempted(k, e.db, op), op.landed), fast, Start());
            if !Legible(k, e.recs + s.recs) then o == Failed
            else
              && (o.Clean? || o.Torn?)
              && (o.Clean? <==> op.landed == LogSize(s.recs))
              && WalkLog(k, e.recs + s.recs) == Applied(o.w)
              && Visible(Finish(o.w)) == Visible(s.db)
  {
    hide Rebuilt, Step, Attempted, Legal, WalkLog, WalkBytes, Visible, Finish, Records, Whole, AnyTooLong, Mirrors,
      Legible, LogBytes, LogSize, Fits;
    var a, s := Attempted(k, e.db, op), Step(k, e.db, op);
    StepWritesWholeRecords(k, e.db, op);
    StepRebuilt(k, e, op);
    CrashFileSize(k, header, e.recs, a, op.landed);
    if Legible(k, e.recs + s.recs) {
      RebuiltWalk(k, Effect(s.db, e.recs + s.recs));
      FinishMirrors(k, s.db, WalkLog(k, e.recs + s.recs).w);
      CrashInBatch(k, header, e.recs, a.op, a.coll, a.payloads, op.landed, fast);
    } else {
      RefusedInBatch(k, header, e.recs, a.op, a.coll, a.payloads, op.landed, fast);
    }
  }

  /** When the records a crash leaves whole make a log replay refuses, the file does not open. */
  lemma RefusedInBatch(k: Codec, header: Bytes, log: seq<Record>, op: Byte, coll: Word16, ps: seq<Bytes>,
                       n: nat, fast: bool)
    requires |header| == FILE_HEADER && Fits(log) && !AnyTooLong(ps)
    requires n <= LogSize(Records(op, coll, ps))
    requires WalkLog(k, log + Records(op, coll, ps[..Whole(ps, n)])) == Refused
    ensures WalkBytes(k, header + (LogBytes(k.crc, log) + LogBytes(k.crc, Records(op, coll, ps))[..n]), fast, Start())
            == Failed
  {
    hide LogBytes, LogSize, Encode, WalkLog, WalkBytes, Records, Fits, AnyTooLong, Whole;
    var j := Whole(ps, n);
    var kept := Records(op, coll, ps[..j]);
    BatchPrefix(k.crc, op, coll, ps, n);
    BatchFits(log, op, coll, ps, j);
    LogConcat(k.crc, log, kept);
    var tail := if j == |ps| then [] else Encode(k.crc, Record(op, coll, ps[j]))[..n - LogSize(kept)];
    ConcatAssoc(LogBytes(k.crc, log), LogBytes(k.crc, kept), tail);
    RefusedLogFails(k, header, log + kept, tail, fast);
  }

  // ----- fast open -----

  /** From an offset on, every whole record's checksum is right. */
  ghost predicate ChecksumsOk(k: Codec, file: Bytes, off: nat)
    requires off <= |file|
    decreases |file| - off
  {
    Framed(file, off) ==>
      ChecksumOk(k, file, off) && ChecksumsOk(k, file, off + RECORD_HEADER + HeaderAt(file, off).length)
  }

  /** Where every checksum is right, skipping payloads reaches the state that reading them reaches. */
  lemma {:induction false} FastOpenAgrees(k: Codec, file: Bytes, w: Walk)
    requires w.db.size <= |file| && ChecksumsOk(k, file, w.db.size)
    ensures WalkBytes(k, file, true, w) == WalkBytes(k, file, false, w)
    decreases |file| - w.db.size
  {
    var off := w.db.size;
    if off < |file| && Framed(file, off) {
      var h := HeaderAt(file, off);
      var r := Record(h.op, h.coll, PayloadAt(file, off));
      ApplyAdvances(k, w, r);
      hide Framed, HeaderAt, PayloadAt, ChecksumOk, Apply;
      if Apply(k, w, r).Applied? {
        FastOpenAgrees(k, file, Apply(k, w, r).w);
      }
    }
  }

  // ----- what a torn tail publishes -----

  ghost predicate HasDelete(recs: seq<Record>) {
    exists r <- recs :: r.op == OP_DELETE
  }

  /** Every collection a tombstone touched holds a mark. */
  ghost predicate Marked(w: Walk) {
    forall id | id in w.tombstoned :: id in w.db.byID && !NoMarks(w.db.byID[id].slots)
  }

  lemma ApplyMarks(k: Codec, w: Walk, r: Record)
    requires Marked(w) && Apply(k, w, r).Applied?
    ensures Marked(Apply(k, w, r).w)
    ensures Apply(k, w, r).w.tombstoned == if r.op == OP_DELETE then w.tombstoned + {r.coll} else w.tombstoned
  {
    var w' := Apply(k, w, r).w;
    forall id | id in w'.tombstoned
      ensures id in w'.db.byID && !NoMarks(w'.db.byID[id].slots)
    {
      if r.op != OP_DEFINE && id == r.coll {
        MarksStay(k, w, r);
      }
    }
  }

  lemma MarksStay(k: Codec, w: Walk, r: Record)
    requires Apply(k, w, r).Applied? && r.op != OP_DEFINE
    ensures r.coll in w.db.byID && r.coll in Apply(k, w, r).w.db.byID
    ensures !NoMarks(w.db.byID[r.coll].slots) || r.op == OP_DELETE ==>
              !NoMarks(Apply(k, w, r).w.db.byID[r.coll].slots)
  {
    var s, t := w.db.byID[r.coll].slots, Apply(k, w, r).w.db.byID[r.coll].slots;
    if r.op == OP_DELETE {
      var q := Resolve(k, s, k.probe(r.payload).value, w.db.byID[r.coll].indexed).pos;
      assert t[q] == s[q].Mark() && t[q] in t;
    } else if !NoMarks(s) {
      var i :| 0 <= i < |s| && s[i].doc == [];
      assert t[i] == s[i] && t[i] in t;
    }
  }

  lemma {:induction false} WalkMarks(k: Codec, recs: seq<Record>)
    requires WalkLog(k, recs).Applied?
    ensures Marked(WalkLog(k, recs).w)
    ensures WalkLog(k, recs).w.tombstoned != {} <==> HasDelete(recs)
  {
    if recs != [] {
      var n := |recs| - 1;
      WalkMarks(k, recs[..n]);
      ApplyMarks(k, WalkLog(k, recs[..n]).w, recs[n]);
      assert recs == recs[..n] + [recs[n]];
      hide Apply, Marked;
    }
  }

  lemma {:induction false} MarksShorten(s: seq<Slot>, n: nat)
    requires n <= |s|
    ensures |UnmarkedUpTo(s, n)| <= n
    ensures (exists i | 0 <= i < n :: s[i].doc == []) ==> |UnmarkedUpTo(s, n)| < n
  {
    if n > 0 {
      MarksShorten(s, n - 1);
    }
  }

  lemma NothingTombstoned(w: Walk)
    requires w.tombstoned == {}
    ensures Finish(w) == w.db
  {
    assert Finish(w).byID == w.db.byID;
  }

  /** A mark is visible: compaction would have changed the state. */
  lemma MarkShows(w: Walk, id: Word16)
    requires id in w.tombstoned && id in w.db.byID && !NoMarks(w.db.byID[id].slots)
    ensures Visible(w.db) != Visible(Finish(w))
  {
    hide UnmarkedUpTo;
    var s := w.db.byID[id].slots;
    MarksShorten(s, |s|);
    assert Visible(w.db).byID[id].slots == s;
    assert Visible(Finish(w)).byID[id].slots == Unmarked(s);
  }

  lemma RebuiltWalk(k: Codec, e: Effect)
    requires Rebuilt(k, e)
    ensures WalkLog(k, e.recs).Applied? && Mirrors(k, e.db, WalkLog(k, e.recs).w)
  {
  }

  /**
   Recovery from a torn tail publishes the state that was live when the write began if and only if
   the surviving log holds no tombstone. With one, it publishes a marked slot: a zero-length
   entry that no read can decode.
   */
  lemma TornTailPublishes(k: Codec, e: Effect)
    requires Rebuilt(k, e)
    ensures var w := WalkLog(k, e.recs).w;
            && (Visible(Published(Torn(w))) == Visible(e.db) <==> !HasDelete(e.recs))
            && (HasDelete(e.recs) ==> exists id | id in w.db.byID :: !NoMarks(w.db.byID[id].slots))
  {
    hide Rebuilt, WalkLog, Mirrors, HasDelete, Finish, Visible, NoMarks;
    RebuiltWalk(k, e);
    var w := WalkLog(k, e.recs).w;
    WalkMarks(k, e.recs);
    FinishMirrors(k, e.db, w);
    if HasDelete(e.recs) {
      var id :| id in w.tombstoned;
      MarkShows(w, id);
    } else {
      NothingTombstoned(w);
    }
  }
}
