/**
 The offline pass over a file's bytes (store.go, WalkFile and ScanLive): unlike Open it trusts no
 counter, never truncates, and steps over records whose checksum is wrong.
 */
module Audit {
  import opened Wrappers
  import opened Framing
  import opened Database
  import opened Live
  import opened Recovery
  import opened Scan
  import opened Accounting
  import opened Failures

  /** Live documents and their bytes per collection, and the dead bytes of the file. */
  datatype LiveStats = LiveStats(documents: map<Word16, int>, bytes: map<Word16, int>, dead: int)

  /** One record as the walk hands it to its callback: ignored when its checksum is wrong. */
  ghost function ScanFramed(k: Codec, file: Bytes, off: nat, l: Ledger): Ledger
    requires Framed(file, off)
  {
    var h := HeaderAt(file, off);
    if ChecksumOk(k, file, off) then ScanRecord(k, l, Record(h.op, h.coll, PayloadAt(file, off))) else l
  }

  /** The ledger of the records from an offset on, or None when a record there is torn. */
  ghost function ScanFrom(k: Codec, file: Bytes, off: nat, l: Ledger): Option<Ledger>
    requires off <= |file|
    decreases |file| - off
  {
    if off == |file| then Some(l)
    else if !Framed(file, off) then None
    else ScanFrom(k, file, off + RECORD_HEADER + HeaderAt(file, off).length, ScanFramed(k, file, off, l))
  }

  /** The ledger of a whole file. Of the header, the pass asks only that there is one and how it begins. */
  ghost function ScanFile(k: Codec, file: Bytes): Option<Ledger> {
    if |file| < FILE_HEADER || file[0..8] != MAGIC then None else ScanFrom(k, file, FILE_HEADER, Ledger(map[], 0))
  }

  /** The pass over the whole file, as a loop over its bytes. */
  method WalkFile(k: Codec, file: Bytes) returns (ledger: Option<Ledger>)
    ensures ledger == ScanFile(k, file)
  {
    hide ScanRecord, DecodeHeader;
    if |file| < FILE_HEADER || file[0..8] != MAGIC {
      return None;
    }
    var off, l := FILE_HEADER, Ledger(map[], 0);
    while off < |file|
      invariant FILE_HEADER <= off <= |file|
      invariant ScanFrom(k, file, FILE_HEADER, Ledger(map[], 0)) == ScanFrom(k, file, off, l)
      decreases |file| - off
    {
      if off + RECORD_HEADER > |file| {
        return None;
      }
      var h := HeaderAt(file, off);
      if h.length > MAX_PAYLOAD || off + RECORD_HEADER + h.length > |file| {
        return None;
      }
      var payload := PayloadAt(file, off);
      if k.crc(file[off + 4..off + 8] + payload) == h.crc {
        l := ScanRecord(k, l, Record(h.op, h.coll, payload));
      }
      off := off + RECORD_HEADER + h.length;
    }
    ledger := Some(l);
  }

  /** The inner loop that adds up one collection's bytes. */
  method AddUp(byID: map<string, int>) returns (total: int)
    ensures total == Total(byID)
  {
    hide Total;
    total := 0;
    var rest := byID;
    NothingToAdd();
    while rest != map[]
      invariant total + Total(rest) == Total(byID)
      decreases |rest|
    {
      assert rest.Keys != {};
      var id :| id in rest;
      TotalRemove(rest, id);
      total := total + rest[id];
      rest := rest - {id};
    }
  }

  lemma NothingToAdd()
    ensures Total(map[]) == 0
  {
  }

  /** What the report says of a ledger. */
  ghost predicate Reports(s: LiveStats, l: Ledger) {
    && s.documents.Keys == s.bytes.Keys == l.live.Keys && s.dead == l.dead
    && forall id | id in l.live :: s.documents[id] == |l.live[id]| && s.bytes[id] == Total(l.live[id])
  }

  /** The collections but these have their documents counted and their bytes added up. */
  ghost predicate Summed(l: Ledger, rest: set<Word16>, documents: map<Word16, int>, bytes: map<Word16, int>) {
    && documents.Keys == bytes.Keys && rest <= l.live.Keys && documents.Keys == l.live.Keys - rest
    && forall id | id in documents :: documents[id] == |l.live[id]| && bytes[id] == Total(l.live[id])
  }

  lemma SummedKeys(l: Ledger, rest: set<Word16>, documents: map<Word16, int>, bytes: map<Word16, int>)
    requires Summed(l, rest, documents, bytes)
    ensures rest <= l.live.Keys
  {
  }

  lemma SumOne(l: Ledger, rest: set<Word16>, documents: map<Word16, int>, bytes: map<Word16, int>, coll: Word16)
    requires Summed(l, rest, documents, bytes) && coll in rest && coll in l.live
    ensures Summed(l, rest - {coll}, documents[coll := |l.live[coll]|], bytes[coll := Total(l.live[coll])])
  {
    hide Total;
  }

  lemma NothingSummed(l: Ledger)
    ensures Summed(l, l.live.Keys, map[], map[])
  {
  }

  lemma AllSummed(l: Ledger, documents: map<Word16, int>, bytes: map<Word16, int>)
    requires Summed(l, {}, documents, bytes)
    ensures Reports(LiveStats(documents, bytes, l.dead), l)
  {
  }

  /** ScanLive: the walk, then one total per collection. */
  method ScanLive(k: Codec, file: Bytes) returns (stats: Option<LiveStats>)
    ensures var l := ScanFile(k, file);
            if l == None then stats == None else stats.Some? && Reports(stats.value, l.value)
  {
    hide ScanFile, Total, Summed;
    var ledger := WalkFile(k, file);
    if ledger == None {
      return None;
    }
    var l := ledger.value;
    var documents: map<Word16, int>, bytes: map<Word16, int> := map[], map[];
    var rest := l.live.Keys;
    NothingSummed(l);
    while rest != {}
      invariant Summed(l, rest, documents, bytes)
      decreases |rest|
    {
      var coll :| coll in rest;
      SummedKeys(l, rest, documents, bytes);
      var total := AddUp(l.live[coll]);
      SumOne(l, rest, documents, bytes, coll);
      documents, bytes := documents[coll := |l.live[coll]|], bytes[coll := total];
      rest := rest - {coll};
    }
    AllSummed(l, documents, bytes);
    stats := Some(LiveStats(documents, bytes, l.dead));
  }

  lemma ScanEnds(k: Codec, file: Bytes, l: Ledger)
    ensures ScanFrom(k, file, |file|, l) == Some(l)
  {
  }

  /** Walking the records of one log behind those of another, whatever follows. */
  lemma {:induction false} ScanOn(k: Codec, file: Bytes, pre: Bytes, before: seq<Record>, recs: seq<Record>,
                                  rest: Bytes, j: nat)
    requires Fits(recs) && file == pre + (LogBytes(k.crc, recs) + rest) && j <= |recs|
    ensures |pre| + LogSize(recs[..j]) <= |file|
    ensures ScanFrom(k, file, |pre|, ScanLog(k, before)) ==
            ScanFrom(k, file, |pre| + LogSize(recs[..j]), ScanLog(k, before + recs[..j]))
  {
    hide LogBytes, LogSize, ScanRecord, HeaderAt, PayloadAt, Framed, ChecksumOk, ScanLog, Encode;
    if j == 0 {
      NothingScanned(before, recs);
    } else {
      ScanOn(k, file, pre, before, recs, rest, j - 1);
      RecordFollows(k, file, pre, recs, rest, j - 1);
      ScanSnoc(k, before + recs[..j - 1], recs[j - 1]);
      assert before + recs[..j] == (before + recs[..j - 1]) + [recs[j - 1]];
    }
  }

  lemma NothingScanned(before: seq<Record>, recs: seq<Record>)
    ensures LogSize(recs[..0]) == 0 && before + recs[..0] == before
  {
  }

  lemma RecordFollows(k: Codec, file: Bytes, pre: Bytes, recs: seq<Record>, rest: Bytes, j: nat)
    requires Fits(recs) && file == pre + (LogBytes(k.crc, recs) + rest) && j < |recs|
    ensures var off, r := |pre| + LogSize(recs[..j]), recs[j];
            && Framed(file, off) && ChecksumOk(k, file, off)
            && HeaderAt(file, off).op == r.op && HeaderAt(file, off).coll == r.coll && PayloadAt(file, off) == r.payload
            && off + RECORD_HEADER + HeaderAt(file, off).length == |pre| + LogSize(recs[..j + 1]) <= |file|
            && off < |file|
  {
    hide *;
    var r := recs[j];
    FitsAt(recs, j);
    LogAround(k.crc, recs, j);
    var a, b := LogBytes(k.crc, recs[..j]), LogBytes(k.crc, recs[j + 1..]);
    Regroup(pre, a, Encode(k.crc, r), b, rest);
    FramedAt(k, file, pre + a, r, b + rest);
    assert recs[..j + 1] == recs[..j] + [r];
    LogSnoc(k.crc, recs[..j], r);
  }

  lemma FitsAt(recs: seq<Record>, j: nat)
    requires Fits(recs) && j < |recs|
    ensures |recs[j].payload| <= MAX_PAYLOAD && recs[j].Size() == RECORD_HEADER + |recs[j].payload| > 0
  {
  }

  lemma FramedAt(k: Codec, file: Bytes, pre: Bytes, r: Record, rest: Bytes)
    requires |r.payload| <= MAX_PAYLOAD && file == pre + (Encode(k.crc, r) + rest)
    ensures Framed(file, |pre|) && ChecksumOk(k, file, |pre|)
    ensures HeaderAt(file, |pre|).op == r.op && HeaderAt(file, |pre|).coll == r.coll
    ensures PayloadAt(file, |pre|) == r.payload && HeaderAt(file, |pre|).length == |r.payload|
    ensures |pre| + r.Size() <= |file|
  {
    hide Encode, HeaderAt, PayloadAt, Framed, ChecksumOk;
    FramedRecord(k, pre, r, rest);
  }

  lemma Regroup(pre: Bytes, a: Bytes, e: Bytes, b: Bytes, rest: Bytes)
    ensures pre + ((a + (e + b)) + rest) == (pre + a) + (e + (b + rest))
  {
  }

  /** On the bytes of a log the pass ends with the ledger of its records. */
  lemma ScanWhole(k: Codec, header: Bytes, recs: seq<Record>)
    requires Fits(recs) && |header| == FILE_HEADER && GoodHeader(header)
    ensures ScanFile(k, header + LogBytes(k.crc, recs)) == Some(ScanLog(k, recs))
  {
    hide LogBytes, LogSize, ScanLog, ScanFrom, FromLe16;
    var file := header + LogBytes(k.crc, recs);
    assert file == header + (LogBytes(k.crc, recs) + []);
    ScanOn(k, file, header, [], recs, [], |recs|);
    assert recs[..|recs|] == recs && [] + recs == recs;
    assert file[0..8] == header[0..8];
    EmptyLog(k);
    ScanEnds(k, file, ScanLog(k, recs));
  }

  /**
   A damaged record does not count: one that is framed but does not check out, anywhere in the file,
   leaves the report what it would be without it.
   */
  lemma DamagedIsPassedOver(k: Codec, header: Bytes, before: seq<Record>, bad: Bytes, after: seq<Record>)
    requires Fits(before) && Fits(after) && |header| == FILE_HEADER && GoodHeader(header)
    requires Declares(bad, |bad|) && Mismatched(k, bad)
    ensures ScanFile(k, header + (LogBytes(k.crc, before) + (bad + LogBytes(k.crc, after)))) ==
            Some(ScanLog(k, before + after))
  {
    hide LogBytes, LogSize, ScanLog, ScanFrom, FromLe16, Declares, Mismatched, FirstHeader, DecodeHeader;
    var a, b := LogBytes(k.crc, before), LogBytes(k.crc, after);
    var file := header + (a + (bad + b));
    ScanOn(k, file, header, [], before, bad + b, |before|);
    DamagedStep(k, header + a, bad, b, ScanLog(k, before));
    assert file == (header + a) + (bad + b) && file == ((header + a) + bad) + (b + []);
    ScanOn(k, file, (header + a) + bad, before, after, [], |after|);
    ScanEnds(k, file, ScanLog(k, before + after));
    assert before[..|before|] == before && after[..|after|] == after && [] + before == before;
    assert file[0..8] == header[0..8];
    EmptyLog(k);
  }

  lemma EmptyLog(k: Codec)
    ensures ScanLog(k, []) == Ledger(map[], 0)
  {
  }

  lemma DamagedStep(k: Codec, pre: Bytes, bad: Bytes, rest: Bytes, l: Ledger)
    requires Declares(bad, |bad|) && Mismatched(k, bad)
    ensures var file := pre + (bad + rest);
            |pre| + |bad| <= |file| && ScanFrom(k, file, |pre|, l) == ScanFrom(k, file, |pre| + |bad|, l)
  {
    hide DecodeHeader, FirstHeader;
    var file, off := pre + (bad + rest), |pre|;
    assert file[off..off + RECORD_HEADER] == bad[..RECORD_HEADER];
    assert file[off + 4..off + 8] == bad[4..8];
    HeadersAlike(file, off, bad);
    assert file[off + RECORD_HEADER..off + |bad|] == bad[RECORD_HEADER..];
    assert Framed(file, off);
    assert PayloadAt(file, off) == bad[RECORD_HEADER..RECORD_HEADER + FirstHeader(bad).length];
    assert !ChecksumOk(k, file, off);
    ScanUnfolds(k, file, off, l);
  }

  lemma ScanUnfolds(k: Codec, file: Bytes, off: nat, l: Ledger)
    requires Framed(file, off) && !ChecksumOk(k, file, off)
    ensures off < off + RECORD_HEADER + HeaderAt(file, off).length <= |file|
    ensures ScanFrom(k, file, off, l) == ScanFrom(k, file, off + RECORD_HEADER + HeaderAt(file, off).length, l)
  {
    hide ChecksumOk, DecodeHeader;
  }

  lemma HeadersAlike(file: Bytes, off: nat, bad: Bytes)
    requires |bad| >= RECORD_HEADER && off + RECORD_HEADER <= |file|
    requires file[off..off + RECORD_HEADER] == bad[..RECORD_HEADER]
    ensures HeaderAt(file, off) == FirstHeader(bad) == DecodeHeader(file[off..off + RECORD_HEADER])
  {
  }

  /** The report tells what the open database's counters and index tell. */
  ghost predicate Tells(s: LiveStats, db: Db) {
    && s.dead == db.dead && s.documents.Keys == s.bytes.Keys && db.byID.Keys <= s.documents.Keys
    && (forall id | id in db.byID ::
          s.documents[id] == |db.byID[id].slots| && s.bytes[id] == SlotBytes(db.byID[id].slots))
    && (forall id | id in s.documents && id !in db.byID :: s.documents[id] == 0 && s.bytes[id] == 0)
  }

  lemma AgreesTells(k: Codec, db: Db, l: Ledger, s: LiveStats)
    requires Agrees(k, db, l) && Reports(s, l)
    ensures Tells(s, db)
  {
    NothingToAdd();
    hide Names;
  }

  lemma TellsSame(db: Db, l: Ledger, s: LiveStats)
    requires Tells(s, db) && Reports(s, l)
    ensures SameBytes(db, l)
  {
    hide Total, SlotBytes;
  }

  /**
   After any run, the offline report on the first size bytes of the run's file agrees with the
   running counters, in its dead bytes and for each collection in the documents and the bytes its
   index points at, if and only if payloadID can read every document the run wrote. Past the
   append point the file may hold what a failed write left, on which the pass reports an error.
   */
  lemma AuditAfterRun(k: Codec, header: Bytes, ops: seq<Op>, s: LiveStats)
    requires k.Lawful() && |header| == FILE_HEADER && GoodHeader(header) && LegalRun(k, Effect(Empty(), []), ops)
    requires var file := header + LogBytes(k.crc, After(k, Effect(Empty(), []), ops).recs);
             var l := ScanFile(k, file);
             l.Some? && Reports(s, l.value)
    ensures var e := After(k, Effect(Empty(), []), ops);
            Tells(s, e.db) <==> DocsRead(k, e.recs)
  {
    hide After, LegalRun, LogBytes, ScanFile, ScanLog, Total, SlotBytes, Consistent, Names, Tells, Reports, SameBytes,
      DocsRead, Agrees, Auditable, GoodHeader;
    var start := Effect(Empty(), []);
    var e := After(k, start, ops);
    EmptyConsistent(k);
    EmptyAudits(k);
    StartOk(k);
    RunConsistent(k, start, ops);
    ConsistentIsSmall(k, e);
    ScanWhole(k, header, e.recs);
    EveryRunAudits(k, start, ops);
    if DocsRead(k, e.recs) {
      AuditsAgree(k, e);
      AgreesTells(k, e.db, ScanLog(k, e.recs), s);
    }
    if Tells(s, e.db) {
      TellsSame(e.db, ScanLog(k, e.recs), s);
      AuditableBytes(k, e);
      SameBytesRead(k, e);
    }
  }

  lemma AuditableBytes(k: Codec, e: Effect)
    requires Auditable(k, e)
    ensures Conserved(e) && e.db.size == FILE_HEADER + LogSize(e.recs)
  {
  }

  lemma StartOk(k: Codec)
    ensures Auditable(k, Effect(Empty(), []))
  {
    EmptyConserves();
  }

  lemma ConsistentIsSmall(k: Codec, e: Effect)
    requires Consistent(k, e)
    ensures Fits(e.recs)
  {
  }
}
