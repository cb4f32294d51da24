/**
 The write operations of an open database as functions on its state (collection.go, catalog.go):
 what each leaves in memory and which records it leaves in the log, for every way the write can
 fail part-way. `landed` is the number of bytes the file system accepted of what was written.
 */
module Live {
  import opened Framing
  import opened Slots
  import opened Database

  /** An encoded document: its payload, its _id, and whether the caller supplied the _id. */
  datatype NewDoc = NewDoc(payload: Bytes, id: string, supplied: bool)

  datatype Op =
    | DefineOp(name: string, landed: nat, synced: bool)
    | InsertOp(coll: Word16, docs: seq<NewDoc>, landed: nat)
    | ReplaceOp(coll: Word16, accepts: Bytes -> bool, suppliedID: string, encode: string -> Bytes, landed: nat)
    | DeleteOp(coll: Word16, accepts: Bytes -> bool, limit: int, landed: nat)

  /** A state together with the records it rests on; for one step, the records the step appended. */
  datatype Effect = Effect(db: Db, recs: seq<Record>)

  // ----- appending -----

  function Records(op: Byte, coll: Word16, payloads: seq<Bytes>): seq<Record> {
    seq(|payloads|, i requires 0 <= i < |payloads| => Record(op, coll, payloads[i]))
  }

  predicate AnyTooLong(payloads: seq<Bytes>) {
    exists p <- payloads :: |p| > MAX_PAYLOAD
  }

  /** How many records the first n bytes of a batch cover in full. */
  function Whole(payloads: seq<Bytes>, n: int): (w: nat)
    ensures w <= |payloads|
  {
    if payloads == [] || n < RECORD_HEADER + |payloads[0]| then 0
    else 1 + Whole(payloads[1..], n - RECORD_HEADER - |payloads[0]|)
  }

  // ----- insert -----

  /**
   The duplicate check over a batch from document i on: whether it passes, and whether the _id
   table exists afterwards. Only supplied _ids are checked, against the batch and the collection.
   It fails too when the table cannot be built, or a lookup comes upon a document it cannot read.
   */
  ghost function CheckIds(k: Codec, c: Coll, docs: seq<NewDoc>, i: nat, seen: set<string>): (bool, bool)
    requires i <= |docs|
    decreases |docs| - i
  {
    if i == |docs| then (true, c.indexed)
    else if !docs[i].supplied then CheckIds(k, c, docs, i + 1, seen)
    else if docs[i].id in seen then (false, c.indexed)
    else if !CanIndex(k, c) then (false, c.indexed)
    else if Blocked(k, c.slots, docs[i].id) then (false, true)
    else CheckIds(k, c.(indexed := true), docs, i + 1, seen + {docs[i].id})
  }

  function Payloads(docs: seq<NewDoc>): seq<Bytes> {
    seq(|docs|, i requires 0 <= i < |docs| => docs[i].payload)
  }

  /** Publishing the documents of a batch one after another. */
  ghost function AddDocs(db: Db, coll: Word16, payloads: seq<Bytes>): (r: Db)
    requires coll in db.byID
    ensures r.byID.Keys == db.byID.Keys
  {
    if payloads == [] then db
    else AddDoc(AddDocs(db, coll, payloads[..|payloads| - 1]), coll, payloads[|payloads| - 1])
  }

  ghost function InsertEffect(k: Codec, db: Db, coll: Word16, docs: seq<NewDoc>, landed: nat): Effect
    requires coll in db.byID
  {
    var (ok, indexed) := CheckIds(k, db.byID[coll], docs, 0, {});
    var db1 := db.(byID := db.byID[coll := db.byID[coll].(indexed := indexed)]);
    var ps := Payloads(docs);
    if !ok || AnyTooLong(ps) then Effect(db1, [])
    else
      var w := Whole(ps, landed);
      Effect(AddDocs(db1, coll, ps[..w]), Records(OP_INSERT, coll, ps[..w]))
  }

  // ----- replace -----

  /** The positions accepted by a filter, in order, at most `limit` of them when limit is positive. */
  function MatchesUpTo(s: seq<Slot>, accepts: Bytes -> bool, limit: int, n: nat): (ps: seq<nat>)
    requires n <= |s|
    ensures Ascending(ps, n)
    ensures limit > 0 ==> |ps| <= limit
  {
    if n == 0 then []
    else
      var ps := MatchesUpTo(s, accepts, limit, n - 1);
      if accepts(s[n - 1].doc) && (limit <= 0 || |ps| < limit) then ps + [n - 1] else ps
  }

  function Matches(s: seq<Slot>, accepts: Bytes -> bool, limit: int): (ps: seq<nat>)
    ensures Ascending(ps, |s|)
  {
    MatchesUpTo(s, accepts, limit, |s|)
  }

  ghost function ReplaceEffect(k: Codec, db: Db, coll: Word16, accepts: Bytes -> bool, suppliedID: string,
                               encode: string -> Bytes, landed: nat): Effect
    requires coll in db.byID
  {
    var s := db.byID[coll].slots;
    var ps := Matches(s, accepts, 1);
    if ps == [] then Effect(db, [])
    else
      match k.probe(s[ps[0]].doc)
      case None => Effect(db, [])
      case Some(id) =>
        var payload := encode(id);
        if suppliedID != "" && suppliedID != id then Effect(db, [])
        else if |payload| > MAX_PAYLOAD || landed < RECORD_HEADER + |payload| then Effect(db, [])
        else Effect(RepointDoc(db, coll, ps[0], payload), [Record(OP_REPLACE, coll, payload)])
  }

  // ----- delete -----

  /** The slots left once the first n of the listed positions are gone. */
  ghost function Without(s: seq<Slot>, ps: seq<nat>, n: nat): seq<Slot>
    requires n <= |ps|
  {
    Keep(s, ps[..n])
  }

  lemma WithoutNone(s: seq<Slot>, ps: seq<nat>)
    ensures Without(s, ps, 0) == s
  {
    KeepAll(s, [], |s|);
  }

  /** With n lower positions gone, the next one has moved down by n. */
  lemma WithoutNext(s: seq<Slot>, ps: seq<nat>, n: nat)
    requires Ascending(ps, |s|) && n < |ps|
    ensures n <= ps[n] && |Without(s, ps, n)| == |s| - n && ps[n] - n < |s| - n
    ensures Without(s, ps, n)[ps[n] - n] == s[ps[n]]
    ensures Without(s, ps, n + 1) == RemoveAt(Without(s, ps, n), ps[n] - n)
  {
    KeepOneMore(s, ps[..n], ps[n]);
    assert ps[..n + 1] == ps[..n] + [ps[n]];
  }

  /** Dropping ascending positions in order; each earlier drop has moved the later ones down by one. */
  ghost function DropDocs(db: Db, coll: Word16, ps: seq<nat>, tombs: seq<Bytes>, n: nat): (r: Db)
    requires coll in db.byID && Ascending(ps, |db.byID[coll].slots|) && n <= |ps| == |tombs|
    ensures r.byID.Keys == db.byID.Keys
    ensures r.byID[coll].slots == Without(db.byID[coll].slots, ps, n)
  {
    if n == 0 then
      WithoutNone(db.byID[coll].slots, ps);
      db
    else
      WithoutNext(db.byID[coll].slots, ps, n - 1);
      DropDoc(DropDocs(db, coll, ps, tombs, n - 1), coll, ps[n - 1] - (n - 1), tombs[n - 1])
  }

  /** The tombstones of a list of documents, from the _id the scan that found them read. */
  function Tombstones(k: Codec, s: seq<Slot>, ps: seq<nat>): seq<Bytes>
    requires Ascending(ps, |s|)
  {
    seq(|ps|, i requires 0 <= i < |ps| => k.tombstone(k.exact(s[ps[i]].doc)))
  }

  /** A matched document without a usable _id: the delete is refused before anything is written. */
  ghost predicate AnyUnnamed(k: Codec, s: seq<Slot>, ps: seq<nat>)
    requires Ascending(ps, |s|)
  {
    exists i | 0 <= i < |ps| :: k.exact(s[ps[i]].doc) == ""
  }

  ghost function DeleteEffect(k: Codec, db: Db, coll: Word16, accepts: Bytes -> bool, limit: int, landed: nat): Effect
    requires coll in db.byID
  {
    var s := db.byID[coll].slots;
    var ps := Matches(s, accepts, limit);
    var tombs := Tombstones(k, s, ps);
    if AnyUnnamed(k, s, ps) || AnyTooLong(tombs) then Effect(db, [])
    else
      var w := Whole(tombs, landed);
      Effect(DropDocs(db, coll, ps, tombs, w), Records(OP_DELETE, coll, tombs[..w]))
  }

  // ----- define -----

  /**
   Creating a collection. A sync that fails after the record was written returns before the
   collection is registered, but the append point has already moved past the record.
   */
  function DefineEffect(k: Codec, db: Db, name: string, landed: nat, synced: bool): Effect {
    var d := Definition(db.nextID, name);
    var payload := k.encodeDefinition(d);
    if name in db.names || !ValidName(name) || db.nextID == 0 then Effect(db, [])
    else if |payload| > MAX_PAYLOAD || landed < RECORD_HEADER + |payload| then Effect(db, [])
    else
      Effect(if synced then Define(db, d, payload) else Advance(db, RECORD_HEADER + |payload|),
             [Record(OP_DEFINE, db.nextID, payload)])
  }

  // ----- steps and runs -----

  /**
   What a run assumes of an operation's arguments: the operation addresses a collection that
   exists, payloads carry the _id they are filed under, and a generated _id is fresh. A document
   may carry an _id that payloadID cannot read, as one with a number under a key equal to _id but
   for case does. That the stored _id is the one the document is filed under is an assumption on
   documents: one that is not valid UTF-8 is accepted and stored changed.
   */
  ghost predicate Legal(k: Codec, db: Db, op: Op) {
    match op
    case DefineOp(_, _, _) => true
    case InsertOp(coll, docs, _) =>
      && coll in db.byID
      && (forall d <- docs :: d.payload != [] && d.id != "" && Carries(k, d.payload, d.id))
      && (forall i | 0 <= i < |docs| && !docs[i].supplied :: !InUse(k, db.byID[coll].slots, docs[i].id))
      && (forall i, j | 0 <= i < |docs| && 0 <= j < |docs| && i != j && !docs[i].supplied :: docs[i].id != docs[j].id)
    case ReplaceOp(coll, _, _, encode, _) =>
      coll in db.byID && forall id: string :: encode(id) != [] && Carries(k, encode(id), id)
    case DeleteOp(coll, _, _, _) => coll in db.byID
  }

  ghost function Step(k: Codec, db: Db, op: Op): Effect
    requires Legal(k, db, op)
  {
    match op
    case DefineOp(name, landed, synced) => DefineEffect(k, db, name, landed, synced)
    case InsertOp(coll, docs, landed) => InsertEffect(k, db, coll, docs, landed)
    case ReplaceOp(coll, accepts, suppliedID, encode, landed) =>
      ReplaceEffect(k, db, coll, accepts, suppliedID, encode, landed)
    case DeleteOp(coll, accepts, limit, landed) => DeleteEffect(k, db, coll, accepts, limit, landed)
  }

  /** A run: the operations are legal one after another from a starting state. */
  ghost predicate LegalRun(k: Codec, start: Effect, ops: seq<Op>)
    decreases |ops|, 0
  {
    ops == [] ||
    (LegalRun(k, start, ops[..|ops| - 1]) && Legal(k, After(k, start, ops[..|ops| - 1]).db, ops[|ops| - 1]))
  }

  /** The state and the whole log after a run. */
  ghost function After(k: Codec, start: Effect, ops: seq<Op>): Effect
    requires LegalRun(k, start, ops)
    decreases |ops|, 1
  {
    if ops == [] then start
    else
      var e := After(k, start, ops[..|ops| - 1]);
      var s := Step(k, e.db, ops[|ops| - 1]);
      Effect(s.db, e.recs + s.recs)
  }

  /** A step that wrote a define record and then failed to sync it. */
  ghost predicate LosesDefine(k: Codec, db: Db, op: Op) {
    op.DefineOp? && !op.synced && DefineEffect(k, db, op.name, op.landed, op.synced).recs != []
  }

  ghost predicate EveryDefineKept(k: Codec, start: Effect, ops: seq<Op>)
    requires LegalRun(k, start, ops)
  {
    ops == [] ||
    (EveryDefineKept(k, start, ops[..|ops| - 1]) &&
     !LosesDefine(k, After(k, start, ops[..|ops| - 1]).db, ops[|ops| - 1]))
  }
}
