/**
 Every operation is a sequence of elementary steps, one record (or one table build) each. An
 invariant of the database is then proved once per kind of step and holds along every run.
 */
module Ticks {
  import opened Wrappers
  import opened Framing
  import opened Slots
  import opened Database
  import opened Live

  datatype Tick =
    | Add(coll: Word16, payload: Bytes)
    | Repoint(coll: Word16, pos: nat, payload: Bytes)
    | Drop(coll: Word16, pos: nat, payload: Bytes)
    | Catalog(d: Definition, payload: Bytes)
    | Lose(id: Word16, payload: Bytes)            // a define record whose sync failed
    | Index(coll: Word16, indexed: bool)

  ghost predicate TickOk(k: Codec, db: Db, t: Tick) {
    match t
    case Add(coll, payload) =>
      && coll in db.byID && payload != [] && Plain(k, payload) && k.exact(payload) != ""
      && !InUse(k, db.byID[coll].slots, k.exact(payload))
    case Repoint(coll, pos, payload) =>
      && coll in db.byID && pos < |db.byID[coll].slots| && payload != [] && Plain(k, payload)
      && k.exact(payload) == k.exact(db.byID[coll].slots[pos].doc)
    case Drop(coll, pos, payload) =>
      && coll in db.byID && pos < |db.byID[coll].slots|
      && k.probe(payload) == Some(k.exact(db.byID[coll].slots[pos].doc))
    case Catalog(d, payload) =>
      && k.decodeDefinition(payload) == Some(d)
      && d.id == db.nextID != 0 && ValidName(d.name) && d.name !in db.names
    case Lose(id, payload) =>
      && k.decodeDefinition(payload).Some? && k.decodeDefinition(payload).value.id == id
      && id == db.nextID != 0
    case Index(coll, _) => coll in db.byID
  }

  ghost function Ticked(k: Codec, e: Effect, t: Tick): Effect
    requires TickOk(k, e.db, t)
  {
    match t
    case Add(coll, payload) => Effect(AddDoc(e.db, coll, payload), e.recs + [Record(OP_INSERT, coll, payload)])
    case Repoint(coll, pos, payload) =>
      Effect(RepointDoc(e.db, coll, pos, payload), e.recs + [Record(OP_REPLACE, coll, payload)])
    case Drop(coll, pos, payload) =>
      Effect(DropDoc(e.db, coll, pos, payload), e.recs + [Record(OP_DELETE, coll, payload)])
    case Catalog(d, payload) => Effect(Define(e.db, d, payload), e.recs + [Record(OP_DEFINE, d.id, payload)])
    case Lose(id, payload) =>
      Effect(Advance(e.db, RECORD_HEADER + |payload|), e.recs + [Record(OP_DEFINE, id, payload)])
    case Index(coll, indexed) =>
      Effect(e.db.(byID := e.db.byID[coll := e.db.byID[coll].(indexed := indexed)]), e.recs)
  }

  /** The collection a step concerns. */
  ghost function Touched(t: Tick): Word16 {
    if t.Catalog? then t.d.id else if t.Lose? then t.id else t.coll
  }

  ghost predicate TicksOk(k: Codec, e: Effect, ts: seq<Tick>)
    decreases |ts|, 0
  {
    ts == [] ||
    (TicksOk(k, e, ts[..|ts| - 1]) && TickOk(k, TickedAll(k, e, ts[..|ts| - 1]).db, ts[|ts| - 1]))
  }

  ghost function TickedAll(k: Codec, e: Effect, ts: seq<Tick>): Effect
    requires TicksOk(k, e, ts)
    decreases |ts|, 1
  {
    if ts == [] then e else Ticked(k, TickedAll(k, e, ts[..|ts| - 1]), ts[|ts| - 1])
  }

  lemma TicksSnoc(k: Codec, e: Effect, ts: seq<Tick>, t: Tick)
    requires TicksOk(k, e, ts) && TickOk(k, TickedAll(k, e, ts).db, t)
    ensures TicksOk(k, e, ts + [t])
    ensures TickedAll(k, e, ts + [t]) == Ticked(k, TickedAll(k, e, ts), t)
  {
    hide TickOk, Ticked;
    assert (ts + [t])[..|ts|] == ts;
  }

  lemma {:induction false} TicksConcat(k: Codec, e: Effect, a: seq<Tick>, b: seq<Tick>)
    requires TicksOk(k, e, a) && TicksOk(k, TickedAll(k, e, a), b)
    ensures TicksOk(k, e, a + b)
    ensures TickedAll(k, e, a + b) == TickedAll(k, TickedAll(k, e, a), b)
  {
    hide TickOk, Ticked;
    if b == [] {
      assert a + b == a;
    } else {
      var n := |b| - 1;
      TicksConcat(k, e, a, b[..n]);
      assert a + b == (a + b[..n]) + [b[n]];
      TicksSnoc(k, e, a + b[..n], b[n]);
    }
  }

  // ----- the catalog -----

  /** Ids are handed out upwards from 1; a nextID of 0 means they are used up. */
  ghost predicate CatalogOk(db: Db) {
    forall id | id in db.byID :: 0 < id && (db.nextID == 0 || id < db.nextID)
  }

  lemma AddCatalog(db: Db, coll: Word16, payload: Bytes)
    requires CatalogOk(db) && coll in db.byID
    ensures CatalogOk(AddDoc(db, coll, payload))
  {
  }

  lemma RepointCatalog(db: Db, coll: Word16, i: nat, payload: Bytes)
    requires CatalogOk(db) && coll in db.byID && i < |db.byID[coll].slots|
    ensures CatalogOk(RepointDoc(db, coll, i, payload))
  {
  }

  lemma DropCatalog(db: Db, coll: Word16, i: nat, payload: Bytes)
    requires CatalogOk(db) && coll in db.byID && i < |db.byID[coll].slots|
    ensures CatalogOk(DropDoc(db, coll, i, payload))
  {
  }

  lemma {:induction false} TicksCatalogOk(k: Codec, e: Effect, ts: seq<Tick>)
    requires CatalogOk(e.db) && TicksOk(k, e, ts)
    ensures CatalogOk(TickedAll(k, e, ts).db)
  {
    hide TickOk, Ticked, CatalogOk;
    if ts != [] {
      var n := |ts| - 1;
      TicksCatalogOk(k, e, ts[..n]);
      TickCatalogOk(k, TickedAll(k, e, ts[..n]), ts[n]);
    }
  }

  /** The next id is unused until the 16-bit counter wraps, and stays so after it is handed out. */
  lemma DefineCatalog(db: Db, d: Definition, payload: Bytes)
    requires CatalogOk(db) && d.id == db.nextID && d.id != 0
    ensures d.id !in db.byID && CatalogOk(Define(db, d, payload))
  {
  }

  lemma TickCatalogOk(k: Codec, e: Effect, t: Tick)
    requires CatalogOk(e.db) && TickOk(k, e.db, t)
    ensures CatalogOk(Ticked(k, e, t).db)
    ensures t.Catalog? ==> t.d.id !in e.db.byID
  {
    match t
    case Add(coll, payload) => AddCatalog(e.db, coll, payload);
    case Repoint(coll, pos, payload) => RepointCatalog(e.db, coll, pos, payload);
    case Drop(coll, pos, payload) => DropCatalog(e.db, coll, pos, payload);
    case Catalog(d, payload) => DefineCatalog(e.db, d, payload);
    case Lose(id, payload) =>
    case Index(coll, indexed) =>
  }

  // ----- the _ids of live documents -----

  /** Every collection holds documents with usable, pairwise different _ids. */
  ghost predicate LiveOk(k: Codec, db: Db) {
    forall id | id in db.byID :: IdsOk(k, db.byID[id].slots)
  }

  lemma IdsOkAppend(k: Codec, s: seq<Slot>, x: Slot)
    requires IdsOk(k, s) && x.doc != [] && Plain(k, x.doc) && k.exact(x.doc) != ""
    requires !InUse(k, s, k.exact(x.doc))
    ensures IdsOk(k, s + [x])
  {
    forall i | 0 <= i < |s|
      ensures k.exact(s[i].doc) != k.exact(x.doc)
    {
      assert !Bears(k, s, k.exact(x.doc), i);
    }
  }

  lemma IdsOkRemove(k: Codec, s: seq<Slot>, i: nat)
    requires IdsOk(k, s) && i < |s|
    ensures IdsOk(k, RemoveAt(s, i))
  {
    var r := RemoveAt(s, i);
    assert forall j | 0 <= j < |r| :: r[j] == if j < i then s[j] else s[j + 1];
  }

  lemma IdsOkRepoint(k: Codec, s: seq<Slot>, i: nat, x: Slot)
    requires IdsOk(k, s) && i < |s| && x.doc != [] && Plain(k, x.doc) && k.exact(x.doc) == k.exact(s[i].doc)
    ensures IdsOk(k, s[i := x])
  {
  }

  lemma TickLiveOk(k: Codec, e: Effect, t: Tick)
    requires LiveOk(k, e.db) && TickOk(k, e.db, t)
    ensures LiveOk(k, Ticked(k, e, t).db)
  {
    match t
    case Add(coll, payload) => IdsOkAppend(k, e.db.byID[coll].slots, NewSlot(e.db, payload));
    case Repoint(coll, pos, payload) => IdsOkRepoint(k, e.db.byID[coll].slots, pos, NewSlot(e.db, payload));
    case Drop(coll, pos, payload) => IdsOkRemove(k, e.db.byID[coll].slots, pos);
    case Catalog(d, payload) =>
    case Lose(id, payload) =>
    case Index(coll, indexed) =>
  }

  lemma {:induction false} TicksLiveOk(k: Codec, e: Effect, ts: seq<Tick>)
    requires LiveOk(k, e.db) && TicksOk(k, e, ts)
    ensures LiveOk(k, TickedAll(k, e, ts).db)
  {
    if ts != [] {
      var n := |ts| - 1;
      TicksLiveOk(k, e, ts[..n]);
      hide TickOk, Ticked, LiveOk;
      TickLiveOk(k, TickedAll(k, e, ts[..n]), ts[n]);
    }
  }

  // ----- batches -----

  lemma InUseAppend(k: Codec, s: seq<Slot>, x: Slot, id: string)
    requires InUse(k, s + [x], id)
    ensures InUse(k, s, id) || k.exact(x.doc) == id
  {
    var i: nat :| Bears(k, s + [x], id, i);
    if i < |s| {
      assert Bears(k, s, id, i);
    }
  }

  /** The records of the first n + 1 payloads are those of the first n and one more. */
  lemma RecordsSnoc(log: seq<Record>, op: Byte, coll: Word16, ps: seq<Bytes>, n: nat)
    requires n < |ps|
    ensures log + Records(op, coll, ps[..n + 1]) == (log + Records(op, coll, ps[..n])) + [Record(op, coll, ps[n])]
  {
    assert Records(op, coll, ps[..n + 1]) == Records(op, coll, ps[..n]) + [Record(op, coll, ps[n])];
    ConcatAssoc(log, Records(op, coll, ps[..n]), [Record(op, coll, ps[n])]);
  }

  /** Payloads that can be added one after another: usable _ids, new to the index and to each other. */
  ghost predicate Addable(k: Codec, s: seq<Slot>, ps: seq<Bytes>) {
    && (forall i | 0 <= i < |ps| ::
          ps[i] != [] && Plain(k, ps[i]) && k.exact(ps[i]) != "" && !InUse(k, s, k.exact(ps[i])))
    && (forall i, j | 0 <= i < j < |ps| :: k.exact(ps[i]) != k.exact(ps[j]))
  }

  /** After adding a batch, an _id is in use only if it was before or a payload brought it. */
  lemma {:induction false} AddedIds(k: Codec, db: Db, coll: Word16, ps: seq<Bytes>, id: string)
    requires coll in db.byID && InUse(k, AddDocs(db, coll, ps).byID[coll].slots, id)
    ensures InUse(k, db.byID[coll].slots, id) || exists i :: 0 <= i < |ps| && k.exact(ps[i]) == id
  {
    if ps != [] {
      var n := |ps| - 1;
      var d := AddDocs(db, coll, ps[..n]);
      InUseAppend(k, d.byID[coll].slots, NewSlot(d, ps[n]), id);
      if k.exact(ps[n]) != id {
        AddedIds(k, db, coll, ps[..n], id);
      }
    }
  }

  /** Publishing a batch is adding its documents one at a time. */
  lemma {:induction false} AddDocsTicks(k: Codec, e: Effect, coll: Word16, ps: seq<Bytes>) returns (ts: seq<Tick>)
    requires coll in e.db.byID && Addable(k, e.db.byID[coll].slots, ps)
    ensures TicksOk(k, e, ts) && NoneLost(ts)
    ensures TickedAll(k, e, ts) == Effect(AddDocs(e.db, coll, ps), e.recs + Records(OP_INSERT, coll, ps))
  {
    if ps == [] {
      ts := [];
      assert e.recs + Records(OP_INSERT, coll, ps) == e.recs;
    } else {
      hide InUse;
      var n := |ps| - 1;
      var init, p := ps[..n], ps[n];
      var us := AddDocsTicks(k, e, coll, init);
      var db := AddDocs(e.db, coll, init);
      if InUse(k, db.byID[coll].slots, k.exact(p)) {
        AddedIds(k, e.db, coll, init, k.exact(p));
      }
      hide AddDoc, Records, TicksOk, TickedAll;
      TicksSnoc(k, e, us, Add(coll, p));
      RecordsSnoc(e.recs, OP_INSERT, coll, ps, n);
      assert ps[..n + 1] == ps;
      ts := us + [Add(coll, p)];
    }
  }

  /** The drops name documents of the index as it was before any of them. */
  ghost predicate Droppable(k: Codec, s: seq<Slot>, ps: seq<nat>, tombs: seq<Bytes>) {
    && Ascending(ps, |s|) && |ps| == |tombs|
    && forall i | 0 <= i < |ps| :: k.probe(tombs[i]) == Some(k.exact(s[ps[i]].doc))
  }

  /** The n-th drop of a batch as an elementary step. */
  ghost function NthDrop(coll: Word16, ps: seq<nat>, tombs: seq<Bytes>, n: nat): Tick
    requires n < |ps| == |tombs|
  {
    Drop(coll, if n <= ps[n] then ps[n] - n else 0, tombs[n])
  }

  /** By the time its turn comes, the n-th position has moved down by n and names the same document. */
  lemma NthDropOk(k: Codec, db: Db, coll: Word16, ps: seq<nat>, tombs: seq<Bytes>, n: nat)
    requires coll in db.byID && Droppable(k, db.byID[coll].slots, ps, tombs) && n < |ps|
    ensures var d, t := DropDocs(db, coll, ps, tombs, n), NthDrop(coll, ps, tombs, n);
            TickOk(k, d, t) && DropDocs(db, coll, ps, tombs, n + 1) == DropDoc(d, coll, t.pos, t.payload)
  {
    hide DropDoc, Without;
    WithoutNext(db.byID[coll].slots, ps, n);
  }

  /** Dropping ascending positions is dropping them one at a time, each moved down by its predecessors. */
  lemma {:induction false} DropDocsTicks(k: Codec, e: Effect, coll: Word16, ps: seq<nat>, tombs: seq<Bytes>, n: nat)
    returns (ts: seq<Tick>)
    requires coll in e.db.byID && Droppable(k, e.db.byID[coll].slots, ps, tombs) && n <= |ps|
    ensures TicksOk(k, e, ts) && NoneLost(ts)
    ensures TickedAll(k, e, ts) ==
            Effect(DropDocs(e.db, coll, ps, tombs, n), e.recs + Records(OP_DELETE, coll, tombs[..n]))
    decreases n
  {
    hide DropDoc, TickOk, Without, Ascending, Advance, Records, TicksOk, TickedAll, DropDocs, NoneLost;
    if n == 0 {
      ts := [];
      NoDrop(k, e, coll, ps, tombs);
    } else {
      var us := DropDocsTicks(k, e, coll, ps, tombs, n - 1);
      NthDropOk(k, e.db, coll, ps, tombs, n - 1);
      ts := us + [NthDrop(coll, ps, tombs, n - 1)];
      TicksSnoc(k, e, us, NthDrop(coll, ps, tombs, n - 1));
      RecordsSnoc(e.recs, OP_DELETE, coll, tombs, n - 1);
      NoneLostSnoc(us, NthDrop(coll, ps, tombs, n - 1));
    }
  }

  lemma NoDrop(k: Codec, e: Effect, coll: Word16, ps: seq<nat>, tombs: seq<Bytes>)
    requires coll in e.db.byID && Droppable(k, e.db.byID[coll].slots, ps, tombs)
    ensures TicksOk(k, e, []) && NoneLost([])
    ensures TickedAll(k, e, []) ==
            Effect(DropDocs(e.db, coll, ps, tombs, 0), e.recs + Records(OP_DELETE, coll, tombs[..0]))
  {
    assert e.recs + Records(OP_DELETE, coll, tombs[..0]) == e.recs;
  }

  // ----- operations -----

  ghost predicate NoneLost(ts: seq<Tick>) {
    forall t <- ts :: !t.Lose?
  }

  lemma NoneLostSnoc(ts: seq<Tick>, t: Tick)
    ensures NoneLost(ts + [t]) <==> NoneLost(ts) && !t.Lose?
  {
    assert t in ts + [t];
  }

  /** A batch that passes the duplicate check brings no _id the collection or the batch already has. */
  lemma {:induction false} CheckIdsSound(k: Codec, c: Coll, docs: seq<NewDoc>, i: nat, seen: set<string>)
    requires i <= |docs| && CheckIds(k, c, docs, i, seen).0 && IdsOk(k, c.slots)
    requires forall d <- docs :: d.id != ""
    ensures forall j | i <= j < |docs| && docs[j].supplied :: !InUse(k, c.slots, docs[j].id) && docs[j].id !in seen
    ensures forall j, m | i <= j < m < |docs| && docs[j].supplied && docs[m].supplied :: docs[j].id != docs[m].id
    decreases |docs| - i
  {
    hide InUse, Blocked, CanIndex, IdsOk;
    if i < |docs| {
      if docs[i].supplied {
        NotInUse(k, c.slots, docs[i].id);
        CheckIdsSound(k, c.(indexed := true), docs, i + 1, seen + {docs[i].id});
      } else {
        CheckIdsSound(k, c, docs, i + 1, seen);
      }
    }
  }

  lemma NotInUse(k: Codec, s: seq<Slot>, id: string)
    requires IdsOk(k, s) && id != "" && !Blocked(k, s, id)
    ensures !InUse(k, s, id)
  {
    if InUse(k, s, id) {
      InUseBlocks(k, s, id);
    }
  }

  lemma BatchIsAddable(k: Codec, db: Db, coll: Word16, docs: seq<NewDoc>, landed: nat, w: nat)
    requires Legal(k, db, InsertOp(coll, docs, landed)) && CheckIds(k, db.byID[coll], docs, 0, {}).0
    requires w <= |docs| && IdsOk(k, db.byID[coll].slots)
    ensures Addable(k, db.byID[coll].slots, Payloads(docs)[..w])
  {
    hide InUse, CheckIds, IdsOk;
    CheckIdsSound(k, db.byID[coll], docs, 0, {});
    var ps := Payloads(docs)[..w];
    assert forall i | 0 <= i < w :: ps[i] == docs[i].payload && docs[i] in docs;
  }

  lemma InsertTicks(k: Codec, e: Effect, coll: Word16, docs: seq<NewDoc>, landed: nat) returns (ts: seq<Tick>)
    requires Legal(k, e.db, InsertOp(coll, docs, landed)) && IdsOk(k, e.db.byID[coll].slots)
    ensures TicksOk(k, e, ts) && NoneLost(ts)
    ensures var s := InsertEffect(k, e.db, coll, docs, landed);
            TickedAll(k, e, ts) == Effect(s.db, e.recs + s.recs)
  {
    var (ok, indexed) := CheckIds(k, e.db.byID[coll], docs, 0, {});
    var t := Index(coll, indexed);
    var ps := Payloads(docs);
    OneTick(k, e, t);
    ts := [t];
    if !ok || AnyTooLong(ps) {
      assert e.recs + [] == e.recs;
    } else {
      var w := Whole(ps, landed);
      BatchIsAddable(k, e.db, coll, docs, landed, w);
      hide Addable, CheckIds, Legal, Whole, Payloads, TicksOk, TickedAll, IdsOk;
      var us := AddDocsTicks(k, Ticked(k, e, t), coll, ps[..w]);
      TicksConcat(k, e, ts, us);
      ts := ts + us;
    }
  }

  lemma NoTick(k: Codec, e: Effect)
    ensures TicksOk(k, e, []) && TickedAll(k, e, []) == e && NoneLost([])
  {
  }

  lemma OneTick(k: Codec, e: Effect, t: Tick)
    requires TickOk(k, e.db, t)
    ensures TicksOk(k, e, [t]) && TickedAll(k, e, [t]) == Ticked(k, e, t)
    ensures NoneLost([t]) <==> !t.Lose?
  {
    hide TicksOk, TickedAll, TickOk, Ticked;
    NoTick(k, e);
    TicksSnoc(k, e, [], t);
    assert [] + [t] == [t];
    assert t in [t];
  }

  lemma ReplaceTicks(k: Codec, e: Effect, coll: Word16, accepts: Bytes -> bool, suppliedID: string,
                     encode: string -> Bytes, landed: nat) returns (ts: seq<Tick>)
    requires Legal(k, e.db, ReplaceOp(coll, accepts, suppliedID, encode, landed))
    requires IdsOk(k, e.db.byID[coll].slots)
    ensures TicksOk(k, e, ts) && NoneLost(ts)
    ensures var s := ReplaceEffect(k, e.db, coll, accepts, suppliedID, encode, landed);
            TickedAll(k, e, ts) == Effect(s.db, e.recs + s.recs)
  {
    hide Matches, RepointDoc, TicksOk, TickedAll;
    assert e.recs + [] == e.recs;
    var s := e.db.byID[coll].slots;
    var ps := Matches(s, accepts, 1);
    if ReplaceEffect(k, e.db, coll, accepts, suppliedID, encode, landed).recs != [] {
      var t := Repoint(coll, ps[0], encode(k.probe(s[ps[0]].doc).value));
      OneTick(k, e, t);
      ts := [t];
    } else {
      NoTick(k, e);
      ts := [];
    }
  }

  /** Each tombstone carries the _id of the document it is for. */
  lemma TombstonesName(k: Codec, s: seq<Slot>, ps: seq<nat>)
    requires k.Lawful() && Ascending(ps, |s|)
    ensures forall i | 0 <= i < |ps| :: k.probe(Tombstones(k, s, ps)[i]) == Some(k.exact(s[ps[i]].doc))
  {
  }

  lemma DeleteTicks(k: Codec, e: Effect, coll: Word16, accepts: Bytes -> bool, limit: int, landed: nat)
    returns (ts: seq<Tick>)
    requires k.Lawful() && coll in e.db.byID
    ensures TicksOk(k, e, ts) && NoneLost(ts)
    ensures var s := DeleteEffect(k, e.db, coll, accepts, limit, landed);
            TickedAll(k, e, ts) == Effect(s.db, e.recs + s.recs)
  {
    var s := e.db.byID[coll].slots;
    var ps := Matches(s, accepts, limit);
    var tombs := Tombstones(k, s, ps);
    TombstonesName(k, s, ps);
    hide Matches, Tombstones;
    if AnyUnnamed(k, s, ps) || AnyTooLong(tombs) {
      assert e.recs + [] == e.recs;
      ts := [];
    } else {
      var w := Whole(tombs, landed);
      hide TicksOk, TickedAll;
      ts := DropDocsTicks(k, e, coll, ps, tombs, w);
    }
  }

  lemma DefineTicks(k: Codec, e: Effect, name: string, landed: nat, synced: bool) returns (ts: seq<Tick>)
    requires k.Lawful()
    ensures TicksOk(k, e, ts)
    ensures NoneLost(ts) <==> !LosesDefine(k, e.db, DefineOp(name, landed, synced))
    ensures var s := DefineEffect(k, e.db, name, landed, synced);
            TickedAll(k, e, ts) == Effect(s.db, e.recs + s.recs)
  {
    hide TicksOk, TickedAll, NoneLost;
    assert e.recs + [] == e.recs;
    var d := Definition(e.db.nextID, name);
    var payload := k.encodeDefinition(d);
    if DefineEffect(k, e.db, name, landed, synced).recs != [] {
      var t := if synced then Catalog(d, payload) else Lose(d.id, payload);
      OneTick(k, e, t);
      ts := [t];
    } else {
      NoTick(k, e);
      ts := [];
    }
  }

  lemma LiveIdsOk(k: Codec, db: Db)
    requires LiveOk(k, db)
    ensures forall id | id in db.byID :: IdsOk(k, db.byID[id].slots)
  {
  }

  lemma StepTicks(k: Codec, e: Effect, op: Op) returns (ts: seq<Tick>)
    requires k.Lawful() && LiveOk(k, e.db) && Legal(k, e.db, op)
    ensures TicksOk(k, e, ts) && (NoneLost(ts) <==> !LosesDefine(k, e.db, op))
    ensures var s := Step(k, e.db, op); TickedAll(k, e, ts) == Effect(s.db, e.recs + s.recs)
  {
    hide TicksOk, TickedAll, LiveOk, NoneLost, IdsOk;
    assert !op.DefineOp? ==> IdsOk(k, e.db.byID[op.coll].slots) by {
      LiveIdsOk(k, e.db);
    }
    match op
    case DefineOp(name, landed, synced) => ts := DefineTicks(k, e, name, landed, synced);
    case InsertOp(coll, docs, landed) => ts := InsertTicks(k, e, coll, docs, landed);
    case ReplaceOp(coll, accepts, suppliedID, encode, landed) =>
      ts := ReplaceTicks(k, e, coll, accepts, suppliedID, encode, landed);
    case DeleteOp(coll, accepts, limit, landed) => ts := DeleteTicks(k, e, coll, accepts, limit, landed);
  }

  lemma {:induction false} RunTicks(k: Codec, start: Effect, ops: seq<Op>) returns (ts: seq<Tick>)
    requires k.Lawful() && LiveOk(k, start.db) && LegalRun(k, start, ops)
    ensures TicksOk(k, start, ts) && TickedAll(k, start, ts) == After(k, start, ops)
    ensures NoneLost(ts) <==> EveryDefineKept(k, start, ops)
  {
    if ops == [] {
      ts := [];
    } else {
      var n := |ops| - 1;
      var us := RunTicks(k, start, ops[..n]);
      TicksLiveOk(k, start, us);
      hide LiveOk, Legal, Step, TicksOk, TickedAll, LosesDefine;
      var vs := StepTicks(k, After(k, start, ops[..n]), ops[n]);
      TicksConcat(k, start, us, vs);
      ts := us + vs;
    }
  }
}
