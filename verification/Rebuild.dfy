/**
 Replay rebuilds the live state: after any run, walking the log and compacting gives exactly the
 offsets, lengths, dirty flags, counters, catalog and next id the running process holds. Two things
 break this: a define whose record reached the file but whose sync failed, and a log that is not
 legible, which replay refuses.
 */
module Rebuild {
  import opened Wrappers
  import opened Framing
  import opened Slots
  import opened Database
  import opened Replay
  import opened Mirror
  import opened Live
  import opened Ticks
  import opened Legibility

  /** A state and log that belong together. */
  ghost predicate Rebuilt(k: Codec, e: Effect) {
    && CatalogOk(e.db)
    && WalkLog(k, e.recs).Applied?
    && Mirrors(k, e.db, WalkLog(k, e.recs).w)
  }

  /** Replay of the log succeeds and its compacted state is the live one, up to which _id tables exist. */
  ghost predicate RebuildsExactly(k: Codec, e: Effect) {
    && WalkLog(k, e.recs).Applied?
    && Visible(Finish(WalkLog(k, e.recs).w)) == Visible(e.db)
  }

  lemma EmptyIsRebuilt(k: Codec)
    ensures Rebuilt(k, Effect(Empty(), []))
  {
  }

  // ----- one record -----

  /** The documents of a collection whose log holds no unread insert can all be read. */
  lemma LiveRead(k: Codec, e: Effect, coll: Word16)
    requires Rebuilt(k, e) && coll in e.db.byID
    ensures ReadsAs(k, WalkLog(k, e.recs).w.db, e.recs, coll)
    ensures !UnreadIn(k, e.recs, coll) ==> AllRead(k, e.db.byID[coll].slots)
  {
    var w := WalkLog(k, e.recs).w;
    WalkReads(k, e.recs, coll);
    assert MirrorsColl(k, e.db.byID[coll], w.db.byID[coll], coll in w.tombstoned);
    if !UnreadIn(k, e.recs, coll) {
      UnmarkedRead(k, w.db.byID[coll].slots, |w.db.byID[coll].slots|);
    }
    hide WalkLog, ReadsAs, UnreadIn;
  }

  lemma {:induction false} UnmarkedRead(k: Codec, s: seq<Slot>, n: nat)
    requires n <= |s| && AllRead(k, s)
    ensures AllRead(k, UnmarkedUpTo(s, n))
  {
    if n > 0 {
      UnmarkedRead(k, s, n - 1);
    }
  }

  /** What legibility of one more record means for the walk and the live documents. */
  lemma LegibleTick(k: Codec, e: Effect, r: Record)
    requires Rebuilt(k, e) && Legible(k, e.recs + [r]) && r.coll in e.db.byID
    ensures r.op == OP_REPLACE ==> k.probe(r.payload).Some?
    ensures Names(r) ==> AllRead(k, e.db.byID[r.coll].slots)
    ensures UnreadInsert(k, r) ==>
              var w := WalkLog(k, e.recs).w; r.coll in w.db.byID && !w.db.byID[r.coll].indexed
  {
    hide WalkLog, AllRead, NamedIn, UnreadIn, Legible;
    LegibleSnoc(k, e.recs, r);
    LiveRead(k, e, r.coll);
  }

  lemma OneMoreRebuilt(k: Codec, e: Effect, db: Db, r: Record, w: Walk)
    requires Rebuilt(k, e) && CatalogOk(db) && Mirrors(k, db, w)
    requires Apply(k, WalkLog(k, e.recs).w, r) == Applied(w)
    ensures Rebuilt(k, Effect(db, e.recs + [r]))
  {
    hide Mirrors, Apply, CatalogOk;
    WalkSnoc(k, e.recs, r);
  }

  lemma RebuiltParts(k: Codec, e: Effect)
    requires Rebuilt(k, e)
    ensures CatalogOk(e.db) && WalkLog(k, e.recs).Applied? && Mirrors(k, e.db, WalkLog(k, e.recs).w)
    ensures e.db.byID.Keys == WalkLog(k, e.recs).w.db.byID.Keys
  {
  }

  /** A record of a collection is applied by its op. */
  lemma AppliesTo(k: Codec, w: Walk, r: Record)
    requires r.coll in w.db.byID
    ensures r.op == OP_INSERT ==> Apply(k, w, r) == ApplyInsert(k, w, r.coll, r.payload)
    ensures Names(r) ==> Apply(k, w, r) == ApplyNamed(k, w, r.op == OP_DELETE, r.coll, r.payload)
  {
    hide ApplyInsert, ApplyNamed;
  }

  lemma AddRebuilt(k: Codec, e: Effect, coll: Word16, payload: Bytes)
    requires Rebuilt(k, e) && TickOk(k, e.db, Add(coll, payload))
    requires Legible(k, e.recs + [Record(OP_INSERT, coll, payload)])
    ensures Rebuilt(k, Effect(AddDoc(e.db, coll, payload), e.recs + [Record(OP_INSERT, coll, payload)]))
  {
    hide Rebuilt, CatalogOk, WalkLog, AddDoc, InUse, ApplyInsert, Apply, Mirrors, Legible, Plain;
    RebuiltParts(k, e);
    var w, db, r := WalkLog(k, e.recs).w, AddDoc(e.db, coll, payload), Record(OP_INSERT, coll, payload);
    AddCatalog(e.db, coll, payload);
    LegibleTick(k, e, r);
    MirrorsAdd(k, e.db, w, coll, payload);
    AppliesTo(k, w, r);
    OneMoreRebuilt(k, e, db, r, w.(db := AddDoc(w.db, coll, payload)));
  }

  lemma RepointRebuilt(k: Codec, e: Effect, coll: Word16, p: nat, payload: Bytes)
    requires Rebuilt(k, e) && TickOk(k, e.db, Repoint(coll, p, payload))
    requires Legible(k, e.recs + [Record(OP_REPLACE, coll, payload)])
    ensures Rebuilt(k, Effect(RepointDoc(e.db, coll, p, payload), e.recs + [Record(OP_REPLACE, coll, payload)]))
  {
    hide Rebuilt, CatalogOk, WalkLog, RepointDoc, ApplyNamed, Apply, Mirrors, AllRead, Legible, Plain;
    RebuiltParts(k, e);
    var w, db, r := WalkLog(k, e.recs).w, RepointDoc(e.db, coll, p, payload), Record(OP_REPLACE, coll, payload);
    RepointCatalog(e.db, coll, p, payload);
    LegibleTick(k, e, r);
    var w' := MirrorsRepoint(k, e.db, w, coll, p, payload);
    AppliesTo(k, w, r);
    OneMoreRebuilt(k, e, db, r, w');
  }

  lemma DropRebuilt(k: Codec, e: Effect, coll: Word16, p: nat, tomb: Bytes)
    requires Rebuilt(k, e) && TickOk(k, e.db, Drop(coll, p, tomb))
    requires Legible(k, e.recs + [Record(OP_DELETE, coll, tomb)])
    ensures Rebuilt(k, Effect(DropDoc(e.db, coll, p, tomb), e.recs + [Record(OP_DELETE, coll, tomb)]))
  {
    hide Rebuilt, CatalogOk, WalkLog, DropDoc, ApplyNamed, Apply, Mirrors, AllRead, Legible;
    RebuiltParts(k, e);
    var w, db, r := WalkLog(k, e.recs).w, DropDoc(e.db, coll, p, tomb), Record(OP_DELETE, coll, tomb);
    DropCatalog(e.db, coll, p, tomb);
    LegibleTick(k, e, r);
    var w' := MirrorsDrop(k, e.db, w, coll, p, tomb);
    AppliesTo(k, w, r);
    OneMoreRebuilt(k, e, db, r, w');
  }

  lemma DefineRebuilt(k: Codec, e: Effect, d: Definition, payload: Bytes)
    requires Rebuilt(k, e) && k.decodeDefinition(payload) == Some(d)
    requires d.id != 0 && d.id == e.db.nextID && ValidName(d.name) && d.name !in e.db.names
    ensures Rebuilt(k, Effect(Define(e.db, d, payload), e.recs + [Record(OP_DEFINE, d.id, payload)]))
  {
    var w, db := WalkLog(k, e.recs).w, Define(e.db, d, payload);
    DefineCatalog(e.db, d, payload);
    MirrorsDefine(k, e.db, w, d, payload);
    assert Apply(k, w, Record(OP_DEFINE, d.id, payload)) == ApplyDefine(k, w, payload);
    hide *;
    OneMoreRebuilt(k, e, db, Record(OP_DEFINE, d.id, payload), w.(db := Define(w.db, d, payload)));
  }

  /** Noting that an _id table was built changes nothing the log determines. */
  lemma IndexedRebuilt(k: Codec, e: Effect, coll: Word16, indexed: bool)
    requires Rebuilt(k, e) && coll in e.db.byID
    ensures Rebuilt(k, Effect(e.db.(byID := e.db.byID[coll := e.db.byID[coll].(indexed := indexed)]), e.recs))
  {
    hide WalkLog, IdsOk;
  }

  lemma TickRebuilt(k: Codec, e: Effect, t: Tick)
    requires Rebuilt(k, e) && TickOk(k, e.db, t) && !t.Lose? && Legible(k, Ticked(k, e, t).recs)
    ensures Rebuilt(k, Ticked(k, e, t))
  {
    hide Rebuilt, Legible;
    match t
    case Add(coll, payload) => AddRebuilt(k, e, coll, payload);
    case Repoint(coll, pos, payload) => RepointRebuilt(k, e, coll, pos, payload);
    case Drop(coll, pos, payload) => DropRebuilt(k, e, coll, pos, payload);
    case Catalog(d, payload) => DefineRebuilt(k, e, d, payload);
    case Lose(id, payload) =>
    case Index(coll, indexed) => IndexedRebuilt(k, e, coll, indexed);
  }

  /** The one record a step appends, if any. */
  lemma TickAppends(k: Codec, e: Effect, t: Tick)
    requires TickOk(k, e.db, t)
    ensures t.Index? ==> Ticked(k, e, t).recs == e.recs
    ensures !t.Index? ==> |Ticked(k, e, t).recs| == |e.recs| + 1
                          && Ticked(k, e, t).recs == e.recs + [Ticked(k, e, t).recs[|e.recs|]]
    ensures t.Add? || t.Repoint? || t.Drop? ==> Ticked(k, e, t).recs[|e.recs|].coll in e.db.byID
    ensures t.Catalog? || t.Lose? ==> Ticked(k, e, t).recs[|e.recs|].op == OP_DEFINE
  {
  }

  /** A record that makes a legible log illegible is refused. */
  lemma TickRefused(k: Codec, e: Effect, t: Tick)
    requires Rebuilt(k, e) && Legible(k, e.recs) && TickOk(k, e.db, t) && !Legible(k, Ticked(k, e, t).recs)
    ensures WalkLog(k, Ticked(k, e, t).recs) == Refused
  {
    hide Rebuilt, Legible, NamedIn, UnreadIn, Ticked, TickOk, ReadsAs, Apply, WalkLog;
    TickAppends(k, e, t);
    var r := Ticked(k, e, t).recs[|e.recs|];
    LegibleSnoc(k, e.recs, r);
    LiveRead(k, e, r.coll);
    RebuiltWalks(k, e);
    BrokenRuleRefused(k, WalkLog(k, e.recs).w, e.recs, r);
    WalkSnoc(k, e.recs, r);
  }

  lemma RebuiltWalks(k: Codec, e: Effect)
    requires Rebuilt(k, e)
    ensures WalkLog(k, e.recs).Applied?
  {
  }

  /** Once refused or illegible, a log stays so. */
  lemma TickStays(k: Codec, e: Effect, t: Tick)
    requires TickOk(k, e.db, t) && !Legible(k, e.recs) && WalkLog(k, e.recs) == Refused
    ensures !Legible(k, Ticked(k, e, t).recs) && WalkLog(k, Ticked(k, e, t).recs) == Refused
  {
    hide Legible, Ticked, TickOk, WalkLog, NamedIn, UnreadIn;
    TickAppends(k, e, t);
    if !t.Index? {
      var r := Ticked(k, e, t).recs[|e.recs|];
      LegibleSnoc(k, e.recs, r);
      WalkSnoc(k, e.recs, r);
    }
  }

  /** Steps that lose no define leave a log that rebuilds them if it is legible and is refused if not. */
  lemma {:induction false} TicksRebuilt(k: Codec, e: Effect, ts: seq<Tick>)
    requires Rebuilt(k, e) && TicksOk(k, e, ts) && NoneLost(ts)
    ensures Legible(k, TickedAll(k, e, ts).recs) ==> Rebuilt(k, TickedAll(k, e, ts))
    ensures !Legible(k, TickedAll(k, e, ts).recs) ==> WalkLog(k, TickedAll(k, e, ts).recs) == Refused
  {
    hide Rebuilt, TickOk, Ticked, Legible, WalkLog;
    if ts == [] {
      RebuiltWalks(k, e);
      AppliedIsLegible(k, e.recs);
    } else {
      var n := |ts| - 1;
      var e1 := TickedAll(k, e, ts[..n]);
      TicksRebuilt(k, e, ts[..n]);
      if !Legible(k, e1.recs) {
        TickStays(k, e1, ts[n]);
      } else if Legible(k, Ticked(k, e1, ts[n]).recs) {
        TickRebuilt(k, e1, ts[n]);
      } else {
        TickRefused(k, e1, ts[n]);
      }
    }
  }

  lemma RebuiltIsLiveOk(k: Codec, e: Effect)
    requires Rebuilt(k, e)
    ensures LiveOk(k, e.db)
  {
    var w := WalkLog(k, e.recs).w;
    forall id | id in e.db.byID
      ensures IdsOk(k, e.db.byID[id].slots)
    {
      assert MirrorsColl(k, e.db.byID[id], w.db.byID[id], id in w.tombstoned);
    }
  }

  // ----- the write that replay cannot rebuild -----

  /** Record i of the log defines collection id. */
  ghost predicate DefinesAt(k: Codec, recs: seq<Record>, i: nat, id: Word16) {
    && i < |recs| && recs[i].op == OP_DEFINE
    && k.decodeDefinition(recs[i].payload).Some? && k.decodeDefinition(recs[i].payload).value.id == id
  }

  /** The log defines a collection the live state has not registered, or defines one id twice. */
  ghost predicate Orphaned(k: Codec, e: Effect) {
    || (exists i: nat, id: Word16 :: DefinesAt(k, e.recs, i, id) && id !in e.db.byID)
    || DefinedTwice(k, e.recs)
  }

  ghost predicate DefinedTwice(k: Codec, recs: seq<Record>) {
    exists i: nat, j: nat, id: Word16 :: i < j && DefinesAt(k, recs, i, id) && DefinesAt(k, recs, j, id)
  }

  lemma ApplyKeepsIds(k: Codec, w: Walk, r: Record)
    requires Apply(k, w, r).Applied?
    ensures w.db.byID.Keys <= Apply(k, w, r).w.db.byID.Keys
    ensures r.op == OP_DEFINE ==>
              (k.decodeDefinition(r.payload).Some? &&
               k.decodeDefinition(r.payload).value.id in Apply(k, w, r).w.db.byID.Keys - w.db.byID.Keys)
  {
  }

  /** A record that defines only a new id keeps the definitions of a log unique. */
  lemma OneMoreDefinition(k: Codec, init: seq<Record>, r: Record, ids: set<Word16>, ids': set<Word16>)
    requires forall i: nat, id: Word16 | DefinesAt(k, init, i, id) :: id in ids
    requires !DefinedTwice(k, init) && ids <= ids'
    requires r.op == OP_DEFINE ==>
               (k.decodeDefinition(r.payload).Some? && k.decodeDefinition(r.payload).value.id in ids' - ids)
    ensures forall i: nat, id: Word16 | DefinesAt(k, init + [r], i, id) :: id in ids'
    ensures !DefinedTwice(k, init + [r])
  {
    var all, n := init + [r], |init|;
    forall i: nat, id: Word16 | DefinesAt(k, all, i, id)
      ensures if i < n then DefinesAt(k, init, i, id) else i == n && id in ids' - ids
    {
    }
  }

  /** A log that replays has registered every id it defines, each exactly once. */
  lemma {:induction false} WalkRegisters(k: Codec, recs: seq<Record>)
    requires WalkLog(k, recs).Applied?
    ensures forall i: nat, id: Word16 | DefinesAt(k, recs, i, id) :: id in WalkLog(k, recs).w.db.byID
    ensures !DefinedTwice(k, recs)
  {
    if recs != [] {
      var n := |recs| - 1;
      var init, r := recs[..n], recs[n];
      WalkRegisters(k, init);
      ApplyKeepsIds(k, WalkLog(k, init).w, r);
      hide Apply, DefinesAt, DefinedTwice;
      OneMoreDefinition(k, init, r, WalkLog(k, init).w.db.byID.Keys, WalkLog(k, recs).w.db.byID.Keys);
      assert recs == init + [r];
    }
  }

  lemma RebuiltIsNotOrphaned(k: Codec, e: Effect)
    requires RebuildsExactly(k, e)
    ensures !Orphaned(k, e)
  {
    var w := WalkLog(k, e.recs).w;
    WalkRegisters(k, e.recs);
    assert Visible(Finish(w)).byID.Keys == w.db.byID.Keys;
    assert Visible(e.db).byID.Keys == e.db.byID.Keys;
  }

  lemma OrphanedGrows(k: Codec, e: Effect, db: Db, recs: seq<Record>)
    requires Orphaned(k, e)
    requires forall id | id in db.byID && id !in e.db.byID :: exists j: nat :: DefinesAt(k, recs, j, id)
    ensures Orphaned(k, Effect(db, e.recs + recs))
  {
    var all := e.recs + recs;
    assert forall i: nat, id: Word16 | DefinesAt(k, e.recs, i, id) :: DefinesAt(k, all, i, id);
    assert forall i: nat, id: Word16 | DefinesAt(k, recs, i, id) :: DefinesAt(k, all, |e.recs| + i, id);
    if DefinedTwice(k, e.recs) {
      assert DefinedTwice(k, all);
    } else {
      var i: nat, id: Word16 :| DefinesAt(k, e.recs, i, id) && id !in e.db.byID;
      if id in db.byID {
        var j: nat :| DefinesAt(k, recs, j, id);
        assert DefinesAt(k, all, i, id) && DefinesAt(k, all, |e.recs| + j, id);
      } else {
        assert DefinesAt(k, all, i, id);
      }
    }
  }

  lemma LoseOrphans(k: Codec, e: Effect, t: Tick)
    requires CatalogOk(e.db) && TickOk(k, e.db, t) && t.Lose?
    ensures Orphaned(k, Ticked(k, e, t))
  {
    var e' := Ticked(k, e, t);
    assert DefinesAt(k, e'.recs, |e.recs|, t.id) && t.id !in e'.db.byID;
  }

  /** Nothing but a define record of its own registers a collection. */
  lemma TickKeepsOrphans(k: Codec, e: Effect, t: Tick)
    requires Orphaned(k, e) && TickOk(k, e.db, t)
    ensures Orphaned(k, Ticked(k, e, t))
  {
    var e' := Ticked(k, e, t);
    var recs := if t.Index? then [] else [e'.recs[|e.recs|]];
    assert e'.recs == e.recs + recs;
    if t.Catalog? {
      assert DefinesAt(k, recs, 0, t.d.id);
    }
    assert forall id | id in e'.db.byID && id !in e.db.byID :: t.Catalog? && id == t.d.id;
    hide Orphaned, Ticked, TickOk, DefinesAt;
    OrphanedGrows(k, e, e'.db, recs);
  }

  lemma {:induction false} TicksOrphan(k: Codec, e: Effect, ts: seq<Tick>)
    requires Rebuilt(k, e) && TicksOk(k, e, ts) && !NoneLost(ts)
    ensures Orphaned(k, TickedAll(k, e, ts))
  {
    hide Rebuilt, Orphaned, TickOk, Ticked, NoneLost, CatalogOk;
    NothingLost();
    var n := |ts| - 1;
    var init, t := ts[..n], ts[n];
    NoneLostSnoc(init, t);
    assert ts == init + [t];
    var e1 := TickedAll(k, e, init);
    RebuiltCatalog(k, e);
    TicksCatalogOk(k, e, init);
    if NoneLost(init) {
      LoseOrphans(k, e1, t);
    } else {
      TicksOrphan(k, e, init);
      TickKeepsOrphans(k, e1, t);
    }
  }

  lemma NothingLost()
    ensures NoneLost([])
  {
  }

  lemma RebuiltCatalog(k: Codec, e: Effect)
    requires Rebuilt(k, e)
    ensures CatalogOk(e.db)
  {
  }

  // ----- the theorem -----

  /**
   For every run of define, insert, replace and delete operations, with writes failing wherever
   they may and documents payloadID cannot read among those written, replaying the log gives back
   exactly the live state if and only if no define in the run wrote its record and then failed its
   sync, and the log is legible.
   */
  lemma ReplayRebuildsEveryRun(k: Codec, start: Effect, ops: seq<Op>)
    requires k.Lawful() && Rebuilt(k, start) && LegalRun(k, start, ops)
    ensures RebuildsExactly(k, After(k, start, ops)) <==>
            EveryDefineKept(k, start, ops) && Legible(k, After(k, start, ops).recs)
  {
    hide EveryDefineKept, LiveOk, After, LegalRun, TicksOk, TickedAll, Legible;
    var e := After(k, start, ops);
    RebuiltIsLiveOk(k, start);
    var ts := RunTicks(k, start, ops);
    if NoneLost(ts) {
      TicksRebuilt(k, start, ts);
      if Legible(k, e.recs) {
        FinishMirrors(k, e.db, WalkLog(k, e.recs).w);
      }
    } else {
      TicksOrphan(k, start, ts);
      if RebuildsExactly(k, e) {
        RebuiltIsNotOrphaned(k, e);
      }
    }
  }

  /** Every state of a run that loses no define is again a state its log rebuilds, or its log is refused. */
  lemma RunRebuilt(k: Codec, start: Effect, ops: seq<Op>)
    requires k.Lawful() && Rebuilt(k, start) && LegalRun(k, start, ops) && EveryDefineKept(k, start, ops)
    ensures var e := After(k, start, ops);
            if Legible(k, e.recs) then Rebuilt(k, e) else WalkLog(k, e.recs) == Refused
  {
    hide Legible;
    RebuiltIsLiveOk(k, start);
    var ts := RunTicks(k, start, ops);
    TicksRebuilt(k, start, ts);
  }

  lemma StepRebuilt(k: Codec, e: Effect, op: Op)
    requires k.Lawful() && Rebuilt(k, e) && Legal(k, e.db, op) && !LosesDefine(k, e.db, op)
    ensures var s := Step(k, e.db, op);
            if Legible(k, e.recs + s.recs) then Rebuilt(k, Effect(s.db, e.recs + s.recs))
            else WalkLog(k, e.recs + s.recs) == Refused
  {
    hide Step, Rebuilt, Legal, Legible;
    RebuiltIsLiveOk(k, e);
    var ts := StepTicks(k, e, op);
    TicksRebuilt(k, e, ts);
  }

  /** The define after a lost one reuses its id, and from then on replay refuses the file. */
  lemma RedefineIsFatal(k: Codec, e: Effect, lost: Op, again: Op)
    requires k.Lawful() && Rebuilt(k, e) && Legal(k, e.db, lost) && LosesDefine(k, e.db, lost)
    requires again.DefineOp? && Step(k, Step(k, e.db, lost).db, again).recs != []
    ensures var s := Step(k, e.db, lost);
            !WalkLog(k, e.recs + s.recs + Step(k, s.db, again).recs).Applied?
  {
    var s := Step(k, e.db, lost);
    var t := Step(k, s.db, again);
    var all := e.recs + s.recs + t.recs;
    var n := |e.recs|;
    assert all[n] == s.recs[0] && all[n + 1] == t.recs[0];
    assert DefinesAt(k, all, n, e.db.nextID) && DefinesAt(k, all, n + 1, e.db.nextID);
    hide Rebuilt, Legal, LosesDefine;
    if WalkLog(k, all).Applied? {
      WalkRegisters(k, all);
    }
  }
}
