/**
 Replay at the level of records: what the walk in store.go does to the state for each record,
 the state it reaches on a whole log, and the compaction that follows a clean end of file.
 */
module Replay {
  import opened Framing
  import opened Slots
  import opened Database

  /** Which slot an _id resolves to. */
  datatype Lookup = Found(pos: nat) | Missing | Ambiguous

  /** The lowest slot from i on that holds the _id. */
  ghost function Lowest(k: Codec, s: seq<Slot>, id: string, i: nat): (r: nat)
    requires exists j: nat :: i <= j && Holds(k, s, id, j)
    ensures i <= r && Holds(k, s, id, r) && forall j: nat | i <= j < r :: !Holds(k, s, id, j)
    decreases |s| - i
  {
    if Holds(k, s, id, i) then i else Lowest(k, s, id, i + 1)
  }

  /** A table built for this very lookup yields the lowest of several slots that hold the _id. */
  ghost function Resolve(k: Codec, s: seq<Slot>, id: string, indexed: bool): Lookup {
    if !HasId(k, s, id) then Missing
    else
      var i := Lowest(k, s, id, 0);
      if !indexed || forall j: nat | Holds(k, s, id, j) :: j == i then Found(i) else Ambiguous
  }

  /** The state during the walk, with the collections in which a tombstone has marked a slot. */
  datatype Walk = Walk(db: Db, tombstoned: set<Word16>)

  /**
   The effect of one record. Unclear is a record whose _id names several unmarked slots of a
   collection whose table has grown since it was built: the source then takes whichever its table
   yields first. No log of a legal run has one.
   */
  datatype Applied = Applied(w: Walk) | Refused | Unclear

  ghost function Apply(k: Codec, w: Walk, r: Record): Applied {
    if r.op == OP_DEFINE then ApplyDefine(k, w, r.payload)
    else if r.op != OP_INSERT && r.op != OP_REPLACE && r.op != OP_DELETE then Refused
    else if r.coll !in w.db.byID then Refused
    else if r.op == OP_INSERT then ApplyInsert(k, w, r.coll, r.payload)
    else ApplyNamed(k, w, r.op == OP_DELETE, r.coll, r.payload)
  }

  ghost function ApplyDefine(k: Codec, w: Walk, payload: Bytes): Applied {
    match k.decodeDefinition(payload)
    case None => Refused
    case Some(d) =>
      if d.id == 0 || !ValidName(d.name) || d.id in w.db.byID || d.name in w.db.names then Refused
      else Applied(w.(db := Define(w.db, d, payload)))
  }

  ghost function ApplyInsert(k: Codec, w: Walk, coll: Word16, payload: Bytes): Applied
    requires coll in w.db.byID
  {
    if w.db.byID[coll].indexed && k.probe(payload).None? then Refused
    else Applied(w.(db := AddDoc(w.db, coll, payload)))
  }

  /** Replaces and deletes: both name the document they supersede by its _id. */
  ghost function ApplyNamed(k: Codec, w: Walk, isDelete: bool, coll: Word16, payload: Bytes): Applied
    requires coll in w.db.byID
  {
    match k.probe(payload)
    case None => Refused
    case Some(id) =>
      if id == "" || !CanIndex(k, w.db.byID[coll]) then Refused
      else
        match Resolve(k, w.db.byID[coll].slots, id, w.db.byID[coll].indexed)
        case Missing => Refused
        case Ambiguous => Unclear
        case Found(pos) =>
          var db := SetIndexed(w.db, coll);
          if isDelete then Applied(Walk(MarkDoc(db, coll, pos, payload), w.tombstoned + {coll}))
          else Applied(w.(db := RepointDoc(db, coll, pos, payload)))
  }

  /** The walk over a whole log. */
  ghost function WalkLog(k: Codec, recs: seq<Record>): Applied {
    if recs == [] then Applied(Walk(Empty(), {}))
    else Then(k, WalkLog(k, recs[..|recs| - 1]), recs[|recs| - 1])
  }

  /** One more record after a walk, unless the walk has already stopped. */
  ghost function Then(k: Codec, a: Applied, r: Record): Applied {
    if a.Applied? then Apply(k, a.w, r) else a
  }

  /** Phase two: the marks come out of every collection a tombstone touched. */
  ghost function Finish(w: Walk): Db {
    w.db.(byID := map id | id in w.db.byID ::
                  if id in w.tombstoned then w.db.byID[id].(slots := Unmarked(w.db.byID[id].slots)) else w.db.byID[id])
  }

  /** The state up to what replay promises: everything but which _id tables happen to exist. */
  ghost function Visible(db: Db): Db {
    db.(byID := map id | id in db.byID :: db.byID[id].(indexed := false))
  }

  lemma WalkSnoc(k: Codec, recs: seq<Record>, r: Record)
    ensures WalkLog(k, recs + [r]) == Then(k, WalkLog(k, recs), r)
  {
    assert (recs + [r])[..|recs|] == recs;
  }

  lemma ResolveHolds(k: Codec, s: seq<Slot>, id: string, indexed: bool)
    ensures var l := Resolve(k, s, id, indexed); l.Found? ==> Holds(k, s, id, l.pos)
  {
  }

  /** An _id held by exactly one unmarked slot resolves to it, and only such an _id is found. */
  lemma ResolveUnique(k: Codec, s: seq<Slot>, id: string, i: nat)
    requires Holds(k, s, id, i) && forall j: nat | Holds(k, s, id, j) :: j == i
    ensures forall indexed: bool :: Resolve(k, s, id, indexed) == Found(i)
  {
  }
}
