/**
 What every log that replay gets through looks like (store.go:398-480, catalog.go:78-97), whoever
 wrote it: known ops only, each collection defined before it is used and only once, and for every
 _id no more tombstones than inserts, at any point.
 */
module Lineage {
  import opened Wrappers
  import opened Framing
  import opened Slots
  import opened Database
  import opened Replay

  /** How many documents of an index carry the _id. */
  ghost function Holders(k: Codec, s: seq<Slot>, id: string): nat {
    if s == [] then 0
    else Holders(k, s[..|s| - 1], id) + if Holds(k, s, id, |s| - 1) then 1 else 0
  }

  /** How many records of a kind carry it. */
  ghost function Told(k: Codec, recs: seq<Record>, op: Byte, coll: Word16, id: string): nat {
    if recs == [] then 0
    else
      var r := recs[|recs| - 1];
      Told(k, recs[..|recs| - 1], op, coll, id)
      + if r.op == op && r.coll == coll && k.probe(r.payload) == Some(id) then 1 else 0
  }

  lemma ToldSnoc(k: Codec, recs: seq<Record>, r: Record, op: Byte, coll: Word16, id: string)
    ensures Told(k, recs + [r], op, coll, id) ==
            Told(k, recs, op, coll, id)
            + if r.op == op && r.coll == coll && k.probe(r.payload) == Some(id) then 1 else 0
  {
    assert (recs + [r])[..|recs|] == recs;
  }

  lemma HoldersSnoc(k: Codec, s: seq<Slot>, x: Slot, id: string)
    ensures Holders(k, s + [x], id) ==
            Holders(k, s, id) + if x.doc != [] && k.probe(x.doc) == Some(id) then 1 else 0
  {
    assert (s + [x])[..|s|] == s;
  }

  lemma {:induction false} HoldersSet(k: Codec, s: seq<Slot>, i: nat, x: Slot, id: string)
    requires i < |s|
    ensures Holders(k, s[i := x], id) + (if Holds(k, s, id, i) then 1 else 0) ==
            Holders(k, s, id) + if x.doc != [] && k.probe(x.doc) == Some(id) then 1 else 0
  {
    var n := |s| - 1;
    if i == n {
      assert s[i := x][..n] == s[..n];
    } else {
      HoldersSet(k, s[..n], i, x, id);
      assert s[i := x][..n] == s[..n][i := x];
    }
  }

  lemma {:induction false} HolderCounts(k: Codec, s: seq<Slot>, id: string, i: nat)
    requires Holds(k, s, id, i)
    ensures Holders(k, s, id) > 0
  {
    if i < |s| - 1 {
      HolderCounts(k, s[..|s| - 1], id, i);
    }
  }

  /** A define record of the log, and what it defines. */
  ghost predicate Defines(k: Codec, r: Record, d: Definition) {
    r.op == OP_DEFINE && k.decodeDefinition(r.payload) == Some(d)
  }

  ghost predicate Defined(k: Codec, recs: seq<Record>, id: Word16) {
    exists r, d: Definition :: r in recs && Defines(k, r, d) && d.id == id
  }

  ghost predicate Named(k: Codec, recs: seq<Record>, name: string) {
    exists r, d: Definition :: r in recs && Defines(k, r, d) && d.name == name
  }

  /** What a record may be behind a log. */
  ghost predicate MayFollow(k: Codec, recs: seq<Record>, r: Record) {
    if r.op == OP_DEFINE then
      var d := k.decodeDefinition(r.payload);
      && d.Some? && d.value.id != 0 && ValidName(d.value.name)
      && !Defined(k, recs, d.value.id) && !Named(k, recs, d.value.name)
    else
      && r.op in [OP_INSERT, OP_REPLACE, OP_DELETE] && Defined(k, recs, r.coll)
      && (r.op != OP_INSERT ==>
            && k.probe(r.payload).Some? && k.probe(r.payload).value != ""
            && var id := k.probe(r.payload).value;
               Told(k, recs, OP_DELETE, r.coll, id) < Told(k, recs, OP_INSERT, r.coll, id))
  }

  /** Every record of the log may follow those before it. */
  ghost predicate Orderly(k: Codec, recs: seq<Record>) {
    forall i | 0 <= i < |recs| :: MayFollow(k, recs[..i], recs[i])
  }

  /** What the walk's state knows of the log. */
  ghost predicate Tracks(k: Codec, db: Db, recs: seq<Record>) {
    && (forall id: Word16 :: id in db.byID <==> Defined(k, recs, id))
    && (forall name: string :: name in db.names <==> Named(k, recs, name))
    && forall coll: Word16, id: string | coll in db.byID ::
         Counted(k, db.byID[coll].slots, recs, coll, id)
  }

  /** As many documents carry the _id as inserts did and tombstones do not. */
  ghost predicate Counted(k: Codec, s: seq<Slot>, recs: seq<Record>, coll: Word16, id: string) {
    Holders(k, s, id) + Told(k, recs, OP_DELETE, coll, id) == Told(k, recs, OP_INSERT, coll, id)
  }

  /** One more record, as far as definitions go. */
  lemma DefinedSnoc(k: Codec, recs: seq<Record>, r: Record)
    ensures forall id: Word16 ::
              Defined(k, recs + [r], id) <==>
              Defined(k, recs, id) || (r.op == OP_DEFINE && k.decodeDefinition(r.payload).Some?
                                       && k.decodeDefinition(r.payload).value.id == id)
    ensures forall name: string ::
              Named(k, recs + [r], name) <==>
              Named(k, recs, name) || (r.op == OP_DEFINE && k.decodeDefinition(r.payload).Some?
                                       && k.decodeDefinition(r.payload).value.name == name)
  {
    assert forall x :: x in recs + [r] <==> x in recs || x == r;
    forall id: Word16
      ensures Defined(k, recs + [r], id) <==>
              Defined(k, recs, id) || (r.op == OP_DEFINE && k.decodeDefinition(r.payload).Some?
                                       && k.decodeDefinition(r.payload).value.id == id)
    {
      if r.op == OP_DEFINE && k.decodeDefinition(r.payload).Some? {
        assert Defines(k, r, k.decodeDefinition(r.payload).value);
      }
    }
    forall name: string
      ensures Named(k, recs + [r], name) <==>
              Named(k, recs, name) || (r.op == OP_DEFINE && k.decodeDefinition(r.payload).Some?
                                       && k.decodeDefinition(r.payload).value.name == name)
    {
      if r.op == OP_DEFINE && k.decodeDefinition(r.payload).Some? {
        assert Defines(k, r, k.decodeDefinition(r.payload).value);
      }
    }
  }

  /** A record of nothing that is counted here changes no count. */
  lemma CountKept(k: Codec, s: seq<Slot>, recs: seq<Record>, r: Record, coll: Word16, id: string)
    requires Counted(k, s, recs, coll, id)
    requires r.coll != coll || (r.op != OP_INSERT && r.op != OP_DELETE)
    ensures Counted(k, s, recs + [r], coll, id)
  {
    ToldSnoc(k, recs, r, OP_INSERT, coll, id);
    ToldSnoc(k, recs, r, OP_DELETE, coll, id);
  }

  /** A collection that has just been defined has no records yet. */
  lemma {:induction false} NothingTold(k: Codec, recs: seq<Record>, op: Byte, coll: Word16, id: string)
    requires Orderly(k, recs) && !Defined(k, recs, coll) && op != OP_DEFINE
    ensures Told(k, recs, op, coll, id) == 0
  {
    if recs != [] {
      var n := |recs| - 1;
      assert recs == recs[..n] + [recs[n]];
      OrderlyPrefix(k, recs, n);
      DefinedSnoc(k, recs[..n], recs[n]);
      NothingTold(k, recs[..n], op, coll, id);
      assert MayFollow(k, recs[..n], recs[n]);
      UsesDefined(k, recs[..n], recs[n]);
    }
  }

  lemma UsesDefined(k: Codec, recs: seq<Record>, r: Record)
    requires MayFollow(k, recs, r)
    ensures r.op != OP_DEFINE ==> Defined(k, recs, r.coll)
  {
  }

  lemma OrderlyPrefix(k: Codec, recs: seq<Record>, n: nat)
    requires Orderly(k, recs) && n <= |recs|
    ensures Orderly(k, recs[..n])
  {
    forall i | 0 <= i < n
      ensures MayFollow(k, recs[..n][..i], recs[..n][i])
    {
      assert recs[..n][..i] == recs[..i];
    }
  }

  lemma OrderlySnoc(k: Codec, recs: seq<Record>, r: Record)
    requires Orderly(k, recs) && MayFollow(k, recs, r)
    ensures Orderly(k, recs + [r])
  {
    var all := recs + [r];
    forall i | 0 <= i < |all|
      ensures MayFollow(k, all[..i], all[i])
    {
      assert all[..i] == recs[..i];
    }
  }

  // ----- one record -----

  lemma FollowsWhenApplied(k: Codec, w: Walk, recs: seq<Record>, r: Record)
    requires Tracks(k, w.db, recs) && Apply(k, w, r).Applied?
    ensures MayFollow(k, recs, r)
  {
    hide Defined, Named, Resolve;
    if r.op == OP_REPLACE || r.op == OP_DELETE {
      var id, c := k.probe(r.payload).value, w.db.byID[r.coll];
      ResolveHolds(k, c.slots, id, c.indexed);
      HolderCounts(k, c.slots, id, Resolve(k, c.slots, id, c.indexed).pos);
      assert Counted(k, c.slots, recs, r.coll, id);
    }
  }

  lemma TracksNext(k: Codec, w: Walk, recs: seq<Record>, r: Record)
    requires k.Lawful() && Orderly(k, recs) && Tracks(k, w.db, recs) && Apply(k, w, r).Applied?
    ensures Tracks(k, Apply(k, w, r).w.db, recs + [r])
  {
    hide Orderly, Tracks, ApplyDefine, ApplyInsert, ApplyNamed, Counted;
    if r.op == OP_DEFINE {
      TracksDefine(k, w, recs, r);
    } else if r.op == OP_INSERT {
      TracksCollection(k, w.db, recs, r);
      TracksInsert(k, w, recs, r);
    } else {
      TracksCollection(k, w.db, recs, r);
      TracksNamed(k, w, recs, r);
    }
  }

  lemma TracksDefine(k: Codec, w: Walk, recs: seq<Record>, r: Record)
    requires Orderly(k, recs) && Tracks(k, w.db, recs) && r.op == OP_DEFINE && ApplyDefine(k, w, r.payload).Applied?
    ensures Tracks(k, ApplyDefine(k, w, r.payload).w.db, recs + [r])
  {
    hide Defined, Named, Orderly, Counted;
    DefinedSnoc(k, recs, r);
    var db := ApplyDefine(k, w, r.payload).w.db;
    var made := k.decodeDefinition(r.payload).value.id;
    forall coll: Word16, id: string | coll in db.byID
      ensures Counted(k, db.byID[coll].slots, recs + [r], coll, id)
    {
      if coll == made {
        NewCounted(k, recs, coll, id);
      } else {
        assert Counted(k, w.db.byID[coll].slots, recs, coll, id);
      }
      CountKept(k, db.byID[coll].slots, recs, r, coll, id);
    }
  }

  lemma NewCounted(k: Codec, recs: seq<Record>, coll: Word16, id: string)
    requires Orderly(k, recs) && !Defined(k, recs, coll)
    ensures Counted(k, [], recs, coll, id)
  {
    NothingTold(k, recs, OP_INSERT, coll, id);
    NothingTold(k, recs, OP_DELETE, coll, id);
  }

  /** Only the slots of the record's collection change. */
  lemma TracksCollection(k: Codec, db: Db, recs: seq<Record>, r: Record)
    requires Tracks(k, db, recs) && r.op != OP_DEFINE && r.coll in db.byID
    ensures forall id: string :: Counted(k, db.byID[r.coll].slots, recs, r.coll, id)
    ensures forall next: Db |
              && next.names == db.names && next.byID.Keys == db.byID.Keys
              && (forall c | c in db.byID && c != r.coll :: next.byID[c] == db.byID[c])
              && (forall id: string :: Counted(k, next.byID[r.coll].slots, recs + [r], r.coll, id)) ::
              Tracks(k, next, recs + [r])
  {
    hide Counted, Defined, Named;
    DefinedSnoc(k, recs, r);
    forall coll: Word16, id: string | coll in db.byID && coll != r.coll
      ensures Counted(k, db.byID[coll].slots, recs + [r], coll, id)
    {
      CountKept(k, db.byID[coll].slots, recs, r, coll, id);
    }
  }

  lemma TracksInsert(k: Codec, w: Walk, recs: seq<Record>, r: Record)
    requires k.Lawful() && r.op == OP_INSERT && r.coll in w.db.byID && ApplyInsert(k, w, r.coll, r.payload).Applied?
    requires forall id: string :: Counted(k, w.db.byID[r.coll].slots, recs, r.coll, id)
    requires forall next: Db |
               && next.names == w.db.names && next.byID.Keys == w.db.byID.Keys
               && (forall c | c in w.db.byID && c != r.coll :: next.byID[c] == w.db.byID[c])
               && (forall id: string :: Counted(k, next.byID[r.coll].slots, recs + [r], r.coll, id)) ::
               Tracks(k, next, recs + [r])
    ensures Tracks(k, ApplyInsert(k, w, r.coll, r.payload).w.db, recs + [r])
  {
    hide Tracks;
    var s, db := w.db.byID[r.coll].slots, ApplyInsert(k, w, r.coll, r.payload).w.db;
    forall id: string
      ensures Counted(k, db.byID[r.coll].slots, recs + [r], r.coll, id)
    {
      assert Counted(k, s, recs, r.coll, id);
      HoldersSnoc(k, s, NewSlot(w.db, r.payload), id);
      ToldSnoc(k, recs, r, OP_INSERT, r.coll, id);
      ToldSnoc(k, recs, r, OP_DELETE, r.coll, id);
    }
  }

  lemma TracksNamed(k: Codec, w: Walk, recs: seq<Record>, r: Record)
    requires k.Lawful() && (r.op == OP_REPLACE || r.op == OP_DELETE) && r.coll in w.db.byID
    requires ApplyNamed(k, w, r.op == OP_DELETE, r.coll, r.payload).Applied?
    requires forall id: string :: Counted(k, w.db.byID[r.coll].slots, recs, r.coll, id)
    requires forall next: Db |
               && next.names == w.db.names && next.byID.Keys == w.db.byID.Keys
               && (forall c | c in w.db.byID && c != r.coll :: next.byID[c] == w.db.byID[c])
               && (forall id: string :: Counted(k, next.byID[r.coll].slots, recs + [r], r.coll, id)) ::
               Tracks(k, next, recs + [r])
    ensures Tracks(k, ApplyNamed(k, w, r.op == OP_DELETE, r.coll, r.payload).w.db, recs + [r])
  {
    hide Tracks, Counted, Resolve;
    var c, named := w.db.byID[r.coll], k.probe(r.payload).value;
    var pos := Resolve(k, c.slots, named, c.indexed).pos;
    var db := ApplyNamed(k, w, r.op == OP_DELETE, r.coll, r.payload).w.db;
    ResolveHolds(k, c.slots, named, c.indexed);
    forall id: string
      ensures Counted(k, db.byID[r.coll].slots, recs + [r], r.coll, id)
    {
      var x := if r.op == OP_DELETE then c.slots[pos].Mark() else NewSlot(w.db, r.payload);
      CountNamed(k, c.slots, pos, x, recs, r, id);
    }
  }

  lemma CountNamed(k: Codec, s: seq<Slot>, pos: nat, x: Slot, recs: seq<Record>, r: Record, id: string)
    requires k.Lawful() && Counted(k, s, recs, r.coll, id) && k.probe(r.payload).Some?
    requires Holds(k, s, k.probe(r.payload).value, pos)
    requires (r.op == OP_DELETE && x == s[pos].Mark()) || (r.op == OP_REPLACE && x.doc == r.payload)
    ensures Counted(k, s[pos := x], recs + [r], r.coll, id)
  {
    HoldersSet(k, s, pos, x, id);
    ToldSnoc(k, recs, r, OP_INSERT, r.coll, id);
    ToldSnoc(k, recs, r, OP_DELETE, r.coll, id);
  }

  // ----- whole logs -----

  lemma NothingTracked(k: Codec)
    ensures Tracks(k, Empty(), []) && Orderly(k, [])
  {
  }

  lemma {:induction false} WalkTracks(k: Codec, recs: seq<Record>)
    requires k.Lawful() && WalkLog(k, recs).Applied?
    ensures Orderly(k, recs) && Tracks(k, WalkLog(k, recs).w.db, recs)
  {
    hide Orderly, Tracks, Apply, MayFollow;
    if recs == [] {
      NothingTracked(k);
    } else {
      var n := |recs| - 1;
      var init, r := recs[..n], recs[n];
      WalkTracks(k, init);
      FollowsWhenApplied(k, WalkLog(k, init).w, init, r);
      TracksNext(k, WalkLog(k, init).w, init, r);
      OrderlySnoc(k, init, r);
      assert recs == init + [r];
    }
  }

  /**
   Whatever wrote it: a log that replay gets through is orderly, and each collection then holds, of
   every _id, as many documents as inserts brought in and tombstones have not taken out.
   */
  lemma AppliedIsOrderly(k: Codec, recs: seq<Record>)
    requires k.Lawful() && WalkLog(k, recs).Applied?
    ensures Orderly(k, recs)
    ensures var db := WalkLog(k, recs).w.db;
            && (forall id: Word16 :: id in db.byID <==> Defined(k, recs, id))
            && forall coll: Word16, id: string | coll in db.byID ::
                 Holders(k, db.byID[coll].slots, id) ==
                 Told(k, recs, OP_INSERT, coll, id) - Told(k, recs, OP_DELETE, coll, id)
  {
    hide WalkLog, Orderly, Holders, Told, Defined, Named;
    WalkTracks(k, recs);
    var db := WalkLog(k, recs).w.db;
    forall coll: Word16, id: string | coll in db.byID
      ensures Holders(k, db.byID[coll].slots, id) ==
              Told(k, recs, OP_INSERT, coll, id) - Told(k, recs, OP_DELETE, coll, id)
    {
      assert Counted(k, db.byID[coll].slots, recs, coll, id);
    }
  }
}
