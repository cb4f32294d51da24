/**
 The simulation between the live state and the walk. The live path removes a slot the moment its
 document is deleted; the walk leaves a mark in its place, so its positions differ, its _id table
 holds entries the live one does not, and only compaction makes the two indexes equal. The
 relation below is kept by every record, and it says what compaction will produce.
 */
module Mirror {
  import opened Wrappers
  import opened Framing
  import opened Slots
  import opened Database
  import opened Replay
  import opened Ticks

  ghost predicate MirrorsColl(k: Codec, l: Coll, w: Coll, tombstoned: bool) {
    && l.name == w.name
    && l.dirty == w.dirty
    && l.slots == Unmarked(w.slots)
    && IdsOk(k, l.slots)
    && (NoMarks(w.slots) || (tombstoned && w.indexed))
  }

  ghost predicate Mirrors(k: Codec, l: Db, w: Walk) {
    && l.size == w.db.size && l.total == w.db.total && l.dead == w.db.dead
    && l.nextID == w.db.nextID && l.names == w.db.names
    && l.byID.Keys == w.db.byID.Keys
    && forall id | id in l.byID :: MirrorsColl(k, l.byID[id], w.db.byID[id], id in w.tombstoned)
  }

  /** Compaction turns the walk's state into the live one. */
  lemma FinishMirrors(k: Codec, l: Db, w: Walk)
    requires Mirrors(k, l, w)
    ensures Visible(Finish(w)) == Visible(l)
  {
    forall id | id in l.byID
      ensures Finish(w).byID[id].(indexed := false) == l.byID[id].(indexed := false)
    {
      var c := w.db.byID[id];
      assert MirrorsColl(k, l.byID[id], c, id in w.tombstoned);
      if id !in w.tombstoned {
        NothingToCompact(c.slots, |c.slots|);
      }
    }
    assert Visible(Finish(w)).byID == Visible(l).byID;
  }

  // ----- _ids -----

  /**
   The walk may build the _id table as long as every live document can be read: it never holds a
   mark it could not have indexed first.
   */
  lemma TableCanBeBuilt(k: Codec, l: Coll, w: Coll, tombstoned: bool)
    requires MirrorsColl(k, l, w, tombstoned) && AllRead(k, l.slots)
    ensures CanIndex(k, w)
  {
    if !w.indexed {
      NothingToCompact(w.slots, |w.slots|);
    }
  }

  /**
   Whatever marks and reused _ids lie around it, a live document's _id resolves to the one
   unmarked slot that compaction will move to the document's live position.
   */
  lemma LiveIdResolves(k: Codec, s: seq<Slot>, p: nat) returns (q: nat)
    requires IdsOk(k, Unmarked(s)) && p < |Unmarked(s)| && k.probe(Unmarked(s)[p].doc).Some?
    ensures q < |s| && s[q].doc != [] && Rank(s, q) == p && s[q] == Unmarked(s)[p]
    ensures forall indexed: bool :: Resolve(k, s, k.exact(Unmarked(s)[p].doc), indexed) == Found(q)
  {
    q := RankOnto(s, p, |s|);
    var id := k.exact(Unmarked(s)[p].doc);
    assert Plain(k, Unmarked(s)[p].doc);
    assert Holds(k, s, id, q);
    forall j: nat | Holds(k, s, id, j)
      ensures j == q
    {
      RankHolds(s, j, |s|);
      assert Plain(k, Unmarked(s)[Rank(s, j)].doc);
      assert Rank(s, j) == p;
      if j < q {
        RankMonotone(s, j, q);
      } else if q < j {
        RankMonotone(s, q, j);
      }
    }
    ResolveUnique(k, s, id, q);
  }

  /** Conversely an _id no live document carries resolves to nothing, stale table entries or not. */
  lemma DeadIdIsMissing(k: Codec, s: seq<Slot>, id: string)
    requires !HasId(k, Unmarked(s), id)
    ensures forall indexed: bool :: Resolve(k, s, id, indexed) == Missing
  {
    forall j: nat | Holds(k, s, id, j)
      ensures false
    {
      RankHolds(s, j, |s|);
      assert Holds(k, Unmarked(s), id, Rank(s, j));
    }
  }

  // ----- one record at a time -----

  /** Replacing one collection on both sides keeps the relation when the new pair is related. */
  lemma MirrorsUpdate(k: Codec, l: Db, w: Walk, l': Db, w': Walk, coll: Word16)
    requires Mirrors(k, l, w) && coll in l'.byID && coll in w'.db.byID
    requires l'.byID == l.byID[coll := l'.byID[coll]] && w'.db.byID == w.db.byID[coll := w'.db.byID[coll]]
    requires w.tombstoned <= w'.tombstoned <= w.tombstoned + {coll}
    requires l'.size == w'.db.size && l'.total == w'.db.total && l'.dead == w'.db.dead
    requires l'.nextID == w'.db.nextID && l'.names == w'.db.names
    requires MirrorsColl(k, l'.byID[coll], w'.db.byID[coll], coll in w'.tombstoned)
    ensures Mirrors(k, l', w')
  {
    hide MirrorsColl;
    forall id | id in l'.byID
      ensures MirrorsColl(k, l'.byID[id], w'.db.byID[id], id in w'.tombstoned)
    {
      if id != coll {
        assert MirrorsColl(k, l.byID[id], w.db.byID[id], id in w.tombstoned);
      }
    }
  }

  lemma MirrorsAdd(k: Codec, l: Db, w: Walk, coll: Word16, payload: Bytes)
    requires Mirrors(k, l, w) && coll in l.byID
    requires payload != [] && Plain(k, payload) && k.exact(payload) != ""
    requires !InUse(k, l.byID[coll].slots, k.exact(payload))
    requires k.probe(payload).Some? || !w.db.byID[coll].indexed
    ensures ApplyInsert(k, w, coll, payload) == Applied(w.(db := AddDoc(w.db, coll, payload)))
    ensures Mirrors(k, AddDoc(l, coll, payload), w.(db := AddDoc(w.db, coll, payload)))
  {
    var lc, wc, x := l.byID[coll], w.db.byID[coll], NewSlot(l, payload);
    UnmarkedSnoc(wc.slots, x);
    IdsOkAppend(k, lc.slots, x);
    MirrorsUpdate(k, l, w, AddDoc(l, coll, payload), w.(db := AddDoc(w.db, coll, payload)), coll);
  }

  lemma RepointColl(k: Codec, l: Coll, w: Coll, tombstoned: bool, p: nat, x: Slot) returns (q: nat)
    requires MirrorsColl(k, l, w, tombstoned) && AllRead(k, l.slots) && p < |l.slots|
    requires x.doc != [] && Plain(k, x.doc) && k.probe(x.doc).Some? && k.exact(x.doc) == k.exact(l.slots[p].doc)
    ensures q < |w.slots| && w.slots[q] == l.slots[p]
    ensures k.probe(x.doc).value != "" && CanIndex(k, w)
    ensures Resolve(k, w.slots, k.probe(x.doc).value, w.indexed) == Found(q)
    ensures MirrorsColl(k, l.(slots := l.slots[p := x], dirty := true),
                        w.(slots := w.slots[q := x], dirty := true, indexed := true), tombstoned)
  {
    q := LiveIdResolves(k, w.slots, p);
    TableCanBeBuilt(k, l, w, tombstoned);
    RepointCommutes(w.slots, q, x, |w.slots|);
    IdsOkRepoint(k, l.slots, p, x);
  }

  lemma DropColl(k: Codec, l: Coll, w: Coll, tombstoned: bool, p: nat) returns (q: nat)
    requires MirrorsColl(k, l, w, tombstoned) && AllRead(k, l.slots) && p < |l.slots|
    ensures q < |w.slots| && w.slots[q] == l.slots[p]
    ensures k.exact(l.slots[p].doc) != "" && CanIndex(k, w)
    ensures Resolve(k, w.slots, k.exact(l.slots[p].doc), w.indexed) == Found(q)
    ensures MirrorsColl(k, l.(slots := RemoveAt(l.slots, p), dirty := true),
                        w.(slots := w.slots[q := w.slots[q].Mark()], dirty := true, indexed := true), true)
  {
    q := LiveIdResolves(k, w.slots, p);
    TableCanBeBuilt(k, l, w, tombstoned);
    MarkCommutes(w.slots, q, |w.slots|);
    IdsOkRemove(k, l.slots, p);
  }

  /** What a replace or delete record does once its _id has resolved. */
  lemma NamedRecordApplies(k: Codec, w: Walk, isDelete: bool, coll: Word16, payload: Bytes, q: nat)
    requires coll in w.db.byID && q < |w.db.byID[coll].slots|
    requires k.probe(payload).Some? && k.probe(payload).value != "" && CanIndex(k, w.db.byID[coll])
    requires Resolve(k, w.db.byID[coll].slots, k.probe(payload).value, w.db.byID[coll].indexed) == Found(q)
    ensures ApplyNamed(k, w, isDelete, coll, payload) ==
            if isDelete
            then Applied(Walk(MarkDoc(SetIndexed(w.db, coll), coll, q, payload), w.tombstoned + {coll}))
            else Applied(w.(db := RepointDoc(SetIndexed(w.db, coll), coll, q, payload)))
  {
    hide Resolve, CanIndex, MarkDoc, RepointDoc, SetIndexed;
  }

  lemma RepointIndexed(db: Db, coll: Word16, q: nat, payload: Bytes)
    requires coll in db.byID && q < |db.byID[coll].slots|
    ensures var c := db.byID[coll];
            RepointDoc(SetIndexed(db, coll), coll, q, payload) ==
            RepointDoc(db, coll, q, payload).(
              byID := db.byID[coll := Coll(c.name, c.slots[q := NewSlot(db, payload)], true, true)])
  {
  }

  lemma MarkIndexed(db: Db, coll: Word16, q: nat, tomb: Bytes)
    requires coll in db.byID && q < |db.byID[coll].slots|
    ensures var c := db.byID[coll];
            MarkDoc(SetIndexed(db, coll), coll, q, tomb) ==
            MarkDoc(db, coll, q, tomb).(
              byID := db.byID[coll := Coll(c.name, c.slots[q := c.slots[q].Mark()], true, true)])
  {
  }

  /** A replace record finds the document it supersedes and lands on its slot. */
  lemma MirrorsRepoint(k: Codec, l: Db, w: Walk, coll: Word16, p: nat, payload: Bytes) returns (w': Walk)
    requires Mirrors(k, l, w) && coll in l.byID && p < |l.byID[coll].slots|
    requires AllRead(k, l.byID[coll].slots) && payload != [] && Plain(k, payload) && k.probe(payload).Some?
    requires k.exact(payload) == k.exact(l.byID[coll].slots[p].doc)
    ensures ApplyNamed(k, w, false, coll, payload) == Applied(w')
    ensures Mirrors(k, RepointDoc(l, coll, p, payload), w')
  {
    hide ApplyNamed, Resolve, CanIndex, MirrorsColl, AllRead;
    var lc, wc := l.byID[coll], w.db.byID[coll];
    var q := RepointColl(k, lc, wc, coll in w.tombstoned, p, NewSlot(l, payload));
    NamedRecordApplies(k, w, false, coll, payload, q);
    w' := w.(db := RepointDoc(SetIndexed(w.db, coll), coll, q, payload));
    RepointIndexed(w.db, coll, q, payload);
    MirrorsUpdate(k, l, w, RepointDoc(l, coll, p, payload), w', coll);
  }

  /** A tombstone finds the document it names; its mark is the live path's removal, deferred. */
  lemma MirrorsDrop(k: Codec, l: Db, w: Walk, coll: Word16, p: nat, tomb: Bytes) returns (w': Walk)
    requires Mirrors(k, l, w) && coll in l.byID && p < |l.byID[coll].slots|
    requires AllRead(k, l.byID[coll].slots) && k.probe(tomb) == Some(k.exact(l.byID[coll].slots[p].doc))
    ensures ApplyNamed(k, w, true, coll, tomb) == Applied(w')
    ensures Mirrors(k, DropDoc(l, coll, p, tomb), w')
  {
    hide ApplyNamed, Resolve, CanIndex, MirrorsColl, RemoveAt, AllRead;
    var lc, wc := l.byID[coll], w.db.byID[coll];
    var q := DropColl(k, lc, wc, coll in w.tombstoned, p);
    NamedRecordApplies(k, w, true, coll, tomb, q);
    w' := Walk(MarkDoc(SetIndexed(w.db, coll), coll, q, tomb), w.tombstoned + {coll});
    MarkIndexed(w.db, coll, q, tomb);
    MirrorsUpdate(k, l, w, DropDoc(l, coll, p, tomb), w', coll);
  }

  lemma MirrorsDefine(k: Codec, l: Db, w: Walk, d: Definition, payload: Bytes)
    requires Mirrors(k, l, w) && k.decodeDefinition(payload) == Some(d)
    requires d.id != 0 && ValidName(d.name) && d.id !in l.byID && d.name !in l.names
    ensures ApplyDefine(k, w, payload) == Applied(w.(db := Define(w.db, d, payload)))
    ensures Mirrors(k, Define(l, d, payload), w.(db := Define(w.db, d, payload)))
  {
    MirrorsUpdate(k, l, w, Define(l, d, payload), w.(db := Define(w.db, d, payload)), d.id);
  }
}
