/**
 What a log asks of payloadID. A document it cannot read is accepted by Insert and Replace and does
 no harm by itself; what replay cannot get past is such a document in a collection whose _id table
 it has to build or extend. This module says, of the log alone, when that happens.
 */
module Legibility {
  import opened Wrappers
  import opened Framing
  import opened Database
  import opened Replay

  /** A record that names the document it is about, as replaces and tombstones do. */
  predicate Names(r: Record) {
    r.op == OP_REPLACE || r.op == OP_DELETE
  }

  /** An insert whose document payloadID cannot read. */
  ghost predicate UnreadInsert(k: Codec, r: Record) {
    r.op == OP_INSERT && k.probe(r.payload) == None
  }

  ghost predicate NamedIn(recs: seq<Record>, coll: Word16) {
    exists r <- recs :: Names(r) && r.coll == coll
  }

  ghost predicate UnreadIn(k: Codec, recs: seq<Record>, coll: Word16) {
    exists r <- recs :: UnreadInsert(k, r) && r.coll == coll
  }

  /** Every replace can be read, and no collection has both an insert that cannot and a replace or tombstone. */
  ghost predicate Legible(k: Codec, recs: seq<Record>) {
    && (forall r <- recs | r.op == OP_REPLACE :: k.probe(r.payload).Some?)
    && (forall coll: Word16 :: UnreadIn(k, recs, coll) ==> !NamedIn(recs, coll))
  }

  lemma OneMore(k: Codec, recs: seq<Record>, r: Record, coll: Word16)
    ensures NamedIn(recs + [r], coll) <==> NamedIn(recs, coll) || (Names(r) && r.coll == coll)
    ensures UnreadIn(k, recs + [r], coll) <==> UnreadIn(k, recs, coll) || (UnreadInsert(k, r) && r.coll == coll)
  {
    assert forall x :: x in recs + [r] <==> x in recs || x == r;
  }

  /** A log with one more record is legible when the log was and the record keeps to the rule. */
  lemma LegibleSnoc(k: Codec, recs: seq<Record>, r: Record)
    ensures Legible(k, recs + [r]) <==>
              && Legible(k, recs)
              && (r.op == OP_REPLACE ==> k.probe(r.payload).Some?)
              && (Names(r) ==> !UnreadIn(k, recs, r.coll))
              && (UnreadInsert(k, r) ==> !NamedIn(recs, r.coll))
  {
    hide NamedIn, UnreadIn;
    forall coll: Word16
      ensures NamedIn(recs + [r], coll) <==> NamedIn(recs, coll) || (Names(r) && r.coll == coll)
      ensures UnreadIn(k, recs + [r], coll) <==> UnreadIn(k, recs, coll) || (UnreadInsert(k, r) && r.coll == coll)
    {
      OneMore(k, recs, r, coll);
    }
    assert forall x :: x in recs + [r] <==> x in recs || x == r;
  }

  // ----- what the walk knows of the log behind it -----

  /**
   A collection has a table exactly when a record of the log named one of its documents; one that
   holds a document payloadID cannot read has no table; and only an insert brings one in.
   */
  ghost predicate ReadsAs(k: Codec, db: Db, recs: seq<Record>, coll: Word16) {
    if coll !in db.byID then !NamedIn(recs, coll) && !UnreadIn(k, recs, coll)
    else
      var c := db.byID[coll];
      && (c.indexed <==> NamedIn(recs, coll))
      && (UnreadIn(k, recs, coll) ==> !CanIndex(k, c))
      && (!UnreadIn(k, recs, coll) ==>
            forall i | 0 <= i < |c.slots| && c.slots[i].doc != [] :: k.probe(c.slots[i].doc).Some?)
  }

  lemma ApplyReads(k: Codec, w: Walk, recs: seq<Record>, r: Record, coll: Word16)
    requires Apply(k, w, r).Applied? && ReadsAs(k, w.db, recs, coll) && ReadsAs(k, w.db, recs, r.coll)
    ensures ReadsAs(k, Apply(k, w, r).w.db, recs + [r], coll)
  {
    hide ReadsAs, ApplyDefine, ApplyInsert, ApplyNamed;
    if r.op == OP_DEFINE {
      DefineReads(k, w, recs, r, coll);
    } else if r.op == OP_INSERT {
      InsertReads(k, w, recs, r, coll);
    } else {
      NamedReads(k, w, recs, r, coll);
    }
  }

  lemma DefineReads(k: Codec, w: Walk, recs: seq<Record>, r: Record, coll: Word16)
    requires r.op == OP_DEFINE && ApplyDefine(k, w, r.payload).Applied? && ReadsAs(k, w.db, recs, coll)
    ensures ReadsAs(k, ApplyDefine(k, w, r.payload).w.db, recs + [r], coll)
  {
    hide NamedIn, UnreadIn;
    OneMore(k, recs, r, coll);
  }

  lemma InsertReads(k: Codec, w: Walk, recs: seq<Record>, r: Record, coll: Word16)
    requires r.op == OP_INSERT && r.coll in w.db.byID && ApplyInsert(k, w, r.coll, r.payload).Applied?
    requires ReadsAs(k, w.db, recs, coll)
    ensures ReadsAs(k, ApplyInsert(k, w, r.coll, r.payload).w.db, recs + [r], coll)
  {
    hide NamedIn, UnreadIn;
    OneMore(k, recs, r, coll);
    if coll == r.coll {
      var s, t := w.db.byID[coll].slots, ApplyInsert(k, w, r.coll, r.payload).w.db.byID[coll].slots;
      assert forall i | 0 <= i < |s| :: t[i] == s[i];
      assert t[|s|].doc == r.payload;
    }
  }

  lemma NamedReads(k: Codec, w: Walk, recs: seq<Record>, r: Record, coll: Word16)
    requires Names(r) && r.coll in w.db.byID && ApplyNamed(k, w, r.op == OP_DELETE, r.coll, r.payload).Applied?
    requires ReadsAs(k, w.db, recs, coll) && ReadsAs(k, w.db, recs, r.coll)
    ensures ReadsAs(k, ApplyNamed(k, w, r.op == OP_DELETE, r.coll, r.payload).w.db, recs + [r], coll)
  {
    hide NamedIn, UnreadIn, Resolve;
    OneMore(k, recs, r, coll);
    if coll == r.coll {
      var s := w.db.byID[coll].slots;
      var t := ApplyNamed(k, w, r.op == OP_DELETE, r.coll, r.payload).w.db.byID[coll].slots;
      var q := Resolve(k, s, k.probe(r.payload).value, w.db.byID[coll].indexed).pos;
      ResolveHolds(k, s, k.probe(r.payload).value, w.db.byID[coll].indexed);
      assert |t| == |s| && forall i | 0 <= i < |s| && i != q :: t[i] == s[i];
    }
  }

  lemma {:induction false} WalkReads(k: Codec, recs: seq<Record>, coll: Word16)
    requires WalkLog(k, recs).Applied?
    ensures ReadsAs(k, WalkLog(k, recs).w.db, recs, coll)
  {
    hide ReadsAs, Apply;
    if recs == [] {
      NothingRead(k, coll);
    } else {
      var n := |recs| - 1;
      WalkReads(k, recs[..n], coll);
      WalkReads(k, recs[..n], recs[n].coll);
      ApplyReads(k, WalkLog(k, recs[..n]).w, recs[..n], recs[n], coll);
      assert recs == recs[..n] + [recs[n]];
    }
  }

  lemma NothingRead(k: Codec, coll: Word16)
    ensures ReadsAs(k, Empty(), [], coll)
  {
  }

  /** Whatever its documents: a log that replay gets through is legible. */
  lemma {:induction false} AppliedIsLegible(k: Codec, recs: seq<Record>)
    requires WalkLog(k, recs).Applied?
    ensures Legible(k, recs)
  {
    hide Legible, ReadsAs, Apply, NamedIn, UnreadIn;
    if recs == [] {
      NoRecordsLegible(k);
    } else {
      var n := |recs| - 1;
      var init, r := recs[..n], recs[n];
      AppliedIsLegible(k, init);
      WalkReads(k, init, r.coll);
      AppliedKeepsRule(k, WalkLog(k, init).w, init, r);
      LegibleSnoc(k, init, r);
      assert recs == init + [r];
    }
  }

  lemma NoRecordsLegible(k: Codec)
    ensures Legible(k, [])
  {
  }

  lemma AppliedKeepsRule(k: Codec, w: Walk, recs: seq<Record>, r: Record)
    requires ReadsAs(k, w.db, recs, r.coll) && Apply(k, w, r).Applied?
    ensures r.op == OP_REPLACE ==> k.probe(r.payload).Some?
    ensures Names(r) ==> !UnreadIn(k, recs, r.coll)
    ensures UnreadInsert(k, r) ==> !NamedIn(recs, r.coll)
  {
    hide NamedIn, UnreadIn, Resolve;
  }

  /** A record that breaks the rule is refused. */
  lemma BrokenRuleRefused(k: Codec, w: Walk, recs: seq<Record>, r: Record)
    requires ReadsAs(k, w.db, recs, r.coll)
    requires || (r.op == OP_REPLACE && k.probe(r.payload) == None)
             || (Names(r) && UnreadIn(k, recs, r.coll))
             || (UnreadInsert(k, r) && NamedIn(recs, r.coll))
    ensures Apply(k, w, r) == Refused
  {
    hide NamedIn, UnreadIn, Resolve;
  }
}
