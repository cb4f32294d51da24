/**
 Byte accounting. In every reachable state the file is its header, its define records, the
 records the index points at and the dead bytes, with nothing over; and the offline pass over the
 file (store.go, ScanLive) arrives at the same dead bytes, documents and live bytes by tracking
 _ids through the log instead of slots through the index.
 */
module Accounting {
  import opened Wrappers
  import opened Framing
  import opened Slots
  import opened Database
  import opened Live
  import opened Ticks

  // ----- sums over an index -----

  ghost function SlotBytesUpTo(s: seq<Slot>, n: nat): nat
    requires n <= |s|
  {
    if n == 0 then 0 else SlotBytesUpTo(s, n - 1) + s[n - 1].Size()
  }

  /** On-disk bytes of the records an index points at. */
  ghost function SlotBytes(s: seq<Slot>): nat {
    SlotBytesUpTo(s, |s|)
  }

  lemma {:induction false} SlotBytesPrefix(s: seq<Slot>, t: seq<Slot>, n: nat)
    requires n <= |s| && n <= |t| && forall i | 0 <= i < n :: s[i] == t[i]
    ensures SlotBytesUpTo(s, n) == SlotBytesUpTo(t, n)
  {
    if n > 0 {
      SlotBytesPrefix(s, t, n - 1);
    }
  }

  lemma SlotBytesAppend(s: seq<Slot>, x: Slot)
    ensures SlotBytes(s + [x]) == SlotBytes(s) + x.Size()
  {
    SlotBytesPrefix(s, s + [x], |s|);
  }

  lemma {:induction false} SlotBytesSet(s: seq<Slot>, i: nat, x: Slot, n: nat)
    requires i < n <= |s|
    ensures SlotBytesUpTo(s[i := x], n) == SlotBytesUpTo(s, n) - s[i].Size() + x.Size()
  {
    if i == n - 1 {
      SlotBytesPrefix(s, s[i := x], i);
    } else {
      SlotBytesSet(s, i, x, n - 1);
    }
  }

  lemma {:induction false} SlotBytesRemove(s: seq<Slot>, i: nat, n: nat)
    requires i < n <= |s|
    ensures SlotBytesUpTo(RemoveAt(s, i), n - 1) == SlotBytesUpTo(s, n) - s[i].Size()
  {
    if i == n - 1 {
      SlotBytesPrefix(s, RemoveAt(s, i), i);
    } else {
      SlotBytesRemove(s, i, n - 1);
    }
  }

  // ----- sums over the collections -----

  /** What a collection weighs: its bytes on disk, or its documents. */
  ghost function Weight(c: Coll, bytes: bool): nat {
    if bytes then SlotBytes(c.slots) else |c.slots|
  }

  /** The total weight of the collections with ids below n. */
  ghost function SumTo(m: map<Word16, Coll>, n: nat, bytes: bool): nat
    requires n <= 0x1_0000
  {
    if n == 0 then 0
    else SumTo(m, n - 1, bytes) + (if n - 1 in m then Weight(m[n - 1], bytes) else 0)
  }

  ghost function Sum(m: map<Word16, Coll>, bytes: bool): nat {
    SumTo(m, 0x1_0000, bytes)
  }

  lemma {:induction false} SumUpdate(m: map<Word16, Coll>, id: Word16, c: Coll, n: nat, bytes: bool)
    requires n <= 0x1_0000
    ensures SumTo(m[id := c], n, bytes) ==
            SumTo(m, n, bytes) +
            (if id < n then Weight(c, bytes) - (if id in m then Weight(m[id], bytes) else 0) else 0)
  {
    if n > 0 {
      SumUpdate(m, id, c, n - 1, bytes);
    }
  }

  ghost function DefineBytes(recs: seq<Record>): nat {
    if recs == [] then 0
    else
      var r := recs[|recs| - 1];
      DefineBytes(recs[..|recs| - 1]) + if r.op == OP_DEFINE then r.Size() else 0
  }

  lemma DefineBytesSnoc(recs: seq<Record>, r: Record)
    ensures DefineBytes(recs + [r]) == DefineBytes(recs) + if r.op == OP_DEFINE then r.Size() else 0
  {
    assert (recs + [r])[..|recs|] == recs;
  }

  // ----- conservation -----

  ghost predicate Conserved(e: Effect) {
    && e.db.size == FILE_HEADER + DefineBytes(e.recs) + Sum(e.db.byID, true) + e.db.dead
    && e.db.total == Sum(e.db.byID, false)
  }

  /** What one step does to the slots of the collection it changes. */
  lemma TickWeighs(k: Codec, e: Effect, t: Tick)
    requires TickOk(k, e.db, t) && !t.Lose?
    ensures var s := if t.Catalog? then [] else e.db.byID[t.coll].slots;
            var s' := Ticked(k, e, t).db.byID[Touched(t)].slots;
            match t
            case Add(_, payload) => SlotBytes(s') == SlotBytes(s) + RECORD_HEADER + |payload| && |s'| == |s| + 1
            case Repoint(_, pos, payload) =>
              SlotBytes(s') == SlotBytes(s) - s[pos].Size() + RECORD_HEADER + |payload| && |s'| == |s|
            case Drop(_, pos, _) => SlotBytes(s') == SlotBytes(s) - s[pos].Size() && |s'| == |s| - 1
            case _ => s' == s
  {
    match t
    case Add(coll, payload) => SlotBytesAppend(e.db.byID[coll].slots, NewSlot(e.db, payload));
    case Repoint(coll, pos, payload) =>
      SlotBytesSet(e.db.byID[coll].slots, pos, NewSlot(e.db, payload), |e.db.byID[coll].slots|);
    case Drop(coll, pos, _) => SlotBytesRemove(e.db.byID[coll].slots, pos, |e.db.byID[coll].slots|);
    case _ =>
  }

  /** The same for the sums over all collections: the others do not move. */
  lemma TickSums(k: Codec, e: Effect, t: Tick)
    requires TickOk(k, e.db, t) && !t.Lose? && (t.Catalog? ==> t.d.id !in e.db.byID)
    ensures var s := if t.Catalog? then [] else e.db.byID[t.coll].slots;
            var c' := Ticked(k, e, t).db.byID[Touched(t)];
            var m' := Ticked(k, e, t).db.byID;
            && Sum(m', true) == Sum(e.db.byID, true) + SlotBytes(c'.slots) - SlotBytes(s)
            && Sum(m', false) == Sum(e.db.byID, false) + |c'.slots| - |s|
  {
    var id := Touched(t);
    var c := Ticked(k, e, t).db.byID[id];
    assert Ticked(k, e, t).db.byID == e.db.byID[id := c];
    SumUpdate(e.db.byID, id, c, 0x1_0000, true);
    SumUpdate(e.db.byID, id, c, 0x1_0000, false);
  }

  /** No step gains or loses a byte: what leaves the index is dead, and what is appended is counted once. */
  lemma TickConserves(k: Codec, e: Effect, t: Tick)
    requires TickOk(k, e.db, t) && Conserved(e)
    requires t.Catalog? ==> t.d.id !in e.db.byID
    ensures Conserved(Ticked(k, e, t))
  {
    hide Sum, DefineBytes, SlotBytes, HasId, RemoveAt;
    var e' := Ticked(k, e, t);
    if !t.Index? {
      DefineBytesSnoc(e.recs, e'.recs[|e.recs|]);
    }
    if !t.Lose? {
      TickSums(k, e, t);
      TickWeighs(k, e, t);
    }
  }

  lemma {:induction false} TicksConserve(k: Codec, e: Effect, ts: seq<Tick>)
    requires TicksOk(k, e, ts) && Conserved(e) && CatalogOk(e.db)
    ensures Conserved(TickedAll(k, e, ts)) && CatalogOk(TickedAll(k, e, ts).db)
  {
    if ts != [] {
      var n := |ts| - 1;
      TicksConserve(k, e, ts[..n]);
      var e1 := TickedAll(k, e, ts[..n]);
      TickCatalogOk(k, e1, ts[n]);
      hide TickOk, Ticked, Conserved, CatalogOk;
      TickConserves(k, e1, ts[n]);
    }
  }

  /** Conservation holds in every state of every run, lost defines included. */
  lemma EveryRunConserves(k: Codec, start: Effect, ops: seq<Op>)
    requires k.Lawful() && LiveOk(k, start.db) && CatalogOk(start.db) && Conserved(start) && LegalRun(k, start, ops)
    ensures Conserved(After(k, start, ops))
  {
    hide Conserved, LiveOk, CatalogOk, LegalRun, After, EveryDefineKept, NoneLost;
    var ts := RunTicks(k, start, ops);
    TicksConserve(k, start, ts);
  }

  lemma EmptyConserves()
    ensures Conserved(Effect(Empty(), []))
  {
    SumEmpty(0x1_0000, true);
    SumEmpty(0x1_0000, false);
  }

  lemma {:induction false} SumEmpty(n: nat, bytes: bool)
    requires n <= 0x1_0000
    ensures SumTo(map[], n, bytes) == 0
  {
    if n > 0 {
      SumEmpty(n - 1, bytes);
    }
  }

  // ----- the offline pass -----

  /** Per collection the size of the record live for each _id, and the dead bytes so far. */
  datatype Ledger = Ledger(live: map<Word16, map<string, int>>, dead: int)

  function ScanRecord(k: Codec, l: Ledger, r: Record): Ledger {
    if r.op == OP_DEFINE then
      match k.decodeDefinition(r.payload)
      case None => l
      case Some(d) => if d.id in l.live then l else l.(live := l.live[d.id := map[]])
    else if r.op == OP_INSERT || r.op == OP_DELETE || r.op == OP_REPLACE then
      match k.probe(r.payload)
      case None => l
      case Some(id) =>
        if id == "" then l
        else
          var byID := if r.coll in l.live then l.live[r.coll] else map[];
          var dead := l.dead + if id in byID then byID[id] else 0;
          if r.op == OP_DELETE then Ledger(l.live[r.coll := byID - {id}], dead + r.Size())
          else Ledger(l.live[r.coll := byID[id := r.Size()]], dead)
    else l
  }

  /** ScanLive over the records of a log. */
  function ScanLog(k: Codec, recs: seq<Record>): Ledger {
    if recs == [] then Ledger(map[], 0)
    else ScanRecord(k, ScanLog(k, recs[..|recs| - 1]), recs[|recs| - 1])
  }

  lemma ScanSnoc(k: Codec, recs: seq<Record>, r: Record)
    ensures ScanLog(k, recs + [r]) == ScanRecord(k, ScanLog(k, recs), r)
  {
    assert (recs + [r])[..|recs|] == recs;
  }

  /** The sum of a map's values, as the final loop of ScanLive adds them up. */
  ghost function Total(m: map<string, int>): int {
    if m == map[] then 0
    else
      var id :| id in m;
      m[id] + Total(m - {id})
  }

  lemma {:induction false} TotalRemove(m: map<string, int>, id: string)
    requires id in m
    ensures Total(m) == m[id] + Total(m - {id})
    decreases |m|
  {
    var x :| x in m && Total(m) == m[x] + Total(m - {x});
    if x != id {
      TotalRemove(m - {x}, id);
      TotalRemove(m - {id}, x);
      assert m - {x} - {id} == m - {id} - {x};
    }
  }

  lemma TotalAdd(m: map<string, int>, id: string, v: int)
    requires id !in m
    ensures Total(m[id := v]) == Total(m) + v
    ensures |m[id := v]| == |m| + 1
  {
    TotalRemove(m[id := v], id);
    assert m[id := v] - {id} == m;
  }

  /** Every slot is a document payloadID can read, and no two are read alike. */
  ghost predicate ReadApart(k: Codec, s: seq<Slot>) {
    && (forall i | 0 <= i < |s| :: s[i].doc != [] && k.probe(s[i].doc).Some?)
    && (forall i, j | 0 <= i < j < |s| :: k.probe(s[i].doc) != k.probe(s[j].doc))
  }

  /** The size the ledger must record for slot i. */
  ghost predicate Listed(k: Codec, m: map<string, int>, x: Slot) {
    k.probe(x.doc).Some? && k.probe(x.doc).value in m && m[k.probe(x.doc).value] == x.Size()
  }

  /** The ledger of one collection names exactly its documents, each with the size of its record. */
  ghost predicate Names(k: Codec, s: seq<Slot>, m: map<string, int>) {
    && (forall id: string | id in m :: HasId(k, s, id))
    && (forall i | 0 <= i < |s| :: Listed(k, m, s[i]))
  }

  ghost predicate Tallies(k: Codec, s: seq<Slot>, m: map<string, int>) {
    Names(k, s, m) && |m| == |s| && Total(m) == SlotBytes(s)
  }

  lemma NamesAppend(k: Codec, s: seq<Slot>, m: map<string, int>, x: Slot)
    requires Names(k, s, m) && x.doc != [] && k.probe(x.doc).Some? && !HasId(k, s, k.probe(x.doc).value)
    ensures Names(k, s + [x], m[k.probe(x.doc).value := x.Size()])
  {
    var id := k.probe(x.doc).value;
    forall d: string | d in m[id := x.Size()]
      ensures HasId(k, s + [x], d)
    {
      if d == id {
        assert Holds(k, s + [x], d, |s|);
      } else {
        var i: nat :| Holds(k, s, d, i);
        assert Holds(k, s + [x], d, i);
      }
    }
    forall i | 0 <= i < |s|
      ensures Listed(k, m[id := x.Size()], s[i])
    {
      assert Listed(k, m, s[i]);
    }
  }

  lemma NamesRemove(k: Codec, s: seq<Slot>, m: map<string, int>, i: nat)
    requires Names(k, s, m) && ReadApart(k, s) && i < |s|
    ensures Names(k, RemoveAt(s, i), m - {k.probe(s[i].doc).value})
  {
    var id := k.probe(s[i].doc).value;
    var t, m' := RemoveAt(s, i), m - {id};
    forall d: string | d in m'
      ensures HasId(k, t, d)
    {
      var j: nat :| Holds(k, s, d, j);
      assert Holds(k, t, d, if j < i then j else j - 1);
    }
    forall j | 0 <= j < |t|
      ensures Listed(k, m', t[j])
    {
      var j' := if j < i then j else j + 1;
      assert t[j] == s[j'] && Listed(k, m, s[j']);
      assert k.probe(s[j'].doc) != k.probe(s[i].doc);
    }
  }

  lemma NamesRepoint(k: Codec, s: seq<Slot>, m: map<string, int>, i: nat, x: Slot)
    requires Names(k, s, m) && ReadApart(k, s) && i < |s| && x.doc != [] && k.probe(x.doc) == k.probe(s[i].doc)
    ensures Names(k, s[i := x], m[k.probe(x.doc).value := x.Size()])
  {
    var id := k.probe(x.doc).value;
    var t, m' := s[i := x], m[id := x.Size()];
    assert Listed(k, m, s[i]);
    forall d: string | d in m'
      ensures HasId(k, t, d)
    {
      var j: nat :| Holds(k, s, d, j);
      assert Holds(k, t, d, j);
    }
    forall j | 0 <= j < |t|
      ensures Listed(k, m', t[j])
    {
      assert Listed(k, m, s[j]);
      assert j != i ==> k.probe(s[j].doc) != k.probe(s[i].doc);
    }
  }

  lemma TalliesAppend(k: Codec, s: seq<Slot>, m: map<string, int>, x: Slot)
    requires Tallies(k, s, m) && x.doc != [] && k.probe(x.doc).Some? && !HasId(k, s, k.probe(x.doc).value)
    ensures k.probe(x.doc).value !in m
    ensures Tallies(k, s + [x], m[k.probe(x.doc).value := x.Size()])
  {
    NamesAppend(k, s, m, x);
    SlotBytesAppend(s, x);
    assert k.probe(x.doc).value !in m;
    hide Names, HasId;
    TotalAdd(m, k.probe(x.doc).value, x.Size());
  }

  lemma TalliesRemove(k: Codec, s: seq<Slot>, m: map<string, int>, i: nat)
    requires Tallies(k, s, m) && ReadApart(k, s) && i < |s|
    ensures Listed(k, m, s[i])
    ensures Tallies(k, RemoveAt(s, i), m - {k.probe(s[i].doc).value})
  {
    hide Names, HasId, ReadApart, RemoveAt, SlotBytes, SlotBytesUpTo, Listed, Total;
    ListedAt(k, s, m, i);
    NamesRemove(k, s, m, i);
    RemovedBytes(s, i);
    TotalTake(m, k.probe(s[i].doc).value);
  }

  lemma ListedAt(k: Codec, s: seq<Slot>, m: map<string, int>, i: nat)
    requires Names(k, s, m) && i < |s|
    ensures Listed(k, m, s[i]) && k.probe(s[i].doc).Some? && k.probe(s[i].doc).value in m
    ensures m[k.probe(s[i].doc).value] == s[i].Size()
  {
  }

  lemma RemovedBytes(s: seq<Slot>, i: nat)
    requires i < |s|
    ensures SlotBytes(RemoveAt(s, i)) == SlotBytes(s) - s[i].Size()
  {
    SlotBytesRemove(s, i, |s|);
  }

  lemma TotalTake(m: map<string, int>, id: string)
    requires id in m
    ensures Total(m - {id}) == Total(m) - m[id] && |m - {id}| == |m| - 1
  {
    TotalRemove(m, id);
    assert m == (m - {id})[id := m[id]];
  }

  lemma TotalSet(m: map<string, int>, id: string, v: int)
    requires id in m
    ensures Total(m[id := v]) == Total(m) - m[id] + v && |m[id := v]| == |m|
  {
    TotalRemove(m, id);
    TotalRemove(m[id := v], id);
    assert m[id := v] - {id} == m - {id};
    assert m[id := v].Keys == m.Keys;
  }

  lemma TalliesRepoint(k: Codec, s: seq<Slot>, m: map<string, int>, i: nat, x: Slot)
    requires Tallies(k, s, m) && ReadApart(k, s) && i < |s| && x.doc != [] && k.probe(x.doc) == k.probe(s[i].doc)
    ensures Listed(k, m, s[i])
    ensures Tallies(k, s[i := x], m[k.probe(x.doc).value := x.Size()])
  {
    NamesRepoint(k, s, m, i, x);
    SlotBytesSet(s, i, x, |s|);
    assert Listed(k, m, s[i]);
    hide Names, HasId, ReadApart;
    TotalSet(m, k.probe(x.doc).value, x.Size());
  }

  // ----- the offline pass agrees -----

  /**
   A ScanLive ledger against a live state: the same dead bytes, and for every collection the same
   documents and bytes. A collection only the log knows is empty.
   */
  ghost predicate Agrees(k: Codec, db: Db, l: Ledger) {
    && l.dead == db.dead
    && (forall id | id in db.byID :: id in l.live && Tallies(k, db.byID[id].slots, l.live[id]))
    && (forall id | id in l.live && id !in db.byID :: l.live[id] == map[])
  }

  ghost predicate Audits(k: Codec, e: Effect) {
    Agrees(k, e.db, ScanLog(k, e.recs))
  }

  /** A change to one collection keeps the audit when its own tally is kept. */
  lemma AgreesUpdate(k: Codec, db: Db, l: Ledger, db': Db, coll: Word16, c: Coll, m: map<string, int>, dead: int)
    requires Agrees(k, db, l) && db'.byID == db.byID[coll := c] && db'.dead == dead && Tallies(k, c.slots, m)
    ensures Agrees(k, db', Ledger(l.live[coll := m], dead))
  {
    hide Tallies;
  }

  lemma ScanDocument(k: Codec, l: Ledger, r: Record)
    requires (r.op == OP_INSERT || r.op == OP_REPLACE) && r.coll in l.live
    requires k.probe(r.payload).Some? && k.probe(r.payload).value != ""
    ensures var id, m := k.probe(r.payload).value, l.live[r.coll];
            ScanRecord(k, l, r) ==
            Ledger(l.live[r.coll := m[id := r.Size()]], l.dead + if id in m then m[id] else 0)
  {
  }

  lemma ScanTombstone(k: Codec, l: Ledger, r: Record)
    requires r.op == OP_DELETE && r.coll in l.live
    requires k.probe(r.payload).Some? && k.probe(r.payload).value != "" && k.probe(r.payload).value in l.live[r.coll]
    ensures var id, m := k.probe(r.payload).value, l.live[r.coll];
            ScanRecord(k, l, r) == Ledger(l.live[r.coll := m - {id}], l.dead + m[id] + r.Size())
  {
  }

  lemma AgreesOn(k: Codec, db: Db, l: Ledger, coll: Word16)
    requires Agrees(k, db, l) && coll in db.byID
    ensures coll in l.live && Tallies(k, db.byID[coll].slots, l.live[coll]) && l.dead == db.dead
  {
  }

  /** A tallied index has only documents payloadID can read. */
  lemma TalliedRead(k: Codec, s: seq<Slot>, m: map<string, int>)
    requires Tallies(k, s, m) && IdsOk(k, s)
    ensures ReadApart(k, s) && forall i | 0 <= i < |s| :: k.probe(s[i].doc) == Some(k.exact(s[i].doc))
  {
    forall i | 0 <= i < |s|
      ensures k.probe(s[i].doc) == Some(k.exact(s[i].doc))
    {
      assert Listed(k, m, s[i]) && Plain(k, s[i].doc);
    }
  }

  lemma NotInUseNotHeld(k: Codec, s: seq<Slot>, id: string)
    requires IdsOk(k, s) && !InUse(k, s, id)
    ensures !HasId(k, s, id)
  {
    forall i: nat | Holds(k, s, id, i)
      ensures Bears(k, s, id, i)
    {
      assert Plain(k, s[i].doc);
    }
  }

  lemma AddAudits(k: Codec, db: Db, l: Ledger, coll: Word16, payload: Bytes)
    requires TickOk(k, db, Add(coll, payload)) && IdsOk(k, db.byID[coll].slots) && Agrees(k, db, l)
    requires k.probe(payload).Some?
    ensures Agrees(k, AddDoc(db, coll, payload), ScanRecord(k, l, Record(OP_INSERT, coll, payload)))
  {
    hide Agrees, Tallies, ScanRecord, HasId, InUse, IdsOk;
    AgreesOn(k, db, l, coll);
    NotInUseNotHeld(k, db.byID[coll].slots, k.exact(payload));
    var c, m, x := db.byID[coll], l.live[coll], NewSlot(db, payload);
    TalliesAppend(k, c.slots, m, x);
    ScanDocument(k, l, Record(OP_INSERT, coll, payload));
    AgreesUpdate(k, db, l, AddDoc(db, coll, payload), coll, c.(slots := c.slots + [x]),
                  m[k.probe(payload).value := x.Size()], db.dead);
  }

  lemma RepointAudits(k: Codec, db: Db, l: Ledger, coll: Word16, pos: nat, payload: Bytes)
    requires TickOk(k, db, Repoint(coll, pos, payload)) && IdsOk(k, db.byID[coll].slots) && Agrees(k, db, l)
    requires k.probe(payload).Some?
    ensures Agrees(k, RepointDoc(db, coll, pos, payload), ScanRecord(k, l, Record(OP_REPLACE, coll, payload)))
  {
    hide Agrees, Tallies, ScanRecord, IdsOk, ReadApart;
    AgreesOn(k, db, l, coll);
    var c, m, x := db.byID[coll], l.live[coll], NewSlot(db, payload);
    UsableId(k, c.slots, pos);
    TalliedRead(k, c.slots, m);
    TalliesRepoint(k, c.slots, m, pos, x);
    ScanDocument(k, l, Record(OP_REPLACE, coll, payload));
    AgreesUpdate(k, db, l, RepointDoc(db, coll, pos, payload), coll, c.(slots := c.slots[pos := x], dirty := true),
                 m[k.probe(payload).value := x.Size()], db.dead + c.slots[pos].Size());
  }

  lemma UsableId(k: Codec, s: seq<Slot>, i: nat)
    requires IdsOk(k, s) && i < |s|
    ensures k.exact(s[i].doc) != ""
  {
  }

  lemma DropAudits(k: Codec, db: Db, l: Ledger, coll: Word16, pos: nat, payload: Bytes)
    requires TickOk(k, db, Drop(coll, pos, payload)) && IdsOk(k, db.byID[coll].slots) && Agrees(k, db, l)
    ensures Agrees(k, DropDoc(db, coll, pos, payload), ScanRecord(k, l, Record(OP_DELETE, coll, payload)))
  {
    hide Agrees, Tallies, ScanRecord, RemoveAt, IdsOk, ReadApart;
    AgreesOn(k, db, l, coll);
    var c, m := db.byID[coll], l.live[coll];
    UsableId(k, c.slots, pos);
    TalliedRead(k, c.slots, m);
    TalliesRemove(k, c.slots, m, pos);
    ScanTombstone(k, l, Record(OP_DELETE, coll, payload));
    AgreesUpdate(k, db, l, DropDoc(db, coll, pos, payload), coll,
                 c.(slots := RemoveAt(c.slots, pos), dirty := true), m - {k.probe(payload).value},
                 db.dead + c.slots[pos].Size() + RECORD_HEADER + |payload|);
  }

  lemma ScanDefinition(k: Codec, db: Db, l: Ledger, r: Record, d: Definition)
    requires Agrees(k, db, l) && d.id !in db.byID
    requires r.op == OP_DEFINE && k.decodeDefinition(r.payload) == Some(d)
    ensures ScanRecord(k, l, r) == Ledger(l.live[d.id := map[]], l.dead)
  {
  }

  /** A define record opens an empty ledger for the collection it registers. */
  lemma CatalogAudits(k: Codec, db: Db, l: Ledger, r: Record, d: Definition)
    requires Agrees(k, db, l) && d.id !in db.byID
    requires r.op == OP_DEFINE && k.decodeDefinition(r.payload) == Some(d)
    ensures Agrees(k, Define(db, d, r.payload), ScanRecord(k, l, r))
  {
    ScanDefinition(k, db, l, r, d);
    TallyEmpty(k);
    assert l.dead == db.dead;
    hide Agrees, Tallies, ScanRecord;
    AgreesUpdate(k, db, l, Define(db, d, r.payload), d.id, Coll(d.name, [], false, false), map[], db.dead);
  }

  /** A define record that was lost leaves an empty ledger no collection answers to. */
  lemma LoseAudits(k: Codec, db: Db, l: Ledger, r: Record, d: Definition)
    requires Agrees(k, db, l) && d.id !in db.byID
    requires r.op == OP_DEFINE && k.decodeDefinition(r.payload) == Some(d)
    ensures Agrees(k, Advance(db, r.Size()), ScanRecord(k, l, r))
  {
    hide Tallies, ScanRecord;
    ScanDefinition(k, db, l, r, d);
  }

  lemma TallyEmpty(k: Codec)
    ensures Tallies(k, [], map[])
  {
  }

  lemma TickAudits(k: Codec, e: Effect, t: Tick)
    requires TickOk(k, e.db, t) && LiveOk(k, e.db) && Audits(k, e)
    requires t.Catalog? || t.Lose? ==> Touched(t) !in e.db.byID
    requires t.Add? || t.Repoint? ==> k.probe(t.payload).Some?
    ensures Audits(k, Ticked(k, e, t))
  {
    hide Agrees, ScanLog, ScanRecord, LiveOk, IdsOk, AddDoc, RepointDoc, DropDoc, Define;
    var l := ScanLog(k, e.recs);
    if t.Index? {
      IndexAudits(k, e.db, l, t.coll, t.indexed);
    } else {
      var r := Ticked(k, e, t).recs[|e.recs|];
      ScanSnoc(k, e.recs, r);
      TouchedIdsOk(k, e.db, t);
      match t
      case Add(coll, payload) => AddAudits(k, e.db, l, coll, payload);
      case Repoint(coll, pos, payload) => RepointAudits(k, e.db, l, coll, pos, payload);
      case Drop(coll, pos, payload) => DropAudits(k, e.db, l, coll, pos, payload);
      case Catalog(d, payload) => CatalogAudits(k, e.db, l, r, d);
      case Lose(id, payload) => LoseAudits(k, e.db, l, r, k.decodeDefinition(payload).value);
    }
  }

  lemma IndexAudits(k: Codec, db: Db, l: Ledger, coll: Word16, indexed: bool)
    requires Agrees(k, db, l) && coll in db.byID
    ensures Agrees(k, db.(byID := db.byID[coll := db.byID[coll].(indexed := indexed)]), l)
  {
    hide Tallies;
  }

  lemma TouchedIdsOk(k: Codec, db: Db, t: Tick)
    requires LiveOk(k, db)
    ensures Touched(t) in db.byID ==> IdsOk(k, db.byID[Touched(t)].slots)
  {
  }

  /** Every document the log brings can be read by payloadID. */
  ghost predicate DocsRead(k: Codec, recs: seq<Record>) {
    forall r <- recs | r.op == OP_INSERT || r.op == OP_REPLACE :: k.probe(r.payload).Some?
  }

  lemma TickDocs(k: Codec, e: Effect, t: Tick)
    requires TickOk(k, e.db, t) && DocsRead(k, Ticked(k, e, t).recs)
    ensures DocsRead(k, e.recs) && (t.Add? || t.Repoint? ==> k.probe(t.payload).Some?)
  {
    var recs := Ticked(k, e, t).recs;
    assert forall r | r in e.recs :: r in recs;
    assert !t.Index? ==> recs[|e.recs|] in recs;
  }

  lemma {:induction false} TicksAudit(k: Codec, e: Effect, ts: seq<Tick>)
    requires TicksOk(k, e, ts) && LiveOk(k, e.db) && CatalogOk(e.db) && Audits(k, e)
    requires DocsRead(k, TickedAll(k, e, ts).recs)
    ensures Audits(k, TickedAll(k, e, ts))
  {
    if ts != [] {
      var n := |ts| - 1;
      var e1, t := TickedAll(k, e, ts[..n]), ts[n];
      TickDocs(k, e1, t);
      TicksAudit(k, e, ts[..n]);
      TicksLiveOk(k, e, ts[..n]);
      TicksCatalogOk(k, e, ts[..n]);
      assert t.Lose? ==> t.id !in e1.db.byID;
      TickCatalogOk(k, e1, t);
      hide TickOk, Ticked, CatalogOk, Audits, LiveOk, DocsRead;
      TickAudits(k, e1, t);
    }
  }

  // ----- every byte the offline pass sees -----

  /** The bytes of the records the pass skips because they carry no _id it can read. */
  ghost function Skipped(k: Codec, recs: seq<Record>): nat {
    if recs == [] then 0
    else Skipped(k, recs[..|recs| - 1]) + if Skips(k, recs[|recs| - 1]) then recs[|recs| - 1].Size() else 0
  }

  ghost predicate Skips(k: Codec, r: Record) {
    if r.op == OP_INSERT || r.op == OP_REPLACE || r.op == OP_DELETE
    then k.probe(r.payload) == None || k.probe(r.payload) == Some("")
    else r.op != OP_DEFINE
  }

  /** The live bytes of the collections with ids below n. */
  ghost function LedgerTo(m: map<Word16, map<string, int>>, n: nat): int
    requires n <= 0x1_0000
  {
    if n == 0 then 0 else LedgerTo(m, n - 1) + if n - 1 in m then Total(m[n - 1]) else 0
  }

  lemma {:induction false} LedgerUpdate(m: map<Word16, map<string, int>>, id: Word16, v: map<string, int>, n: nat)
    requires n <= 0x1_0000
    ensures LedgerTo(m[id := v], n) ==
            LedgerTo(m, n) + if id < n then Total(v) - (if id in m then Total(m[id]) else 0) else 0
  {
    hide Total;
    if n > 0 {
      LedgerUpdate(m, id, v, n - 1);
    }
  }

  lemma {:induction false} EmptyLedger(n: nat)
    requires n <= 0x1_0000
    ensures LedgerTo(map[], n) == 0
  {
    if n > 0 {
      EmptyLedger(n - 1);
    }
  }

  /** What one record adds to the live and dead bytes of the ledger: its own size, or nothing. */
  lemma ScanRecordAdds(k: Codec, l: Ledger, r: Record)
    ensures var l' := ScanRecord(k, l, r);
            l'.dead + LedgerTo(l'.live, 0x1_0000) ==
            l.dead + LedgerTo(l.live, 0x1_0000) + if r.op == OP_DEFINE || Skips(k, r) then 0 else r.Size()
  {
    hide LedgerTo, Total;
    if r.op == OP_DEFINE {
      if k.decodeDefinition(r.payload).Some? {
        LedgerUpdate(l.live, k.decodeDefinition(r.payload).value.id, map[], 0x1_0000);
        NothingTotal();
      }
    } else if !Skips(k, r) {
      var id := k.probe(r.payload).value;
      var m := if r.coll in l.live then l.live[r.coll] else map[];
      NothingTotal();
      if r.op == OP_DELETE {
        LedgerUpdate(l.live, r.coll, m - {id}, 0x1_0000);
        TotalWithout(m, id);
      } else {
        LedgerUpdate(l.live, r.coll, m[id := r.Size()], 0x1_0000);
        TotalWith(m, id, r.Size());
      }
    }
  }

  lemma NothingTotal()
    ensures Total(map[]) == 0
  {
  }

  lemma TotalWithout(m: map<string, int>, id: string)
    ensures Total(m - {id}) == Total(m) - if id in m then m[id] else 0
  {
    hide Total;
    if id in m {
      TotalRemove(m, id);
    } else {
      assert m - {id} == m;
    }
  }

  lemma TotalWith(m: map<string, int>, id: string, v: int)
    ensures Total(m[id := v]) == Total(m) + v - if id in m then m[id] else 0
  {
    hide Total;
    if id in m {
      TotalSet(m, id, v);
    } else {
      TotalAdd(m, id, v);
    }
  }

  /** Whatever the log: its bytes are the ledger's live and dead ones, the define records and what was skipped. */
  lemma {:induction false} ScanSeesEveryByte(k: Codec, recs: seq<Record>)
    ensures var l := ScanLog(k, recs);
            l.dead + LedgerTo(l.live, 0x1_0000) + DefineBytes(recs) + Skipped(k, recs) == LogSize(recs)
  {
    hide LedgerTo, Skips;
    EmptyLedger(0x1_0000);
    if recs != [] {
      var n := |recs| - 1;
      ScanSeesEveryByte(k, recs[..n]);
      ScanRecordAdds(k, ScanLog(k, recs[..n]), recs[n]);
      assert recs == recs[..n] + [recs[n]];
      LogSnoc(k.crc, recs[..n], recs[n]);
      DefinesOnce(k, recs[n]);
      hide ScanRecord;
    }
  }

  lemma DefinesOnce(k: Codec, r: Record)
    ensures Skips(k, r) ==> r.op != OP_DEFINE
  {
  }

  lemma {:induction false} SkippedNone(k: Codec, recs: seq<Record>)
    requires Skipped(k, recs) == 0
    ensures DocsRead(k, recs)
  {
    if recs != [] {
      var n := |recs| - 1;
      SkippedNone(k, recs[..n]);
      assert recs == recs[..n] + [recs[n]];
    }
  }

  /** The ledger's bytes are the live state's, collection by collection, and so are its dead bytes. */
  ghost predicate SameBytes(db: Db, l: Ledger) {
    && l.dead == db.dead
    && (forall id | id in db.byID :: id in l.live && Total(l.live[id]) == SlotBytes(db.byID[id].slots))
    && (forall id | id in l.live && id !in db.byID :: Total(l.live[id]) == 0)
  }

  lemma {:induction false} SameSums(db: Db, l: Ledger, n: nat)
    requires SameBytes(db, l) && n <= 0x1_0000
    ensures LedgerTo(l.live, n) == SumTo(db.byID, n, true)
  {
    hide Total, SlotBytes;
    if n > 0 {
      SameSums(db, l, n - 1);
    }
  }

  /** When the pass agrees with a conserved state, it has skipped nothing. */
  lemma SameBytesRead(k: Codec, e: Effect)
    requires Conserved(e) && e.db.size == FILE_HEADER + LogSize(e.recs) && SameBytes(e.db, ScanLog(k, e.recs))
    ensures DocsRead(k, e.recs)
  {
    hide LedgerTo, SumTo, ScanLog, Skipped, DefineBytes, SameBytes, DocsRead, LogSize;
    SameDead(e.db, ScanLog(k, e.recs));
    SameSums(e.db, ScanLog(k, e.recs), 0x1_0000);
    ScanSeesEveryByte(k, e.recs);
    SkippedNone(k, e.recs);
  }

  lemma SameDead(db: Db, l: Ledger)
    requires SameBytes(db, l)
    ensures l.dead == db.dead
  {
  }

  lemma AgreesSame(k: Codec, db: Db, l: Ledger)
    requires Agrees(k, db, l)
    ensures SameBytes(db, l)
  {
    NothingTotal();
    hide Names;
  }

  /** The append point stays at the end of the log. */
  lemma {:induction false} TicksSize(k: Codec, e: Effect, ts: seq<Tick>)
    requires TicksOk(k, e, ts) && e.db.size == FILE_HEADER + LogSize(e.recs)
    ensures TickedAll(k, e, ts).db.size == FILE_HEADER + LogSize(TickedAll(k, e, ts).recs)
  {
    if ts != [] {
      var n := |ts| - 1;
      TicksSize(k, e, ts[..n]);
      TickSize(k, TickedAll(k, e, ts[..n]), ts[n]);
      hide TickOk, Ticked, LogSize;
    }
  }

  lemma TickSize(k: Codec, e: Effect, t: Tick)
    requires TickOk(k, e.db, t) && e.db.size == FILE_HEADER + LogSize(e.recs)
    ensures Ticked(k, e, t).db.size == FILE_HEADER + LogSize(Ticked(k, e, t).recs)
  {
    hide InUse, RemoveAt;
    if !t.Index? {
      LogSnoc(k.crc, e.recs, Ticked(k, e, t).recs[|e.recs|]);
    }
  }

  /** What a run keeps for the audit's sake. */
  ghost predicate Auditable(k: Codec, e: Effect) {
    LiveOk(k, e.db) && CatalogOk(e.db) && Conserved(e) && e.db.size == FILE_HEADER + LogSize(e.recs)
  }

  /**
   At any point of any run the offline pass over the log agrees with the running counters if and
   only if payloadID can read every document the log brings: one it cannot read is passed over.
   */
  lemma EveryRunAudits(k: Codec, start: Effect, ops: seq<Op>)
    requires k.Lawful() && Auditable(k, start) && Audits(k, start) && LegalRun(k, start, ops)
    ensures Auditable(k, After(k, start, ops))
    ensures Audits(k, After(k, start, ops)) <==> DocsRead(k, After(k, start, ops).recs)
  {
    hide Audits, LiveOk, CatalogOk, LegalRun, After, EveryDefineKept, NoneLost, DocsRead, Conserved, LogSize, Agrees;
    var ts := RunTicks(k, start, ops);
    var e := After(k, start, ops);
    TicksLiveOk(k, start, ts);
    TicksCatalogOk(k, start, ts);
    TicksConserve(k, start, ts);
    TicksSize(k, start, ts);
    if DocsRead(k, e.recs) {
      TicksAudit(k, start, ts);
    }
    if Audits(k, e) {
      AuditsAgree(k, e);
      AgreesSame(k, e.db, ScanLog(k, e.recs));
      SameBytesRead(k, e);
    }
  }

  lemma AuditsAgree(k: Codec, e: Effect)
    requires Audits(k, e)
    ensures Agrees(k, e.db, ScanLog(k, e.recs))
  {
  }

  lemma EmptyAudits(k: Codec)
    ensures Audits(k, Effect(Empty(), []))
  {
  }
}
