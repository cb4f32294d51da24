/**
 What each write does to the documents of a collection (collection.go, catalog.go), said of the list
 of documents alone: what goes in, what gives way, what goes, and that nothing else moves.
 */
module Contents {
  import opened Framing
  import opened Slots
  import opened Database
  import opened Live
  import opened Scan
  import opened Appends
  import opened Steps

  /** The documents of a collection, in index order. */
  ghost function DocsIn(db: Db, coll: Word16): seq<Bytes>
    requires coll in db.byID
  {
    DocsOf(db.byID[coll].slots)
  }

  // ----- insert -----

  /** No supplied _id of the batch is used twice in it, or by a document of the collection. */
  ghost predicate AllFree(k: Codec, s: seq<Slot>, docs: seq<NewDoc>) {
    && (forall i, j | 0 <= i < j < |docs| && docs[i].supplied && docs[j].supplied :: docs[i].id != docs[j].id)
    && (forall i | 0 <= i < |docs| && docs[i].supplied :: !InUse(k, s, docs[i].id))
  }

  /** In a collection whose documents can be read, exactly the _ids in use block a lookup. */
  lemma BlockedIsInUse(k: Codec, s: seq<Slot>, id: string)
    requires IdsOk(k, s) && AllRead(k, s) && id != ""
    ensures Blocked(k, s, id) <==> InUse(k, s, id)
  {
    if InUse(k, s, id) {
      InUseBlocks(k, s, id);
    }
    if i: nat :| Holds(k, s, id, i) {
      assert Bears(k, s, id, i);
    }
  }

  /** The check goes through the rest of the batch as its rule says. */
  lemma {:induction false} CheckPasses(k: Codec, c: Coll, docs: seq<NewDoc>, i: nat, seen: set<string>)
    requires i <= |docs| && IdsOk(k, c.slots) && AllRead(k, c.slots) && forall d <- docs :: d.id != ""
    ensures CheckIds(k, c, docs, i, seen).0 <==>
              && AllFree(k, c.slots, docs[i..])
              && forall j | i <= j < |docs| && docs[j].supplied :: docs[j].id !in seen
    decreases |docs| - i
  {
    hide IdsOk, AllRead, Blocked, InUse, CheckIds;
    if i == |docs| {
      CheckIdsEnd(k, c, docs, seen);
    } else {
      var d := docs[i];
      assert d in docs;
      CheckIdsStep(k, c, docs, i, seen);
      ReadCanIndex(k, c);
      BlockedIsInUse(k, c.slots, d.id);
      CheckPasses(k, c, docs, i + 1, seen);
      CheckPasses(k, c.(indexed := true), docs, i + 1, seen + {d.id});
      FreeStep(k, c.slots, docs, i);
    }
  }

  lemma ReadCanIndex(k: Codec, c: Coll)
    requires IdsOk(k, c.slots) && AllRead(k, c.slots)
    ensures CanIndex(k, c)
  {
  }

  lemma FreeStep(k: Codec, s: seq<Slot>, docs: seq<NewDoc>, i: nat)
    requires i < |docs|
    ensures AllFree(k, s, docs[i..]) <==>
              && AllFree(k, s, docs[i + 1..])
              && (docs[i].supplied ==>
                    !InUse(k, s, docs[i].id)
                    && forall j | i + 1 <= j < |docs| && docs[j].supplied :: docs[j].id != docs[i].id)
  {
    hide InUse;
    var a, b := docs[i..], docs[i + 1..];
    assert forall j | 0 <= j < |b| :: b[j] == a[j + 1];
    assert forall j | 0 < j < |a| :: a[j] == b[j - 1];
    assert forall j | i + 1 <= j < |docs| :: docs[j] == b[j - (i + 1)];
    assert a[0] == docs[i];
  }

  /** Publishing a batch puts its payloads at the end. */
  lemma {:induction false} AddedDocs(db: Db, coll: Word16, ps: seq<Bytes>)
    requires coll in db.byID
    ensures coll in AddDocs(db, coll, ps).byID
    ensures DocsIn(AddDocs(db, coll, ps), coll) == DocsIn(db, coll) + ps
  {
    if ps != [] {
      var n := |ps| - 1;
      AddedDocs(db, coll, ps[..n]);
      assert ps == ps[..n] + [ps[n]];
      var init := AddDocs(db, coll, ps[..n]);
      OneMoreDoc(init.byID[coll].slots, NewSlot(init, ps[n]));
    } else {
      assert DocsIn(db, coll) + [] == DocsIn(db, coll);
    }
  }

  lemma OneMoreDoc(s: seq<Slot>, x: Slot)
    ensures DocsOf(s + [x]) == DocsOf(s) + [x.doc]
  {
  }

  /**
   Insert and InsertMany: when every supplied _id is free the documents go in at the end, in the
   order given, as many as landed; otherwise, or when one is too long, none does.
   */
  lemma InsertPutsIn(k: Codec, db: Db, coll: Word16, docs: seq<NewDoc>, landed: nat)
    requires Legal(k, db, InsertOp(coll, docs, landed)) && coll in db.byID
    requires IdsOk(k, db.byID[coll].slots) && AllRead(k, db.byID[coll].slots)
    ensures var s := Step(k, db, InsertOp(coll, docs, landed));
            && coll in s.db.byID && |s.recs| <= |docs|
            && DocsIn(s.db, coll) == DocsIn(db, coll) + Payloads(docs)[..|s.recs|]
            && s.db.total == db.total + |s.recs|
            && (if AllFree(k, db.byID[coll].slots, docs) && forall d <- docs :: |d.payload| <= MAX_PAYLOAD
                then landed >= LogSize(Records(OP_INSERT, coll, Payloads(docs))) <==> |s.recs| == |docs|
                else s.recs == [])
  {
    hide IdsOk, AllRead, InUse, CheckIds, AddDocs, LogSize, Whole, AllFree;
    var c, ps := db.byID[coll], Payloads(docs);
    CheckPasses(k, c, docs, 0, {});
    assert docs[0..] == docs;
    TooLongAre(docs);
    var db1 := db.(byID := db.byID[coll := c.(indexed := CheckIds(k, c, docs, 0, {}).1)]);
    var w := if AnyTooLong(ps) then 0 else Whole(ps, landed);
    AddedDocs(db1, coll, ps[..w]);
    AddDocsShape(db1, coll, ps[..w]);
    WholeMonotone(OP_INSERT, coll, ps, landed);
    assert ps[..0] == [] && DocsIn(db, coll) + [] == DocsIn(db, coll);
  }

  lemma TooLongAre(docs: seq<NewDoc>)
    ensures AnyTooLong(Payloads(docs)) <==> exists d <- docs :: |d.payload| > MAX_PAYLOAD
  {
    if d :| d in docs && |d.payload| > MAX_PAYLOAD {
      var i :| 0 <= i < |docs| && docs[i] == d;
      assert Payloads(docs)[i] == d.payload;
    }
    if p :| p in Payloads(docs) && |p| > MAX_PAYLOAD {
      var i :| 0 <= i < |docs| && Payloads(docs)[i] == p;
      assert docs[i] in docs;
    }
  }

  // ----- replace -----

  /** The first document a filter accepts. */
  ghost predicate IsFirst(docs: seq<Bytes>, accepts: Bytes -> bool, i: nat) {
    i < |docs| && accepts(docs[i]) && forall j | 0 <= j < i :: !accepts(docs[j])
  }

  lemma {:induction false} FirstMatch(s: seq<Slot>, accepts: Bytes -> bool, n: nat)
    requires n <= |s|
    ensures var ps := MatchesUpTo(s, accepts, 1, n);
            && |ps| <= 1
            && (ps == [] ==> forall i | 0 <= i < n :: !accepts(DocsOf(s)[i]))
            && (ps != [] ==> IsFirst(DocsOf(s), accepts, ps[0]))
  {
    if n > 0 {
      FirstMatch(s, accepts, n - 1);
    }
  }

  /**
   Replace: the first document accepted, and only it, becomes the new version under its own _id, in
   its place, when the caller names no other _id and the record lands; nothing changes otherwise.
   */
  lemma ReplacePutsInPlace(k: Codec, db: Db, op: Op)
    requires op.ReplaceOp? && Legal(k, db, op) && op.coll in db.byID && IdsOk(k, db.byID[op.coll].slots)
    ensures var before, s := DocsIn(db, op.coll), Step(k, db, op);
            && op.coll in s.db.byID
            && ((forall d <- before :: !op.accepts(d)) ==> s == Effect(db, []))
            && (forall i: nat | IsFirst(before, op.accepts, i) ::
                  var id, doc := k.exact(before[i]), op.encode(k.exact(before[i]));
                  if k.probe(before[i]).Some? && (op.suppliedID == "" || op.suppliedID == id)
                     && |doc| <= MAX_PAYLOAD && op.landed >= RECORD_HEADER + |doc|
                  then DocsIn(s.db, op.coll) == before[i := doc] && s.recs == [Record(OP_REPLACE, op.coll, doc)]
                  else s == Effect(db, []))
  {
    var slots := db.byID[op.coll].slots;
    var before, ps := DocsOf(slots), Matches(slots, op.accepts, 1);
    FirstMatch(slots, op.accepts, |slots|);
    if ps == [] {
      assert forall d <- before :: !op.accepts(d);
    } else {
      assert before[ps[0]] in before && op.accepts(before[ps[0]]);
      assert Plain(k, slots[ps[0]].doc);
    }
    forall i: nat | IsFirst(before, op.accepts, i)
      ensures ps != [] && i == ps[0]
    {
    }
  }

  // ----- delete -----

  ghost function CountOf(docs: seq<Bytes>, accepts: Bytes -> bool): nat {
    if docs == [] then 0
    else CountOf(docs[..|docs| - 1], accepts) + if accepts(docs[|docs| - 1]) then 1 else 0
  }

  /** The list without the first n documents a filter accepts, the others in their order. */
  ghost function WithoutFirst(docs: seq<Bytes>, accepts: Bytes -> bool, n: nat): seq<Bytes> {
    if docs == [] then []
    else
      var init, last := docs[..|docs| - 1], docs[|docs| - 1];
      WithoutFirst(init, accepts, n) + if accepts(last) && CountOf(init, accepts) < n then [] else [last]
  }

  /** Without all of them, none is left. */
  lemma {:induction false} WithoutAll(docs: seq<Bytes>, accepts: Bytes -> bool, n: nat)
    requires n >= CountOf(docs, accepts)
    ensures forall d <- WithoutFirst(docs, accepts, n) :: !accepts(d) && d in docs
    ensures forall d <- docs | !accepts(d) :: d in WithoutFirst(docs, accepts, n)
  {
    if docs != [] {
      WithoutAll(docs[..|docs| - 1], accepts, n);
    }
  }

  /** As many positions are listed as are accepted, up to the limit. */
  ghost predicate ListsAll(s: seq<Slot>, accepts: Bytes -> bool, limit: int, m: nat)
    requires m <= |s|
  {
    var count := CountOf(DocsOf(s)[..m], accepts);
    |MatchesUpTo(s, accepts, limit, m)| == if limit > 0 && count > limit then limit else count
  }

  lemma {:induction false} ListsThemAll(s: seq<Slot>, accepts: Bytes -> bool, limit: int, m: nat)
    requires m <= |s|
    ensures ListsAll(s, accepts, limit, m)
  {
    if m > 0 {
      ListsThemAll(s, accepts, limit, m - 1);
      assert DocsOf(s)[..m][..m - 1] == DocsOf(s)[..m - 1];
    }
  }

  lemma {:induction false} KeptAre(s: seq<Slot>, accepts: Bytes -> bool, limit: int, n: nat, m: nat)
    requires m <= |s| && n <= |Matches(s, accepts, limit)|
    ensures DocsOf(KeepUpTo(s, Matches(s, accepts, limit)[..n], m)) == WithoutFirst(DocsOf(s)[..m], accepts, n)
  {
    hide Matches, CountOf, ListsAll;
    var docs, all := DocsOf(s), Matches(s, accepts, limit);
    if m > 0 {
      KeptAre(s, accepts, limit, n, m - 1);
      assert docs[..m][..m - 1] == docs[..m - 1] && docs[..m][m - 1] == s[m - 1].doc;
      ListsThemAll(s, accepts, limit, m - 1);
      ListedAt(s, accepts, limit, n, m - 1);
      var kept := KeepUpTo(s, all[..n], m - 1);
      assert DocsOf(kept + [s[m - 1]]) == DocsOf(kept) + [s[m - 1].doc];
      assert DocsOf(kept + []) == DocsOf(kept);
    }
  }

  lemma {:induction false} PrefixOfMatches(s: seq<Slot>, accepts: Bytes -> bool, limit: int, m: nat, n: nat)
    requires m <= n <= |s|
    ensures MatchesUpTo(s, accepts, limit, m) <= MatchesUpTo(s, accepts, limit, n)
  {
    if m < n {
      PrefixOfMatches(s, accepts, limit, m, n - 1);
    }
  }

  /** Position m is among the first n matches when it is accepted and fewer than n before it are. */
  lemma ListedAt(s: seq<Slot>, accepts: Bytes -> bool, limit: int, n: nat, m: nat)
    requires m < |s| && n <= |Matches(s, accepts, limit)|
    requires ListsAll(s, accepts, limit, m)
    ensures m in Matches(s, accepts, limit)[..n] <==>
            accepts(s[m].doc) && CountOf(DocsOf(s)[..m], accepts) < n
  {
    hide CountOf;
    var all := Matches(s, accepts, limit);
    var ps, next := MatchesUpTo(s, accepts, limit, m), MatchesUpTo(s, accepts, limit, m + 1);
    PrefixOfMatches(s, accepts, limit, m, |s|);
    PrefixOfMatches(s, accepts, limit, m + 1, |s|);
    assert next == if accepts(s[m].doc) && (limit <= 0 || |ps| < limit) then ps + [m] else ps;
    if |next| > |ps| {
      assert all[|ps|] == next[|ps|] == m;
    } else {
      forall i | 0 <= i < |all| && all[i] == m
        ensures false
      {
        NotSkipped(s, accepts, limit, m, i);
      }
    }
  }

  /** What is listed at all is listed as soon as it is reached. */
  lemma NotSkipped(s: seq<Slot>, accepts: Bytes -> bool, limit: int, m: nat, i: nat)
    requires m < |s| && i < |Matches(s, accepts, limit)| && Matches(s, accepts, limit)[i] == m
    ensures i < |MatchesUpTo(s, accepts, limit, m + 1)|
    ensures MatchesUpTo(s, accepts, limit, m + 1) != MatchesUpTo(s, accepts, limit, m)
  {
    ReachedBy(s, accepts, limit, m, i, |s|);
  }

  lemma {:induction false} ReachedBy(s: seq<Slot>, accepts: Bytes -> bool, limit: int, m: nat, i: nat, n: nat)
    requires m < n <= |s| && i < |MatchesUpTo(s, accepts, limit, n)| && MatchesUpTo(s, accepts, limit, n)[i] == m
    ensures i < |MatchesUpTo(s, accepts, limit, m + 1)| && MatchesUpTo(s, accepts, limit, m + 1)[i] == m
    ensures MatchesUpTo(s, accepts, limit, m + 1) != MatchesUpTo(s, accepts, limit, m)
  {
    if n > m + 1 {
      ReachedBy(s, accepts, limit, m, i, n - 1);
    } else {
      assert Ascending(MatchesUpTo(s, accepts, limit, m), m);
    }
  }

  /**
   Delete and DeleteMany: the first documents accepted go, as many as tombstones landed, and the
   others stay in their order; with room for all that were asked for, those are all accepted, or
   the limit's number of them.
   */
  lemma DeleteTakesOut(k: Codec, db: Db, op: Op)
    requires op.DeleteOp? && Legal(k, db, op) && op.coll in db.byID && IdsOk(k, db.byID[op.coll].slots)
    ensures var before, s := DocsIn(db, op.coll), Step(k, db, op);
            && op.coll in s.db.byID && |s.recs| <= CountOf(before, op.accepts)
            && (op.limit > 0 ==> |s.recs| <= op.limit)
            && DocsIn(s.db, op.coll) == WithoutFirst(before, op.accepts, |s.recs|)
            && s.db.total == db.total - |s.recs|
    ensures var before, s := DocsIn(db, op.coll), Step(k, db, op);
            var tombs := Tombstones(k, db.byID[op.coll].slots, Matches(db.byID[op.coll].slots, op.accepts, op.limit));
            (forall t <- tombs :: |t| <= MAX_PAYLOAD) && op.landed >= LogSize(Records(OP_DELETE, op.coll, tombs)) ==>
              |s.recs| == if op.limit > 0 && CountOf(before, op.accepts) > op.limit then op.limit
                          else CountOf(before, op.accepts)
  {
    hide IdsOk, MatchesUpTo, Matches, Tombstones, DropDocs, LogSize, Whole, Keep, CountOf, WithoutFirst, Ascending,
      Legal;
    var slots := db.byID[op.coll].slots;
    var ps := Matches(slots, op.accepts, op.limit);
    var tombs := Tombstones(k, slots, ps);
    TombstonesLength(k, slots, ps);
    NoneUnnamed(k, slots, ps);
    DeleteStep(k, db, op.coll, op.accepts, op.limit, op.landed);
    var w := if AnyTooLong(tombs) then 0 else Whole(tombs, op.landed);
    DropDocsShape(db, op.coll, ps, tombs, w);
    DropNone(db, op.coll, ps, tombs);
    KeptDocs(slots, op.accepts, op.limit, w);
    WholeMonotone(OP_DELETE, op.coll, tombs, op.landed);
  }

  lemma KeptDocs(s: seq<Slot>, accepts: Bytes -> bool, limit: int, n: nat)
    requires n <= |Matches(s, accepts, limit)|
    ensures |Matches(s, accepts, limit)| ==
            if limit > 0 && CountOf(DocsOf(s), accepts) > limit then limit else CountOf(DocsOf(s), accepts)
    ensures DocsOf(Keep(s, Matches(s, accepts, limit)[..n])) == WithoutFirst(DocsOf(s), accepts, n)
  {
    KeptAre(s, accepts, limit, n, |s|);
    ListsThemAll(s, accepts, limit, |s|);
    assert DocsOf(s)[..|s|] == DocsOf(s);
  }

  // ----- define, and everything else -----

  /** A define that is kept makes an empty collection under the next id, and touches no other. */
  lemma DefineMakesEmpty(k: Codec, db: Db, op: Op)
    requires op.DefineOp? && op.name !in db.names && ValidName(op.name) && op.synced && db.nextID != 0
    requires var p := k.encodeDefinition(Definition(db.nextID, op.name));
             |p| <= MAX_PAYLOAD && op.landed >= RECORD_HEADER + |p|
    ensures Legal(k, db, op)
    ensures var s := Step(k, db, op).db;
            && s.names == db.names[op.name := db.nextID] && db.nextID in s.byID && DocsIn(s, db.nextID) == []
            && (forall c | c in db.byID && c != db.nextID :: c in s.byID && DocsIn(s, c) == DocsIn(db, c))
            && s.nextID == (if db.nextID == 0xFFFF then 0 else db.nextID + 1)
  {
  }

  /** A write to one collection leaves the documents of every other alone. */
  lemma OthersStay(k: Codec, db: Db, op: Op, c: Word16)
    requires Legal(k, db, op) && !op.DefineOp? && c in db.byID && c != op.coll
    ensures c in Step(k, db, op).db.byID && DocsIn(Step(k, db, op).db, c) == DocsIn(db, c)
  {
    hide Step, Legal;
    StepTouches(k, db, op);
  }

  // ----- names -----

  const UPPER := "ABCDEFGHIJKLMNOPQRSTUVWXYZ"
  const LOWER := "abcdefghijklmnopqrstuvwxyz"
  const DIGITS := "0123456789"

  /** The names a collection may have: 1 to 64 letters, digits, underscores and hyphens. */
  lemma NamesAllowed(name: string)
    ensures ValidName(name) <==>
            1 <= |name| <= 64 && forall c <- name :: c in UPPER || c in LOWER || c in DIGITS || c == '_' || c == '-'
  {
    forall c: char
      ensures IsNameChar(c) <==> c in UPPER || c in LOWER || c in DIGITS || c == '_' || c == '-'
    {
      Listed(UPPER, 'A', c);
      Listed(LOWER, 'a', c);
      Listed(DIGITS, '0', c);
    }
  }

  /** A string of consecutive characters. */
  lemma Listed(s: string, first: char, c: char)
    requires s != "" && (forall i | 0 <= i < |s| :: s[i] as int == first as int + i)
    ensures c in s <==> first as int <= c as int < first as int + |s|
  {
    if first as int <= c as int < first as int + |s| {
      assert s[c as int - first as int] == c;
    }
  }
}
