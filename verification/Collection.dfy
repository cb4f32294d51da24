/**
 The in-memory index of one collection (index.go): parallel offsets and lengths, and a lazily
 built _id table over them. `filed` records, per slot, the fingerprint under which the table
 holds it, which for a marked slot is that of a document no longer there.
 */
module Collections {
  import opened Wrappers
  import opened Framing
  import opened Slots
  import opened Database
  import opened IdTables

  // ----- tables over slots -----

  ghost function Iota(n: nat): seq<int> {
    seq(n, i => i)
  }

  /** The entries of a table that files slot i under filed[i], leaving out zeros. */
  ghost function EntriesFor(filed: seq<int>): multiset<Entry> {
    EntriesOf(filed, Iota(|filed|))
  }

  lemma {:induction false} EntriesPrefix(f: seq<int>, g: seq<int>, n: nat)
    requires n <= |f| && n <= |g| && forall i | 0 <= i < n :: f[i] == g[i]
    ensures EntriesUpTo(f, Iota(|f|), n) == EntriesUpTo(g, Iota(|g|), n)
  {
    if n > 0 {
      EntriesPrefix(f, g, n - 1);
    }
  }

  lemma EntriesAppend(f: seq<int>, fp: int)
    ensures EntriesFor(f + [fp]) == EntriesFor(f) + (if fp == 0 then multiset{} else multiset{(fp, |f|)})
  {
    EntriesPrefix(f, f + [fp], |f|);
  }

  lemma {:induction false} EntryOfSlot(f: seq<int>, i: nat, n: nat)
    requires i < n <= |f| && f[i] != 0
    ensures (f[i], i) in EntriesUpTo(f, Iota(|f|), n)
  {
    EntryAt(f, Iota(|f|), i, n);
  }

  lemma SlotOfEntry(f: seq<int>, e: Entry)
    requires e in EntriesFor(f)
    ensures 0 <= e.1 < |f| && f[e.1] == e.0 != 0
  {
    var i := EntryHasSlot(f, Iota(|f|), e, |f|);
  }

  lemma {:induction false} EntriesFit(f: seq<int>, n: nat)
    requires n <= |f|
    ensures |EntriesUpTo(f, Iota(|f|), n)| <= n
  {
    if n > 0 {
      EntriesFit(f, n - 1);
    }
  }

  // ----- moving positions -----

  /** Where an entry goes when positions move; a position mapped below zero is dropped. */
  ghost function MovedEntry(e: Entry, mapping: seq<int>): multiset<Entry> {
    if 0 <= e.1 < |mapping| && mapping[e.1] >= 0 then multiset{(e.0, mapping[e.1])} else multiset{}
  }

  ghost function Moved(m: multiset<Entry>, mapping: seq<int>): multiset<Entry> {
    if m == multiset{} then multiset{}
    else
      var e :| e in m;
      Moved(m - multiset{e}, mapping) + MovedEntry(e, mapping)
  }

  lemma {:induction false} MovedRemove(m: multiset<Entry>, e: Entry, mapping: seq<int>)
    requires e in m
    ensures Moved(m, mapping) == Moved(m - multiset{e}, mapping) + MovedEntry(e, mapping)
    decreases |m|
  {
    var x :| x in m && Moved(m, mapping) == Moved(m - multiset{x}, mapping) + MovedEntry(x, mapping);
    hide Moved, MovedEntry;
    if x != e {
      var a, b := m - multiset{x}, m - multiset{e};
      assert a - multiset{e} == b - multiset{x};
      assert e in a && x in b;
      MovedRemove(a, e, mapping);
      MovedRemove(b, x, mapping);
    }
  }

  lemma MovedAdd(m: multiset<Entry>, e: Entry, mapping: seq<int>)
    ensures Moved(m + multiset{e}, mapping) == Moved(m, mapping) + MovedEntry(e, mapping)
  {
    MovedRemove(m + multiset{e}, e, mapping);
    assert m + multiset{e} - multiset{e} == m;
  }

  lemma {:induction false} MovedShrinks(m: multiset<Entry>, rest: multiset<Entry>, mapping: seq<int>)
    ensures |Moved(m, mapping)| <= |Moved(m + rest, mapping)|
    decreases |rest|
  {
    if rest == multiset{} {
      assert m + rest == m;
    } else {
      var e :| e in rest;
      var fewer := rest - multiset{e};
      MovedShrinks(m, fewer, mapping);
      MovedAdd(m + fewer, e, mapping);
      assert m + rest == (m + fewer) + multiset{e};
    }
  }

  /** How many of the positions below n are not listed. */
  ghost function KeptBelow(ps: seq<nat>, n: nat): nat {
    if n == 0 then 0 else KeptBelow(ps, n - 1) + (if n - 1 in ps then 0 else 1)
  }

  lemma {:induction false} KeptBelowIsKeep<T>(s: seq<T>, ps: seq<nat>, n: nat)
    requires n <= |s|
    ensures |KeepUpTo(s, ps, n)| == KeptBelow(ps, n)
  {
    if n > 0 {
      KeptBelowIsKeep(s, ps, n - 1);
    }
  }

  /** The mapping removeIndex builds: -1 for a listed position, its rank among the others otherwise. */
  ghost predicate IsMapping(mapping: seq<int>, ps: seq<nat>, n: nat) {
    n <= |mapping| && forall i | 0 <= i < n :: mapping[i] == if i in ps then -1 else KeptBelow(ps, i)
  }

  lemma EntriesStep(f: seq<int>, n: nat)
    requires n < |f|
    ensures EntriesUpTo(f, Iota(|f|), n + 1) ==
            EntriesUpTo(f, Iota(|f|), n) + (if f[n] == 0 then multiset{} else multiset{(f[n], n)})
  {
  }

  lemma KeepStep<T>(s: seq<T>, ps: seq<nat>, n: nat)
    requires n < |s|
    ensures KeepUpTo(s, ps, n + 1) == if n in ps then KeepUpTo(s, ps, n) else KeepUpTo(s, ps, n) + [s[n]]
  {
  }

  /** Moving the entries of a table along the mapping gives the table of the kept fingerprints. */
  lemma {:induction false} MovedIsKept(f: seq<int>, mapping: seq<int>, ps: seq<nat>, n: nat)
    requires |mapping| == |f| && n <= |f| && IsMapping(mapping, ps, n)
    ensures Moved(EntriesUpTo(f, Iota(|f|), n), mapping) == EntriesFor(KeepUpTo(f, ps, n))
  {
    if n > 0 {
      var j := n - 1;
      MovedIsKept(f, mapping, ps, j);
      KeptBelowIsKeep(f, ps, j);
      EntriesStep(f, j);
      KeepStep(f, ps, j);
      hide EntriesUpTo, Iota, KeepUpTo, EntriesFor, Moved;
      if f[j] != 0 {
        MovedAdd(EntriesUpTo(f, Iota(|f|), j), (f[j], j), mapping);
      }
      if j !in ps {
        EntriesAppend(KeepUpTo(f, ps, j), f[j]);
      }
    }
  }

  /** p positions lie below i and the rest do not. */
  ghost predicate Cursor(ps: seq<nat>, p: nat, i: nat) {
    && p <= |ps|
    && (forall j | 0 <= j < p :: ps[j] < i)
    && (forall j | p <= j < |ps| :: ps[j] >= i)
  }

  lemma CursorStep(ps: seq<nat>, p: nat, i: nat, n: nat)
    requires Ascending(ps, n) && Cursor(ps, p, i)
    ensures i in ps <==> p < |ps| && ps[p] == i
    ensures Cursor(ps, if i in ps then p + 1 else p, i + 1)
  {
    if i in ps {
      var j :| 0 <= j < |ps| && ps[j] == i;
      assert p <= j;
    }
  }

  lemma MappingStep(m: seq<int>, ps: seq<nat>, i: nat, v: int)
    requires i < |m| && IsMapping(m, ps, i) && v == if i in ps then -1 else KeptBelow(ps, i)
    ensures IsMapping(m[i := v], ps, i + 1)
  {
  }

  /** The first loop of removeIndex: walk the index and the ascending positions side by side. */
  method MakeMapping(ps: seq<nat>, n: nat) returns (mapping: seq<int>, next: nat)
    requires Ascending(ps, n)
    ensures |mapping| == n && IsMapping(mapping, ps, n) && next == KeptBelow(ps, n)
  {
    mapping := seq(n, _ => 0);
    next := 0;
    var p := 0;
    assert Cursor(ps, p, 0);
    for i := 0 to n
      invariant |mapping| == n && p <= |ps| && Cursor(ps, p, i)
      invariant next == KeptBelow(ps, i) && IsMapping(mapping, ps, i)
    {
      CursorStep(ps, p, i, n);
      MappingStep(mapping, ps, i, if i in ps then -1 else next);
      hide IsMapping, Cursor, Ascending;
      if p < |ps| && ps[p] == i {
        mapping := mapping[i := -1];
        p := p + 1;
      } else {
        mapping := mapping[i := next];
        next := next + 1;
      }
    }
  }

  lemma {:induction false} KeptBelowMonotone(ps: seq<nat>, i: nat, n: nat)
    requires i <= n
    ensures KeptBelow(ps, i) <= KeptBelow(ps, n)
  {
    if i < n {
      KeptBelowMonotone(ps, i, n - 1);
    }
  }

  /** The first entries of kept are the surviving ones among the first i of the column. */
  ghost predicate Squeezed<T>(column: seq<T>, ps: seq<nat>, kept: seq<T>, i: nat) {
    i <= |column| && KeptBelow(ps, i) <= |kept| && kept[..KeptBelow(ps, i)] == KeepUpTo(column, ps, i)
  }

  lemma UpdatePrefix<T>(s: seq<T>, b: nat, x: T)
    requires b < |s|
    ensures s[b := x][..b + 1] == s[..b] + [x]
  {
  }

  lemma KeptStep(ps: seq<nat>, i: nat)
    ensures KeptBelow(ps, i + 1) == KeptBelow(ps, i) + (if i in ps then 0 else 1)
  {
  }

  lemma SqueezeSkip<T>(column: seq<T>, ps: seq<nat>, kept: seq<T>, i: nat)
    requires Squeezed(column, ps, kept, i) && i < |column| && i in ps
    ensures Squeezed(column, ps, kept, i + 1)
  {
    hide KeptBelow, KeepUpTo;
    KeptStep(ps, i);
    KeepStep(column, ps, i);
  }

  lemma SqueezeTake<T>(column: seq<T>, ps: seq<nat>, kept: seq<T>, i: nat)
    requires Squeezed(column, ps, kept, i) && i < |column| && i !in ps && |kept| == KeptBelow(ps, |column|)
    ensures KeptBelow(ps, i) < |kept|
    ensures Squeezed(column, ps, kept[KeptBelow(ps, i) := column[i]], i + 1)
  {
    hide KeptBelow, KeepUpTo;
    KeptBelowMonotone(ps, i + 1, |column|);
    KeptStep(ps, i);
    KeepStep(column, ps, i);
    UpdatePrefix(kept, KeptBelow(ps, i), column[i]);
  }

  lemma SqueezeStart<T>(column: seq<T>, ps: seq<nat>, kept: seq<T>)
    ensures Squeezed(column, ps, kept, 0)
  {
  }

  lemma SqueezeDone<T>(column: seq<T>, ps: seq<nat>, kept: seq<T>)
    requires |kept| == KeptBelow(ps, |column|) && Squeezed(column, ps, kept, |column|)
    ensures kept == Keep(column, ps)
  {
    assert kept[..|kept|] == kept;
  }

  lemma MappingAt(mapping: seq<int>, ps: seq<nat>, i: nat)
    requires IsMapping(mapping, ps, |mapping|) && i < |mapping|
    ensures mapping[i] == if i in ps then -1 else KeptBelow(ps, i)
  {
  }

  /** The second loop of removeIndex: each surviving entry goes where the mapping says. */
  method Squeeze(column: seq<int>, mapping: seq<int>, ghost ps: seq<nat>, next: nat) returns (kept: seq<int>)
    requires |mapping| == |column| && IsMapping(mapping, ps, |column|) && next == KeptBelow(ps, |column|)
    ensures kept == Keep(column, ps)
  {
    hide *;
    kept := seq(next, _ => 0);
    SqueezeStart(column, ps, kept);
    var i := 0;
    while i < |column|
      invariant i <= |column| && |kept| == next && Squeezed(column, ps, kept, i)
    {
      MappingAt(mapping, ps, i);
      if i in ps {
        SqueezeSkip(column, ps, kept, i);
      } else {
        SqueezeTake(column, ps, kept, i);
      }
      if mapping[i] >= 0 {
        kept := kept[mapping[i] := column[i]];
      }
      i := i + 1;
    }
    SqueezeDone(column, ps, kept);
  }

  /**
   The rebuild of remapIDTable: a fresh table holding the old one's entries at their new
   positions. It has room for every survivor, so no insert grows it.
   */
  method Rebuild(old_: IdTable, mapping: seq<int>, survivors: nat, ghost filed: seq<int>) returns (table: IdTable)
    requires old_.Valid() && old_.Entries() == EntriesFor(filed) && |mapping| == |filed|
    requires |Moved(EntriesFor(filed), mapping)| <= survivors
    ensures table.Valid() && fresh(table) && fresh(table.fingerprints) && fresh(table.positions)
    ensures table.Entries() == Moved(EntriesFor(filed), mapping)
  {
    hide EntriesUpTo, EntriesOf, EntriesFor, Moved, IsPowerOfTwo, Chained, MovedEntry;
    table := new IdTable(survivors + 16);
    var fps, poss := old_.fingerprints, old_.positions;
    ghost var keys, vals := fps[..], poss[..];
    ghost var room := table.fingerprints;
    MovedNone(keys, vals, mapping);
    var i := 0;
    while i < fps.Length
      invariant i <= fps.Length && table.Valid()
      invariant fresh(table) && fresh(table.fingerprints) && fresh(table.positions)
      invariant table.fingerprints == room && room.Length >= 2 * (survivors + 16)
      invariant table.Entries() == Moved(EntriesUpTo(keys, vals, i), mapping)
    {
      RebuildStep(filed, keys, vals, i, mapping);
      InsertMoved(table, fps[i], poss[i], mapping);
      i := i + 1;
    }
  }

  lemma MovedNone(keys: seq<int>, vals: seq<int>, mapping: seq<int>)
    requires |keys| == |vals|
    ensures Moved(EntriesUpTo(keys, vals, 0), mapping) == multiset{}
    ensures EntriesUpTo(keys, vals, |keys|) == EntriesOf(keys, vals)
  {
  }

  /** Inserts one old entry at its new position, unless its document is gone. */
  method InsertMoved(table: IdTable, fp: int, pos: int, mapping: seq<int>)
    requires table.Valid() && (fp != 0 ==> 0 <= pos < |mapping|)
    requires fp != 0 && mapping[pos] >= 0 ==> (table.count + 1) * 2 <= table.fingerprints.Length
    modifies table, table.fingerprints, table.positions
    ensures table.Valid()
    ensures table.fingerprints == old(table.fingerprints) && table.positions == old(table.positions)
    ensures table.Entries() ==
            old(table.Entries()) +
            (if fp != 0 && mapping[pos] >= 0 then multiset{(fp, mapping[pos])} else multiset{})
  {
    if fp != 0 {
      var to := mapping[pos];
      if to >= 0 {
        table.Insert(fp, to);
      }
    }
  }

  /** One more slot of the old table: its position is in range and the moved entries still fit. */
  lemma RebuildStep(filed: seq<int>, keys: seq<int>, vals: seq<int>, i: nat, m: seq<int>)
    requires i < |keys| == |vals| && |m| == |filed| && EntriesOf(keys, vals) == EntriesFor(filed)
    ensures keys[i] != 0 ==> 0 <= vals[i] < |m|
    ensures keys[i] == 0 || m[vals[i]] < 0 ==>
              Moved(EntriesUpTo(keys, vals, i + 1), m) == Moved(EntriesUpTo(keys, vals, i), m)
    ensures keys[i] != 0 && m[vals[i]] >= 0 ==>
              (&& Moved(EntriesUpTo(keys, vals, i + 1), m) ==
                  Moved(EntriesUpTo(keys, vals, i), m) + multiset{(keys[i], m[vals[i]])}
               && |Moved(EntriesUpTo(keys, vals, i), m)| + 1 <= |Moved(EntriesFor(filed), m)|)
  {
    PrefixStep(keys, vals, i);
    if keys[i] != 0 {
      var e := (keys[i], vals[i]);
      EntryAt(keys, vals, i, |keys|);
      SlotOfEntry(filed, e);
      var sofar := EntriesUpTo(keys, vals, i);
      PrefixWithin(keys, vals, i + 1, |keys|);
      hide EntriesUpTo, EntriesFor, Moved;
      MovedAdd(sofar, e, m);
      MovedShrinks(sofar + multiset{e}, EntriesFor(filed) - (sofar + multiset{e}), m);
      assert (sofar + multiset{e}) + (EntriesFor(filed) - (sofar + multiset{e})) == EntriesFor(filed);
    }
  }

  lemma {:induction false} PrefixWithin(keys: seq<int>, vals: seq<int>, i: nat, n: nat)
    requires i <= n <= |keys| == |vals|
    ensures EntriesUpTo(keys, vals, i) <= EntriesUpTo(keys, vals, n)
  {
    if i < n {
      PrefixWithin(keys, vals, i, n - 1);
    }
  }

  // ----- the collection -----

  /** Two parallel columns describe an index. */
  ghost predicate Describes(offsets: seq<int>, lengths: seq<int>, s: seq<Slot>) {
    && |offsets| == |lengths| == |s|
    && forall i | 0 <= i < |s| :: offsets[i] == s[i].off && lengths[i] == |s[i].doc|
  }

  /** Every slot's payload lies where the slot says, inside the first size bytes of the file. */
  ghost predicate OnDisk(s: seq<Slot>, file: Bytes, size: nat) {
    size <= |file| && forall i | 0 <= i < |s| :: SlotOnDisk(s[i], file, size)
  }

  ghost predicate SlotOnDisk(x: Slot, file: Bytes, size: nat)
    requires size <= |file|
  {
    x.off + |x.doc| <= size && file[x.off..x.off + |x.doc|] == x.doc
  }

  /** filed files every unmarked slot under its document's _id. */
  ghost predicate FilesAll(k: Codec, s: seq<Slot>, filed: seq<int>) {
    && |filed| == |s|
    && forall i | 0 <= i < |s| && s[i].doc != [] :: filed[i] == FiledAs(k, s[i].doc)
  }

  lemma FilesLength(k: Codec, s: seq<Slot>, filed: seq<int>)
    requires FilesAll(k, s, filed)
    ensures |filed| == |s|
  {
  }

  lemma FilesAppend(k: Codec, s: seq<Slot>, filed: seq<int>, x: Slot)
    requires FilesAll(k, s, filed)
    ensures FilesAll(k, s + [x], filed + [FiledAs(k, x.doc)])
  {
  }

  lemma {:induction false} KeepDescribes(offsets: seq<int>, lengths: seq<int>, s: seq<Slot>, ps: seq<nat>, n: nat)
    requires Describes(offsets, lengths, s) && n <= |s|
    ensures Describes(KeepUpTo(offsets, ps, n), KeepUpTo(lengths, ps, n), KeepUpTo(s, ps, n))
  {
    if n > 0 {
      KeepDescribes(offsets, lengths, s, ps, n - 1);
    }
  }

  lemma SameLengths(offsets: seq<int>, lengths: seq<int>, s: seq<Slot>)
    requires Describes(offsets, lengths, s)
    ensures |offsets| == |lengths| == |s|
    ensures forall i | 0 <= i < |s| :: lengths[i] == |s[i].doc|
  {
  }

  lemma KeepColumns(offsets: seq<int>, lengths: seq<int>, s: seq<Slot>, ps: seq<nat>)
    requires Describes(offsets, lengths, s)
    ensures Describes(Keep(offsets, ps), Keep(lengths, ps), Keep(s, ps))
    ensures |Keep(offsets, ps)| == |Keep(s, ps)|
  {
    KeepDescribes(offsets, lengths, s, ps, |s|);
  }

  lemma {:induction false} KeepFiles(k: Codec, s: seq<Slot>, filed: seq<int>, ps: seq<nat>, n: nat)
    requires FilesAll(k, s, filed) && n <= |s|
    ensures FilesAll(k, KeepUpTo(s, ps, n), KeepUpTo(filed, ps, n))
  {
    if n > 0 {
      KeepFiles(k, s, filed, ps, n - 1);
    }
  }

  /** A table, if there is one, holds exactly the filed entries. */
  ghost predicate Tabulates(t: IdTable?, filed: seq<int>)
    reads if t == null then {} else var u: IdTable := t; {u, u.fingerprints, u.positions}
  {
    t != null ==> t.Valid() && t.Entries() == EntriesFor(filed)
  }

  /** The table of the surviving slots is the old table moved along the mapping, and it fits. */
  lemma KeepTable(k: Codec, s: seq<Slot>, filed: seq<int>, ps: seq<nat>, mapping: seq<int>)
    requires FilesAll(k, s, filed) && |mapping| == |s| && IsMapping(mapping, ps, |s|)
    ensures FilesAll(k, Keep(s, ps), Keep(filed, ps))
    ensures Moved(EntriesFor(filed), mapping) == EntriesFor(Keep(filed, ps))
    ensures |Moved(EntriesFor(filed), mapping)| <= |Keep(s, ps)| && |filed| == |s|
  {
    KeepFiles(k, s, filed, ps, |s|);
    MovedIsKept(filed, mapping, ps, |filed|);
    EntriesFit(Keep(filed, ps), |Keep(filed, ps)|);
  }

  class Collection {
    const name: string
    const id: Word16
    var offsets: seq<int>
    var lengths: seq<int>
    var dirty: bool
    var ids: IdTable?
    ghost var slots: seq<Slot>   // the index with its payloads
    ghost var filed: seq<int>    // per slot, the fingerprint the table holds for it

    ghost function Footprint(): set<object>
      reads this, ids
    {
      if ids == null then {this}
      else
        var t: IdTable := ids;
        {this, t, t.fingerprints, t.positions}
    }

    /** Whatever the collection is made of now was part of it before or is newly allocated. */
    twostate predicate Grown()
      reads this, ids
    {
      forall o | o in Footprint() :: o in old(Footprint()) || fresh(o)
    }

    /** Nothing the collection is made of has changed. */
    twostate predicate Untouched()
      reads this, Footprint()
    {
      unchanged(this) && (ids != null ==> unchanged(ids) && unchanged(ids.fingerprints) && unchanged(ids.positions))
    }

    /** The collection as a value. */
    ghost function View(): Coll
      reads this
    {
      Coll(name, slots, dirty, ids != null)
    }

    ghost predicate TableOk(k: Codec)
      reads this, Footprint()
    {
      Tabulates(ids, filed) && (ids != null ==> FilesAll(k, slots, filed))
    }

    ghost predicate Valid(k: Codec)
      reads this, Footprint()
    {
      Describes(offsets, lengths, slots) && TableOk(k)
    }

    constructor (id: Word16, name: string)
      ensures this.id == id && this.name == name
      ensures View() == Coll(name, [], false, false)
      ensures forall k: Codec :: Valid(k)
    {
      this.id, this.name := id, name;
      offsets, lengths, dirty, ids := [], [], false, null;
      slots, filed := [], [];
    }

    /** Records where a newly written document lives. */
    method AppendIndex(off: nat, length: nat, ghost doc: Bytes)
      requires Describes(offsets, lengths, slots) && |doc| == length
      modifies this`offsets, this`lengths, this`slots
      ensures Describes(offsets, lengths, slots) && slots == old(slots) + [Slot(off, doc)]
    {
      offsets := offsets + [off];
      lengths := lengths + [length];
      slots := slots + [Slot(off, doc)];
    }

    /** Files the last slot under an _id. */
    method FileLast(k: Codec, docID: string)
      requires ids != null && Tabulates(ids, filed)
      requires |offsets| == |slots| == |filed| + 1 && FilesAll(k, slots[..|filed|], filed)
      requires k.fingerprint(docID) != 0
      requires FiledAs(k, slots[|filed|].doc) == if docID == "" then 0 else k.fingerprint(docID)
      modifies this`filed, ids, ids.fingerprints, ids.positions
      ensures ids == old(ids) && TableOk(k) && Grown()
    {
      hide FilesAll, EntriesFor, EntriesUpTo;
      ghost var fp := FiledAs(k, slots[|filed|].doc);
      FilesAppend(k, slots[..|filed|], filed, slots[|filed|]);
      assert slots == slots[..|filed|] + [slots[|filed|]];
      EntriesAppend(filed, fp);
      if docID != "" {
        ids.Insert(k.fingerprint(docID), |offsets| - 1);
      }
      filed := filed + [fp];
    }

    /** Publishes a newly written document: its index entry, and its table entry if there is a table. */
    method Publish(k: Codec, off: nat, length: nat, docID: string, ghost doc: Bytes)
      requires k.Lawful() && Valid(k) && |doc| == length && Carries(k, doc, docID)
      modifies Footprint()
      ensures Valid(k) && View() == old(View()).(slots := old(slots) + [Slot(off, doc)])
      ensures Grown()
    {
      hide FilesAll, EntriesFor, Describes, Tabulates;
      SameLengths(offsets, lengths, slots);
      AppendIndex(off, length, doc);
      SameLengths(offsets, lengths, slots);
      if ids != null {
        FilesLength(k, old(slots), filed);
        assert slots[..|filed|] == old(slots);
        FileLast(k, docID);
      }
    }

    /**
     Replay's insert: the index entry and, once there is a table, the table entry. A payload that
     was skipped over is only ever that of a collection without a table.
     */
    method ReplayInsert(k: Codec, off: nat, length: nat, payload: Bytes, ghost doc: Bytes) returns (ok: bool)
      requires k.Lawful() && Valid(k) && |doc| == length && (ids != null ==> payload == doc)
      modifies Footprint()
      ensures ok <==> old(ids) == null || k.probe(doc).Some?
      ensures ok ==> Valid(k) && View() == old(View()).(slots := old(slots) + [Slot(off, doc)])
      ensures Grown()
    {
      hide FilesAll, EntriesFor, Describes, Tabulates;
      SameLengths(offsets, lengths, slots);
      AppendIndex(off, length, doc);
      SameLengths(offsets, lengths, slots);
      ok := true;
      if ids != null {
        var docID := k.probe(payload);
        if docID == None {
          return false;
        }
        FilesLength(k, old(slots), filed);
        assert slots[..|filed|] == old(slots);
        FileLast(k, docID.value);
      }
    }

    /** Moves the document at position i to a newly written record, in fresh columns. */
    method ReplaceIndex(k: Codec, i: nat, off: nat, length: nat, ghost doc: Bytes)
      requires Valid(k) && i < |slots| && |doc| == length
      requires slots[i].doc != [] && FiledAs(k, slots[i].doc) == FiledAs(k, doc)
      modifies this`offsets, this`lengths, this`slots
      ensures Valid(k) && View() == old(View()).(slots := old(slots)[i := Slot(off, doc)])
    {
      hide Describes, FilesAll, Tabulates;
      DescribesSet(offsets, lengths, slots, i, off, doc);
      if ids != null {
        FilesSet(k, slots, filed, i, off, doc);
      }
      var newOffsets, newLengths := offsets[i := off], lengths[i := length];
      offsets, lengths := newOffsets, newLengths;
      slots := slots[i := Slot(off, doc)];
    }

    /** From here on the file holds records of this collection that the index does not point at. */
    method SetDirty(ghost k: Codec)
      requires Valid(k)
      modifies this`dirty
      ensures Valid(k) && View() == old(View()).(dirty := true)
    {
      hide Describes, FilesAll, Tabulates;
      dirty := true;
    }

    /**
     Drops the documents at the given positions, building fresh columns and moving the _id table
     along the mapping of old positions to new ones.
     */
    method RemoveIndex(k: Codec, ps: seq<nat>)
      requires Valid(k) && Ascending(ps, |slots|)
      modifies this
      ensures Valid(k) && slots == Keep(old(slots), ps)
      ensures dirty == old(dirty) && (ids == null <==> old(ids) == null)
      ensures Grown()
    {
      if |ps| == 0 {
        KeepAll(slots, ps, |slots|);
        return;
      }
      var mapping, next := MakeMapping(ps, |offsets|);
      Reindex(k, ps, mapping, next);
    }

    /** The rest of RemoveIndex, once the mapping is known. */
    method Reindex(k: Codec, ghost ps: seq<nat>, mapping: seq<int>, next: nat)
      requires Valid(k) && |mapping| == |slots| && IsMapping(mapping, ps, |slots|) && next == KeptBelow(ps, |slots|)
      modifies this
      ensures Valid(k) && slots == Keep(old(slots), ps)
      ensures dirty == old(dirty) && (ids == null <==> old(ids) == null)
      ensures fresh(Footprint() - {this})
    {
      hide Describes, FilesAll, IsMapping, EntriesFor, EntriesOf, Moved, Keep, KeptBelow, Tabulates;
      SameLengths(offsets, lengths, slots);
      var newOffsets := Squeeze(offsets, mapping, ps, next);
      var newLengths := Squeeze(lengths, mapping, ps, next);
      KeepColumns(offsets, lengths, slots, ps);
      if ids != null {
        KeepTable(k, slots, filed, ps, mapping);
      }
      RemapIDTable(mapping, |newOffsets|, ps);
      offsets, lengths, slots := newOffsets, newLengths, Keep(slots, ps);
    }

    /** Moves the _id table, if there is one, along a mapping of positions. */
    method RemapIDTable(mapping: seq<int>, survivors: nat, ghost ps: seq<nat>)
      requires Tabulates(ids, filed)
      requires ids != null ==>
                 (&& |mapping| == |filed| && Moved(EntriesFor(filed), mapping) == EntriesFor(Keep(filed, ps))
                  && |Moved(EntriesFor(filed), mapping)| <= survivors)
      modifies this`ids, this`filed
      ensures (ids == null <==> old(ids) == null) && Tabulates(ids, filed)
      ensures ids != null ==> filed == Keep(old(filed), ps)
      ensures fresh(Footprint() - {this})
    {
      hide EntriesFor, EntriesOf, Moved, Keep, Chained, IsPowerOfTwo;
      if ids == null {
        return;
      }
      ids := Rebuild(ids, mapping, survivors, filed);
      filed := Keep(filed, ps);
    }

    /** Replay's mark: the slot's length becomes zero in place, its table entry stays. */
    method MarkSlot(k: Codec, i: nat)
      requires Valid(k) && i < |slots|
      modifies this`lengths, this`slots, this`dirty
      ensures Valid(k) && View() == old(View()).(slots := old(slots)[i := old(slots)[i].Mark()], dirty := true)
    {
      hide Describes, FilesAll, Tabulates;
      DescribesMark(offsets, lengths, slots, i);
      if ids != null {
        FilesMark(k, slots, filed, i);
      }
      lengths := lengths[i := 0];
      slots := slots[i := slots[i].Mark()];
      dirty := true;
    }

    /** Replay's repointing: both columns change in place; the _id and its table entry are unchanged. */
    method RepointSlot(k: Codec, i: nat, off: nat, length: nat, ghost doc: Bytes)
      requires Valid(k) && i < |slots| && |doc| == length
      requires slots[i].doc != [] && FiledAs(k, slots[i].doc) == FiledAs(k, doc)
      modifies this`offsets, this`lengths, this`slots, this`dirty
      ensures Valid(k) && View() == old(View()).(slots := old(slots)[i := Slot(off, doc)], dirty := true)
    {
      hide Describes, FilesAll, Tabulates;
      DescribesSet(offsets, lengths, slots, i, off, doc);
      if ids != null {
        FilesSet(k, slots, filed, i, off, doc);
      }
      offsets := offsets[i := off];
      lengths := lengths[i := length];
      slots := slots[i := Slot(off, doc)];
      dirty := true;
    }

    /** The payload of slot i, read from the file. */
    method ReadDoc(file: Bytes, ghost size: nat, i: nat) returns (doc: Bytes)
      requires Describes(offsets, lengths, slots) && OnDisk(slots, file, size) && i < |slots|
      ensures doc == slots[i].doc
    {
      assert SlotOnDisk(slots[i], file, size);
      doc := file[offsets[i]..offsets[i] + lengths[i]];
    }

    /**
     Builds the _id table if there is none, reading every document; a document whose _id cannot
     be read fails the build and leaves everything as it was.
     */
    method EnsureIDTable(k: Codec, file: Bytes, ghost size: nat) returns (ok: bool)
      requires k.Lawful() && Valid(k) && OnDisk(slots, file, size)
      modifies this`ids, this`filed
      ensures ok <==> CanIndex(k, old(View()))
      ensures ok ==> Valid(k) && View() == old(View()).(indexed := true)
      ensures !ok ==> Valid(k) && ids == old(ids) && filed == old(filed)
      ensures ok && old(ids) == null ==> ids.Ordered()
      ensures Grown()
    {
      hide Describes, FilesAll, Tabulates, OnDisk, EntriesFor;
      if ids != null {
        return true;
      }
      var table, f, built := BuildTable(k, file, size);
      if !built {
        return false;
      }
      ids, filed := table, f;
      return true;
    }

    /** The loop of ensureIDTable. */
    method BuildTable(k: Codec, file: Bytes, ghost size: nat) returns (table: IdTable, ghost f: seq<int>, built: bool)
      requires k.Lawful() && Describes(offsets, lengths, slots) && OnDisk(slots, file, size)
      ensures fresh(table) && fresh(table.fingerprints) && fresh(table.positions)
      ensures built <==> forall i | 0 <= i < |slots| :: k.probe(slots[i].doc).Some?
      ensures built ==> Tabulates(table, f) && FilesAll(k, slots, f) && table.Ordered()
    {
      hide FilesAll, OnDisk, EntriesFor, Describes, Tabulates, IdTable.Ordered;
      table := new IdTable(|offsets| + 16);
      f, built := [], true;
      NothingFiled(k, table);
      SameLengths(offsets, lengths, slots);
      var i := 0;
      while i < |offsets|
        invariant i <= |slots| && |f| == i && built
        invariant fresh(table) && fresh(table.fingerprints) && fresh(table.positions)
        invariant Tabulates(table, f) && FilesAll(k, slots[..i], f)
        invariant table.Ordered() && table.fingerprints.Length >= 2 * (|slots| + 16)
        invariant forall j | 0 <= j < i :: k.probe(slots[j].doc).Some?
      {
        var doc := ReadDoc(file, size, i);
        var id := k.probe(doc);
        if id == None {
          built := false;
          return;
        }
        FilesAppend(k, slots[..i], f, slots[i]);
        assert slots[..i] + [slots[i]] == slots[..i + 1];
        FileNext(k, table, f, id.value, i);
        f := f + [FiledAs(k, doc)];
        i := i + 1;
      }
      assert slots[..i] == slots;
    }

    /** Enters the document at position i under its _id, if it has one. */
    static method FileNext(k: Codec, table: IdTable, ghost f: seq<int>, docID: string, i: nat)
      requires Tabulates(table, f) && |f| == i && k.fingerprint(docID) != 0
      requires table.Ordered() && 2 * (i + 1) <= table.fingerprints.Length
      modifies table, table.fingerprints, table.positions
      ensures Tabulates(table, f + [if docID == "" then 0 else k.fingerprint(docID)])
      ensures table.Ordered() && table.fingerprints.Length == old(table.fingerprints.Length)
      ensures table.fingerprints == old(table.fingerprints) || fresh(table.fingerprints)
      ensures table.positions == old(table.positions) || fresh(table.positions)
    {
      hide EntriesFor, EntriesOf, Chained, IsPowerOfTwo, IdTable.Ordered;
      EntriesAppend(f, if docID == "" then 0 else k.fingerprint(docID));
      FiledBelow(f);
      if docID != "" {
        table.Insert(k.fingerprint(docID), i);
      }
    }

    /**
     The slot holding the document with this _id. A fingerprint match is only a candidate: marked
     slots are skipped, and a match is confirmed by reading the document.
     */
    method LookupID(k: Codec, file: Bytes, ghost size: nat, docID: string) returns (pos: Option<nat>, ok: bool)
      requires k.Lawful() && Valid(k) && OnDisk(slots, file, size) && docID != ""
      ensures ids == null ==> ok && pos == None
      ensures pos.Some? ==> ok && Holds(k, slots, docID, pos.value)
      ensures ids != null && ok && pos == None ==> !Blocked(k, slots, docID)
      ensures !ok ==> exists i: nat :: Hides(k, slots, docID, i)
      ensures pos.Some? && ids.Ordered() ==> forall i: nat | i < pos.value :: !Holds(k, slots, docID, i)
    {
      hide Describes, FilesAll, OnDisk, EntriesFor, HasId, Holds, Hides, IdTable.Ordered, Blocked;
      pos, ok := None, true;
      if ids == null {
        return;
      }
      var offs, lens := offsets, lengths;
      var stop := (p: int) => Stops(k, file, offs, lens, docID, p);
      Confirmed(k, file, size, offs, lens, slots, docID);
      var visited := ids.ForEachCandidate(k.fingerprint(docID), stop);
      if visited == [] || !stop(visited[|visited| - 1]) {
        NoneVisited(k, slots, filed, docID, visited);
        return;
      }
      var last := visited[|visited| - 1];
      LastFiled(k, slots, filed, docID, last);
      if !IsDocument(k, file, offs, lens, docID, last) {
        return None, false;
      }
      NoneBefore(k, slots, filed, docID, visited);
      pos := Some(last);
    }

    /** Phase two of replay: the marked slots come out in one pass. */
    method CompactMarkedSlots(k: Codec)
      requires Valid(k)
      modifies this
      ensures Valid(k) && slots == Unmarked(old(slots))
      ensures dirty == old(dirty) && (ids == null <==> old(ids) == null)
      ensures Grown()
    {
      hide FilesAll, Tabulates, Unmarked, Keep, Describes;
      SameLengths(offsets, lengths, slots);
      var ps := MarkedPositions(lengths, slots);
      RemoveIndex(k, ps);
    }

    /** The positions of the zero-length entries, ascending. */
    static method MarkedPositions(lens: seq<int>, ghost s: seq<Slot>) returns (ps: seq<nat>)
      requires |lens| == |s| && forall i | 0 <= i < |s| :: lens[i] == |s[i].doc|
      ensures Ascending(ps, |s|) && Keep(s, ps) == Unmarked(s)
    {
      ps := [];
      var i := 0;
      while i < |lens|
        invariant i <= |lens| && Ascending(ps, i)
        invariant forall j: nat | j < i :: j in ps <==> lens[j] == 0
      {
        if lens[i] == 0 {
          ps := ps + [i];
        }
        i := i + 1;
      }
      KeepIsUnmarked(s, ps, |s|);
    }
  }

  /** The check a candidate must pass: not a mark, and its document carries the _id. */
  predicate IsDocument(k: Codec, file: Bytes, offs: seq<int>, lens: seq<int>, docID: string, p: int) {
    && 0 <= p < |offs| && p < |lens| && lens[p] > 0
    && 0 <= offs[p] && offs[p] + lens[p] <= |file|
    && k.probe(file[offs[p]..offs[p] + lens[p]]) == Some(docID)
  }

  /** A candidate ends the search when it passes, or when it is not a mark and cannot be read. */
  predicate Stops(k: Codec, file: Bytes, offs: seq<int>, lens: seq<int>, docID: string, p: int) {
    && 0 <= p < |offs| && p < |lens| && lens[p] > 0
    && 0 <= offs[p] && offs[p] + lens[p] <= |file|
    && (k.probe(file[offs[p]..offs[p] + lens[p]]) == Some(docID) || k.probe(file[offs[p]..offs[p] + lens[p]]) == None)
  }

  /** Slot p is a document that payloadID cannot read. */
  ghost predicate Unread(k: Codec, s: seq<Slot>, p: int) {
    0 <= p < |s| && s[p].doc != [] && k.probe(s[p].doc) == None
  }

  lemma Confirmed(k: Codec, file: Bytes, size: nat, offs: seq<int>, lens: seq<int>, s: seq<Slot>, docID: string)
    requires Describes(offs, lens, s) && OnDisk(s, file, size)
    ensures forall p: int :: IsDocument(k, file, offs, lens, docID, p) <==> 0 <= p && Holds(k, s, docID, p)
    ensures forall p: int ::
              Stops(k, file, offs, lens, docID, p) <==> (0 <= p && Holds(k, s, docID, p)) || Unread(k, s, p)
  {
    forall p: int
      ensures IsDocument(k, file, offs, lens, docID, p) <==> 0 <= p && Holds(k, s, docID, p)
      ensures Stops(k, file, offs, lens, docID, p) <==> (0 <= p && Holds(k, s, docID, p)) || Unread(k, s, p)
    {
      if 0 <= p < |s| {
        assert SlotOnDisk(s[p], file, size);
      }
    }
  }

  /** When no candidate of an _id's fingerprint ended the search, no slot holds or hides it. */
  lemma NoneVisited(k: Codec, s: seq<Slot>, filed: seq<int>, docID: string, visited: seq<int>)
    requires k.Lawful() && FilesAll(k, s, filed) && docID != ""
    requires forall p: int :: (k.fingerprint(docID), p) in EntriesFor(filed) ==> p in visited
    requires forall i | 0 <= i < |visited| ::
               !(0 <= visited[i] && Holds(k, s, docID, visited[i])) && !Unread(k, s, visited[i])
    ensures !Blocked(k, s, docID)
  {
    forall i: nat | Holds(k, s, docID, i) || Hides(k, s, docID, i)
      ensures false
    {
      EntryOfSlot(filed, i, |filed|);
    }
  }

  /** A candidate that could not be read hides the _id. */
  lemma LastFiled(k: Codec, s: seq<Slot>, filed: seq<int>, docID: string, p: int)
    requires FilesAll(k, s, filed) && (k.fingerprint(docID), p) in EntriesFor(filed)
    ensures 0 <= p < |s| && (Unread(k, s, p) ==> Hides(k, s, docID, p))
  {
    SlotOfEntry(filed, (k.fingerprint(docID), p));
  }

  /** In a table that meets lower positions first, the document found is the first that holds the _id. */
  lemma NoneBefore(k: Codec, s: seq<Slot>, filed: seq<int>, docID: string, visited: seq<int>)
    requires k.Lawful() && FilesAll(k, s, filed) && docID != "" && visited != []
    requires forall i | 0 <= i < |visited| - 1 :: !(0 <= visited[i] && Holds(k, s, docID, visited[i]))
    ensures var last := visited[|visited| - 1];
            (forall p: int ::
               (k.fingerprint(docID), p) in EntriesFor(filed) && p < last ==> p in visited[..|visited| - 1])
            ==> forall i: nat | i < last :: !Holds(k, s, docID, i)
  {
    var last, before := visited[|visited| - 1], visited[..|visited| - 1];
    if forall p: int :: (k.fingerprint(docID), p) in EntriesFor(filed) && p < last ==> p in before {
      forall i: nat | i < last && Holds(k, s, docID, i)
        ensures false
      {
        EntryOfSlot(filed, i, |filed|);
      }
    }
  }

  lemma {:induction false} KeepIsUnmarked(s: seq<Slot>, ps: seq<nat>, n: nat)
    requires n <= |s| && forall j: nat | j < n :: j in ps <==> s[j].doc == []
    ensures KeepUpTo(s, ps, n) == UnmarkedUpTo(s, n)
  {
    if n > 0 {
      KeepIsUnmarked(s, ps, n - 1);
    }
  }

  lemma FiledBelow(f: seq<int>)
    ensures forall e <- EntriesFor(f) :: e.1 < |f|
    ensures |EntriesFor(f)| <= |f|
  {
    forall e <- EntriesFor(f)
      ensures e.1 < |f|
    {
      SlotOfEntry(f, e);
    }
    EntriesFit(f, |f|);
  }

  lemma NothingFiled(k: Codec, table: IdTable)
    requires table.Valid() && table.Entries() == multiset{}
    ensures Tabulates(table, []) && FilesAll(k, [], [])
  {
  }

  lemma DescribesMark(offsets: seq<int>, lengths: seq<int>, s: seq<Slot>, i: nat)
    requires Describes(offsets, lengths, s) && i < |s|
    ensures i < |lengths| && Describes(offsets, lengths[i := 0], s[i := s[i].Mark()])
  {
  }

  lemma DescribesSet(offsets: seq<int>, lengths: seq<int>, s: seq<Slot>, i: nat, off: nat, doc: Bytes)
    requires Describes(offsets, lengths, s) && i < |s|
    ensures i < |lengths| == |offsets|
    ensures Describes(offsets[i := off], lengths[i := |doc|], s[i := Slot(off, doc)])
  {
  }

  lemma FilesMark(k: Codec, s: seq<Slot>, filed: seq<int>, i: nat)
    requires FilesAll(k, s, filed) && i < |s|
    ensures FilesAll(k, s[i := s[i].Mark()], filed)
  {
  }

  lemma FilesSet(k: Codec, s: seq<Slot>, filed: seq<int>, i: nat, off: nat, doc: Bytes)
    requires FilesAll(k, s, filed) && i < |s| && s[i].doc != []
    requires FiledAs(k, doc) == FiledAs(k, s[i].doc)
    ensures FilesAll(k, s[i := Slot(off, doc)], filed)
  {
  }
}
