/**
 The database's in-memory state as a value, the codec the engine calls out to, and the four
 elementary changes a record makes to the state (nosqlite.go, catalog.go, collection.go).
 */
module Database {
  import opened Wrappers
  import opened Framing
  import opened Slots

  datatype Definition = Definition(id: Word16, name: string)

  /**
   encoding/json, CRC-32 and FNV-1a as the engine sees them. A document's _id is read in two ways:
   payloadID decodes a struct with one tagged field, which also picks up a key that differs from
   _id in case only, and a scan decodes the whole document and takes the exact key.
   */
  datatype Codec = Codec(
    crc: Checksum,
    probe: Bytes -> Option<string>,          // payloadID: None when undecodable, Some("") when there is no _id
    exact: Bytes -> string,                  // the whole document's _id: "" when absent or not a string
    fingerprint: string -> int,
    decodeDefinition: Bytes -> Option<Definition>,
    encodeDefinition: Definition -> Bytes,
    tombstone: string -> Bytes)
  {
    ghost predicate Lawful() {
      && probe([]) == None
      && (forall d: Definition :: decodeDefinition(encodeDefinition(d)) == Some(d))
      && (forall id: string :: probe(tombstone(id)) == Some(id))
      && (forall id: string :: fingerprint(id) != 0)
    }
  }

  /** A collection: its index in insertion order, and whether an _id table has been built. */
  datatype Coll = Coll(name: string, slots: seq<Slot>, dirty: bool, indexed: bool)

  /** The fields of DB that the log determines; `names` is the catalog, `size` the append point. */
  datatype Db = Db(size: nat, total: int, dead: nat, nextID: Word16,
                   names: map<string, Word16>, byID: map<Word16, Coll>)

  function Empty(): Db {
    Db(FILE_HEADER, 0, 0, 1, map[], map[])
  }

  predicate IsNameChar(c: char) {
    'a' <= c <= 'z' || 'A' <= c <= 'Z' || '0' <= c <= '9' || c == '_' || c == '-'
  }

  predicate ValidName(name: string) {
    0 < |name| <= 64 && forall c <- name :: IsNameChar(c)
  }

  // ----- elementary changes -----

  /** registerCollection: both maps gain the collection and nextID moves past it, wrapping at 16 bits. */
  function Register(db: Db, id: Word16, name: string): Db {
    db.(names := db.names[name := id],
        byID := db.byID[id := Coll(name, [], false, false)],
        nextID := if id >= db.nextID then (id + 1) % 0x1_0000 else db.nextID)
  }

  function Advance(db: Db, bytes: nat): Db {
    db.(size := db.size + bytes)
  }

  /** A define record: the append point moves and the collection is registered. */
  function Define(db: Db, d: Definition, payload: Bytes): Db {
    Advance(Register(db, d.id, d.name), RECORD_HEADER + |payload|)
  }

  /** The slot of a payload whose record is appended now. */
  function NewSlot(db: Db, payload: Bytes): Slot {
    Slot(db.size + RECORD_HEADER, payload)
  }

  /** A new document at the end of the index. */
  function AddDoc(db: Db, coll: Word16, payload: Bytes): Db
    requires coll in db.byID
  {
    var c := db.byID[coll];
    Advance(db, RECORD_HEADER + |payload|).(
      total := db.total + 1,
      byID := db.byID[coll := c.(slots := c.slots + [NewSlot(db, payload)])])
  }

  /** A new version of the document in slot i; the old record is dead. */
  function RepointDoc(db: Db, coll: Word16, i: nat, payload: Bytes): Db
    requires coll in db.byID && i < |db.byID[coll].slots|
  {
    var c := db.byID[coll];
    Advance(db, RECORD_HEADER + |payload|).(
      dead := db.dead + c.slots[i].Size(),
      byID := db.byID[coll := c.(slots := c.slots[i := NewSlot(db, payload)], dirty := true)])
  }

  /** What a tombstone does to the counters and the dirty flag, given the index it leaves behind. */
  function Bury(db: Db, coll: Word16, i: nat, tomb: Bytes, left: seq<Slot>): Db
    requires coll in db.byID && i < |db.byID[coll].slots|
  {
    var c := db.byID[coll];
    Advance(db, RECORD_HEADER + |tomb|).(
      dead := db.dead + c.slots[i].Size() + (RECORD_HEADER + |tomb|),
      total := db.total - 1,
      byID := db.byID[coll := c.(slots := left, dirty := true)])
  }

  /** The live path: the slot is removed outright. */
  function DropDoc(db: Db, coll: Word16, i: nat, tomb: Bytes): Db
    requires coll in db.byID && i < |db.byID[coll].slots|
  {
    Bury(db, coll, i, tomb, RemoveAt(db.byID[coll].slots, i))
  }

  /** The replay path: the slot is emptied and keeps its place. */
  function MarkDoc(db: Db, coll: Word16, i: nat, tomb: Bytes): Db
    requires coll in db.byID && i < |db.byID[coll].slots|
  {
    var s := db.byID[coll].slots;
    Bury(db, coll, i, tomb, s[i := s[i].Mark()])
  }

  /** Notes that a collection's _id table exists. */
  function SetIndexed(db: Db, coll: Word16): Db
    requires coll in db.byID
  {
    db.(byID := db.byID[coll := db.byID[coll].(indexed := true)])
  }

  // ----- documents and their _ids -----

  /** Slot i is a document whose _id is id. */
  ghost predicate Holds(k: Codec, s: seq<Slot>, id: string, i: nat) {
    i < |s| && s[i].doc != [] && k.probe(s[i].doc) == Some(id)
  }

  ghost predicate HasId(k: Codec, s: seq<Slot>, id: string) {
    exists i: nat :: Holds(k, s, id, i)
  }

  /** A payload carries this _id: the whole document says so, and payloadID says so or cannot read it. */
  ghost predicate Carries(k: Codec, payload: Bytes, id: string) {
    k.exact(payload) == id && (k.probe(payload) == None || k.probe(payload) == Some(id))
  }

  /** The two ways of reading a document's _id agree, as far as payloadID can read it. */
  ghost predicate Plain(k: Codec, doc: Bytes) {
    Carries(k, doc, k.exact(doc))
  }

  /** Slot i is a document that carries the _id, whether or not payloadID can read it. */
  ghost predicate Bears(k: Codec, s: seq<Slot>, id: string, i: nat) {
    i < |s| && s[i].doc != [] && k.exact(s[i].doc) == id
  }

  ghost predicate InUse(k: Codec, s: seq<Slot>, id: string) {
    exists i: nat :: Bears(k, s, id, i)
  }

  /** Every slot is a document with a usable _id, and no two share one. */
  ghost predicate IdsOk(k: Codec, s: seq<Slot>) {
    && (forall i | 0 <= i < |s| :: Plain(k, s[i].doc) && s[i].doc != [] && k.exact(s[i].doc) != "")
    && (forall i, j | 0 <= i < j < |s| :: k.exact(s[i].doc) != k.exact(s[j].doc))
  }

  // ----- the _id table's view of documents -----

  /**
   The fingerprint a document is filed under, or 0 when it has no usable _id. One that payloadID
   cannot read is only ever filed by the call that writes it, which knows the _id.
   */
  function FiledAs(k: Codec, doc: Bytes): int {
    var id := match k.probe(doc) case None => k.exact(doc) case Some(id) => id;
    if id == "" then 0 else k.fingerprint(id)
  }

  /** payloadID can read every document of an index. */
  ghost predicate AllRead(k: Codec, s: seq<Slot>) {
    forall i | 0 <= i < |s| && s[i].doc != [] :: k.probe(s[i].doc).Some?
  }

  /** Building a collection's _id table reads every document indexed so far. */
  ghost predicate CanIndex(k: Codec, c: Coll) {
    c.indexed || forall i | 0 <= i < |c.slots| :: k.probe(c.slots[i].doc).Some?
  }

  /** Slot i is a document a lookup of the _id comes upon and cannot read. */
  ghost predicate Hides(k: Codec, s: seq<Slot>, id: string, i: nat) {
    i < |s| && s[i].doc != [] && k.probe(s[i].doc) == None && FiledAs(k, s[i].doc) == k.fingerprint(id)
  }

  /** A lookup of the _id finds a document or fails on one it cannot read. */
  ghost predicate Blocked(k: Codec, s: seq<Slot>, id: string) {
    HasId(k, s, id) || exists i: nat :: Hides(k, s, id, i)
  }

  /** An _id in use blocks a lookup of it. */
  lemma InUseBlocks(k: Codec, s: seq<Slot>, id: string)
    requires IdsOk(k, s) && id != "" && InUse(k, s, id)
    ensures Blocked(k, s, id)
  {
    var i: nat :| Bears(k, s, id, i);
    assert Holds(k, s, id, i) || Hides(k, s, id, i);
  }
}
