/**
 A codec that meets every law the model asks of one, and a first session on a new database: the
 laws and the operations' preconditions can all be met at once.
 */
module Witness {
  import opened Wrappers
  import opened Framing
  import opened Database
  import opened Collections
  import opened Live
  import opened Scan
  import opened Steps
  import opened Store

  function PutChar(c: char): (b: Bytes)
    ensures |b| == 3
  {
    var n := c as int;
    [(n % 0x100) as Byte, (n / 0x100 % 0x100) as Byte, (n / 0x1_0000 % 0x100) as Byte]
  }

  function GetChar(b: Bytes): Option<char>
    requires |b| == 3
  {
    var n := b[0] as int + 0x100 * (b[1] as int) + 0x1_0000 * (b[2] as int);
    if 0 <= n < 0xD800 || 0xE000 <= n < 0x11_0000 then Some(n as char) else None
  }

  function PutString(s: string): Bytes {
    if s == "" then [] else PutChar(s[0]) + PutString(s[1..])
  }

  function GetString(b: Bytes): Option<string> {
    if b == [] then Some("")
    else if |b| < 3 then None
    else
      match (GetChar(b[..3]), GetString(b[3..]))
      case (Some(c), Some(s)) => Some([c] + s)
      case _ => None
  }

  lemma CharRoundTrip(c: char)
    ensures GetChar(PutChar(c)) == Some(c)
  {
  }

  lemma {:induction false} StringRoundTrip(s: string)
    ensures GetString(PutString(s)) == Some(s)
  {
    if s != "" {
      StringRoundTrip(s[1..]);
      CharRoundTrip(s[0]);
      var a, b := PutChar(s[0]), PutString(s[1..]);
      assert (a + b)[..3] == a && (a + b)[3..] == b;
      assert [s[0]] + s[1..] == s;
      hide PutChar, GetChar;
    }
  }

  /** A payload is a tag byte and its _id. */
  function ReadID(b: Bytes): Option<string> {
    if b == [] then None else GetString(b[1..])
  }

  function WriteID(tag: Byte, id: string): Bytes {
    [tag] + PutString(id)
  }

  function SampleCodec(): Codec {
    Codec(_ => 0,
          ReadID,
          (b: Bytes) => match ReadID(b) case None => "" case Some(id) => id,
          _ => 1,
          (b: Bytes) =>
            if |b| < 2 then None
            else match GetString(b[2..]) case None => None case Some(name) => Some(Definition(FromLe16(b[..2]), name)),
          (d: Definition) => Le16(d.id) + PutString(d.name),
          (id: string) => WriteID(0, id))
  }

  lemma IDRoundTrip(tag: Byte, id: string)
    ensures ReadID(WriteID(tag, id)) == Some(id)
  {
    StringRoundTrip(id);
    assert WriteID(tag, id)[1..] == PutString(id);
  }

  lemma SampleCodecIsLawful()
    ensures SampleCodec().Lawful()
    ensures forall id: string :: WriteID(1, id) != [] && Carries(SampleCodec(), WriteID(1, id), id)
  {
    hide GetString, PutString, Le16, FromLe16;
    forall d: Definition
      ensures SampleCodec().decodeDefinition(SampleCodec().encodeDefinition(d)) == Some(d)
    {
      Le16RoundTrip(d.id);
      StringRoundTrip(d.name);
      var b := Le16(d.id) + PutString(d.name);
      assert b[..2] == Le16(d.id) && b[2..] == PutString(d.name);
    }
    forall tag: Byte, id: string
      ensures ReadID(WriteID(tag, id)) == Some(id)
    {
      IDRoundTrip(tag, id);
    }
  }

  /** A new database, its first collection and its first document. */
  method FirstSession(created: Bytes, id: string) returns (db: DB, ghost e: Effect)
    requires |created| == 8 && id != ""
    ensures db.Valid(e)
  {
    hide DB.Valid, DB.Owns, Stepped, Collection.Footprint, WriteID, SampleCodec, Empty, Carries;
    SampleCodecIsLawful();
    db := new DB(SampleCodec(), created);
    e := Effect(Empty(), []);
    var c := db.CollectionOrDefine("a", 1000, true, e);
    e := Stepped(SampleCodec(), e, DefineOp("a", 1000, true));
    if c != null {
      var doc := NewDoc(WriteID(1, id), id, true);
      InsertIsLegal(db, c, e, doc);
      var ok := db.Insert(c, doc, RECORD_HEADER + |doc.payload|, true, e);
      e := Stepped(SampleCodec(), e, InsertOp(c.id, [doc], RECORD_HEADER + |doc.payload|));
    }
  }

  lemma InsertIsLegal(db: DB, c: Collection, e: Effect, doc: NewDoc)
    requires db.Valid(e) && db.Owns(c) && doc.supplied && doc.payload != [] && doc.id != ""
    requires Carries(db.k, doc.payload, doc.id)
    ensures Legal(db.k, e.db, InsertOp(c.id, [doc], RECORD_HEADER + |doc.payload|))
  {
    assert db.Linked(e);
    hide Consistent, Holding, DB.Apart, Carries;
  }
}
