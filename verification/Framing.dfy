/**
 The record framing of the database file: a 32-byte file header followed by records, each a
 12-byte header and a payload (store.go). The checksum is a parameter; nothing here depends on
 which polynomial it is.
 */
module Framing {

  newtype Byte = b: int | 0 <= b < 0x100
  type Bytes = seq<Byte>
  type Word16 = w: int | 0 <= w < 0x1_0000
  type Word32 = w: int | 0 <= w < 0x1_0000_0000

  const FILE_HEADER: nat := 32
  const RECORD_HEADER: nat := 12
  const MAX_PAYLOAD: nat := 0x400_0000

  const OP_INSERT: Byte := 1
  const OP_DELETE: Byte := 2
  const OP_REPLACE: Byte := 3
  const OP_DEFINE: Byte := 4

  type Checksum = Bytes -> Word32

  /** One record as the append path writes it; the flags byte is always zero. */
  datatype Record = Record(op: Byte, coll: Word16, payload: Bytes) {
    function Size(): nat {
      RECORD_HEADER + |payload|
    }
  }

  /** A decoded record header. */
  datatype Header = Header(length: Word32, op: Byte, flags: Byte, coll: Word16, crc: Word32)

  // ----- little-endian integers -----

  function Le16(w: Word16): (b: Bytes)
    ensures |b| == 2
  {
    [(w % 0x100) as Byte, (w / 0x100) as Byte]
  }

  function FromLe16(b: Bytes): Word16
    requires |b| == 2
  {
    b[0] as int + 0x100 * (b[1] as int)
  }

  function Le32(w: Word32): (b: Bytes)
    ensures |b| == 4
  {
    Le16(w % 0x1_0000) + Le16(w / 0x1_0000)
  }

  function FromLe32(b: Bytes): Word32
    requires |b| == 4
  {
    var lo: int, hi: int := FromLe16(b[..2]), FromLe16(b[2..]);
    lo + 0x1_0000 * hi
  }

  lemma Le16RoundTrip(w: Word16)
    ensures FromLe16(Le16(w)) == w
  {
  }

  lemma Le32RoundTrip(w: Word32)
    ensures FromLe32(Le32(w)) == w
  {
    var b := Le32(w);
    assert b[..2] == Le16(w % 0x1_0000);
    assert b[2..] == Le16(w / 0x1_0000);
  }

  // ----- the file header -----

  const MAGIC: Bytes := [0x4E, 0x53, 0x51, 0x4C, 0x49, 0x54, 0x45, 0x0A]
  const FORMAT: Word16 := 1

  /** The header of a new file: the magic, the format, no flags, when it was created, and reserved zeros. */
  function FileHeader(created: Bytes): (b: Bytes)
    requires |created| == 8
    ensures |b| == FILE_HEADER
  {
    MAGIC + Le16(FORMAT) + Le16(0) + created + [0, 0, 0, 0, 0, 0, 0, 0, 0, 0, 0, 0]
  }

  /** What readFileHeader accepts. */
  predicate GoodHeader(b: Bytes)
    requires FILE_HEADER <= |b|
  {
    && b[0..8] == MAGIC && FromLe16(b[8..10]) == FORMAT && FromLe16(b[10..12]) == 0
    && forall i | 20 <= i < FILE_HEADER :: b[i] == 0
  }

  /** The headers accepted are those written, for some time of creation. */
  lemma GoodHeaderIsWritten(b: Bytes)
    requires |b| == FILE_HEADER
    ensures GoodHeader(b) <==> exists created: Bytes :: |created| == 8 && b == FileHeader(created)
  {
    hide FromLe16, Le16;
    Le16RoundTrip(FORMAT);
    Le16RoundTrip(0);
    if GoodHeader(b) {
      Le16FromRoundTrip(b[8..10]);
      Le16FromRoundTrip(b[10..12]);
      var z: Bytes := [0, 0, 0, 0, 0, 0, 0, 0, 0, 0, 0, 0];
      assert b[20..] == z;
      assert b == b[0..8] + b[8..10] + b[10..12] + b[12..20] + b[20..];
      assert b == FileHeader(b[12..20]);
    }
    forall created: Bytes | |created| == 8 && b == FileHeader(created)
      ensures GoodHeader(b)
    {
      HeaderWritten(created);
    }
  }

  lemma HeaderWritten(created: Bytes)
    requires |created| == 8
    ensures GoodHeader(FileHeader(created))
  {
    hide FromLe16, Le16;
    Le16RoundTrip(FORMAT);
    Le16RoundTrip(0);
    var b := FileHeader(created);
    assert b[8..10] == Le16(FORMAT) && b[10..12] == Le16(0);
  }

  /** The header byte by byte: "NSQLITE" and a newline, format 1, no flags, the time, and twelve zeros. */
  lemma HeaderOnDisk(created: Bytes)
    requires |created| == 8
    ensures var b := FileHeader(created);
            && |b| == 32 && (forall i | 0 <= i < 8 :: b[i] as int == "NSQLITE\n"[i] as int)
            && b[8] == 1 && b[9] == 0 && b[10] == 0 && b[11] == 0 && b[12..20] == created
            && forall i | 20 <= i < 32 :: b[i] == 0
  {
  }

  lemma Le16FromRoundTrip(b: Bytes)
    requires |b| == 2
    ensures Le16(FromLe16(b)) == b
  {
  }

  // ----- records -----

  /** The bytes the checksum covers ahead of the payload: op, flags and collection id. */
  function Meta(r: Record): (b: Bytes)
    ensures |b| == 4
  {
    [r.op, 0] + Le16(r.coll)
  }

  lemma MetaParts(r: Record)
    ensures Meta(r)[0] == r.op && Meta(r)[1] == 0 && Meta(r)[2..4] == Le16(r.coll)
  {
  }

  /** A record as it lies on disk. The length field is the low 32 bits of the payload length. */
  function Encode(crc: Checksum, r: Record): (b: Bytes)
    ensures |b| == r.Size()
  {
    Le32(|r.payload| % 0x1_0000_0000) + Meta(r) + Le32(crc(Meta(r) + r.payload)) + r.payload
  }

  function DecodeHeader(b: Bytes): Header
    requires |b| == RECORD_HEADER
  {
    Header(FromLe32(b[0..4]), b[4], b[5], FromLe16(b[6..8]), FromLe32(b[8..12]))
  }

  /** The four fields of a frame can be cut back out of it, whatever follows it. */
  lemma FrameParts(l: Bytes, m: Bytes, c: Bytes, p: Bytes, rest: Bytes)
    requires |l| == 4 && |m| == 4 && |c| == 4
    ensures var b := l + m + c + p + rest;
            && b[..RECORD_HEADER][0..4] == l
            && b[..RECORD_HEADER][4..8] == m == b[4..8]
            && b[..RECORD_HEADER][8..12] == c
            && b[RECORD_HEADER..RECORD_HEADER + |p|] == p
            && b[RECORD_HEADER + |p|..] == rest
  {
    var h := l + m + c;
    var b := h + p + rest;
    assert b[..RECORD_HEADER] == h;
    assert h[0..4] == l;
    assert h[4..8] == m;
    assert h[8..12] == c;
    assert b[4..8] == m;
    assert b[RECORD_HEADER..RECORD_HEADER + |p|] == p;
    assert b[RECORD_HEADER + |p|..] == rest;
  }

  /** A framed record decodes to the fields it was framed from, whatever follows it. */
  lemma DecodeEncode(crc: Checksum, r: Record, rest: Bytes)
    requires |r.payload| <= MAX_PAYLOAD
    ensures var b := Encode(crc, r) + rest;
            && DecodeHeader(b[..RECORD_HEADER]) ==
               Header(|r.payload|, r.op, 0, r.coll, crc(Meta(r) + r.payload))
            && b[4..8] == Meta(r)
            && b[RECORD_HEADER..r.Size()] == r.payload
            && b[r.Size()..] == rest
  {
    hide Le16, Le32, FromLe16, FromLe32;
    var sum := crc(Meta(r) + r.payload);
    FrameParts(Le32(|r.payload|), Meta(r), Le32(sum), r.payload, rest);
    Le32RoundTrip(|r.payload|);
    Le32RoundTrip(sum);
    Le16RoundTrip(r.coll);
    var h := (Encode(crc, r) + rest)[..RECORD_HEADER];
    MetaParts(r);
    assert h[4] == h[4..8][0] && h[5] == h[4..8][1];
    assert h[6..8] == h[4..8][2..4];
  }

  /**
   A record byte by byte: the payload's length, the op, no flags, the collection, the checksum over
   the last four of these and the payload, all low byte first, and the payload.
   */
  lemma RecordOnDisk(crc: Checksum, r: Record)
    requires |r.payload| <= MAX_PAYLOAD
    ensures var b, n, c := Encode(crc, r), |r.payload|, r.coll as int;
            var covered := [r.op, 0, (c % 256) as Byte, (c / 256) as Byte] + r.payload;
            var sum := crc(covered) as int;
            && |b| == 12 + n && b[12..] == r.payload
            && b[0] as int == n % 256 && b[1] as int == n / 256 % 256
            && b[2] as int == n / 65536 % 256 && b[3] as int == n / 16777216
            && b[4] == r.op && b[5] == 0 && b[6] as int == c % 256 && b[7] as int == c / 256
            && b[8] as int == sum % 256 && b[9] as int == sum / 256 % 256
            && b[10] as int == sum / 65536 % 256 && b[11] as int == sum / 16777216
  {
    var n, sum := |r.payload|, crc(Meta(r) + r.payload);
    FourBytes(n);
    FourBytes(sum);
    FrameParts(Le32(n), Meta(r), Le32(sum), r.payload, []);
    assert Meta(r) == [r.op, 0, (r.coll % 256) as Byte, (r.coll / 256) as Byte];
    hide Le16, Le32, FromLe16;
  }

  lemma FourBytes(w: Word32)
    ensures Le32(w)[0] as int == w % 256 && Le32(w)[1] as int == w / 256 % 256
    ensures Le32(w)[2] as int == w / 65536 % 256 && Le32(w)[3] as int == w / 16777216
  {
  }

  /** Every payload is within the limit the append path enforces. */
  ghost predicate Fits(recs: seq<Record>) {
    forall r <- recs :: |r.payload| <= MAX_PAYLOAD
  }

  ghost function LogSize(recs: seq<Record>): nat {
    if recs == [] then 0 else LogSize(recs[..|recs| - 1]) + recs[|recs| - 1].Size()
  }

  /** The bytes a list of records occupies. */
  ghost function LogBytes(crc: Checksum, recs: seq<Record>): (b: Bytes)
    ensures |b| == LogSize(recs)
  {
    if recs == [] then [] else LogBytes(crc, recs[..|recs| - 1]) + Encode(crc, recs[|recs| - 1])
  }

  lemma LogSnoc(crc: Checksum, recs: seq<Record>, r: Record)
    ensures LogBytes(crc, recs + [r]) == LogBytes(crc, recs) + Encode(crc, r)
    ensures LogSize(recs + [r]) == LogSize(recs) + r.Size()
  {
    hide Encode;
    assert (recs + [r])[..|recs|] == recs;
  }

  lemma LogOne(crc: Checksum, r: Record)
    ensures LogBytes(crc, [r]) == Encode(crc, r) && LogSize([r]) == r.Size()
  {
    hide Encode;
    LogSnoc(crc, [], r);
    assert [] + [r] == [r];
    assert LogBytes(crc, []) == [];
  }

  lemma ConcatAssoc<T>(x: seq<T>, y: seq<T>, z: seq<T>)
    ensures (x + y) + z == x + (y + z)
  {
  }

  lemma NoLog(crc: Checksum)
    ensures LogBytes(crc, []) == [] && LogSize([]) == 0
  {
  }

  lemma {:induction false} LogConcat(crc: Checksum, a: seq<Record>, b: seq<Record>)
    ensures LogBytes(crc, a + b) == LogBytes(crc, a) + LogBytes(crc, b)
    ensures LogSize(a + b) == LogSize(a) + LogSize(b)
  {
    hide *;
    if b == [] {
      assert a + b == a;
      NoLog(crc);
    } else {
      var init, last := b[..|b| - 1], b[|b| - 1];
      assert b == init + [last];
      ConcatAssoc(a, init, [last]);
      LogConcat(crc, a, init);
      LogSnoc(crc, init, last);
      LogSnoc(crc, a + init, last);
      ConcatAssoc(LogBytes(crc, a), LogBytes(crc, init), Encode(crc, last));
    }
  }
}
