/**
 The write calls (store.go, appendRecord and appendBatch): framing a batch into one buffer,
 handing it to the file system at the append point, and working out which records landed.
 */
module Appends {
  import opened Framing
  import opened Live
  import opened Recovery

  /** WriteAt: bytes land at an offset inside the file or at its end, over whatever was there. */
  function WriteAt(file: Bytes, off: nat, buf: Bytes): (r: Bytes)
    requires off <= |file|
    ensures off + |buf| <= |r| && r[..off + |buf|] == file[..off] + buf
  {
    file[..off] + buf + (if off + |buf| <= |file| then file[off + |buf|..] else [])
  }

  lemma PrefixOfPrefix<T>(s: seq<T>, a: seq<T>, b: seq<T>, n: nat)
    requires |a + b| <= |s| && s[..|a + b|] == a + b && n <= |b|
    ensures s[..|a| + n] == a + b[..n]
  {
    assert s[..|a| + n] == (a + b)[..|a| + n];
  }

  /** The records a write of n bytes completes follow the bytes that were there. */
  lemma LandedRecords(crc: Checksum, file: Bytes, size: nat, after: Bytes, op: Byte, coll: Word16, ps: seq<Bytes>,
                      n: nat)
    requires n <= LogSize(Records(op, coll, ps)) && size <= |file|
    requires size + n <= |after| && after[..size + n] == file[..size] + LogBytes(crc, Records(op, coll, ps))[..n]
    ensures var whole := Records(op, coll, ps[..Whole(ps, n)]);
            && LogSize(whole) <= n
            && after[..size + LogSize(whole)] == file[..size] + LogBytes(crc, whole)
  {
    hide LogBytes, LogSize, Encode, Records, Whole;
    BatchPrefix(crc, op, coll, ps, n);
    var whole := Records(op, coll, ps[..Whole(ps, n)]);
    var buf := LogBytes(crc, Records(op, coll, ps))[..n];
    PrefixOfPrefix(after, file[..size], buf, LogSize(whole));
    assert buf[..LogSize(whole)] == LogBytes(crc, whole);
  }

  /** One more record of a batch. */
  lemma BatchSnoc(crc: Checksum, op: Byte, coll: Word16, ps: seq<Bytes>, i: nat)
    requires i < |ps|
    ensures LogBytes(crc, Records(op, coll, ps[..i + 1])) ==
            LogBytes(crc, Records(op, coll, ps[..i])) + Encode(crc, Record(op, coll, ps[i]))
    ensures LogSize(Records(op, coll, ps[..i + 1])) == LogSize(Records(op, coll, ps[..i])) + RECORD_HEADER + |ps[i]|
  {
    var r := Record(op, coll, ps[i]);
    assert r.Size() == RECORD_HEADER + |ps[i]|;
    assert Records(op, coll, ps[..i + 1]) == Records(op, coll, ps[..i]) + [r];
    hide LogBytes, LogSize, Encode, Records;
    LogSnoc(crc, Records(op, coll, ps[..i]), r);
  }

  /** The first loop of appendBatch: every payload within the limit, and the size of the whole buffer. */
  method Measure(op: Byte, coll: Word16, ps: seq<Bytes>) returns (ok: bool, total: nat)
    ensures ok <==> !AnyTooLong(ps)
    ensures ok ==> total == LogSize(Records(op, coll, ps))
  {
    hide LogBytes, LogSize, Encode, Records;
    ok, total := true, 0;
    ghost var crc: Checksum := _ => 0;
    EmptyBatch(crc, op, coll, ps);
    for i := 0 to |ps|
      invariant ok && total == LogSize(Records(op, coll, ps[..i]))
      invariant forall j | 0 <= j < i :: |ps[j]| <= MAX_PAYLOAD
    {
      if |ps[i]| > MAX_PAYLOAD {
        ok := false;
        assert ps[i] in ps;
        return;
      }
      BatchSnoc(crc, op, coll, ps, i);
      total := total + (RECORD_HEADER + |ps[i]|);
    }
  }

  /** Where each record of a batch starts when the first one starts at base. */
  ghost predicate StartsAt(op: Byte, coll: Word16, ps: seq<Bytes>, base: nat, offs: seq<int>) {
    |offs| <= |ps| && forall i | 0 <= i < |offs| :: offs[i] == base + LogSize(Records(op, coll, ps[..i]))
  }

  lemma StartsNext(op: Byte, coll: Word16, ps: seq<Bytes>, base: nat, offs: seq<int>, off: int)
    requires StartsAt(op, coll, ps, base, offs) && |offs| < |ps|
    requires off == base + LogSize(Records(op, coll, ps[..|offs|]))
    ensures StartsAt(op, coll, ps, base, offs + [off])
  {
    hide LogSize, Records;
  }

  lemma BatchSize(crc: Checksum, recs: seq<Record>)
    ensures |LogBytes(crc, recs)| == LogSize(recs)
  {
  }

  /** The second loop: the records framed one after another into the buffer, and where each starts. */
  method Frame(crc: Checksum, op: Byte, coll: Word16, ps: seq<Bytes>, base: nat) returns (buf: Bytes, offs: seq<int>)
    ensures buf == LogBytes(crc, Records(op, coll, ps))
    ensures |offs| == |ps| && StartsAt(op, coll, ps, base, offs)
  {
    buf, offs := [], [];
    EmptyBatch(crc, op, coll, ps);
    hide LogBytes, LogSize, Encode, Records;
    assert StartsAt(op, coll, ps, base, offs);
    hide StartsAt;
    for i := 0 to |ps|
      invariant buf == LogBytes(crc, Records(op, coll, ps[..i]))
      invariant |offs| == i && StartsAt(op, coll, ps, base, offs)
    {
      StartsNext(op, coll, ps, base, offs, base + |buf|);
      BatchSnoc(crc, op, coll, ps, i);
      offs := offs + [base + |buf|];
      buf := buf + Encode(crc, Record(op, coll, ps[i]));
    }
  }

  /** Counting from record i on what n more bytes complete. */
  lemma WholeStep(ps: seq<Bytes>, i: nat, acc: nat, n: nat)
    requires i < |ps|
    ensures acc + RECORD_HEADER + |ps[i]| <= n ==>
              Whole(ps[i..], n - acc) == 1 + Whole(ps[i + 1..], n - (acc + RECORD_HEADER + |ps[i]|))
    ensures acc + RECORD_HEADER + |ps[i]| > n ==> Whole(ps[i..], n - acc) == 0
  {
    assert ps[i..][1..] == ps[i + 1..];
  }

  /** The third and fourth loops: how many records a write of n bytes covered in full, and their bytes. */
  method CountWritten(op: Byte, coll: Word16, ps: seq<Bytes>, n: nat) returns (written: nat, consumed: nat)
    ensures written == Whole(ps, n) && consumed == LogSize(Records(op, coll, ps[..written]))
  {
    written := 0;
    var acc := 0;
    assert ps[0..] == ps;
    while written < |ps|
      invariant written <= |ps| && acc >= 0 && Whole(ps, n) == written + Whole(ps[written..], n - acc)
    {
      WholeStep(ps, written, acc, n);
      acc := acc + RECORD_HEADER + |ps[written]|;
      if acc > n {
        break;
      }
      written := written + 1;
    }
    consumed := Consumed(op, coll, ps, written);
  }

  method Consumed(op: Byte, coll: Word16, ps: seq<Bytes>, written: nat) returns (consumed: nat)
    requires written <= |ps|
    ensures consumed == LogSize(Records(op, coll, ps[..written]))
  {
    hide LogBytes, LogSize, Encode, Records;
    ghost var crc: Checksum := _ => 0;
    EmptyBatch(crc, op, coll, ps);
    consumed := 0;
    for i := 0 to written
      invariant consumed == LogSize(Records(op, coll, ps[..i]))
    {
      BatchSnoc(crc, op, coll, ps, i);
      consumed := consumed + (RECORD_HEADER + |ps[i]|);
    }
  }

  lemma WholeOfAll(op: Byte, coll: Word16, ps: seq<Bytes>, landed: nat, total: nat)
    requires total == LogSize(Records(op, coll, ps))
    ensures Whole(ps, if landed < total then landed else total) == Whole(ps, landed)
    ensures landed >= total <==> Whole(ps, landed) == |ps|
  {
    hide LogSize, Records;
    var crc: Checksum := _ => 0;
    WholeCovers(crc, op, coll, ps, landed);
    WholeCovers(crc, op, coll, ps, total);
    WholeMonotone(op, coll, ps, total);
    WholeMonotone(op, coll, ps, landed);
  }

  /** Room for everything completes everything, and completing everything takes that much room. */
  lemma {:induction false} WholeMonotone(op: Byte, coll: Word16, ps: seq<Bytes>, n: nat)
    ensures n >= LogSize(Records(op, coll, ps)) <==> Whole(ps, n) == |ps|
  {
    var crc: Checksum := _ => 0;
    if ps == [] {
      assert Records(op, coll, ps) == [];
    } else {
      BatchCons(crc, op, coll, ps);
      var m := n - RECORD_HEADER - |ps[0]|;
      if m >= 0 {
        WholeMonotone(op, coll, ps[1..], m);
      }
      hide LogSize, Records;
    }
  }
}
