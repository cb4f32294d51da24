/**
 Lock-free readers (index.go, scan.go, store.go): a reader copies two capped slices, the file
 handle and the append point under the lock, and from then on shares backing arrays and file with
 a writer that never waits for it. Safety rests on one rule: an append may write past every
 reader's view, and any other change builds fresh arrays.
 */
module Snapshots {
  import opened Framing
  import opened Slots
  import opened Database
  import opened Recovery
  import opened Scan
  import opened Collections
  import opened Appends

  /** Where a scan stands: index position, file offset, what it has handed out, whether it has ended. */
  datatype Cursor = Cursor(i: nat, off: nat, visits: seq<Bytes>, done: bool)

  function StartCursor(): Cursor {
    Cursor(0, FILE_HEADER, [], false)
  }

  /** One turn of scanStrided's loop over a snapshot. */
  function StridedStep(s: Snapshot, go: Visitor, c: Cursor): Cursor
    requires s.Sound()
  {
    if c.done || c.i >= |s.offsets| then c.(done := true)
    else
      var visits := c.visits + [s.file[s.offsets[c.i]..s.offsets[c.i] + s.lengths[c.i]]];
      c.(i := c.i + 1, visits := visits, done := !go(visits))
  }

  /** One turn of scanSequential's loop over a snapshot. */
  function SequentialStep(s: Snapshot, coll: Word16, go: Visitor, c: Cursor): Cursor
    requires s.Sound()
  {
    if c.done || c.i >= |s.offsets| || c.off + RECORD_HEADER > s.size then c.(done := true)
    else
      var h := HeaderAt(s.file, c.off);
      var next := c.off + RECORD_HEADER + h.length;
      if next > s.size then c.(done := true)
      else if h.coll != coll || h.op != OP_INSERT then c.(off := next)
      else
        var visits := c.visits + [PayloadAt(s.file, c.off)];
        c.(i := c.i + 1, off := next, visits := visits, done := !go(visits))
  }

  function Step(s: Snapshot, coll: Word16, go: Visitor, sequential: bool, c: Cursor): Cursor
    requires s.Sound()
  {
    if sequential then SequentialStep(s, coll, go, c) else StridedStep(s, go, c)
  }

  /** Where m turns over one unchanging snapshot lead. */
  ghost function Turns(s: Snapshot, coll: Word16, go: Visitor, sequential: bool, m: nat): Cursor
    requires s.Sound()
  {
    if m == 0 then StartCursor() else Step(s, coll, go, sequential, Turns(s, coll, go, sequential, m - 1))
  }

  // ----- readers and the writer -----

  class Reader {
    const offs: array<int>
    const lens: array<int>
    const n: nat
    const size: nat
    const coll: Word16
    const go: Visitor
    const sequential: bool
    var cursor: Cursor
    ghost const seen: Snapshot  // everything the reader may look at, as it was when the snapshot was taken
    ghost var turns: nat

    constructor (offs: array<int>, lens: array<int>, n: nat, size: nat, coll: Word16, go: Visitor, sequential: bool,
                 ghost seen: Snapshot)
      ensures this.offs == offs && this.lens == lens && this.n == n && this.size == size && this.coll == coll
      ensures this.go == go && this.sequential == sequential && this.seen == seen
      ensures cursor == StartCursor() && turns == 0
    {
      this.offs, this.lens, this.n, this.size, this.coll := offs, lens, n, size, coll;
      this.go, this.sequential, this.seen := go, sequential, seen;
      cursor, turns := StartCursor(), 0;
    }

    /** The shared memory still shows the reader what it saw, as far as the reader may look. */
    ghost predicate Isolated(file: Bytes)
      reads offs, lens
    {
      && seen.Sound() && n == |seen.offsets| && size == seen.size
      && n <= offs.Length && n <= lens.Length && size <= |file|
      && offs[..n] == seen.offsets && lens[..n] == seen.lengths
      && file[..size] == seen.file[..size]
    }

    /** So far the reader has done what it would have done on its snapshot alone. */
    ghost predicate OnCourse()
      reads this
    {
      seen.Sound() && cursor == Turns(seen, coll, go, sequential, turns)
    }

    /** One turn of the scan loop over the live arrays and the live file, with no lock held. */
    method Turn(file: Bytes)
      requires Isolated(file) && OnCourse()
      modifies this
      ensures OnCourse() && turns == old(turns) + 1
    {
      hide Turns, StridedStep, SequentialStep, DecodeHeader;
      NextTurn(seen, coll, go, sequential, turns);
      if sequential {
        SequentialTurn(file);
      } else {
        StridedTurn(file);
      }
      turns := turns + 1;
    }

    method StridedTurn(file: Bytes)
      requires Isolated(file)
      modifies this`cursor
      ensures cursor == StridedStep(seen, go, old(cursor))
    {
      if cursor.done || cursor.i >= n {
        cursor := cursor.(done := true);
        return;
      }
      SameSlice(file, seen.file, size, offs[cursor.i], lens[cursor.i]);
      var buf := file[offs[cursor.i]..offs[cursor.i] + lens[cursor.i]];
      var visits := cursor.visits + [buf];
      cursor := cursor.(i := cursor.i + 1, visits := visits, done := !go(visits));
    }

    method SequentialTurn(file: Bytes)
      requires Isolated(file)
      modifies this`cursor
      ensures cursor == SequentialStep(seen, coll, go, old(cursor))
    {
      hide DecodeHeader;
      if cursor.done || cursor.i >= n || cursor.off + RECORD_HEADER > size {
        cursor := cursor.(done := true);
        return;
      }
      SameSlice(file, seen.file, size, cursor.off, RECORD_HEADER);
      var h := HeaderAt(file, cursor.off);
      var next := cursor.off + RECORD_HEADER + h.length;
      if next > size {
        cursor := cursor.(done := true);
      } else if h.coll != coll || h.op != OP_INSERT {
        cursor := cursor.(off := next);
      } else {
        SameSlice(file, seen.file, size, cursor.off + RECORD_HEADER, h.length);
        var visits := cursor.visits + [PayloadAt(file, cursor.off)];
        cursor := cursor.(i := cursor.i + 1, off := next, visits := visits, done := !go(visits));
      }
    }
  }

  lemma NextTurn(s: Snapshot, coll: Word16, go: Visitor, sequential: bool, m: nat)
    requires s.Sound()
    ensures Turns(s, coll, go, sequential, m + 1) == Step(s, coll, go, sequential, Turns(s, coll, go, sequential, m))
  {
  }

  lemma SameSlice<T>(a: seq<T>, b: seq<T>, size: nat, off: nat, len: nat)
    requires size <= |a| && size <= |b| && a[..size] == b[..size] && off + len <= size
    ensures a[off..off + len] == b[off..off + len]
  {
    assert a[off..off + len] == a[..size][off..off + len];
    assert b[off..off + len] == b[..size][off..off + len];
  }

  /** A collection's live slices, the file behind them, and every reader still scanning. */
  class Shared {
    const coll: Word16
    var file: Bytes
    var size: nat
    var total: int
    var dirty: bool
    var offs: array<int>
    var lens: array<int>
    var n: nat                 // the length of both slices; the arrays' length is their capacity
    var readers: set<Reader>

    ghost function Arrays(): set<object>
      reads this
    {
      {offs, lens} + (set r | r in readers :: r.offs) + (set r | r in readers :: r.lens)
    }

    /** The live index as a snapshot would see it. */
    ghost function Live(): Snapshot
      reads this, offs, lens
      requires n <= offs.Length && n <= lens.Length
    {
      Snapshot(file, offs[..n], lens[..n], size, total, dirty)
    }

    ghost predicate Valid()
      reads this, readers, Arrays()
    {
      && offs != lens && n <= offs.Length && n <= lens.Length && Live().Sound()
      && forall r | r in readers :: Protected(r)
    }

    /** A reader's view is intact, its progress is its own, and the next append lies past its view. */
    ghost predicate Protected(r: Reader)
      reads this, r, r.offs, r.lens
    {
      && r.Isolated(file) && r.OnCourse() && r.size <= size
      && r.lens != offs && r.offs != lens
      && (r.offs == offs ==> r.n <= n) && (r.lens == lens ==> r.n <= n)
    }

    constructor (coll: Word16, header: Bytes)
      requires |header| == FILE_HEADER
      ensures Valid() && readers == {} && n == 0
    {
      this.coll := coll;
      file, size, total, dirty := header, FILE_HEADER, 0, false;
      offs, lens, n := new int[0], new int[0], 0;
      readers := {};
    }

    /** snapshotLocked: the slices are capped at their present length. */
    method TakeSnapshot(go: Visitor, sequential: bool) returns (r: Reader)
      requires Valid()
      modifies this`readers
      ensures Valid() && fresh(r) && readers == old(readers) + {r}
      ensures r.seen == Live() && r.sequential == sequential && r.go == go && r.coll == coll
    {
      r := new Reader(offs, lens, n, size, coll, go, sequential, Live());
      readers := readers + {r};
    }

    /** A reader takes a turn whenever it likes. */
    method ReaderTurn(r: Reader)
      requires Valid() && r in readers
      modifies r
      ensures Valid() && r.turns == old(r.turns) + 1
    {
      assert Protected(r);
      hide Reader.Isolated, Reader.OnCourse, Live, Snapshot.Sound;
      r.Turn(file);
    }

    /** A write at the append point: some bytes land, and the append point moves past none or all of them. */
    method WriteFile(buf: Bytes, advance: bool)
      requires Valid()
      modifies this`file, this`size
      ensures Valid() && size == old(size) + (if advance then |buf| else 0)
      ensures old(size) + |buf| <= |file| && file[..old(size) + |buf|] == old(file)[..old(size)] + buf
    {
      ghost var before, at := file, size;
      file := WriteAt(file, size, buf);
      if advance {
        size := size + |buf|;
      }
      assert file[..at] == before[..at];
      forall r | r in readers
        ensures Protected(r)
      {
        assert old(Protected(r));
        SamePrefix(before, file, at, r.size);
      }
    }

    /** appendIndex: in place while there is capacity, in larger copies when there is none. */
    method AppendIndex(off: nat, length: nat)
      requires Valid() && off + length <= size
      modifies this`offs, this`lens, this`n, offs, lens
      ensures Valid() && n == old(n) + 1
      ensures Live().offsets == old(Live().offsets) + [off] && Live().lengths == old(Live().lengths) + [length]
      ensures (offs == old(offs) || fresh(offs)) && (lens == old(lens) || fresh(lens))
    {
      hide Valid, Live, Snapshot.Sound;
      Reserve();
      Place(off, length);
    }

    /** The growth half of append: a full slice moves to a larger array. */
    method Reserve()
      requires Valid()
      modifies this`offs, this`lens
      ensures Valid() && n < offs.Length && n < lens.Length
      ensures Live().offsets == old(Live().offsets) && Live().lengths == old(Live().lengths)
      ensures (offs == old(offs) || fresh(offs)) && (lens == old(lens) || fresh(lens))
    {
      if n == offs.Length {
        offs := Grown(offs, n);
      }
      if n == lens.Length {
        lens := Grown(lens, n);
      }
      hide Reader.OnCourse;
      forall r | r in readers
        ensures Protected(r)
      {
        assert old(Protected(r));
      }
    }

    /** The other half: the entry past every reader's view is written in place. */
    method Place(off: nat, length: nat)
      requires Valid() && off + length <= size && n < offs.Length && n < lens.Length
      modifies this`n, offs, lens
      ensures Valid() && n == old(n) + 1
      ensures Live().offsets == old(Live().offsets) + [off] && Live().lengths == old(Live().lengths) + [length]
    {
      hide Reader.OnCourse;
      offs[n] := off;
      lens[n] := length;
      n := n + 1;
      forall r | r in readers
        ensures Protected(r)
      {
        assert old(Protected(r));
        StillCourse(r);
      }
    }

    twostate lemma StillCourse(r: Reader)
      requires old(r.OnCourse()) && unchanged(r)
      ensures r.OnCourse()
    {
    }

    /** replaceIndex: the entry changes in fresh arrays no reader holds. */
    method ReplaceIndex(i: nat, off: nat, length: nat)
      requires Valid() && i < n && off + length <= size
      modifies this`offs, this`lens, this`dirty
      ensures Valid() && n == old(n) && fresh(offs) && fresh(lens)
      ensures Live().offsets == old(Live().offsets)[i := off] && Live().lengths == old(Live().lengths)[i := length]
    {
      var newOffs := Copied(offs[..n][i := off]);
      var newLens := Copied(lens[..n][i := length]);
      offs, lens, dirty := newOffs, newLens, true;
      forall r | r in readers
        ensures Protected(r)
      {
        assert old(Protected(r));
      }
    }

    /** removeIndex: the surviving entries move to fresh arrays no reader holds. */
    method RemoveIndex(ps: seq<nat>)
      requires Valid() && Ascending(ps, n)
      modifies this`offs, this`lens, this`n, this`dirty
      ensures Valid() && fresh(offs) && fresh(lens)
      ensures Live().offsets == Keep(old(Live().offsets), ps) && Live().lengths == Keep(old(Live().lengths), ps)
    {
      hide Keep, IsMapping, KeptBelow;
      KeptEntries(offs[..n], lens[..n], size, ps);
      var mapping, next := MakeMapping(ps, n);
      var newOffs := Squeeze(offs[..n], mapping, ps, next);
      var newLens := Squeeze(lens[..n], mapping, ps, next);
      Publish(newOffs, newLens);
    }

    /** Publishes two fresh arrays with these contents. */
    method Publish(newOffs: seq<int>, newLens: seq<int>)
      requires Valid() && |newOffs| == |newLens|
      requires forall i | 0 <= i < |newOffs| :: 0 <= newOffs[i] && 0 <= newLens[i] && newOffs[i] + newLens[i] <= size
      modifies this`offs, this`lens, this`n, this`dirty
      ensures Valid() && fresh(offs) && fresh(lens) && Live().offsets == newOffs && Live().lengths == newLens
    {
      var a := Copied(newOffs);
      var b := Copied(newLens);
      offs, lens, n, dirty := a, b, |newOffs|, true;
      forall r | r in readers
        ensures Protected(r)
      {
        assert old(Protected(r));
      }
    }
  }

  lemma SamePrefix<T>(a: seq<T>, b: seq<T>, size: nat, m: nat)
    requires m <= size <= |a| && size <= |b| && a[..size] == b[..size]
    ensures a[..m] == b[..m]
  {
    assert a[..m] == a[..size][..m] && b[..m] == b[..size][..m];
  }

  lemma {:induction false} KeptInside(offs: seq<int>, lens: seq<int>, size: nat, ps: seq<nat>, m: nat)
    requires m <= |offs| == |lens|
    requires forall i | 0 <= i < |offs| :: 0 <= offs[i] && 0 <= lens[i] && offs[i] + lens[i] <= size
    ensures var a, b := KeepUpTo(offs, ps, m), KeepUpTo(lens, ps, m);
            |a| == |b| && forall i | 0 <= i < |a| :: 0 <= a[i] && 0 <= b[i] && a[i] + b[i] <= size
  {
    if m > 0 {
      KeptInside(offs, lens, size, ps, m - 1);
    }
  }

  lemma KeptEntries(offs: seq<int>, lens: seq<int>, size: nat, ps: seq<nat>)
    requires |offs| == |lens|
    requires forall i | 0 <= i < |offs| :: 0 <= offs[i] && 0 <= lens[i] && offs[i] + lens[i] <= size
    ensures var a, b := Keep(offs, ps), Keep(lens, ps);
            |a| == |b| && forall i | 0 <= i < |a| :: 0 <= a[i] && 0 <= b[i] && a[i] + b[i] <= size
  {
    KeptInside(offs, lens, size, ps, |offs|);
  }

  /** What append does when the slice is full: a larger array with the same entries. */
  method Grown(a: array<int>, n: nat) returns (b: array<int>)
    requires n == a.Length
    ensures fresh(b) && b.Length > n && b[..n] == a[..n]
  {
    b := new int[2 * n + 1](i requires 0 <= i reads a => if i < a.Length then a[i] else 0);
  }

  method Copied(s: seq<int>) returns (a: array<int>)
    ensures fresh(a) && a[..] == s
  {
    a := new int[|s|](i requires 0 <= i < |s| => s[i]);
  }

  // ----- what a reader gets -----

  /** A strided scan: under way it has visited one entry a turn, and done it has visited what it should. */
  lemma {:induction false} StridedTurns(s: Snapshot, coll: Word16, go: Visitor, m: nat)
    requires s.Sound()
    ensures var c := Turns(s, coll, go, false, m);
            if c.done then c.visits == Visited(s.Docs(), go)
            else c.i == m <= |s.offsets| && Visiting(s.Docs(), go, c.visits, c.i)
  {
    hide Visited, Visiting, Stop;
    var docs := s.Docs();
    VisitEnds(docs, go, []);
    if m > 0 {
      StridedTurns(s, coll, go, m - 1);
      var c := Turns(s, coll, go, false, m - 1);
      if !c.done {
        if c.i == |docs| {
          VisitEnds(docs, go, c.visits);
        } else {
          VisitStep(docs, go, c.visits, c.i);
        }
      }
    }
  }

  /** The same for a sequential scan, one record a turn. */
  lemma {:induction false} SequentialTurns(k: Codec, header: Bytes, recs: seq<Record>, s: Snapshot, coll: Word16,
                                           go: Visitor, m: nat)
    requires Backed(k, s, header, recs) && |InsertSlots(recs, coll)| == |s.offsets|
    ensures var c, docs := Turns(s, coll, go, true, m), DocsOf(InsertSlots(recs, coll));
            if c.done then c.visits == Visited(docs, go)
            else
              && m <= |recs| && c.off == OffsetOf(recs, m) && c.i == CountOf(recs, coll, m)
              && Visiting(docs, go, c.visits, c.i)
  {
    hide Visited, Visiting, Stop, Backed, CountOf, OffsetOf, InsertSlots, HeaderAt, PayloadAt;
    var docs := DocsOf(InsertSlots(recs, coll));
    BackedSound(k, s, header, recs);
    VisitEnds(docs, go, []);
    CountEnds(recs, coll);
    if m > 0 {
      SequentialTurns(k, header, recs, s, coll, go, m - 1);
      var c := Turns(s, coll, go, true, m - 1);
      if !c.done {
        if c.i == |docs| {
          VisitEnds(docs, go, c.visits);
        } else if m - 1 == |recs| {
          assert false;
        } else {
          ReadRecord(k, s, header, recs, m - 1);
          CountStep(recs, coll, m - 1);
          VisitStep(docs, go, c.visits, c.i);
        }
      }
    }
  }

  lemma BackedSound(k: Codec, s: Snapshot, header: Bytes, recs: seq<Record>)
    requires Backed(k, s, header, recs)
    ensures s.Sound()
  {
  }

  /**
   Whatever the writer did meanwhile, a finished strided scan handed out exactly what it would
   have handed out at the moment its snapshot was taken, and it finishes.
   */
  lemma StridedReaderSees(w: Shared, r: Reader)
    requires w.Valid() && r in w.readers && !r.sequential
    ensures r.cursor.done ==> r.cursor.visits == Visited(r.seen.Docs(), r.go)
    ensures r.turns > |r.seen.offsets| ==> r.cursor.done
  {
    assert w.Protected(r);
    StridedTurns(r.seen, r.coll, r.go, r.turns);
    hide Turns, Visited;
  }

  /** The same for a sequential scan of a collection that was clean when the snapshot was taken. */
  lemma SequentialReaderSees(w: Shared, r: Reader, k: Codec, header: Bytes, recs: seq<Record>)
    requires w.Valid() && r in w.readers && r.sequential
    requires Backed(k, r.seen, header, recs) && |InsertSlots(recs, r.coll)| == |r.seen.offsets|
    ensures r.cursor.done ==> r.cursor.visits == Visited(DocsOf(InsertSlots(recs, r.coll)), r.go)
    ensures r.turns > |recs| ==> r.cursor.done
  {
    assert w.Protected(r);
    SequentialTurns(k, header, recs, r.seen, r.coll, r.go, r.turns);
    hide Turns, Visited, Backed, InsertSlots;
  }

  // ----- every interleaving -----

  datatype Action =
    | Snap(go: Visitor, sequential: bool)
    | TurnOf(r: Reader)
    | Write(buf: Bytes, advance: bool)
    | Append(off: nat, length: nat)
    | Replace(i: nat, off: nat, length: nat)
    | Remove(ps: seq<nat>)

  /** Any schedule of readers and writer whatever; an action that makes no sense when its turn comes is skipped. */
  method Run(w: Shared, script: seq<Action>)
    requires w.Valid()
    modifies w, w.readers, w.Arrays()
    ensures w.Valid() && old(w.readers) <= w.readers
  {
    hide Shared.Valid;
    for j := 0 to |script|
      invariant w.Valid() && old(w.readers) <= w.readers
      invariant forall r | r in w.readers :: r in old(w.readers) || fresh(r)
      invariant w.offs in old(w.Arrays()) || fresh(w.offs)
      invariant w.lens in old(w.Arrays()) || fresh(w.lens)
    {
      Act(w, script[j]);
    }
  }

  method Act(w: Shared, a: Action)
    requires w.Valid()
    modifies w, w.readers, w.offs, w.lens
    ensures w.Valid() && old(w.readers) <= w.readers
    ensures forall r | r in w.readers :: r in old(w.readers) || fresh(r)
    ensures (w.offs == old(w.offs) || fresh(w.offs)) && (w.lens == old(w.lens) || fresh(w.lens))
  {
    hide Shared.Valid, Shared.Live, Keep;
    match a
    case Snap(go, sequential) =>
      var r := w.TakeSnapshot(go, sequential);
    case TurnOf(r) =>
      if r in w.readers {
        w.ReaderTurn(r);
      }
    case Write(buf, advance) =>
      w.WriteFile(buf, advance);
    case Append(off, length) =>
      if off + length <= w.size {
        w.AppendIndex(off, length);
      }
    case Replace(i, off, length) =>
      if i < w.n && off + length <= w.size {
        w.ReplaceIndex(i, off, length);
      }
    case Remove(ps) =>
      if (forall i | 0 <= i < |ps| :: ps[i] < w.n) && (forall i, j | 0 <= i < j < |ps| :: ps[i] < ps[j]) {
        w.RemoveIndex(ps);
      }
  }
}
