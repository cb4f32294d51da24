/**
 The open-addressed _id table (index.go, idTable): a hash table with linear probing from a
 fingerprint to document positions. The table length is a power of two, so the source's
 `x & mask` is `x % length` here and `(i + 1) & mask` is the cyclic successor.

 The table refines a multiset of (fingerprint, position) entries. What makes a probe that stops
 at the first empty slot complete is the chain invariant: no slot between an entry's home and
 its place is empty.
 */
module IdTables {

  type Entry = (int, int)

  // ----- the table as two sequences -----

  /** The entries in the first n slots of two parallel columns; fingerprint 0 marks an empty slot. */
  ghost function EntriesUpTo(fps: seq<int>, poss: seq<int>, n: nat): multiset<Entry>
    requires n <= |fps| == |poss|
  {
    if n == 0 then multiset{}
    else if fps[n - 1] == 0 then EntriesUpTo(fps, poss, n - 1)
    else EntriesUpTo(fps, poss, n - 1) + multiset{(fps[n - 1], poss[n - 1])}
  }

  ghost function EntriesOf(fps: seq<int>, poss: seq<int>): multiset<Entry>
    requires |fps| == |poss|
  {
    EntriesUpTo(fps, poss, |fps|)
  }

  /** Slots at or past n do not matter to the first n. */
  lemma {:induction false} OtherSlotsDoNotMatter(fps: seq<int>, poss: seq<int>, i: nat, fp: int, pos: int, n: nat)
    requires n <= i < |fps| == |poss|
    ensures EntriesUpTo(fps[i := fp], poss[i := pos], n) == EntriesUpTo(fps, poss, n)
  {
    if n > 0 {
      OtherSlotsDoNotMatter(fps, poss, i, fp, pos, n - 1);
    }
  }

  /** Filling an empty slot adds exactly one entry. */
  lemma {:induction false} FillAddsEntry(fps: seq<int>, poss: seq<int>, i: nat, fp: int, pos: int, n: nat)
    requires i < n <= |fps| == |poss| && fps[i] == 0 && fp != 0
    ensures EntriesUpTo(fps[i := fp], poss[i := pos], n) == EntriesUpTo(fps, poss, n) + multiset{(fp, pos)}
  {
    if i == n - 1 {
      OtherSlotsDoNotMatter(fps, poss, i, fp, pos, n - 1);
    } else {
      FillAddsEntry(fps, poss, i, fp, pos, n - 1);
    }
  }

  lemma {:induction false} EntryAt(fps: seq<int>, poss: seq<int>, i: nat, n: nat)
    requires i < n <= |fps| == |poss| && fps[i] != 0
    ensures (fps[i], poss[i]) in EntriesUpTo(fps, poss, n)
  {
    if i < n - 1 {
      EntryAt(fps, poss, i, n - 1);
    }
  }

  lemma {:induction false} EntryHasSlot(fps: seq<int>, poss: seq<int>, e: Entry, n: nat) returns (i: nat)
    requires n <= |fps| == |poss| && e in EntriesUpTo(fps, poss, n)
    ensures i < n && fps[i] != 0 && (fps[i], poss[i]) == e
  {
    if fps[n - 1] != 0 && (fps[n - 1], poss[n - 1]) == e {
      i := n - 1;
    } else {
      i := EntryHasSlot(fps, poss, e, n - 1);
    }
  }

  lemma {:induction false} EmptyTable(fps: seq<int>, poss: seq<int>, n: nat)
    requires n <= |fps| == |poss| && forall i :: 0 <= i < |fps| ==> fps[i] == 0
    ensures EntriesUpTo(fps, poss, n) == multiset{}
  {
    if n > 0 {
      EmptyTable(fps, poss, n - 1);
    }
  }

  /** A table with fewer entries than slots has an empty slot. */
  lemma {:induction false} HasEmptySlot(fps: seq<int>, poss: seq<int>, n: nat) returns (e: nat)
    requires n <= |fps| == |poss| && |EntriesUpTo(fps, poss, n)| < n
    ensures e < n && fps[e] == 0
  {
    if fps[n - 1] == 0 {
      e := n - 1;
    } else {
      e := HasEmptySlot(fps, poss, n - 1);
    }
  }

  /** A prefix of the slots never holds more than all of them. */
  lemma {:induction false} PrefixIsSmaller(fps: seq<int>, poss: seq<int>, i: nat, n: nat)
    requires i <= n <= |fps| == |poss|
    ensures |EntriesUpTo(fps, poss, i)| <= |EntriesUpTo(fps, poss, n)|
  {
    if i < n {
      PrefixIsSmaller(fps, poss, i, n - 1);
    }
  }

  /** One more slot adds that slot's entry, and the prefix still fits in the whole. */
  lemma PrefixStep(fps: seq<int>, poss: seq<int>, i: nat)
    requires i < |fps| == |poss|
    ensures fps[i] == 0 ==> EntriesUpTo(fps, poss, i + 1) == EntriesUpTo(fps, poss, i)
    ensures fps[i] != 0 ==> EntriesUpTo(fps, poss, i + 1) == EntriesUpTo(fps, poss, i) + multiset{(fps[i], poss[i])}
    ensures fps[i] != 0 ==> |EntriesUpTo(fps, poss, i)| + 1 <= |EntriesOf(fps, poss)|
  {
    PrefixIsSmaller(fps, poss, i + 1, |fps|);
  }

  ghost predicate IsPowerOfTwo(n: nat) {
    n == 1 || (n > 1 && n % 2 == 0 && IsPowerOfTwo(n / 2))
  }

  lemma DoubledPower(n: nat)
    requires n > 0 && IsPowerOfTwo(n)
    ensures IsPowerOfTwo(2 * n)
  {
  }

  // ----- probing -----

  /** The slot a fingerprint hashes to. */
  function Home(fp: int, n: nat): (h: nat)
    requires n > 0
    ensures h < n
  {
    fp % n
  }

  /** The slot after i, wrapping at the end. */
  function Next(i: nat, n: nat): (j: nat)
    requires i < n
    ensures j < n
  {
    if i + 1 == n then 0 else i + 1
  }

  /** Slot k lies on the cyclic walk that starts at h and stops just before i. */
  ghost predicate Before(h: nat, k: nat, i: nat) {
    if h <= i then h <= k < i else k >= h || k < i
  }

  /** How many steps a walk from i takes to reach slot e. */
  ghost function Steps(i: nat, e: nat, n: nat): nat
    requires i < n && e < n
  {
    if i <= e then e - i else e + n - i
  }

  /** No empty slot lies between any entry's home and the entry. */
  ghost predicate Chained(fps: seq<int>) {
    forall i, k :: 0 <= i < |fps| && 0 <= k < |fps| && fps[i] != 0 && Before(Home(fps[i], |fps|), k, i)
      ==> fps[k] != 0
  }

  lemma EmptyChained(fps: seq<int>)
    requires forall i :: 0 <= i < |fps| ==> fps[i] == 0
    ensures Chained(fps)
  {
  }

  /** Placing an entry at the first empty slot after its home keeps every chain whole. */
  lemma PlaceKeepsChained(fps: seq<int>, fp: int, i: nat)
    requires i < |fps| && fps[i] == 0 && fp != 0 && Chained(fps)
    requires forall k :: 0 <= k < |fps| && Before(Home(fp, |fps|), k, i) ==> fps[k] != 0
    ensures Chained(fps[i := fp])
  {
  }

  /** A walk that has passed every slot from fp's home up to an empty slot has passed every entry of fp. */
  lemma WalkIsComplete(fps: seq<int>, fp: int, e: nat, j: nat)
    requires e < |fps| && fps[e] == 0 && fp != 0 && Chained(fps)
    requires j < |fps| && fps[j] == fp
    ensures Before(Home(fp, |fps|), j, e)
  {
    var h := Home(fp, |fps|);
    assert !Before(h, e, j);
  }

  /** Of two entries filed under one fingerprint, the walk from their home meets the lower position first. */
  ghost predicate InOrder(fps: seq<int>, poss: seq<int>)
    requires |fps| == |poss|
  {
    forall i, j :: 0 <= i < |fps| && 0 <= j < |fps| && fps[i] == fps[j] != 0 && Before(Home(fps[j], |fps|), i, j)
      ==> poss[i] < poss[j]
  }

  /** Below an entry met on the walk, every lower position of its fingerprint has been met already. */
  lemma MetEarlier(fps: seq<int>, poss: seq<int>, i: nat, p: int) returns (j: nat)
    requires i < |fps| == |poss| && InOrder(fps, poss) && fps[i] != 0
    requires (fps[i], p) in EntriesOf(fps, poss) && p < poss[i]
    ensures j < |fps| && fps[j] == fps[i] && poss[j] == p && Before(Home(fps[i], |fps|), j, i)
  {
    j := EntryHasSlot(fps, poss, (fps[i], p), |fps|);
    assert j != i && !Before(Home(fps[j], |fps|), i, j);
  }

  lemma LowerWereMet(fps: seq<int>, poss: seq<int>, met: seq<int>, i: nat)
    requires i < |fps| == |poss| && fps[i] != 0
    requires forall j :: 0 <= j < |fps| && Before(Home(fps[i], |fps|), j, i) && fps[j] == fps[i] ==> poss[j] in met
    ensures InOrder(fps, poss) ==> forall p: int :: (fps[i], p) in EntriesOf(fps, poss) && p < poss[i] ==> p in met
  {
    if InOrder(fps, poss) {
      forall p: int | (fps[i], p) in EntriesOf(fps, poss) && p < poss[i]
        ensures p in met
      {
        var j := MetEarlier(fps, poss, i, p);
      }
    }
  }

  /** Placing a position higher than any there keeps the order. */
  lemma PlaceKeepsOrder(fps: seq<int>, poss: seq<int>, fp: int, pos: int, i: nat)
    requires i < |fps| == |poss| && fps[i] == 0 && fp != 0 && Chained(fps)
    ensures InOrder(fps, poss) && (forall e <- EntriesOf(fps, poss) :: e.1 < pos) ==>
              InOrder(fps[i := fp], poss[i := pos])
  {
    if InOrder(fps, poss) && forall e <- EntriesOf(fps, poss) :: e.1 < pos {
      forall j | 0 <= j < |fps| && fps[j] != 0
        ensures poss[j] < pos
      {
        EntryAt(fps, poss, j, |fps|);
      }
    }
  }

  class IdTable {
    var fingerprints: array<int>
    var positions: array<int>
    var count: nat

    ghost predicate Valid()
      reads this, fingerprints, positions
    {
      && fingerprints != positions
      && fingerprints.Length == positions.Length >= 16
      && IsPowerOfTwo(fingerprints.Length)
      && count == |Entries()|
      && 2 * count <= fingerprints.Length
      && Chained(fingerprints[..])
    }

    ghost function Entries(): multiset<Entry>
      reads this, fingerprints, positions
    {
      if fingerprints.Length == positions.Length then EntriesOf(fingerprints[..], positions[..]) else multiset{}
    }

    /** Entries of one fingerprint are met in the order of their positions; growing may end this. */
    ghost predicate Ordered()
      reads this, fingerprints, positions
    {
      fingerprints.Length == positions.Length && InOrder(fingerprints[..], positions[..])
    }

    /** An empty table of at least twice the given capacity. */
    constructor (capacity: nat)
      ensures Valid() && fresh(fingerprints) && fresh(positions)
      ensures Entries() == multiset{} && fingerprints.Length >= 2 * capacity && Ordered()
    {
      var size := 16;
      assert IsPowerOfTwo(16) by {
        assert IsPowerOfTwo(2) && IsPowerOfTwo(4) && IsPowerOfTwo(8);
      }
      while size < capacity * 2
        invariant size >= 16 && IsPowerOfTwo(size)
      {
        size := size * 2;
      }
      fingerprints := new int[size](_ => 0);
      positions := new int[size](_ => 0);
      count := 0;
      new;
      EmptyTable(fingerprints[..], positions[..], size);
    }

    /** Adds one entry, doubling the table first when it would become more than half full. */
    method Insert(fp: int, pos: int)
      requires Valid() && fp != 0
      modifies this, fingerprints, positions
      ensures Valid() && Entries() == old(Entries()) + multiset{(fp, pos)}
      ensures fingerprints == old(fingerprints) || fresh(fingerprints)
      ensures positions == old(positions) || fresh(positions)
      ensures old((count + 1) * 2 <= fingerprints.Length) ==>
                fingerprints == old(fingerprints) && positions == old(positions)
      ensures old((count + 1) * 2 <= fingerprints.Length && Ordered()) && (forall e <- old(Entries()) :: e.1 < pos) ==>
                Ordered()
      decreases if (count + 1) * 2 > fingerprints.Length then 2 else 0
    {
      hide InOrder;
      if (count + 1) * 2 > fingerprints.Length {
        Grow();
      }
      Place(fp, pos);
    }

    /** The probing half of Insert: walk forward from the home slot to the first empty one. */
    method Place(fp: int, pos: int)
      requires Valid() && fp != 0 && (count + 1) * 2 <= fingerprints.Length
      modifies this`count, fingerprints, positions
      ensures Valid() && Entries() == old(Entries()) + multiset{(fp, pos)}
      ensures old(Ordered()) && (forall e <- old(Entries()) :: e.1 < pos) ==> Ordered()
    {
      hide InOrder;
      var n := fingerprints.Length;
      ghost var fps, poss := fingerprints[..], positions[..];
      ghost var e := HasEmptySlot(fps, poss, n);
      var i: nat := Home(fp, n);
      while fingerprints[i] != 0
        invariant i < n && fingerprints[..] == fps && positions[..] == poss
        invariant forall k :: 0 <= k < n && Before(Home(fp, n), k, i) ==> fps[k] != 0
        invariant !Before(Home(fp, n), e, i)
        decreases Steps(i, e, n)
      {
        i := Next(i, n);
      }
      FillAddsEntry(fps, poss, i, fp, pos, n);
      PlaceKeepsChained(fps, fp, i);
      PlaceKeepsOrder(fps, poss, fp, pos, i);
      fingerprints[i] := fp;
      positions[i] := pos;
      count := count + 1;
      assert fingerprints[..] == fps[i := fp] && positions[..] == poss[i := pos];
    }

    /** Doubles the table and re-inserts every entry; those inserts never grow again. */
    method Grow()
      requires Valid()
      modifies this
      ensures Valid() && Entries() == old(Entries())
      ensures fresh(fingerprints) && fresh(positions)
      ensures fingerprints.Length == 2 * old(fingerprints.Length)
      decreases 1, 1
    {
      hide InOrder, Chained, IsPowerOfTwo, EntriesUpTo;
      var oldFP, oldPos := fingerprints, positions;
      var size := 2 * oldFP.Length;
      DoubledPower(oldFP.Length);
      fingerprints := new int[size](_ => 0);
      positions := new int[size](_ => 0);
      count := 0;
      EmptyTable(fingerprints[..], positions[..], size);
      EmptyChained(fingerprints[..]);
      Reinsert(oldFP, oldPos);
    }

    /** Inserts every entry of two old columns into an empty table that has room for them. */
    method Reinsert(oldFP: array<int>, oldPos: array<int>)
      requires Valid() && Entries() == multiset{}
      requires oldFP.Length == oldPos.Length
      requires {oldFP, oldPos} !! {fingerprints, positions}
      requires 2 * |EntriesOf(oldFP[..], oldPos[..])| <= fingerprints.Length
      modifies this, fingerprints, positions
      ensures Valid() && Entries() == old(EntriesOf(oldFP[..], oldPos[..]))
      ensures fingerprints == old(fingerprints) && positions == old(positions)
      decreases 1, 0
    {
      ghost var fps, poss := oldFP[..], oldPos[..];
      assert EntriesUpTo(fps, poss, 0) == multiset{};
      hide Chained, IsPowerOfTwo, EntriesUpTo;
      for i := 0 to oldFP.Length
        invariant Valid() && fingerprints == old(fingerprints) && positions == old(positions)
        invariant oldFP[..] == fps && oldPos[..] == poss
        invariant Entries() == EntriesUpTo(fps, poss, i)
      {
        PrefixStep(fps, poss, i);
        if oldFP[i] != 0 {
          Insert(oldFP[i], oldPos[i]);
        }
      }
    }

    /**
     Visits the positions filed under fp in probe order until the callback says stop.
     Every visited position is an entry of fp, only the last can have said stop, and if none
     did, every entry of fp was visited.
     */
    method ForEachCandidate(fp: int, stop: int -> bool) returns (visited: seq<int>)
      requires Valid() && fp != 0
      ensures forall p <- visited :: (fp, p) in Entries()
      ensures forall k :: 0 <= k < |visited| - 1 ==> !stop(visited[k])
      ensures (visited == [] || !stop(visited[|visited| - 1])) ==>
                forall p: int :: (fp, p) in Entries() ==> p in visited
      ensures Ordered() && visited != [] ==>
                forall p: int :: (fp, p) in Entries() && p < visited[|visited| - 1] ==> p in visited[..|visited| - 1]
    {
      hide EntriesUpTo, Chained, IsPowerOfTwo, InOrder;
      var n := fingerprints.Length;
      ghost var fps, poss := fingerprints[..], positions[..];
      ghost var e := HasEmptySlot(fps, poss, n);
      var i: nat := Home(fp, n);
      visited := [];
      while fingerprints[i] != 0
        invariant i < n && !Before(Home(fp, n), e, i)
        invariant forall p <- visited :: (fp, p) in Entries()
        invariant forall k :: 0 <= k < |visited| ==> !stop(visited[k])
        invariant forall k :: 0 <= k < n && Before(Home(fp, n), k, i) && fps[k] == fp ==> poss[k] in visited
        decreases Steps(i, e, n)
      {
        if fingerprints[i] == fp {
          EntryAt(fps, poss, i, n);
          if stop(positions[i]) {
            LowerWereMet(fps, poss, visited, i);
            visited := visited + [positions[i]];
            return;
          }
          visited := visited + [positions[i]];
        }
        i := Next(i, n);
      }
      forall p: int | (fp, p) in Entries()
        ensures p in visited
      {
        var j := EntryHasSlot(fps, poss, (fp, p), n);
        WalkIsComplete(fps, fp, i, j);
      }
    }
  }
}
