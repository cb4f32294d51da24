/**
 A collection's index as a sequence of slots, and the two ways a document leaves it: replay
 marks a slot by emptying it and drops the marks at the end, the live path drops the slot at
 once (index.go, store.go). A slot is a payload offset with the payload found there, so its
 length is the payload's; only a mark has length zero.
 */
module Slots {
  import opened Framing

  datatype Slot = Slot(off: nat, doc: Bytes) {
    function Mark(): Slot {
      this.(doc := [])
    }

    /** Bytes the slot's record occupies on disk. */
    function Size(): nat {
      RECORD_HEADER + |doc|
    }
  }

  function RemoveAt<T>(s: seq<T>, i: nat): (r: seq<T>)
    requires i < |s|
    ensures |r| == |s| - 1
  {
    s[..i] + s[i + 1..]
  }

  /** The slots among the first n that carry no mark, in order. */
  ghost function UnmarkedUpTo(s: seq<Slot>, n: nat): seq<Slot>
    requires n <= |s|
  {
    if n == 0 then [] else UnmarkedUpTo(s, n - 1) + (if s[n - 1].doc == [] then [] else [s[n - 1]])
  }

  /** What compaction leaves of an index. */
  ghost function Unmarked(s: seq<Slot>): seq<Slot> {
    UnmarkedUpTo(s, |s|)
  }

  /** Where slot i ends up once the marks are gone. */
  ghost function Rank(s: seq<Slot>, i: nat): nat
    requires i <= |s|
  {
    |UnmarkedUpTo(s, i)|
  }

  ghost predicate NoMarks(s: seq<Slot>) {
    forall x <- s :: x.doc != []
  }

  lemma {:induction false} UnmarkedPrefix(s: seq<Slot>, t: seq<Slot>, n: nat)
    requires n <= |s| && n <= |t| && forall i :: 0 <= i < n ==> s[i] == t[i]
    ensures UnmarkedUpTo(s, n) == UnmarkedUpTo(t, n)
  {
    if n > 0 {
      UnmarkedPrefix(s, t, n - 1);
    }
  }

  lemma UnmarkedSnoc(s: seq<Slot>, x: Slot)
    ensures Unmarked(s + [x]) == Unmarked(s) + (if x.doc == [] then [] else [x])
  {
    UnmarkedPrefix(s, s + [x], |s|);
  }

  /** An unmarked slot keeps its content at its rank. */
  lemma {:induction false} RankHolds(s: seq<Slot>, i: nat, n: nat)
    requires i < n <= |s| && s[i].doc != []
    ensures Rank(s, i) < |UnmarkedUpTo(s, n)| && UnmarkedUpTo(s, n)[Rank(s, i)] == s[i]
  {
    if i < n - 1 {
      RankHolds(s, i, n - 1);
    }
  }

  lemma {:induction false} RankMonotone(s: seq<Slot>, i: nat, j: nat)
    requires i < j <= |s| && s[i].doc != []
    ensures Rank(s, i) < Rank(s, j)
  {
    RankHolds(s, i, j);
  }

  /** Every slot that survives compaction came from an unmarked slot of that rank. */
  lemma {:induction false} RankOnto(s: seq<Slot>, p: nat, n: nat) returns (i: nat)
    requires n <= |s| && p < |UnmarkedUpTo(s, n)|
    ensures i < n && s[i].doc != [] && Rank(s, i) == p && s[i] == UnmarkedUpTo(s, n)[p]
  {
    if s[n - 1].doc != [] && p == |UnmarkedUpTo(s, n)| - 1 {
      i := n - 1;
    } else {
      i := RankOnto(s, p, n - 1);
    }
  }

  lemma {:induction false} UnmarkedHasNoMarks(s: seq<Slot>, n: nat)
    requires n <= |s|
    ensures NoMarks(UnmarkedUpTo(s, n))
  {
    if n > 0 {
      UnmarkedHasNoMarks(s, n - 1);
    }
  }

  lemma {:induction false} NothingToCompact(s: seq<Slot>, n: nat)
    requires n <= |s| && NoMarks(s)
    ensures UnmarkedUpTo(s, n) == s[..n]
  {
    if n > 0 {
      NothingToCompact(s, n - 1);
      assert s[n - 1] in s;
    }
  }

  /** Repointing slot i in place is repointing its rank in the compacted index. */
  lemma {:induction false} RepointCommutes(s: seq<Slot>, i: nat, x: Slot, n: nat)
    requires i < n <= |s| && s[i].doc != [] && x.doc != []
    ensures Rank(s, i) < |UnmarkedUpTo(s, n)|
    ensures UnmarkedUpTo(s[i := x], n) == UnmarkedUpTo(s, n)[Rank(s, i) := x]
  {
    if i == n - 1 {
      UnmarkedPrefix(s, s[i := x], i);
    } else {
      RepointCommutes(s, i, x, n - 1);
    }
  }

  /** Marking slot i is removing its rank from the compacted index. */
  lemma {:induction false} MarkCommutes(s: seq<Slot>, i: nat, n: nat)
    requires i < n <= |s| && s[i].doc != []
    ensures Rank(s, i) < |UnmarkedUpTo(s, n)|
    ensures UnmarkedUpTo(s[i := s[i].Mark()], n) == RemoveAt(UnmarkedUpTo(s, n), Rank(s, i))
  {
    var t := s[i := s[i].Mark()];
    if i == n - 1 {
      UnmarkedPrefix(s, t, i);
      var u := UnmarkedUpTo(s, i);
      assert RemoveAt(u + [s[i]], |u|) == u;
    } else {
      MarkCommutes(s, i, n - 1);
      var u, r := UnmarkedUpTo(s, n - 1), Rank(s, i);
      if s[n - 1].doc != [] {
        assert RemoveAt(u + [s[n - 1]], r) == RemoveAt(u, r) + [s[n - 1]];
      }
    }
  }

  // ----- removing many positions at once -----

  ghost predicate Ascending(ps: seq<nat>, n: nat) {
    && (forall i :: 0 <= i < |ps| ==> ps[i] < n)
    && (forall i, j :: 0 <= i < j < |ps| ==> ps[i] < ps[j])
  }

  /** The elements among the first n whose positions are not listed, in order. */
  ghost function KeepUpTo<T>(s: seq<T>, ps: seq<nat>, n: nat): seq<T>
    requires n <= |s|
  {
    if n == 0 then [] else KeepUpTo(s, ps, n - 1) + (if n - 1 in ps then [] else [s[n - 1]])
  }

  ghost function Keep<T>(s: seq<T>, ps: seq<nat>): seq<T> {
    KeepUpTo(s, ps, |s|)
  }

  /** Removing the positions one at a time from the highest down, the order that needs no shifting. */
  ghost function RemoveFromTop<T>(s: seq<T>, ps: seq<nat>): seq<T>
    requires Ascending(ps, |s|)
    decreases |ps|
  {
    if ps == [] then s
    else
      var last := |ps| - 1;
      RemoveFromTop(RemoveAt(s, ps[last]), ps[..last])
  }

  lemma {:induction false} KeepAll<T>(s: seq<T>, ps: seq<nat>, n: nat)
    requires n <= |s| && forall p <- ps :: p >= n
    ensures KeepUpTo(s, ps, n) == s[..n]
  {
    if n > 0 {
      KeepAll(s, ps, n - 1);
    }
  }

  lemma {:induction false} KeepSame<T>(s: seq<T>, t: seq<T>, ps: seq<nat>, qs: seq<nat>, n: nat)
    requires n <= |s| && n <= |t|
    requires forall i :: 0 <= i < n ==> s[i] == t[i] && (i in ps <==> i in qs)
    ensures KeepUpTo(s, ps, n) == KeepUpTo(t, qs, n)
  {
    if n > 0 {
      KeepSame(s, t, ps, qs, n - 1);
    }
  }

  /** Everything past the last listed position is kept. */
  lemma {:induction false} KeepTail<T>(s: seq<T>, ps: seq<nat>, m: nat, n: nat)
    requires m <= n <= |s| && forall p <- ps :: p < m
    ensures KeepUpTo(s, ps, n) == KeepUpTo(s, ps, m) + s[m..n]
  {
    if m < n {
      KeepTail(s, ps, m, n - 1);
      assert s[m..n] == s[m..n - 1] + [s[n - 1]];
    }
  }

  lemma {:induction false} AscendingFits(ps: seq<nat>, n: nat)
    requires Ascending(ps, n)
    ensures |ps| <= n
  {
    if ps != [] {
      var last := |ps| - 1;
      AscendingFits(ps[..last], ps[last]);
    }
  }

  /** Each listed position takes out exactly one element. */
  lemma {:induction false} KeepLength<T>(s: seq<T>, ps: seq<nat>, n: nat)
    requires n <= |s| && Ascending(ps, n)
    ensures |ps| <= n && |KeepUpTo(s, ps, n)| == n - |ps|
  {
    AscendingFits(ps, n);
    if n > 0 {
      if n - 1 in ps {
        var last := |ps| - 1;
        assert ps[last] == n - 1;
        KeepLength(s, ps[..last], n - 1);
        forall i | 0 <= i < n - 1
          ensures i in ps <==> i in ps[..last]
        {
          assert ps == ps[..last] + [ps[last]];
        }
        KeepSame(s, s, ps, ps[..last], n - 1);
      } else {
        KeepLength(s, ps, n - 1);
      }
    }
  }

  /** Taking out one more position, the highest so far, on top of those below it. */
  lemma KeepOneMore<T>(s: seq<T>, ps: seq<nat>, p: nat)
    requires p < |s| && Ascending(ps, p)
    ensures |ps| <= p && |Keep(s, ps)| == |s| - |ps|
    ensures Keep(s, ps + [p]) == RemoveAt(Keep(s, ps), p - |ps|)
    ensures Keep(s, ps)[p - |ps|] == s[p]
  {
    KeepLength(s, ps, p);
    KeepLength(s, ps, |s|);
    KeepTail(s, ps, p, |s|);
    KeepTail(s, ps + [p], p + 1, |s|);
    KeepSame(s, s, ps, ps + [p], p);
    var k := KeepUpTo(s, ps, p);
    assert KeepUpTo(s, ps + [p], p + 1) == k;
    assert (k + s[p..])[..|k|] == k && (k + s[p..])[|k| + 1..] == s[p + 1..];
  }

  /** Dropping all positions in one pass is dropping them one at a time from the highest down. */
  lemma {:induction false} KeepIsRemoveFromTop<T>(s: seq<T>, ps: seq<nat>)
    requires Ascending(ps, |s|)
    ensures Keep(s, ps) == RemoveFromTop(s, ps)
    decreases |ps|
  {
    if ps == [] {
      KeepAll(s, ps, |s|);
    } else {
      var last := |ps| - 1;
      var p, init := ps[last], ps[..last];
      RemoveTop(s, init, p);
      assert ps == init + [p];
      assert Ascending(init, |RemoveAt(s, p)|);
      KeepIsRemoveFromTop(RemoveAt(s, p), init);
    }
  }

  /** Removing the highest listed position first leaves the others meaning what they meant. */
  lemma RemoveTop<T>(s: seq<T>, init: seq<nat>, p: nat)
    requires p < |s| && forall q <- init :: q < p
    ensures Keep(s, init + [p]) == Keep(RemoveAt(s, p), init)
  {
    hide KeepUpTo;
    var t, ps := RemoveAt(s, p), init + [p];
    assert forall i | 0 <= i < p :: i in ps <==> i in init;
    KeepTail(s, ps, p + 1, |s|);
    KeepSame(s, t, ps, init, p);
    KeepTail(t, init, p, |t|);
    assert s[p + 1..|s|] == t[p..|t|];
    assert p in ps;
    KeepListed(s, ps, p);
  }

  lemma KeepListed<T>(s: seq<T>, ps: seq<nat>, p: nat)
    requires p < |s| && p in ps
    ensures KeepUpTo(s, ps, p + 1) == KeepUpTo(s, ps, p)
  {
  }
}
