/**
 Ordering query results (internal/engine/sort.go): the comparison of two entries, a bounded heap
 that keeps the best k of a stream, and the proof that what it keeps is the front of the sorted
 stream. sort.SliceStable is taken at its word: it leaves the one sorted arrangement.
 */
module Sorting {
  import opened Values
  import Order

  /** One level of an ordering. */
  datatype SortKey = SortKey(field: string, desc: bool)

  /** A candidate result: the document, its sort keys, and its position in the scan. */
  datatype Entry = Entry(doc: Value, keys: seq<Value>, rank: int)

  // ----- the comparison -----

  /** entryLess from key i on. */
  predicate LessFrom(order: seq<SortKey>, a: Entry, b: Entry, i: nat)
    requires i <= |order| && |order| <= |a.keys| && |order| <= |b.keys|
    decreases |order| - i
  {
    if i == |order| then a.rank < b.rank
    else
      var c := if order[i].desc then -Compare(a.keys[i], b.keys[i]) else Compare(a.keys[i], b.keys[i]);
      if c != 0 then c < 0 else LessFrom(order, a, b, i + 1)
  }

  /** Every entry carries a key for each level. */
  ghost predicate Keyed(order: seq<SortKey>, s: seq<Entry>) {
    forall e <- s :: |order| <= |e.keys|
  }

  predicate Less(order: seq<SortKey>, a: Entry, b: Entry) {
    |order| <= |a.keys| && |order| <= |b.keys| && LessFrom(order, a, b, 0)
  }

  lemma {:induction false} LessAsymmetric(order: seq<SortKey>, a: Entry, b: Entry, i: nat)
    requires i <= |order| && |order| <= |a.keys| && |order| <= |b.keys|
    ensures LessFrom(order, a, b, i) ==> !LessFrom(order, b, a, i)
    ensures a.rank != b.rank ==> LessFrom(order, a, b, i) || LessFrom(order, b, a, i)
    decreases |order| - i
  {
    hide Compare;
    if i < |order| {
      Antisymmetric(a.keys[i], b.keys[i]);
      LessAsymmetric(order, a, b, i + 1);
    }
  }

  lemma {:induction false} LessFromTransitive(order: seq<SortKey>, a: Entry, b: Entry, c: Entry, i: nat)
    requires i <= |order| && |order| <= |a.keys| && |order| <= |b.keys| && |order| <= |c.keys|
    requires LessFrom(order, a, b, i) && LessFrom(order, b, c, i)
    ensures LessFrom(order, a, c, i)
    decreases |order| - i
  {
    if i < |order| {
      var x, y, z := a.keys[i], b.keys[i], c.keys[i];
      TotalOrder(x, y, z);
      TotalOrder(z, y, x);
      TotalOrder(y, z, x);
      TotalOrder(x, z, y);
      if Compare(x, y) == 0 && Compare(y, z) == 0 {
        LessFromTransitive(order, a, b, c, i + 1);
      }
    }
  }

  /**
   For any mix of ascending and descending keys, entryLess is a strict total order on entries
   taken at different points of a scan.
   */
  lemma LessIsStrictTotal(order: seq<SortKey>, a: Entry, b: Entry, c: Entry)
    requires |order| <= |a.keys| && |order| <= |b.keys| && |order| <= |c.keys|
    ensures !(Less(order, a, b) && Less(order, b, a))
    ensures a.rank != b.rank ==> Less(order, a, b) || Less(order, b, a)
    ensures Less(order, a, b) && Less(order, b, c) ==> Less(order, a, c)
  {
    LessAsymmetric(order, a, b, 0);
    if Less(order, a, b) && Less(order, b, c) {
      LessFromTransitive(order, a, b, c, 0);
    }
  }

  // ----- what the comparison means -----

  /** The levels before l do not tell the entries apart. */
  ghost predicate AlikeUpTo(a: Entry, b: Entry, l: nat) {
    l <= |a.keys| && l <= |b.keys| && forall m | 0 <= m < l :: a.keys[m] == b.keys[m]
  }

  /** Level l is the first that tells them apart, and puts a ahead: the lower key, or the higher if descending. */
  ghost predicate AheadAt(order: seq<SortKey>, a: Entry, b: Entry, l: nat) {
    && l < |order| && l < |a.keys| && l < |b.keys| && AlikeUpTo(a, b, l)
    && if order[l].desc then Order.Lower(b.keys[l], a.keys[l]) else Order.Lower(a.keys[l], b.keys[l])
  }

  /** The order a query asks for: by the first level that tells two entries apart, else by scan position. */
  ghost predicate InOrder(order: seq<SortKey>, a: Entry, b: Entry) {
    (exists l: nat :: AheadAt(order, a, b, l)) || (AlikeUpTo(a, b, |order|) && a.rank < b.rank)
  }

  ghost predicate Arranged(order: seq<SortKey>, s: seq<Entry>) {
    forall i, j | 0 <= i < j < |s| :: InOrder(order, s[i], s[j])
  }

  /** entryLess computes that order. */
  lemma LessIsInOrder(order: seq<SortKey>, a: Entry, b: Entry)
    requires |order| <= |a.keys| && |order| <= |b.keys|
    ensures Less(order, a, b) <==> InOrder(order, a, b)
  {
    LessFromMeans(order, a, b, 0);
  }

  lemma {:induction false} LessFromMeans(order: seq<SortKey>, a: Entry, b: Entry, i: nat)
    requires i <= |order| && |order| <= |a.keys| && |order| <= |b.keys| && AlikeUpTo(a, b, i)
    ensures LessFrom(order, a, b, i) <==> InOrder(order, a, b)
    decreases |order| - i
  {
    hide Compare, Order.Lower;
    if i < |order| {
      var x, y := a.keys[i], b.keys[i];
      Order.CompareIsLower(x, y);
      Order.CompareIsLower(y, x);
      Antisymmetric(x, y);
      EqualIsSame(x, y);
      if x == y {
        LessFromMeans(order, a, b, i + 1);
      } else {
        assert AheadAt(order, a, b, i) <==> LessFrom(order, a, b, i);
        OnlyLevel(order, a, b, i);
      }
    } else {
      NoLevel(order, a, b);
    }
  }

  /** No level but the first that differs can put one ahead. */
  lemma OnlyLevel(order: seq<SortKey>, a: Entry, b: Entry, i: nat)
    requires i < |order| <= |a.keys| && |order| <= |b.keys| && AlikeUpTo(a, b, i) && a.keys[i] != b.keys[i]
    ensures InOrder(order, a, b) <==> AheadAt(order, a, b, i)
  {
    forall l: nat | l != i
      ensures !AheadAt(order, a, b, l)
    {
      if l < i {
        Order.NotLowerThanItself(a.keys[l]);
      }
    }
    hide Order.Lower;
  }

  lemma NoLevel(order: seq<SortKey>, a: Entry, b: Entry)
    requires AlikeUpTo(a, b, |order|)
    ensures InOrder(order, a, b) <==> a.rank < b.rank
  {
    hide Order.Lower;
    forall l: nat | l < |order|
      ensures !AheadAt(order, a, b, l)
    {
      Order.NotLowerThanItself(a.keys[l]);
    }
  }

  // ----- sorting -----

  /** Entries of one scan: all keyed, no two from the same point. */
  ghost predicate Stream(order: seq<SortKey>, s: seq<Entry>) {
    Keyed(order, s) && forall i, j | 0 <= i < j < |s| :: s[i].rank != s[j].rank
  }

  ghost predicate Sorted(order: seq<SortKey>, s: seq<Entry>) {
    forall i, j | 0 <= i < j < |s| :: Less(order, s[i], s[j])
  }

  /** Where an entry goes in a sorted list. */
  ghost function Insert(order: seq<SortKey>, s: seq<Entry>, e: Entry): (r: seq<Entry>)
    ensures |r| == |s| + 1 && multiset(r) == multiset(s) + multiset{e}
  {
    if s == [] then [e]
    else if Less(order, e, s[0]) then [e] + s
    else
      assert s == [s[0]] + s[1..];
      [s[0]] + Insert(order, s[1..], e)
  }

  /** The sorted arrangement of a stream. */
  ghost function Sort(order: seq<SortKey>, s: seq<Entry>): (r: seq<Entry>)
    ensures |r| == |s| && multiset(r) == multiset(s)
  {
    if s == [] then []
    else
      assert s == s[..|s| - 1] + [s[|s| - 1]];
      Insert(order, Sort(order, s[..|s| - 1]), s[|s| - 1])
  }

  /** Entry e belongs with the entries of s: keyed, and from a point of the scan none of them is from. */
  ghost predicate Fresh(order: seq<SortKey>, s: seq<Entry>, e: Entry) {
    Keyed(order, s) && |order| <= |e.keys| && forall x <- s :: x.rank != e.rank
  }

  lemma {:induction false} InsertKeepsSorted(order: seq<SortKey>, s: seq<Entry>, e: Entry)
    requires Sorted(order, s) && Fresh(order, s, e)
    ensures Sorted(order, Insert(order, s, e))
  {
    if s != [] {
      var r := Insert(order, s, e);
      if Less(order, e, s[0]) {
        forall i, j | 0 <= i < j < |r|
          ensures Less(order, r[i], r[j])
        {
          if i == 0 && j > 1 {
            LessIsStrictTotal(order, e, s[0], s[j - 1]);
          }
        }
      } else {
        var t := Insert(order, s[1..], e);
        InsertKeepsSorted(order, s[1..], e);
        LessIsStrictTotal(order, s[0], e, e);
        forall x | x in t
          ensures Less(order, s[0], x)
        {
          FromInsert(order, s[1..], e, x);
        }
        ConsSorted(order, s[0], t);
      }
    }
  }

  lemma FromInsert(order: seq<SortKey>, s: seq<Entry>, e: Entry, x: Entry)
    requires x in Insert(order, s, e)
    ensures x == e || x in s
  {
    assert x in multiset(Insert(order, s, e));
  }

  lemma ConsSorted(order: seq<SortKey>, x: Entry, t: seq<Entry>)
    requires Sorted(order, t) && forall y <- t :: Less(order, x, y)
    ensures Sorted(order, [x] + t)
  {
  }

  lemma {:induction false} SortIsSorted(order: seq<SortKey>, s: seq<Entry>)
    requires Stream(order, s)
    ensures Sorted(order, Sort(order, s))
  {
    if s != [] {
      var init, e := s[..|s| - 1], s[|s| - 1];
      SortIsSorted(order, init);
      SameMembers(Sort(order, init), init);
      InsertKeepsSorted(order, Sort(order, init), e);
    }
  }

  /** What sorting leaves: the entries it was given, in the order the query asks for. */
  lemma SortArranges(order: seq<SortKey>, s: seq<Entry>)
    requires Stream(order, s)
    ensures Arranged(order, Sort(order, s)) && multiset(Sort(order, s)) == multiset(s)
  {
    hide Less, InOrder;
    SortIsSorted(order, s);
    var r := Sort(order, s);
    SameMembers(r, s);
    forall i, j | 0 <= i < j < |r|
      ensures InOrder(order, r[i], r[j])
    {
      assert r[i] in s && r[j] in s;
      LessIsInOrder(order, r[i], r[j]);
    }
  }

  lemma SameMembers(a: seq<Entry>, b: seq<Entry>)
    requires multiset(a) == multiset(b)
    ensures forall x: Entry :: x in a <==> x in b
  {
    forall x: Entry
      ensures x in a <==> x in b
    {
      assert x in a <==> x in multiset(a);
      assert x in b <==> x in multiset(b);
    }
  }

  /** There is only one sorted arrangement of given entries. */
  lemma {:induction false} SortedIsUnique(order: seq<SortKey>, a: seq<Entry>, b: seq<Entry>)
    requires Sorted(order, a) && Sorted(order, b) && multiset(a) == multiset(b)
    ensures a == b
  {
    hide Less;
    if a == [] {
      assert multiset(b) == multiset{};
      assert |b| == 0;
    } else {
      SameMembers(a, b);
      assert a[0] in b && b[0] in a;
      SameHead(order, a, b);
      SameTails(a, b);
      assert a == [a[0]] + a[1..] && b == [b[0]] + b[1..];
      SortedIsUnique(order, a[1..], b[1..]);
    }
  }

  lemma SameHead(order: seq<SortKey>, a: seq<Entry>, b: seq<Entry>)
    requires Sorted(order, a) && Sorted(order, b) && a != [] && b != [] && a[0] in b && b[0] in a
    ensures a[0] == b[0]
  {
    if a[0] != b[0] {
      var i :| 0 <= i < |b| && b[i] == a[0];
      var j :| 0 <= j < |a| && a[j] == b[0];
      LessIsStrictTotal(order, a[0], b[0], b[0]);
    }
  }

  lemma SameTails(a: seq<Entry>, b: seq<Entry>)
    requires a != [] && b != [] && a[0] == b[0] && multiset(a) == multiset(b)
    ensures multiset(a[1..]) == multiset(b[1..])
  {
    assert a == [a[0]] + a[1..] && b == [b[0]] + b[1..];
    assert multiset(a[1..]) == multiset(a) - multiset{a[0]};
    assert multiset(b[1..]) == multiset(b) - multiset{b[0]};
  }

  // ----- the front of a sorted stream -----

  ghost function Front(s: seq<Entry>, k: nat): seq<Entry> {
    if |s| <= k then s else s[..k]
  }

  /** An entry that does not beat the k-th leaves the first k alone. */
  lemma {:induction false} InsertBehind(order: seq<SortKey>, s: seq<Entry>, e: Entry, k: nat)
    requires Sorted(order, s) && Fresh(order, s, e) && 0 < k <= |s| && !Less(order, e, s[k - 1])
    ensures Insert(order, s, e)[..k] == s[..k]
  {
    hide Less;
    if k > 1 {
      LessIsStrictTotal(order, e, s[0], s[k - 1]);
      InsertBehind(order, s[1..], e, k - 1);
      InsertTail(order, s, e, k);
    } else {
      InsertTail(order, s, e, k);
    }
  }

  lemma InsertTail(order: seq<SortKey>, s: seq<Entry>, e: Entry, k: nat)
    requires 0 < k <= |s| && !Less(order, e, s[0])
    ensures Insert(order, s, e)[..k] == [s[0]] + Insert(order, s[1..], e)[..k - 1]
    ensures s[..k] == [s[0]] + s[1..][..k - 1]
  {
    hide Less;
  }

  /** One that does takes its place among them and pushes the k-th out. */
  lemma {:induction false} InsertAhead(order: seq<SortKey>, s: seq<Entry>, e: Entry, k: nat)
    requires Sorted(order, s) && Fresh(order, s, e) && 0 < k <= |s| && Less(order, e, s[k - 1])
    ensures Insert(order, s, e)[..k] == Insert(order, s[..k], e)[..k]
    ensures Insert(order, s[..k], e)[k] == s[k - 1]
  {
    hide Less;
    if Less(order, e, s[0]) {
      InsertFirst(order, s, e, k);
    } else {
      assert k > 1;
      assert s[1..][k - 2] == s[k - 1];
      InsertAhead(order, s[1..], e, k - 1);
      InsertTail(order, s, e, k);
      InsertTailOfFront(order, s, e, k);
    }
  }

  lemma InsertFirst(order: seq<SortKey>, s: seq<Entry>, e: Entry, k: nat)
    requires 0 < k <= |s| && Less(order, e, s[0])
    ensures Insert(order, s, e)[..k] == Insert(order, s[..k], e)[..k] && Insert(order, s[..k], e)[k] == s[k - 1]
  {
    hide Less;
    assert Insert(order, s, e)[..k] == [e] + s[..k - 1];
  }

  lemma InsertTailOfFront(order: seq<SortKey>, s: seq<Entry>, e: Entry, k: nat)
    requires 1 < k <= |s| && !Less(order, e, s[0])
    ensures Insert(order, s[..k], e) == [s[0]] + Insert(order, s[1..][..k - 1], e)
  {
    hide Less;
    assert s[..k][1..] == s[1..][..k - 1];
  }

  lemma InsertCounts(order: seq<SortKey>, s: seq<Entry>, e: Entry)
    ensures |Insert(order, s, e)| == |s| + 1 && multiset(Insert(order, s, e)) == multiset(s) + multiset{e}
  {
    hide Less;
  }

  lemma DropLast(r: seq<Entry>, k: nat)
    requires |r| == k + 1
    ensures multiset(r[..k]) == multiset(r) - multiset{r[k]}
  {
    assert r == r[..k] + [r[k]];
  }

  lemma FrontShort(order: seq<SortKey>, all: seq<Entry>, e: Entry, k: nat)
    requires |all| < k
    ensures |Front(all, k)| < k && multiset(Front(Insert(order, all, e), k)) == multiset(Front(all, k)) + multiset{e}
  {
    hide Less, Insert;
    InsertCounts(order, all, e);
  }

  lemma FrontAhead(order: seq<SortKey>, all: seq<Entry>, e: Entry, k: nat)
    requires Sorted(order, all) && Fresh(order, all, e) && 0 < k <= |all| && Less(order, e, all[k - 1])
    ensures |Front(all, k)| == k && Front(all, k)[k - 1] == all[k - 1]
    ensures multiset(Front(Insert(order, all, e), k)) == multiset(Front(all, k)) + multiset{e} - multiset{all[k - 1]}
  {
    hide Less, Sorted, Fresh, Insert;
    InsertAhead(order, all, e, k);
    InsertCounts(order, all, e);
    InsertCounts(order, all[..k], e);
    DropLast(Insert(order, all[..k], e), k);
    assert Front(all, k) == all[..k];
  }

  lemma FrontBehind(order: seq<SortKey>, all: seq<Entry>, e: Entry, k: nat)
    requires Sorted(order, all) && Fresh(order, all, e) && 0 < k <= |all| && !Less(order, e, all[k - 1])
    ensures |Front(all, k)| == k && Front(all, k)[k - 1] == all[k - 1]
    ensures Front(Insert(order, all, e), k) == Front(all, k)
  {
    hide Less, Sorted, Fresh;
    InsertBehind(order, all, e, k);
  }

  lemma FrontMembers(order: seq<SortKey>, all: seq<Entry>, e: Entry, k: nat)
    requires Sorted(order, all) && Fresh(order, all, e)
    ensures Sorted(order, Front(all, k)) && Fresh(order, Front(all, k), e) && Keyed(order, Front(all, k))
  {
    hide Less;
    assert forall x | x in Front(all, k) :: x in all;
  }

  lemma SortedStream(order: seq<SortKey>, s: seq<Entry>, e: Entry)
    requires Stream(order, s + [e])
    ensures Sorted(order, Sort(order, s)) && Fresh(order, Sort(order, s), e)
    ensures Sort(order, s + [e]) == Insert(order, Sort(order, s), e) && Sorted(order, Sort(order, s + [e]))
  {
    hide Less, Insert;
    assert (s + [e])[..|s|] == s;
    StreamPrefix(order, s, e);
    SortIsSorted(order, s);
    SortIsSorted(order, s + [e]);
    SameMembers(Sort(order, s), s);
  }

  /** One more entry in the stream, as far as its first k go. */
  lemma FrontStep(order: seq<SortKey>, s: seq<Entry>, e: Entry, k: nat)
    requires Stream(order, s + [e]) && k > 0
    ensures var best, next := Front(Sort(order, s), k), Front(Sort(order, s + [e]), k);
            && Sorted(order, best) && Sorted(order, next) && Keyed(order, best) && Fresh(order, best, e)
            && (|best| < k ==> multiset(next) == multiset(best) + multiset{e})
            && (|best| == k && Less(order, e, best[k - 1]) ==>
                  multiset(next) == multiset(best) + multiset{e} - multiset{best[k - 1]})
            && (|best| == k && !Less(order, e, best[k - 1]) ==> next == best)
  {
    hide *;
    var all := Sort(order, s);
    SortedStream(order, s, e);
    FrontMembers(order, all, e, k);
    FrontSorted(order, Sort(order, s + [e]), k);
    if |all| < k {
      FrontShort(order, all, e, k);
    } else if Less(order, e, all[k - 1]) {
      FrontAhead(order, all, e, k);
    } else {
      FrontBehind(order, all, e, k);
    }
  }

  lemma FrontSorted(order: seq<SortKey>, all: seq<Entry>, k: nat)
    requires Sorted(order, all)
    ensures Sorted(order, Front(all, k))
  {
    hide Less;
  }

  lemma StreamPrefix(order: seq<SortKey>, s: seq<Entry>, e: Entry)
    requires Stream(order, s + [e])
    ensures Stream(order, s) && Fresh(order, s, e)
  {
    forall i | 0 <= i < |s|
      ensures (s + [e])[i] == s[i] && s[i] in s + [e]
    {
    }
    assert e == (s + [e])[|s|] && e in s + [e];
  }

  // ----- the heap -----

  /** Entry a does not come before entry b. */
  ghost predicate NotBefore(order: seq<SortKey>, a: Entry, b: Entry) {
    !Less(order, a, b)
  }

  lemma {:induction false} NotLessTransitive(order: seq<SortKey>, a: Entry, b: Entry, c: Entry, i: nat)
    requires i <= |order| && |order| <= |a.keys| && |order| <= |b.keys| && |order| <= |c.keys|
    requires !LessFrom(order, a, b, i) && !LessFrom(order, b, c, i)
    ensures !LessFrom(order, a, c, i)
    decreases |order| - i
  {
    if i < |order| {
      var x, y, z := a.keys[i], b.keys[i], c.keys[i];
      TotalOrder(x, y, z);
      TotalOrder(z, y, x);
      TotalOrder(y, z, x);
      TotalOrder(x, z, y);
      if Compare(x, y) == 0 && Compare(y, z) == 0 {
        NotLessTransitive(order, a, b, c, i + 1);
      }
    }
  }

  lemma NotBeforeTransitive(order: seq<SortKey>, a: Entry, b: Entry, c: Entry)
    requires |order| <= |a.keys| && |order| <= |b.keys| && |order| <= |c.keys|
    requires NotBefore(order, a, b) && NotBefore(order, b, c)
    ensures NotBefore(order, a, c)
  {
    NotLessTransitive(order, a, b, c, 0);
  }

  lemma BeforeIsNotAfter(order: seq<SortKey>, a: Entry, b: Entry)
    requires Less(order, a, b)
    ensures NotBefore(order, b, a)
  {
    LessAsymmetric(order, a, b, 0);
  }

  function Parent(i: nat): nat
    requires i > 0
  {
    (i - 1) / 2
  }

  /** No entry of the first n comes before a child of its: the root is the worst of them. */
  ghost predicate Heap(order: seq<SortKey>, s: seq<Entry>, n: nat) {
    n <= |s| && forall i | 0 < i < n :: NotBefore(order, s[Parent(i)], s[i])
  }

  /** The same except between position j and its parent, whose own parent is still not before j's children. */
  ghost predicate Rising(order: seq<SortKey>, s: seq<Entry>, j: nat) {
    && j < |s|
    && (forall i | 0 < i < |s| && i != j :: NotBefore(order, s[Parent(i)], s[i]))
    && (forall i | 0 < i < |s| && j > 0 && Parent(i) == j :: NotBefore(order, s[Parent(j)], s[i]))
  }

  /** The same except between position j and its children, whose grandparent is still not before them. */
  ghost predicate Sinking(order: seq<SortKey>, s: seq<Entry>, j: nat, n: nat) {
    && j < n <= |s|
    && (forall i | 0 < i < n && Parent(i) != j :: NotBefore(order, s[Parent(i)], s[i]))
    && (forall i | 0 < i < n && j > 0 && Parent(i) == j :: NotBefore(order, s[Parent(j)], s[i]))
  }

  function Swapped(s: seq<Entry>, i: nat, j: nat): (r: seq<Entry>)
    requires i < |s| && j < |s|
    ensures |r| == |s| && multiset(r) == multiset(s)
  {
    s[i := s[j]][j := s[i]]
  }

  /** A worst entry at the root. */
  lemma {:induction false} RootIsWorst(order: seq<SortKey>, s: seq<Entry>, n: nat, i: nat)
    requires Heap(order, s, n) && Keyed(order, s) && 0 < i < n
    ensures NotBefore(order, s[0], s[i])
  {
    hide NotBefore;
    if Parent(i) > 0 {
      RootIsWorst(order, s, n, Parent(i));
      assert s[0] in s && s[Parent(i)] in s && s[i] in s;
      NotBeforeTransitive(order, s[0], s[Parent(i)], s[i]);
    }
  }

  lemma RiseStep(order: seq<SortKey>, s: seq<Entry>, j: nat)
    requires Rising(order, s, j) && Keyed(order, s) && j > 0 && Less(order, s[Parent(j)], s[j])
    ensures Rising(order, Swapped(s, Parent(j), j), Parent(j))
  {
    hide Less;
    var p := Parent(j);
    var t := Swapped(s, p, j);
    BeforeIsNotAfter(order, s[p], s[j]);
    assert s[p] in s && s[j] in s;
    forall i | 0 < i < |s| && i != p
      ensures NotBefore(order, t[Parent(i)], t[i])
    {
      RiseAt(order, s, j, i);
    }
    forall i | 0 < i < |s| && p > 0 && Parent(i) == p
      ensures NotBefore(order, t[Parent(p)], t[i])
    {
      if i != j {
        assert s[Parent(p)] in s && s[i] in s;
        NotBeforeTransitive(order, s[Parent(p)], s[p], s[i]);
      }
    }
  }

  lemma RiseAt(order: seq<SortKey>, s: seq<Entry>, j: nat, i: nat)
    requires Rising(order, s, j) && Keyed(order, s) && j > 0 && NotBefore(order, s[j], s[Parent(j)])
    requires 0 < i < |s| && i != Parent(j)
    ensures var t := Swapped(s, Parent(j), j); NotBefore(order, t[Parent(i)], t[i])
  {
    hide NotBefore;
    var p := Parent(j);
    if i != j && Parent(i) == p {
      assert s[p] in s && s[j] in s && s[i] in s;
      NotBeforeTransitive(order, s[j], s[p], s[i]);
    }
  }

  lemma Risen(order: seq<SortKey>, s: seq<Entry>, j: nat)
    requires Rising(order, s, j) && (j == 0 || !Less(order, s[Parent(j)], s[j]))
    ensures Heap(order, s, |s|)
  {
    hide Less;
  }

  /** The child that has to come up: the worse of the two. */
  ghost predicate WorseChild(order: seq<SortKey>, s: seq<Entry>, j: nat, c: nat, n: nat) {
    && j < c < n <= |s| && Parent(c) == j
    && forall i | 0 < i < n && Parent(i) == j :: NotBefore(order, s[c], s[i])
  }

  lemma SinkStep(order: seq<SortKey>, s: seq<Entry>, j: nat, c: nat, n: nat)
    requires Sinking(order, s, j, n) && Keyed(order, s) && WorseChild(order, s, j, c, n) && Less(order, s[j], s[c])
    ensures Sinking(order, Swapped(s, j, c), c, n)
  {
    hide Less;
    BeforeIsNotAfter(order, s[j], s[c]);
    var t := Swapped(s, j, c);
    forall i | 0 < i < n && Parent(i) != c
      ensures NotBefore(order, t[Parent(i)], t[i])
    {
    }
    forall i | 0 < i < n && Parent(i) == c
      ensures NotBefore(order, t[Parent(c)], t[i])
    {
      assert NotBefore(order, s[c], s[i]);
    }
  }

  lemma Sunk(order: seq<SortKey>, s: seq<Entry>, j: nat, n: nat)
    requires Sinking(order, s, j, n)
    requires forall i | 0 < i < n && Parent(i) == j :: NotBefore(order, s[j], s[i])
    ensures Heap(order, s, n)
  {
    hide NotBefore;
  }

  /** With the worse child not worse than j, neither child is. */
  lemma SunkAt(order: seq<SortKey>, s: seq<Entry>, j: nat, c: nat, n: nat)
    requires Sinking(order, s, j, n) && Keyed(order, s) && WorseChild(order, s, j, c, n) && !Less(order, s[j], s[c])
    ensures Heap(order, s, n)
  {
    hide Less;
    forall i | 0 < i < n && Parent(i) == j
      ensures NotBefore(order, s[j], s[i])
    {
      assert s[j] in s && s[c] in s && s[i] in s;
      NotBeforeTransitive(order, s[j], s[c], s[i]);
    }
    Sunk(order, s, j, n);
  }

  lemma PickChild(order: seq<SortKey>, s: seq<Entry>, j: nat, n: nat) returns (c: nat)
    requires n <= |s| && 2 * j + 1 < n
    ensures c == (if 2 * j + 2 < n && Less(order, s[2 * j + 1], s[2 * j + 2]) then 2 * j + 2 else 2 * j + 1)
    ensures Keyed(order, s) ==> WorseChild(order, s, j, c, n)
  {
    hide Less;
    c := if 2 * j + 2 < n && Less(order, s[2 * j + 1], s[2 * j + 2]) then 2 * j + 2 else 2 * j + 1;
    if Keyed(order, s) {
      forall i | 0 < i < n && Parent(i) == j
        ensures NotBefore(order, s[c], s[i])
      {
        assert i == 2 * j + 1 || i == 2 * j + 2;
        assert s[c] in s;
        NotBeforeItself(order, s[c]);
        if c == 2 * j + 2 {
          BeforeIsNotAfter(order, s[2 * j + 1], s[2 * j + 2]);
        }
      }
    }
  }

  lemma NotBeforeItself(order: seq<SortKey>, a: Entry)
    requires |order| <= |a.keys|
    ensures NotBefore(order, a, a)
  {
    LessAsymmetric(order, a, a, 0);
  }

  class TopK {
    const order: seq<SortKey>
    const k: nat
    var entries: seq<Entry>
    ghost var peak: nat  // the most entries held at any moment so far

    /** The entries kept, as a heap with the worst at the root; never more than one over k were held. */
    ghost predicate Valid()
      reads this
    {
      Heap(order, entries, |entries|) && Keyed(order, entries) && |entries| <= k && peak <= k + 1
    }

    /** What is kept of a stream: its first k in sorted order, in heap arrangement. */
    ghost predicate Keeps(stream: seq<Entry>)
      reads this
    {
      Valid() && k > 0 && Stream(order, stream) && multiset(entries) == multiset(Front(Sort(order, stream), k))
    }

    constructor (k: nat, order: seq<SortKey>)
      ensures this.k == k && this.order == order && entries == [] && Valid()
      ensures k > 0 ==> Keeps([])
    {
      this.k, this.order, entries, peak := k, order, [], 0;
    }

    /** heap.Push: append, then let the newcomer rise past every parent that should come before it. */
    method Push(e: Entry)
      requires Heap(order, entries, |entries|) && Keyed(order, entries) && |order| <= |e.keys|
      modifies this
      ensures Heap(order, entries, |entries|) && Keyed(order, entries)
      ensures multiset(entries) == multiset(old(entries)) + multiset{e}
      ensures |entries| == |old(entries)| + 1 && peak == if old(peak) < |entries| then |entries| else old(peak)
    {
      hide Less, NotBefore;
      entries := entries + [e];
      peak := if peak < |entries| then |entries| else peak;
      var j: nat := |entries| - 1;
      PushRises(order, old(entries), e);
      while j > 0 && Less(order, entries[Parent(j)], entries[j])
        invariant Rising(order, entries, j) && Keyed(order, entries) && |entries| == |old(entries)| + 1
        invariant multiset(entries) == multiset(old(entries)) + multiset{e}
        invariant peak == if old(peak) < |entries| then |entries| else old(peak)
        decreases j
      {
        RiseStep(order, entries, j);
        SwapKeyed(order, entries, Parent(j), j);
        entries := Swapped(entries, Parent(j), j);
        j := Parent(j);
      }
      Risen(order, entries, j);
    }

    /** heap.Pop: swap the root to the end, let what took its place sink, and drop the end. */
    method Pop() returns (worst: Entry)
      requires Heap(order, entries, |entries|) && Keyed(order, entries) && |entries| > 0
      modifies this`entries
      ensures Heap(order, entries, |entries|) && Keyed(order, entries) && |entries| == |old(entries)| - 1
      ensures worst == old(entries)[0] && multiset(entries) == multiset(old(entries)) - multiset{worst}
    {
      hide Less, NotBefore;
      var n: nat := |entries| - 1;
      SwapKeyed(order, entries, 0, n);
      PopSinks(order, entries);
      entries := Swapped(entries, 0, n);
      if n > 0 {
        Sink(n);
      }
      worst := entries[n];
      DropEnd(order, entries);
      entries := entries[..n];
    }

    /** The sinking loop over the first n entries. */
    method Sink(n: nat)
      requires 0 < n == |entries| - 1 && Sinking(order, entries, 0, n) && Keyed(order, entries)
      modifies this`entries
      ensures Heap(order, entries, n) && Keyed(order, entries) && |entries| == |old(entries)|
      ensures entries[n] == old(entries)[n] && multiset(entries) == multiset(old(entries))
    {
      hide Less, NotBefore, Sinking, Keyed, Heap, WorseChild, Swapped;
      var i: nat := 0;
      while 2 * i + 1 < n
        invariant i < n && Sinking(order, entries, i, n) && Keyed(order, entries) && |entries| == n + 1
        invariant entries[n] == old(entries)[n] && multiset(entries) == multiset(old(entries))
        decreases n - i
      {
        ghost var worse := PickChild(order, entries, i, n);
        var j := 2 * i + 1;
        if j + 1 < n && Less(order, entries[j], entries[j + 1]) {
          j := j + 1;
        }
        if !Less(order, entries[i], entries[j]) {
          SunkAt(order, entries, i, j, n);
          return;
        }
        SinkStep(order, entries, i, j, n);
        SwapKeyed(order, entries, i, j);
        SwapElsewhere(entries, i, j, n);
        entries := Swapped(entries, i, j);
        i := j;
      }
      NoChildren(order, entries, i, n);
    }

    /** What offering e has to lead to, in terms of the heap as it is. */
    lemma AddFacts(e: Entry, stream: seq<Entry>)
      requires Keeps(stream) && Stream(order, stream + [e])
      ensures Valid() && |order| <= |e.keys| && k > 0
      ensures var next := multiset(Front(Sort(order, stream + [e]), k));
              && (|entries| < k ==> next == multiset(entries) + multiset{e})
              && (|entries| == k && !Less(order, e, entries[0]) ==> next == multiset(entries))
              && (|entries| == k && Less(order, e, entries[0]) ==>
                    next == multiset(entries) + multiset{e} - multiset{entries[0]})
    {
      hide Less, NotBefore, Sort, Heap, Front, Stream, Keyed, Sorted, Fresh;
      StreamLast(order, stream, e);
      FrontStep(order, stream, e, k);
      FrontSize(order, stream, k);
      var best := Front(Sort(order, stream), k);
      SameSize(entries, best);
      if |entries| == k {
        RootIsLast(order, entries, best, k);
      }
    }

    /** Offers an entry: kept while there is room, or when it beats the worst of those kept. */
    method Add(e: Entry, ghost stream: seq<Entry>)
      requires Keeps(stream) && Stream(order, stream + [e])
      modifies this
      ensures Keeps(stream + [e])
    {
      hide Less, NotBefore, Sort, Heap, Front, Stream, Keyed, Sorted, Fresh;
      AddFacts(e, stream);
      FrontSize(order, stream + [e], k);
      ghost var before := entries;
      if |entries| < k {
        Push(e);
        SameSize(entries, Front(Sort(order, stream + [e]), k));
        return;
      }
      if !Less(order, e, entries[0]) {
        return;
      }
      Push(e);
      RootStays(order, k, before, stream, e, entries);
      var worst := Pop();
      SameSize(entries, Front(Sort(order, stream + [e]), k));
    }

    /** The kept entries in order: the front of the sorted stream. */
    method SortedEntries(ghost stream: seq<Entry>) returns (out: seq<Entry>)
      requires Keeps(stream)
      ensures out == Front(Sort(order, stream), k) && Arranged(order, out)
    {
      hide Less, NotBefore, Sort, Front, InOrder;
      out := SortEntries(entries, order);
      FrontIsSorted(order, stream, entries, k);
      FrontArranged(order, stream, k);
    }
  }

  /**
   SortEntries, and the sort inside TopK.Sorted: sort.SliceStable puts the entries in the order of
   entryLess. It is written here as an insertion sort.
   */
  method SortEntries(entries: seq<Entry>, order: seq<SortKey>) returns (out: seq<Entry>)
    ensures out == Sort(order, entries)
    ensures Stream(order, entries) ==> Arranged(order, out)
  {
    hide *;
    out := [];
    SortNext(order, entries, 0);
    for i := 0 to |entries|
      invariant out == Sort(order, entries[..i])
    {
      SortNext(order, entries, i);
      out := InsertSorted(out, entries[i], order);
    }
    assert entries[..|entries|] == entries;
    if Stream(order, entries) {
      SortArranges(order, entries);
    }
  }

  lemma SortNext(order: seq<SortKey>, s: seq<Entry>, i: nat)
    ensures Sort(order, s[..0]) == []
    ensures i < |s| ==> Sort(order, s[..i + 1]) == Insert(order, Sort(order, s[..i]), s[i])
  {
    hide Insert, Less;
    if i < |s| {
      assert s[..i + 1][..i] == s[..i];
    }
  }

  method InsertSorted(s: seq<Entry>, e: Entry, order: seq<SortKey>) returns (r: seq<Entry>)
    ensures r == Insert(order, s, e)
  {
    hide Less;
    var i := 0;
    while i < |s| && !Less(order, e, s[i])
      invariant i <= |s| && Insert(order, s, e) == s[..i] + Insert(order, s[i..], e)
    {
      InsertPast(order, s, e, i);
      i := i + 1;
    }
    InsertHere(order, s, e, i);
    r := s[..i] + [e] + s[i..];
  }

  lemma InsertPast(order: seq<SortKey>, s: seq<Entry>, e: Entry, i: nat)
    requires i < |s| && !Less(order, e, s[i])
    ensures s[..i] + Insert(order, s[i..], e) == s[..i + 1] + Insert(order, s[i + 1..], e)
  {
    hide Less;
    assert s[i..][1..] == s[i + 1..] && s[i..][0] == s[i];
    assert Insert(order, s[i..], e) == [s[i]] + Insert(order, s[i + 1..], e);
    assert s[..i + 1] == s[..i] + [s[i]];
  }

  lemma InsertHere(order: seq<SortKey>, s: seq<Entry>, e: Entry, i: nat)
    requires i <= |s| && (i < |s| ==> Less(order, e, s[i]))
    ensures s[..i] + Insert(order, s[i..], e) == s[..i] + [e] + s[i..]
  {
    hide Less;
  }

  lemma PushRises(order: seq<SortKey>, s: seq<Entry>, e: Entry)
    requires Heap(order, s, |s|) && Keyed(order, s) && |order| <= |e.keys|
    ensures Rising(order, s + [e], |s|) && Keyed(order, s + [e])
  {
    hide NotBefore;
  }

  lemma SwapKeyed(order: seq<SortKey>, s: seq<Entry>, i: nat, j: nat)
    requires Keyed(order, s) && i < |s| && j < |s|
    ensures Keyed(order, Swapped(s, i, j))
  {
    var r := Swapped(s, i, j);
    assert s[i] in s && s[j] in s;
    assert forall m | 0 <= m < |r| :: r[m] == s[m] || r[m] == s[i] || r[m] == s[j];
  }

  lemma SwapElsewhere(s: seq<Entry>, i: nat, j: nat, n: nat)
    requires i < |s| && j < |s| && n < |s| && n != i && n != j
    ensures var t := Swapped(s, i, j); |t| == |s| && multiset(t) == multiset(s) && t[n] == s[n]
  {
  }

  lemma PopSinks(order: seq<SortKey>, s: seq<Entry>)
    requires Heap(order, s, |s|) && s != []
    ensures |s| > 1 ==> Sinking(order, Swapped(s, 0, |s| - 1), 0, |s| - 1)
    ensures Swapped(s, 0, |s| - 1)[|s| - 1] == s[0]
  {
    hide NotBefore;
  }

  lemma DropEnd(order: seq<SortKey>, s: seq<Entry>)
    requires s != [] && Keyed(order, s)
    ensures var n := |s| - 1;
            && Keyed(order, s[..n]) && multiset(s[..n]) == multiset(s) - multiset{s[n]}
            && (n == 0 || Heap(order, s, n) ==> Heap(order, s[..n], n))
  {
    hide NotBefore;
    assert s == s[..|s| - 1] + [s[|s| - 1]];
  }

  lemma NoChildren(order: seq<SortKey>, s: seq<Entry>, i: nat, n: nat)
    requires Sinking(order, s, i, n) && 2 * i + 1 >= n
    ensures Heap(order, s, n)
  {
    hide NotBefore;
  }

  lemma StreamLast(order: seq<SortKey>, s: seq<Entry>, e: Entry)
    requires Stream(order, s + [e])
    ensures |order| <= |e.keys|
  {
    assert e == (s + [e])[|s|] && e in s + [e];
  }

  lemma SameSize(a: seq<Entry>, b: seq<Entry>)
    requires multiset(a) == multiset(b)
    ensures |a| == |b|
  {
    assert |a| == |multiset(a)| && |b| == |multiset(b)|;
  }

  lemma FrontSize(order: seq<SortKey>, s: seq<Entry>, k: nat)
    ensures |Front(Sort(order, s), k)| <= k
  {
  }

  /** The root of the heap is the last of the entries kept. */
  lemma RootIsLast(order: seq<SortKey>, entries: seq<Entry>, best: seq<Entry>, k: nat)
    requires Heap(order, entries, |entries|) && Keyed(order, entries) && |entries| == k == |best| && k > 0
    requires Sorted(order, best) && multiset(entries) == multiset(best)
    ensures entries[0] == best[k - 1]
  {
    hide Less, Heap;
    SameMembers(entries, best);
    assert entries[0] in entries && best[k - 1] in best;
    if entries[0] != best[k - 1] {
      var i :| 0 <= i < k && best[i] == entries[0];
      var j :| 0 <= j < k && entries[j] == best[k - 1];
      RootIsWorst(order, entries, k, j);
    }
  }

  /** An entry that beats the root does not displace it when pushed. */
  lemma RootStays(order: seq<SortKey>, k: nat, before: seq<Entry>, stream: seq<Entry>, e: Entry, after: seq<Entry>)
    requires k > 0 && Stream(order, stream + [e]) && |before| == k && Less(order, e, before[0])
    requires Heap(order, before, |before|) && Keyed(order, before)
    requires multiset(before) == multiset(Front(Sort(order, stream), k))
    requires Heap(order, after, |after|) && Keyed(order, after) && multiset(after) == multiset(before) + multiset{e}
    ensures after != [] && after[0] == before[0]
  {
    hide Less, NotBefore, Sort, Heap, Front, Stream, Keyed, Sorted, Fresh;
    FrontStep(order, stream, e, k);
    var best := Front(Sort(order, stream), k);
    SameSize(before, best);
    RootIsLast(order, before, best, k);
    PushedRoot(order, best, after, e);
  }

  /** After an entry that beats the last of the best is pushed, the root is still that last one. */
  lemma PushedRoot(order: seq<SortKey>, best: seq<Entry>, after: seq<Entry>, e: Entry)
    requires Sorted(order, best) && Fresh(order, best, e) && best != [] && Less(order, e, best[|best| - 1])
    requires Heap(order, after, |after|) && Keyed(order, after) && multiset(after) == multiset(best) + multiset{e}
    ensures after != [] && after[0] == best[|best| - 1]
  {
    hide Less, Heap, Keyed, Fresh, Sorted, Insert;
    var k := |best|;
    InsertAhead(order, best, e, k);
    InsertKeepsSorted(order, best, e);
    assert best[..k] == best;
    InsertCounts(order, best, e);
    SameSize(after, Insert(order, best, e));
    RootIsLast(order, after, Insert(order, best, e), k + 1);
  }

  /** The heap holds the front of the sorted stream, so sorting the heap gives that front. */
  lemma FrontIsSorted(order: seq<SortKey>, stream: seq<Entry>, entries: seq<Entry>, k: nat)
    requires Stream(order, stream) && multiset(entries) == multiset(Front(Sort(order, stream), k))
    ensures Sort(order, entries) == Front(Sort(order, stream), k)
  {
    hide Less, Stream, Sorted, Sort, Front;
    var best := Front(Sort(order, stream), k);
    SortIsSorted(order, stream);
    FrontSorted(order, Sort(order, stream), k);
    FrontStream(order, stream, entries, k);
    SortIsSorted(order, entries);
    SortCounts(order, entries);
    SortedIsUnique(order, Sort(order, entries), best);
  }

  lemma FrontArranged(order: seq<SortKey>, stream: seq<Entry>, k: nat)
    requires Stream(order, stream)
    ensures Arranged(order, Front(Sort(order, stream), k))
  {
    hide Less, Sort, InOrder;
    SortArranges(order, stream);
  }

  lemma SortCounts(order: seq<SortKey>, s: seq<Entry>)
    ensures |Sort(order, s)| == |s| && multiset(Sort(order, s)) == multiset(s)
  {
    hide Less;
  }

  /** What the heap holds is a stream too: no point of the scan twice. */
  lemma FrontStream(order: seq<SortKey>, stream: seq<Entry>, entries: seq<Entry>, k: nat)
    requires Stream(order, stream) && multiset(entries) == multiset(Front(Sort(order, stream), k))
    ensures Stream(order, entries)
  {
    hide Less, Sort;
    var all := Sort(order, stream);
    SortCounts(order, stream);
    RanksOnce(order, stream, all);
    RanksOnce(order, Front(all, k), entries);
  }

  /** A rearrangement of a stream is a stream. */
  lemma RanksOnce(order: seq<SortKey>, a: seq<Entry>, b: seq<Entry>)
    requires Stream(order, a) && multiset(a) == multiset(b)
    ensures Stream(order, b)
  {
    hide Less;
    SameMembers(a, b);
    forall i, j | 0 <= i < j < |b|
      ensures b[i].rank != b[j].rank
    {
      assert b[i] in a && b[j] in a;
      if b[i].rank == b[j].rank {
        assert b[i] == b[j];
        Twice(b, i, j);
        OnceOnly(a, b[i]);
      }
    }
  }

  lemma Twice(s: seq<Entry>, i: nat, j: nat)
    requires i < j < |s| && s[i] == s[j]
    ensures multiset(s)[s[i]] >= 2
  {
    assert s == s[..j] + [s[j]] + s[j + 1..];
    assert s[..j][i] == s[i];
    assert multiset(s[..j])[s[i]] >= 1;
  }

  lemma {:induction false} OnceOnly(s: seq<Entry>, e: Entry)
    requires forall i, j | 0 <= i < j < |s| :: s[i].rank != s[j].rank
    ensures multiset(s)[e] <= 1
  {
    if s != [] {
      var init := s[..|s| - 1];
      OnceOnly(init, e);
      assert s == init + [s[|s| - 1]];
      if e == s[|s| - 1] {
        assert e !in init;
      }
    }
  }
}
