/**
 The order of values as it is published (internal/engine/compare.go:35-37, 115-121): kinds in a
 fixed sequence, and two values of one kind by where they first differ. It is stated here without
 any of the functions that compute it, and they are proved to compute it.
 */
module Order {
  import opened Values

  /** The kinds of value, and the sequence they come in, lowest first. */
  datatype Kind = Missing | Nothing | Number | Text | Truth | List | Document

  const KINDS: seq<Kind> := [Missing, Nothing, Number, Text, Truth, List, Document]

  function KindOf(v: Value): Kind {
    match v
    case Absent => Missing
    case Null => Nothing
    case Num(_) => Number
    case Str(_) => Text
    case Bool(_) => Truth
    case Arr(_) => List
    case Obj(_) => Document
  }

  ghost predicate KindBefore(a: Kind, b: Kind) {
    exists i, j | 0 <= i < j < |KINDS| :: KINDS[i] == a && KINDS[j] == b
  }

  /** The first character that differs decides, and a proper prefix comes first. */
  ghost predicate TextBefore(a: string, b: string) {
    exists n: nat | n <= |a| && n <= |b| ::
      a[..n] == b[..n] && if n < |a| then n < |b| && a[n] < b[n] else n < |b|
  }

  ghost predicate Differ(a: map<string, Value>, b: map<string, Value>, k: string) {
    (k in a) != (k in b) || (k in a && k in b && a[k] != b[k])
  }

  /** The lowest key at which two objects differ. */
  ghost predicate FirstDifference(a: map<string, Value>, b: map<string, Value>, k: string) {
    Differ(a, b, k) && forall x: string | TextBefore(x, k) :: !Differ(a, b, x)
  }

  ghost predicate KeyAfter(m: map<string, Value>, k: string) {
    exists x <- m :: TextBefore(k, x)
  }

  /**
   Value a comes before value b: numbers by size, false before true, arrays as strings do, and
   objects by the lowest key at which they differ. A key only one of them has puts that one first,
   unless the other has no key after it.
   */
  ghost predicate Lower(a: Value, b: Value)
    decreases a
  {
    if KindOf(a) != KindOf(b) then KindBefore(KindOf(a), KindOf(b))
    else
      match a
      case Absent => false
      case Null => false
      case Num(x) => x < b.n
      case Str(s) => TextBefore(s, b.s)
      case Bool(x) => !x && b.b
      case Arr(items) =>
        exists n: nat | n <= |items| && n <= |b.items| ::
          items[..n] == b.items[..n]
          && if n < |items| then n < |b.items| && Lower(items[n], b.items[n]) else n < |b.items|
      case Obj(fields) =>
        exists k: string :: FirstDifference(fields, b.fields, k) &&
          if k in fields && k in b.fields then Lower(fields[k], b.fields[k])
          else if k in fields then KeyAfter(b.fields, k)
          else !KeyAfter(fields, k)
  }

  // ----- strings -----

  lemma {:induction false} TextDecides(a: string, b: string)
    ensures CompareStrings(a, b) < 0 <==> TextBefore(a, b)
  {
    if a == "" || b == "" {
      assert a[..0] == b[..0];
    } else if a[0] != b[0] {
      assert a[..0] == b[..0];
      forall n: nat | 0 < n <= |a| && n <= |b|
        ensures a[..n] != b[..n]
      {
        assert a[..n][0] == a[0] && b[..n][0] == b[0];
      }
    } else {
      TextDecides(a[1..], b[1..]);
      TextTail(a, b);
    }
  }

  lemma TextTail(a: string, b: string)
    requires a != "" && b != "" && a[0] == b[0]
    ensures TextBefore(a, b) <==> TextBefore(a[1..], b[1..])
  {
    var s, t := a[1..], b[1..];
    if TextBefore(s, t) {
      var n: nat :| n <= |s| && n <= |t| && s[..n] == t[..n]
                    && if n < |s| then n < |t| && s[n] < t[n] else n < |t|;
      assert a[..n + 1] == [a[0]] + s[..n] && b[..n + 1] == [b[0]] + t[..n];
    }
    if TextBefore(a, b) {
      var n: nat :| n <= |a| && n <= |b| && a[..n] == b[..n]
                    && if n < |a| then n < |b| && a[n] < b[n] else n < |b|;
      assert n > 0;
      assert s[..n - 1] == a[..n][1..] && t[..n - 1] == b[..n][1..];
    }
  }

  lemma TextIsBefore()
    ensures forall x: string, y: string :: TextBefore(x, y) <==> Before(x, y)
  {
    forall x: string, y: string
      ensures TextBefore(x, y) <==> Before(x, y)
    {
      TextDecides(x, y);
    }
  }

  // ----- kinds -----

  lemma KindDecides(a: Value, b: Value)
    ensures KindOf(a) == KindOf(b) <==> TypeRank(a) == TypeRank(b)
    ensures KindBefore(KindOf(a), KindOf(b)) <==> TypeRank(a) < TypeRank(b)
  {
    assert KINDS[TypeRank(a)] == KindOf(a) && KINDS[TypeRank(b)] == KindOf(b);
    forall i, j | 0 <= i < |KINDS| && 0 <= j < |KINDS| && KINDS[i] == KINDS[j]
      ensures i == j
    {
    }
  }

  // ----- all values -----

  /** compare computes the published order, on every pair of values however deeply nested. */
  lemma {:induction false} CompareIsLower(a: Value, b: Value)
    ensures Compare(a, b) < 0 <==> Lower(a, b)
    decreases a, 1, 0
  {
    KindDecides(a, b);
    if KindOf(a) == KindOf(b) {
      match a
      case Str(s) => TextDecides(s, b.s);
      case Arr(items) => ItemsDecide(a, b, 0);
      case Obj(fields) => FieldsDecide(a, b, 0);
      case _ =>
    }
  }

  lemma {:induction false} ItemsDecide(a: Value, b: Value, i: nat)
    requires a.Arr? && b.Arr? && i <= |a.items| && i <= |b.items| && a.items[..i] == b.items[..i]
    ensures CompareItems(a, b, i) < 0 <==> Lower(a, b)
    decreases a, 0, |a.items| - i
  {
    if i < |a.items| && i < |b.items| {
      var x, y := a.items[i], b.items[i];
      EqualIsSame(x, y);
      CompareIsLower(x, y);
      if x == y {
        assert a.items[..i + 1] == a.items[..i] + [x] && b.items[..i + 1] == b.items[..i] + [y];
        ItemsDecide(a, b, i + 1);
      } else {
        NoFurther(a, b, i);
      }
    } else {
      NoFurther(a, b, i);
    }
  }

  /** Where two arrays first differ, or one ends, is the only place that can decide. */
  lemma NoFurther(a: Value, b: Value, i: nat)
    requires a.Arr? && b.Arr? && i <= |a.items| && i <= |b.items| && a.items[..i] == b.items[..i]
    requires i < |a.items| && i < |b.items| ==> a.items[i] != b.items[i]
    ensures Lower(a, b) <==> if i < |a.items| then i < |b.items| && Lower(a.items[i], b.items[i]) else i < |b.items|
  {
    forall n: nat | i < n <= |a.items| && n <= |b.items|
      ensures a.items[..n] != b.items[..n]
    {
      assert a.items[..n][i] == a.items[i] && b.items[..n][i] == b.items[i];
    }
    forall n: nat | n < i
      ensures a.items[n] == b.items[n] && !Lower(a.items[n], b.items[n])
    {
      assert a.items[..i][n] == b.items[..i][n];
      NotLowerThanItself(a.items[n]);
    }
  }

  lemma NotLowerThanItself(a: Value)
    ensures !Lower(a, a)
  {
    match a
    case Arr(items) =>
      forall n: nat | n < |items|
        ensures !Lower(items[n], items[n])
      {
        NotLowerThanItself(items[n]);
      }
    case Obj(fields) =>
    case Str(s) => TextDecides(s, s); StringsEqual(s, s);
    case _ =>
  }

  // ----- objects -----

  /** The first i keys, in order, are the same and hold the same values. */
  ghost predicate SameUpTo(a: map<string, Value>, b: map<string, Value>, i: nat) {
    var ka, kb := SortedKeys(a), SortedKeys(b);
    && i <= |ka| && i <= |kb|
    && forall j | 0 <= j < i :: ka[j] == kb[j] && ka[j] in a && ka[j] in b && a[ka[j]] == b[ka[j]]
  }

  /** A key that comes before the i-th of both is the same on both sides. */
  lemma SameBelow(a: map<string, Value>, b: map<string, Value>, i: nat, x: string)
    requires SameUpTo(a, b, i)
    requires i < |SortedKeys(a)| ==> Before(x, SortedKeys(a)[i])
    requires i < |SortedKeys(b)| ==> Before(x, SortedKeys(b)[i])
    ensures !Differ(a, b, x)
  {
    if x in a {
      KeyBelow(a, i, x);
    }
    if x in b {
      KeyBelow(b, i, x);
    }
  }

  lemma KeyBelow(m: map<string, Value>, i: nat, x: string)
    requires i <= |SortedKeys(m)| && x in m && (i < |SortedKeys(m)| ==> Before(x, SortedKeys(m)[i]))
    ensures exists j :: 0 <= j < i && SortedKeys(m)[j] == x
  {
    OrderedKeys(m.Keys);
    var ks := SortedKeys(m);
    assert x in ks;
    var j :| 0 <= j < |ks| && ks[j] == x;
    if j >= i {
      NotBeforeItself(x);
      if j > i {
        StringsTransitive(x, ks[i], x);
      }
    }
  }

  lemma NotBeforeItself(x: string)
    ensures !Before(x, x)
  {
    StringsEqual(x, x);
  }

  lemma OneFirst(a: map<string, Value>, b: map<string, Value>, k: string, l: string)
    requires FirstDifference(a, b, k) && FirstDifference(a, b, l)
    ensures k == l
  {
    TextDecides(k, l);
    TextDecides(l, k);
    StringsAntisymmetric(k, l);
    StringsEqual(k, l);
  }

  /** What Lower says of two objects once the lowest key at which they differ is known. */
  lemma DecidedAt(a: Value, b: Value, k: string)
    requires a.Obj? && b.Obj? && FirstDifference(a.fields, b.fields, k)
    ensures Lower(a, b) <==>
              if k in a.fields && k in b.fields then Lower(a.fields[k], b.fields[k])
              else if k in a.fields then KeyAfter(b.fields, k)
              else !KeyAfter(a.fields, k)
  {
    hide FirstDifference, KeyAfter;
    forall l: string | FirstDifference(a.fields, b.fields, l)
      ensures l == k
    {
      OneFirst(a.fields, b.fields, k, l);
    }
  }

  /** The i-th key of one side, when the other has none there or a later one, is the lowest difference. */
  lemma LowestHere(a: map<string, Value>, b: map<string, Value>, i: nat)
    requires SameUpTo(a, b, i) && i < |SortedKeys(a)|
    requires i < |SortedKeys(b)| ==> Before(SortedKeys(a)[i], SortedKeys(b)[i])
    ensures var k := SortedKeys(a)[i];
            && k in a && k !in b && FirstDifference(a, b, k)
            && (KeyAfter(b, k) <==> i < |SortedKeys(b)|)
  {
    var ka, kb := SortedKeys(a), SortedKeys(b);
    var k := ka[i];
    KeyIn(a, i);
    TextIsBefore();
    OrderedKeys(a.Keys);
    NotBeforeItself(k);
    if k in b {
      KeyBelow(b, i, k);
    }
    forall x: string | Before(x, k)
      ensures !Differ(a, b, x)
    {
      if i < |kb| {
        StringsTransitive(x, k, kb[i]);
      }
      SameBelow(a, b, i, x);
    }
    if i < |kb| {
      KeyIn(b, i);
    }
    if KeyAfter(b, k) {
      var x :| x in b && TextBefore(k, x);
      if i == |kb| {
        KeyBelow(b, i, x);
        var j :| 0 <= j < i && kb[j] == x;
        assert Before(ka[j], ka[i]);
        StringsTransitive(k, x, k);
        NotBeforeItself(k);
      }
    }
  }

  lemma SameKeyHere(a: map<string, Value>, b: map<string, Value>, i: nat)
    requires SameUpTo(a, b, i) && i < |SortedKeys(a)| && i < |SortedKeys(b)| && SortedKeys(a)[i] == SortedKeys(b)[i]
    ensures var k := SortedKeys(a)[i]; k in a && k in b && (a[k] != b[k] ==> FirstDifference(a, b, k))
    ensures var k := SortedKeys(a)[i]; a[k] == b[k] ==> SameUpTo(a, b, i + 1)
  {
    KeyIn(a, i);
    KeyIn(b, i);
    TextIsBefore();
    forall x: string | Before(x, SortedKeys(a)[i])
      ensures !Differ(a, b, x)
    {
      SameBelow(a, b, i, x);
    }
  }

  lemma DifferBothWays(a: map<string, Value>, b: map<string, Value>, k: string)
    ensures FirstDifference(a, b, k) <==> FirstDifference(b, a, k)
  {
  }

  lemma {:induction false} FieldsDecide(a: Value, b: Value, i: nat)
    requires a.Obj? && b.Obj? && SameUpTo(a.fields, b.fields, i) && i <= |a.fields| && i <= |b.fields|
    ensures CompareFields(a, b, i) < 0 <==> Lower(a, b)
    decreases a, 0, |a.fields| - i
  {
    hide Lower, SameUpTo, FirstDifference, KeyAfter;
    var ka, kb := SortedKeys(a.fields), SortedKeys(b.fields);
    if i < |ka| && i < |kb| {
      StringsEqual(ka[i], kb[i]);
      StringsAntisymmetric(ka[i], kb[i]);
      if ka[i] == kb[i] {
        SameKeyHere(a.fields, b.fields, i);
        var k := ka[i];
        EqualIsSame(a.fields[k], b.fields[k]);
        CompareIsLower(a.fields[k], b.fields[k]);
        if a.fields[k] == b.fields[k] {
          FieldsDecide(a, b, i + 1);
        } else {
          DecidedAt(a, b, k);
        }
      } else if Before(ka[i], kb[i]) {
        LowestHere(a.fields, b.fields, i);
        DecidedAt(a, b, ka[i]);
      } else {
        LowestThere(a, b, i);
      }
    } else if i < |ka| {
      LowestHere(a.fields, b.fields, i);
      DecidedAt(a, b, ka[i]);
    } else if i < |kb| {
      LowestThere(a, b, i);
    } else {
      AllTheSame(a, b, i);
    }
  }

  /** The same from the other side. */
  lemma LowestThere(a: Value, b: Value, i: nat)
    requires a.Obj? && b.Obj? && SameUpTo(a.fields, b.fields, i) && i < |SortedKeys(b.fields)|
    requires i < |SortedKeys(a.fields)| ==> Before(SortedKeys(b.fields)[i], SortedKeys(a.fields)[i])
    ensures Lower(a, b) <==> i == |SortedKeys(a.fields)|
  {
    hide Lower, FirstDifference, KeyAfter;
    LowestHere(b.fields, a.fields, i);
    DifferBothWays(b.fields, a.fields, SortedKeys(b.fields)[i]);
    DecidedAt(a, b, SortedKeys(b.fields)[i]);
  }

  lemma AllTheSame(a: Value, b: Value, i: nat)
    requires a.Obj? && b.Obj? && SameUpTo(a.fields, b.fields, i)
    requires i == |SortedKeys(a.fields)| == |SortedKeys(b.fields)|
    ensures !Lower(a, b)
  {
    forall x: string
      ensures !Differ(a.fields, b.fields, x)
    {
      if x in a.fields {
        KeyBelow(a.fields, i, x);
      }
      if x in b.fields {
        KeyBelow(b.fields, i, x);
      }
    }
  }
}
