/**
 JSON values and the one order over all of them (internal/engine/compare.go). Numbers are reals:
 encoding/json yields no NaN and no infinity. Strings compare by code point, which for UTF-8 is
 the byte order strings.Compare uses.
 */
module Values {

  /** A decoded value, or the sentinel for a path that is not there. */
  datatype Value =
    | Absent
    | Null
    | Num(n: real)
    | Str(s: string)
    | Bool(b: bool)
    | Arr(items: seq<Value>)
    | Obj(fields: map<string, Value>)

  function TypeRank(v: Value): nat {
    match v
    case Absent => 0
    case Null => 1
    case Num(_) => 2
    case Str(_) => 3
    case Bool(_) => 4
    case Arr(_) => 5
    case Obj(_) => 6
  }

  // ----- strings -----

  /** strings.Compare. */
  function CompareStrings(a: string, b: string): (c: int)
    ensures -1 <= c <= 1
  {
    if a == "" then (if b == "" then 0 else -1)
    else if b == "" then 1
    else if a[0] < b[0] then -1
    else if a[0] > b[0] then 1
    else CompareStrings(a[1..], b[1..])
  }

  lemma {:induction false} StringsAntisymmetric(a: string, b: string)
    ensures CompareStrings(a, b) == -CompareStrings(b, a)
  {
    if a != "" && b != "" && a[0] == b[0] {
      StringsAntisymmetric(a[1..], b[1..]);
    }
  }

  lemma {:induction false} StringsEqual(a: string, b: string)
    ensures CompareStrings(a, b) == 0 <==> a == b
  {
    if a != "" && b != "" {
      if a[0] == b[0] {
        StringsEqual(a[1..], b[1..]);
        assert a == [a[0]] + a[1..] && b == [b[0]] + b[1..];
      }
    }
  }

  lemma {:induction false} StringsTransitive(a: string, b: string, c: string)
    requires CompareStrings(a, b) < 0 && CompareStrings(b, c) < 0
    ensures CompareStrings(a, c) < 0
  {
    if a != "" && b != "" && c != "" && a[0] == b[0] == c[0] {
      StringsTransitive(a[1..], b[1..], c[1..]);
    }
  }

  // ----- sorted keys -----

  predicate Before(a: string, b: string) {
    CompareStrings(a, b) < 0
  }

  predicate IsLeast(k: string, s: set<string>) {
    k in s && forall x <- s :: x == k || Before(k, x)
  }

  lemma {:induction false} HasLeast(s: set<string>) returns (k: string)
    requires s != {}
    ensures IsLeast(k, s)
  {
    var x :| x in s;
    if s == {x} {
      k := x;
    } else {
      var rest := s - {x};
      var m := HasLeast(rest);
      StringsEqual(x, m);
      if Before(m, x) {
        k := m;
      } else {
        StringsAntisymmetric(x, m);
        k := x;
        forall y | y in s
          ensures y == k || Before(k, y)
        {
          if y != x && y != m {
            assert y in rest;
            StringsTransitive(x, m, y);
          }
        }
      }
    }
  }

  lemma LeastExists(s: set<string>)
    requires s != {}
    ensures exists k: string :: IsLeast(k, s)
  {
    var k := HasLeast(s);
  }

  lemma LeastIsUnique(s: set<string>)
    ensures forall a: string, b: string | IsLeast(a, s) && IsLeast(b, s) :: a == b
  {
    forall a: string, b: string | IsLeast(a, s) && IsLeast(b, s)
      ensures a == b
    {
      StringsAntisymmetric(a, b);
    }
  }

  /** The elements of a set in ascending order. */
  function Ordered(s: set<string>): (r: seq<string>)
    ensures |r| == |s|
  {
    if s == {} then []
    else
      LeastExists(s);
      LeastIsUnique(s);
      var k :| k in s && IsLeast(k, s);
      [k] + Ordered(s - {k})
  }

  /** sortedKeys. */
  function SortedKeys(m: map<string, Value>): seq<string> {
    Ordered(m.Keys)
  }

  /** Sorting loses no key, invents none and repeats none. */
  lemma {:induction false} OrderedKeys(s: set<string>)
    ensures forall x: string :: x in Ordered(s) <==> x in s
    ensures forall i, j | 0 <= i < j < |Ordered(s)| :: Before(Ordered(s)[i], Ordered(s)[j])
  {
    if s != {} {
      var r := Ordered(s);
      var rest := s - {r[0]};
      OrderedKeys(rest);
      assert r == [r[0]] + Ordered(rest);
      forall i, j | 0 <= i < j < |r|
        ensures Before(r[i], r[j])
      {
        if i == 0 {
          assert r[j] == Ordered(rest)[j - 1];
        }
      }
    }
  }

  // ----- the order -----

  function Compare(a: Value, b: Value): (c: int)
    ensures -1 <= c <= 1
    decreases a, 1, 0
  {
    if TypeRank(a) != TypeRank(b) then (if TypeRank(a) < TypeRank(b) then -1 else 1)
    else
      match a
      case Absent => 0
      case Null => 0
      case Num(x) => if x < b.n then -1 else if x > b.n then 1 else 0
      case Str(x) => CompareStrings(x, b.s)
      case Bool(x) => if x == b.b then 0 else if !x then -1 else 1
      case Arr(xs) => CompareItems(a, b, 0)
      case Obj(m) => CompareFields(a, b, 0)
  }

  /** Element by element from position i, then by length. */
  function CompareItems(a: Value, b: Value, i: nat): (c: int)
    requires a.Arr? && b.Arr? && i <= |a.items| && i <= |b.items|
    ensures -1 <= c <= 1
    decreases a, 0, |a.items| - i
  {
    if i < |a.items| && i < |b.items| then
      var c := Compare(a.items[i], b.items[i]);
      if c != 0 then c else CompareItems(a, b, i + 1)
    else if |a.items| < |b.items| then -1
    else if |a.items| > |b.items| then 1
    else 0
  }

  /** Key by key and value by value in key order from the i-th key, then by the number of keys. */
  function CompareFields(a: Value, b: Value, i: nat): (c: int)
    requires a.Obj? && b.Obj? && i <= |a.fields| && i <= |b.fields|
    ensures -1 <= c <= 1
    decreases a, 0, |a.fields| - i
  {
    var ka, kb := SortedKeys(a.fields), SortedKeys(b.fields);
    if i < |ka| && i < |kb| then
      KeyIn(a.fields, i);
      KeyIn(b.fields, i);
      var c := CompareStrings(ka[i], kb[i]);
      if c != 0 then c
      else
        var d := Compare(a.fields[ka[i]], b.fields[kb[i]]);
        if d != 0 then d else CompareFields(a, b, i + 1)
    else if |ka| < |kb| then -1
    else if |ka| > |kb| then 1
    else 0
  }

  lemma KeyIn(m: map<string, Value>, i: nat)
    requires i < |SortedKeys(m)|
    ensures SortedKeys(m)[i] in m
  {
    OrderedKeys(m.Keys);
    assert SortedKeys(m)[i] in SortedKeys(m);
  }

  // ----- antisymmetry -----

  lemma {:induction false} Antisymmetric(a: Value, b: Value)
    ensures Compare(a, b) == -Compare(b, a)
    decreases a, 1, 0
  {
    if TypeRank(a) == TypeRank(b) {
      match a
      case Str(x) => StringsAntisymmetric(x, b.s);
      case Arr(xs) => ItemsAntisymmetric(a, b, 0);
      case Obj(m) => FieldsAntisymmetric(a, b, 0);
      case _ =>
    }
  }

  lemma {:induction false} ItemsAntisymmetric(a: Value, b: Value, i: nat)
    requires a.Arr? && b.Arr? && i <= |a.items| && i <= |b.items|
    ensures CompareItems(a, b, i) == -CompareItems(b, a, i)
    decreases a, 0, |a.items| - i
  {
    if i < |a.items| && i < |b.items| {
      Antisymmetric(a.items[i], b.items[i]);
      ItemsAntisymmetric(a, b, i + 1);
    }
  }

  lemma {:induction false} FieldsAntisymmetric(a: Value, b: Value, i: nat)
    requires a.Obj? && b.Obj? && i <= |a.fields| && i <= |b.fields|
    ensures CompareFields(a, b, i) == -CompareFields(b, a, i)
    decreases a, 0, |a.fields| - i
  {
    var ka, kb := SortedKeys(a.fields), SortedKeys(b.fields);
    if i < |ka| && i < |kb| {
      KeyIn(a.fields, i);
      KeyIn(b.fields, i);
      StringsAntisymmetric(ka[i], kb[i]);
      Antisymmetric(a.fields[ka[i]], b.fields[kb[i]]);
      FieldsAntisymmetric(a, b, i + 1);
    }
  }

  // ----- zero is equality -----

  /** Two values compare equal exactly when they are the same value, however deeply nested. */
  lemma {:induction false} EqualIsSame(a: Value, b: Value)
    ensures Compare(a, b) == 0 <==> a == b
    decreases a, 1, 0
  {
    if TypeRank(a) == TypeRank(b) {
      match a
      case Str(x) => StringsEqual(x, b.s);
      case Arr(xs) => ItemsEqual(a, b, 0);
      case Obj(m) => ObjectsEqual(a, b);
      case _ =>
    }
  }

  lemma {:induction false} ItemsEqual(a: Value, b: Value, i: nat)
    requires a.Arr? && b.Arr? && i <= |a.items| && i <= |b.items|
    ensures CompareItems(a, b, i) == 0 <==> a.items[i..] == b.items[i..]
    decreases a, 0, |a.items| - i
  {
    if i < |a.items| && i < |b.items| {
      EqualIsSame(a.items[i], b.items[i]);
      ItemsEqual(a, b, i + 1);
      assert a.items[i..] == [a.items[i]] + a.items[i + 1..];
      assert b.items[i..] == [b.items[i]] + b.items[i + 1..];
    }
  }

  /** From the i-th key on the two objects list the same keys with the same values. */
  ghost predicate SameFrom(a: map<string, Value>, b: map<string, Value>, i: nat) {
    var ka, kb := SortedKeys(a), SortedKeys(b);
    |ka| == |kb| && forall j | i <= j < |ka| :: ka[j] == kb[j] && ka[j] in a && kb[j] in b && a[ka[j]] == b[kb[j]]
  }

  lemma {:induction false} FieldsEqual(a: Value, b: Value, i: nat)
    requires a.Obj? && b.Obj? && i <= |a.fields| && i <= |b.fields|
    ensures CompareFields(a, b, i) == 0 <==> SameFrom(a.fields, b.fields, i)
    decreases a, 0, |a.fields| - i
  {
    var ka, kb := SortedKeys(a.fields), SortedKeys(b.fields);
    if i < |ka| && i < |kb| {
      KeyIn(a.fields, i);
      KeyIn(b.fields, i);
      StringsEqual(ka[i], kb[i]);
      EqualIsSame(a.fields[ka[i]], b.fields[kb[i]]);
      FieldsEqual(a, b, i + 1);
    }
  }

  lemma {:induction false} ObjectsEqual(a: Value, b: Value)
    requires a.Obj? && b.Obj?
    ensures CompareFields(a, b, 0) == 0 <==> a == b
    decreases a, 0, |a.fields| + 1
  {
    FieldsEqual(a, b, 0);
    SameFromStart(a.fields, b.fields);
  }

  lemma SameFromStart(a: map<string, Value>, b: map<string, Value>)
    ensures SameFrom(a, b, 0) <==> a == b
  {
    OrderedKeys(a.Keys);
    OrderedKeys(b.Keys);
    var ka, kb := SortedKeys(a), SortedKeys(b);
    if a == b {
      forall j | 0 <= j < |ka|
        ensures ka[j] in a
      {
        KeyIn(a, j);
      }
    }
    if SameFrom(a, b, 0) {
      assert ka == kb;
      forall x: string | x in a || x in b
        ensures x in a && x in b && a[x] == b[x]
      {
        assert x in ka;
        var j :| 0 <= j < |ka| && ka[j] == x;
      }
      assert a.Keys == b.Keys;
    }
  }

  // ----- transitivity -----

  /** The order is transitive, within a type and across types. */
  lemma {:induction false} Transitive(a: Value, b: Value, c: Value)
    requires Compare(a, b) < 0 && Compare(b, c) < 0
    ensures Compare(a, c) < 0
    decreases a, 1, 0
  {
    if TypeRank(a) == TypeRank(b) == TypeRank(c) {
      match a
      case Str(x) => StringsTransitive(x, b.s, c.s);
      case Arr(xs) => ItemsTransitive(a, b, c, 0);
      case Obj(m) => FieldsTransitive(a, b, c, 0);
      case _ =>
    }
  }

  lemma {:induction false} ItemsTransitive(a: Value, b: Value, c: Value, i: nat)
    requires a.Arr? && b.Arr? && c.Arr? && i <= |a.items| && i <= |b.items| && i <= |c.items|
    requires CompareItems(a, b, i) < 0 && CompareItems(b, c, i) < 0
    ensures CompareItems(a, c, i) < 0
    decreases a, 0, |a.items| - i
  {
    if i < |a.items| && i < |b.items| && i < |c.items| {
      var x, y, z := a.items[i], b.items[i], c.items[i];
      EqualIsSame(x, y);
      EqualIsSame(y, z);
      if Compare(x, y) < 0 && Compare(y, z) < 0 {
        Transitive(x, y, z);
      } else if x == y == z {
        ItemsTransitive(a, b, c, i + 1);
      }
    }
  }

  lemma {:induction false} FieldsTransitive(a: Value, b: Value, c: Value, i: nat)
    requires a.Obj? && b.Obj? && c.Obj? && i <= |a.fields| && i <= |b.fields| && i <= |c.fields|
    requires CompareFields(a, b, i) < 0 && CompareFields(b, c, i) < 0
    ensures CompareFields(a, c, i) < 0
    decreases a, 0, |a.fields| - i
  {
    hide IsLeast, CompareItems;
    var ka, kb, kc := SortedKeys(a.fields), SortedKeys(b.fields), SortedKeys(c.fields);
    if i < |ka| && i < |kb| && i < |kc| {
      KeyIn(a.fields, i);
      KeyIn(b.fields, i);
      KeyIn(c.fields, i);
      StringsEqual(ka[i], kb[i]);
      StringsEqual(kb[i], kc[i]);
      if Before(ka[i], kb[i]) && Before(kb[i], kc[i]) {
        StringsTransitive(ka[i], kb[i], kc[i]);
      } else if ka[i] == kb[i] == kc[i] {
        var x, y, z := a.fields[ka[i]], b.fields[kb[i]], c.fields[kc[i]];
        EqualIsSame(x, y);
        EqualIsSame(y, z);
        if Compare(x, y) < 0 && Compare(y, z) < 0 {
          Transitive(x, y, z);
        } else if x == y == z {
          FieldsTransitive(a, b, c, i + 1);
        }
      }
    }
  }

  /** compare is a total order on all values: antisymmetric, transitive, zero exactly on the same value. */
  lemma TotalOrder(a: Value, b: Value, c: Value)
    ensures Compare(a, b) == -Compare(b, a)
    ensures Compare(a, b) == 0 <==> a == b
    ensures Compare(a, b) <= 0 && Compare(b, c) <= 0 ==> Compare(a, c) <= 0
  {
    Antisymmetric(a, b);
    EqualIsSame(a, b);
    EqualIsSame(b, c);
    if Compare(a, b) < 0 && Compare(b, c) < 0 {
      Transitive(a, b, c);
    }
  }
}
