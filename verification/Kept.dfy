/**
 What a projection keeps of any document, arrays and all (internal/engine/projection.go): for every
 place in the document, whether it is there afterwards, and where, said from the fields the
 projection document asks for and turns down.
 */
module Kept {
  import opened Wrappers
  import opened Values
  import opened Filters
  import opened Projections

  // ----- places -----

  /** One step into a value: to a key of an object, or to a position of an array. */
  datatype Step = Key(k: string) | Pos(i: nat)

  type Address = seq<Step>

  /** What lies at an address. */
  function There(v: Value, a: Address): Option<Value>
    decreases |a|
  {
    if a == [] then Some(v)
    else
      match a[0]
      case Key(k) => if v.Obj? && k in v.fields then There(v.fields[k], a[1..]) else None
      case Pos(i) => if v.Arr? && i < |v.items| then There(v.items[i], a[1..]) else None
  }

  /** The keys of an address: a projection does not see positions. */
  function KeyPath(a: Address): Path {
    if a == [] then [] else (if a[0].Key? then [a[0].k] else []) + KeyPath(a[1..])
  }

  /**
   The keys as far as a projection follows the address: it does not enter an element of an array
   that is not itself a document.
   */
  function Walked(v: Value, a: Address): Path
    decreases |a|
  {
    if a == [] then []
    else
      match a[0]
      case Key(k) => [k] + if v.Obj? && k in v.fields then Walked(v.fields[k], a[1..]) else []
      case Pos(i) => if v.Arr? && i < |v.items| && v.items[i].Obj? then Walked(v.items[i], a[1..]) else []
  }

  /** Every position on the way is that of a document. */
  predicate WholeWay(v: Value, a: Address)
    decreases |a|
  {
    a == [] ||
    match a[0]
    case Key(k) => v.Obj? && k in v.fields && WholeWay(v.fields[k], a[1..])
    case Pos(i) => v.Arr? && i < |v.items| && v.items[i].Obj? && WholeWay(v.items[i], a[1..])
  }

  /** Then all of its keys count. */
  lemma {:induction false} WalkedAll(v: Value, a: Address)
    requires WholeWay(v, a)
    ensures There(v, a).Some? && Walked(v, a) == KeyPath(a)
    decreases |a|
  {
    if a != [] {
      match a[0]
      case Key(k) => WalkedAll(v.fields[k], a[1..]);
      case Pos(i) => WalkedAll(v.items[i], a[1..]);
    }
  }

  /** Objects are as good as each other, and arrays of one length; anything else has to be the same. */
  predicate Alike(a: Value, b: Value) {
    if a.Obj? then b.Obj? else if a.Arr? then b.Arr? && |a.items| == |b.items| else a == b
  }

  // ----- exclusion -----

  /**
   Exclusion: a place stays where it is when no path covers the keys walked to it, and goes
   otherwise; an element that is not a document stays whole unless something above it goes.
   */
  lemma {:induction false} ExcludeAt(v: Value, paths: Paths, a: Address)
    requires [] !in paths
    ensures There(Exclude(v, paths), a).Some? <==> There(v, a).Some? && !Covers(paths, Walked(v, a))
    ensures There(Exclude(v, paths), a).Some? ==> Alike(There(v, a).value, There(Exclude(v, paths), a).value)
    decreases |a|
  {
    CoversNothing(paths);
    if a == [] {
      if v.Arr? {
        ExcludedItem(v, paths, |v.items|, 0);
      }
    } else {
      match a[0]
      case Key(k) =>
        if v.Obj? && k in v.fields {
          ExcludeKey(v, paths, k, a);
        }
      case Pos(i) =>
        if v.Arr? {
          ExcludedItem(v, paths, |v.items|, i);
          if i < |v.items| && v.items[i].Obj? {
            ExcludeAt(v.items[i], paths, a[1..]);
          } else if i < |v.items| {
            AlikeItself(v.items[i], a[1..]);
          }
        }
    }
  }

  lemma {:induction false} ExcludeKey(v: Value, paths: Paths, k: string, a: Address)
    requires [] !in paths && v.Obj? && k in v.fields && a != [] && a[0] == Key(k)
    ensures There(Exclude(v, paths), a).Some? <==> There(v, a).Some? && !Covers(paths, Walked(v, a))
    ensures There(Exclude(v, paths), a).Some? ==> Alike(There(v, a).value, There(Exclude(v, paths), a).value)
    decreases |a|, 0
  {
    var sub, x := Sub(paths, k), v.fields[k];
    var p := Walked(x, a[1..]);
    assert Walked(v, a) == [k] + p && ([k] + p)[1..] == p;
    CoversStep(paths, [k] + p);
    if [] in sub {
      assert Contains([], p);
    } else if sub == {} {
      AlikeItself(x, a[1..]);
    } else {
      ExcludeAt(x, sub, a[1..]);
    }
  }

  lemma AlikeItself(v: Value, a: Address)
    ensures There(v, a).Some? ==> Alike(There(v, a).value, There(v, a).value)
  {
  }

  lemma {:induction false} ExcludedItem(v: Value, paths: Paths, n: nat, i: nat)
    requires v.Arr? && n <= |v.items|
    ensures |ExcludeItems(v, paths, n)| == n
    ensures i < n ==>
              ExcludeItems(v, paths, n)[i] == if v.items[i].Obj? then Exclude(v.items[i], paths) else v.items[i]
  {
    if n > 0 {
      ExcludedItem(v, paths, n - 1, i);
    }
  }

  // ----- inclusion -----

  /** How many of the first n elements are documents. */
  function Documents(items: seq<Value>, n: nat): nat
    requires n <= |items|
  {
    if n == 0 then 0 else Documents(items, n - 1) + if items[n - 1].Obj? then 1 else 0
  }

  /**
   Where a place is once inclusion has dropped, from every array on the way above any path's end,
   the elements that are not documents.
   */
  ghost function Moved(v: Value, paths: Paths, a: Address): Address
    decreases |a|
  {
    if a == [] || [] in paths then a
    else
      match a[0]
      case Key(k) => [a[0]] + if v.Obj? && k in v.fields then Moved(v.fields[k], Sub(paths, k), a[1..]) else a[1..]
      case Pos(i) =>
        if v.Arr? && i < |v.items| then [Pos(Documents(v.items, i))] + Moved(v.items[i], paths, a[1..]) else a
  }

  /** Some path ends below. */
  ghost predicate Leads(paths: Paths, p: Path) {
    exists q <- paths :: Contains(p, q)
  }

  /** Kept with all that is in it, or as an object or array on the way to something. */
  ghost predicate Stays(v: Value, paths: Paths, a: Address) {
    && There(v, a).Some?
    && (Covers(paths, Walked(v, a))
        || (WholeWay(v, a) && !Scalar(There(v, a).value) && Leads(paths, Walked(v, a))))
  }

  lemma LeadsStep(paths: Paths, k: string, p: Path)
    ensures Leads(paths, [k] + p) <==> Leads(Sub(paths, k), p)
    ensures Leads(paths, []) <==> paths != {}
  {
    if Leads(paths, [k] + p) {
      var q :| q in paths && Contains([k] + p, q);
      assert q[..|p| + 1][0] == k && q[1..][..|p|] == q[..|p| + 1][1..] == p;
      assert q[1..] in Sub(paths, k) && Contains(p, q[1..]);
    }
    if Leads(Sub(paths, k), p) {
      var r :| r in Sub(paths, k) && Contains(p, r);
      var q :| q in paths && q != [] && q[0] == k && r == q[1..];
      assert q[..|p| + 1] == [q[0]] + q[1..][..|p|];
      assert Contains([k] + p, q);
    }
    if paths != {} {
      var q :| q in paths;
      assert Contains([], q);
    }
  }

  lemma CoversKey(paths: Paths, k: string, p: Path)
    requires [] !in paths
    ensures Covers(paths, [k] + p) <==> Covers(Sub(paths, k), p)
  {
    assert ([k] + p)[1..] == p;
    CoversStep(paths, [k] + p);
  }

  /** Taking one key, the same question is asked of what lies there. */
  lemma StaysKey(v: Value, paths: Paths, k: string, a: Address)
    requires [] !in paths && v.Obj? && k in v.fields && a != [] && a[0] == Key(k)
    ensures Stays(v, paths, a) <==> Stays(v.fields[k], Sub(paths, k), a[1..])
  {
    hide Covers, Leads, Sub;
    var p := Walked(v.fields[k], a[1..]);
    assert Walked(v, a) == [k] + p;
    CoversKey(paths, k, p);
    LeadsStep(paths, k, p);
  }

  lemma StaysPos(v: Value, paths: Paths, i: nat, a: Address)
    requires [] !in paths && v.Arr? && a != [] && a[0] == Pos(i)
    ensures Stays(v, paths, a) <==> i < |v.items| && v.items[i].Obj? && Stays(v.items[i], paths, a[1..])
  {
    hide Covers, Leads;
    CoversNothing(paths);
  }

  lemma {:induction false} IncludedItem(v: Value, paths: Paths, n: nat, i: nat)
    requires v.Arr? && n <= |v.items|
    ensures |IncludeItems(v, paths, n)| == Documents(v.items, n)
    ensures i < n && v.items[i].Obj? ==>
              && Documents(v.items, i) < Documents(v.items, n)
              && IncludeItems(v, paths, n)[Documents(v.items, i)] == Obj(IncludeFields(v.items[i], paths))
  {
    if n > 0 {
      IncludedItem(v, paths, n - 1, i);
    }
  }

  lemma {:induction false} ItemFrom(v: Value, n: nat, j: nat) returns (i: nat)
    requires v.Arr? && n <= |v.items| && j < Documents(v.items, n)
    ensures i < n && v.items[i].Obj? && Documents(v.items, i) == j
  {
    if j == Documents(v.items, n - 1) {
      i := n - 1;
    } else {
      i := ItemFrom(v, n - 1, j);
    }
  }

  lemma {:induction false} DocumentsRise(items: seq<Value>, i: nat, j: nat)
    requires i < j <= |items| && items[i].Obj?
    ensures Documents(items, i) < Documents(items, j)
  {
    if i < j - 1 {
      DocumentsRise(items, i, j - 1);
    }
  }

  /** As Alike, but an array may have lost elements. */
  predicate AlikeButShorter(a: Value, b: Value) {
    if a.Obj? then b.Obj? else if a.Arr? then b.Arr? && |a.items| >= |b.items| else a == b
  }

  lemma {:induction false} FewerDocuments(items: seq<Value>, n: nat)
    requires n <= |items|
    ensures Documents(items, n) <= n
  {
    if n > 0 {
      FewerDocuments(items, n - 1);
    }
  }

  /** Inclusion: a place that stays is found where it moved to. */
  lemma {:induction false} IncludeAt(v: Value, paths: Paths, a: Address)
    requires Stays(v, paths, a)
    ensures Include(v, paths).Some? && There(Include(v, paths).value, Moved(v, paths, a)).Some?
    ensures AlikeButShorter(There(v, a).value, There(Include(v, paths).value, Moved(v, paths, a)).value)
    decreases |a|
  {
    hide Covers, Leads, Walked, WholeWay;
    SomethingAsked(v, paths, a);
    if [] !in paths {
      if a == [] {
        if v.Arr? {
          IncludedItem(v, paths, |v.items|, 0);
          FewerDocuments(v.items, |v.items|);
        }
      } else {
        match a[0]
        case Key(k) =>
          IncludeAtKey(v, paths, k, a);
        case Pos(i) =>
          StaysPos(v, paths, i, a);
          IncludedItem(v, paths, |v.items|, i);
          IncludeAt(v.items[i], paths, a[1..]);
          MovedPos(v, paths, i, a);
      }
    }
  }

  lemma {:induction false} IncludeAtKey(v: Value, paths: Paths, k: string, a: Address)
    requires Stays(v, paths, a) && [] !in paths && a != [] && a[0] == Key(k) && paths != {}
    ensures Include(v, paths).Some? && There(Include(v, paths).value, Moved(v, paths, a)).Some?
    ensures AlikeButShorter(There(v, a).value, There(Include(v, paths).value, Moved(v, paths, a)).value)
    decreases |a|, 0
  {
    hide Covers, Leads, Walked, WholeWay;
    StaysKey(v, paths, k, a);
    IncludeAt(v.fields[k], Sub(paths, k), a[1..]);
    var rest := Moved(v.fields[k], Sub(paths, k), a[1..]);
    assert Moved(v, paths, a) == [a[0]] + rest && ([a[0]] + rest)[1..] == rest;
  }

  lemma MovedPos(v: Value, paths: Paths, i: nat, a: Address)
    requires [] !in paths && v.Arr? && i < |v.items| && a != [] && a[0] == Pos(i)
    ensures var m := Moved(v, paths, a);
            m != [] && m[0] == Pos(Documents(v.items, i)) && m[1..] == Moved(v.items[i], paths, a[1..])
  {
  }

  /** Where something stays, something was asked for, and it is not a scalar unless it was itself. */
  lemma SomethingAsked(v: Value, paths: Paths, a: Address)
    requires Stays(v, paths, a)
    ensures paths != {} && ([] !in paths && a == [] ==> !Scalar(v))
  {
    CoversNothing(paths);
  }

  /** And nothing else is there: every place of the result is one that stayed. */
  lemma {:induction false} IncludedFrom(v: Value, paths: Paths, b: Address) returns (a: Address)
    requires Include(v, paths).Some? && There(Include(v, paths).value, b).Some?
    ensures Stays(v, paths, a) && Moved(v, paths, a) == b
    decreases |b|
  {
    hide Walked, WholeWay;
    if [] in paths {
      a := b;
      assert Contains([], Walked(v, a));
    } else if b == [] {
      a := [];
      RootStays(v, paths);
    } else {
      match b[0]
      case Key(k) =>
        var rest := IncludedFrom(v.fields[k], Sub(paths, k), b[1..]);
        a := [Key(k)] + rest;
        assert a[1..] == rest;
        StaysKey(v, paths, k, a);
        assert b == [b[0]] + b[1..];
      case Pos(j) =>
        IncludedItem(v, paths, |v.items|, 0);
        var i := ItemFrom(v, |v.items|, j);
        IncludedItem(v, paths, |v.items|, i);
        var rest := IncludedFrom(v.items[i], paths, b[1..]);
        a := [Pos(i)] + rest;
        assert a[1..] == rest;
        StaysPos(v, paths, i, a);
        MovedPos(v, paths, i, a);
        assert b == [b[0]] + b[1..];
    }
  }

  lemma RootStays(v: Value, paths: Paths)
    requires [] !in paths && Include(v, paths).Some?
    ensures Stays(v, paths, [])
  {
    LeadsStep(paths, "", []);
  }

  /** No two places that stay move to the same. */
  lemma {:induction false} MovedOnce(v: Value, paths: Paths, a: Address, b: Address)
    requires Stays(v, paths, a) && Stays(v, paths, b) && Moved(v, paths, a) == Moved(v, paths, b)
    ensures a == b
    decreases |a|
  {
    hide Covers, Leads, Walked, WholeWay;
    MovedLength(v, paths, a);
    MovedLength(v, paths, b);
    if [] !in paths && a != [] {
      match a[0]
      case Key(k) =>
        MovedHead(v, paths, a);
        MovedHead(v, paths, b);
        StaysKey(v, paths, k, a);
        StaysKey(v, paths, k, b);
        MovedOnce(v.fields[k], Sub(paths, k), a[1..], b[1..]);
        assert a == [a[0]] + a[1..] && b == [b[0]] + b[1..];
      case Pos(i) =>
        MovedHead(v, paths, a);
        MovedHead(v, paths, b);
        var j := b[0].i;
        StaysPos(v, paths, i, a);
        StaysPos(v, paths, j, b);
        SameDocument(v.items, i, j);
        MovedOnce(v.items[i], paths, a[1..], b[1..]);
        assert a == [a[0]] + a[1..] && b == [b[0]] + b[1..];
    }
  }

  lemma SameDocument(items: seq<Value>, i: nat, j: nat)
    requires i < |items| && j < |items| && items[i].Obj? && items[j].Obj?
    requires Documents(items, i) == Documents(items, j)
    ensures i == j
  {
    if i < j {
      DocumentsRise(items, i, j);
    } else if j < i {
      DocumentsRise(items, j, i);
    }
  }

  /** The first step of a moved address, and the rest. */
  lemma MovedHead(v: Value, paths: Paths, a: Address)
    requires [] !in paths && a != [] && There(v, a).Some?
    ensures var m := Moved(v, paths, a);
            && m != []
            && (a[0].Key? ==> v.Obj? && a[0].k in v.fields && m[0] == a[0]
                              && m[1..] == Moved(v.fields[a[0].k], Sub(paths, a[0].k), a[1..]))
            && (a[0].Pos? ==> v.Arr? && a[0].i < |v.items| && m[0] == Pos(Documents(v.items, a[0].i))
                              && m[1..] == Moved(v.items[a[0].i], paths, a[1..]))
  {
  }

  lemma {:induction false} MovedLength(v: Value, paths: Paths, a: Address)
    ensures |Moved(v, paths, a)| == |a|
    decreases |a|
  {
    if a != [] && [] !in paths {
      match a[0]
      case Key(k) =>
        if v.Obj? && k in v.fields {
          MovedLength(v.fields[k], Sub(paths, k), a[1..]);
        }
      case Pos(i) =>
        if v.Arr? && i < |v.items| {
          MovedLength(v.items[i], paths, a[1..]);
        }
    }
  }

  // ----- from the projection document -----

  /** A field the projection document asks for, and one it turns down. */
  predicate Asks(spec: Value, k: string)
    requires spec.Obj?
  {
    k in spec.fields && (spec.fields[k] == Bool(true) || (spec.fields[k].Num? && spec.fields[k].n != 0.0))
  }

  predicate Declines(spec: Value, k: string)
    requires spec.Obj?
  {
    k in spec.fields && (spec.fields[k] == Bool(false) || spec.fields[k] == Num(0.0))
  }

  ghost predicate AsksForAny(spec: Value)
    requires spec.Obj?
  {
    exists k: string :: Asks(spec, k)
  }

  /** The path lies on or below the field. */
  predicate Under(k: string, p: Path) {
    Contains(SplitPath(k), p)
  }

  /** What the document names: with a field asked for, those and _id unless declined; else the declined ones. */
  ghost predicate Names(spec: Value, p: Path)
    requires spec.Obj?
  {
    if AsksForAny(spec) then
      (exists k: string :: Asks(spec, k) && Under(k, p)) || (!Declines(spec, "_id") && p != [] && p[0] == "_id")
    else exists k: string :: Declines(spec, k) && Under(k, p)
  }

  lemma NamedAre(spec: Value)
    requires spec.Obj?
    ensures NamedPaths(spec, true) == set k | k in spec.fields && Asks(spec, k) :: SplitPath(k)
    ensures NamedPaths(spec, false) == set k | k in spec.fields && Declines(spec, k) :: SplitPath(k)
    ensures NamedPaths(spec, true) != {} <==> AsksForAny(spec)
    ensures ["_id"] in NamedPaths(spec, false) <==> Declines(spec, "_id")
  {
    forall k | k in spec.fields
      ensures ProjectionValue(spec.fields[k]) == Some(true) <==> Asks(spec, k)
      ensures ProjectionValue(spec.fields[k]) == Some(false) <==> Declines(spec, k)
    {
    }
    IdPath();
    forall k: string
      ensures SplitPath(k) == ["_id"] ==> k == "_id"
    {
      SplitOnce(k, "_id");
    }
    if k: string :| Asks(spec, k) {
      assert SplitPath(k) in NamedPaths(spec, true);
    }
  }

  lemma WantedNames(spec: Value, p: Path)
    requires spec.Obj?
    ensures Covers(Wanted(spec), p) <==> Names(spec, p)
  {
    hide ProjectionValue, SplitPath, NamedPaths, Covers, Contains, Asks, Declines;
    NamedAre(spec);
    IdCovers(p);
    SideCovers(spec, true, p);
    SideCovers(spec, false, p);
    CoversEither(NamedPaths(spec, true), {["_id"]}, p);
  }

  lemma CoversEither(a: Paths, b: Paths, p: Path)
    ensures Covers(a + b, p) <==> Covers(a, p) || Covers(b, p)
  {
    hide Contains;
  }

  lemma IdCovers(p: Path)
    ensures Covers({["_id"]}, p) <==> p != [] && p[0] == "_id"
  {
    if p != [] {
      assert p[..1] == [p[0]];
    }
    assert ["_id"] in {["_id"]};
  }

  lemma SideCovers(spec: Value, keep: bool, p: Path)
    requires spec.Obj?
    ensures Covers(NamedPaths(spec, keep), p) <==>
            if keep then exists k: string :: Asks(spec, k) && Under(k, p)
            else exists k: string :: Declines(spec, k) && Under(k, p)
  {
    NamedAre(spec);
    hide ProjectionValue, SplitPath, Contains;
    if Covers(NamedPaths(spec, keep), p) {
      var q :| q in NamedPaths(spec, keep) && Contains(q, p);
      var k :| k in spec.fields && (if keep then Asks(spec, k) else Declines(spec, k)) && q == SplitPath(k);
      assert Under(k, p);
    }
  }

  /**
   Exclusion, of every document: a place is there afterwards exactly when it was and no declined
   field lies on the way to it, and holds what it held. What is in an array is reached through it.
   A projection document without fields is one that declines nothing.
   */
  lemma ExclusionKeeps(spec: Value, doc: Doc, a: Address)
    requires spec.Obj? && !AsksForAny(spec)
    ensures var was, now := There(Obj(doc), a), There(Obj(Projected(spec, doc)), a);
            && (now.Some? <==> was.Some? && !Names(spec, Walked(Obj(doc), a)))
            && (now.Some? ==> Alike(was.value, now.value))
  {
    hide There, Walked, Names, Covers, Minimal, Wanted, ExcludeFields, IncludeFields, NamedPaths;
    NamedAre(spec);
    if spec.fields == map[] {
      NothingNamed(spec, Walked(Obj(doc), a));
      AlikeItself(Obj(doc), a);
      return;
    }
    var paths := Minimal(Wanted(spec));
    NoEmptyPath(spec);
    ExcludeAt(Obj(doc), paths, a);
    CoversMinimal(Wanted(spec), Walked(Obj(doc), a));
    WantedNames(spec, Walked(Obj(doc), a));
    ExcludeDocument(doc, paths);
  }

  lemma NothingNamed(spec: Value, p: Path)
    requires spec.Obj? && spec.fields == map[]
    ensures !Names(spec, p)
  {
  }

  lemma ExcludeDocument(doc: Doc, paths: Paths)
    ensures Exclude(Obj(doc), paths) == Obj(ExcludeFields(Obj(doc), paths))
  {
  }

  lemma NoEmptyPath(spec: Value)
    requires spec.Obj?
    ensures [] !in Minimal(Wanted(spec))
    ensures AsksForAny(spec) ==> Minimal(Wanted(spec)) != {}
  {
    NamedAre(spec);
    assert [] !in Wanted(spec) by {
      hide Contains, ProjectionValue;
    }
    if AsksForAny(spec) {
      var p :| p in NamedPaths(spec, true);
      assert p in Wanted(spec);
      MinimalCovers(Wanted(spec), p);
    }
  }

  /** The paths the compiled tree of a projection document names. */
  ghost function Tips(spec: Value): Paths
    requires spec.Obj?
  {
    Minimal(Wanted(spec))
  }

  /**
   Inclusion, of every document: a scalar that lies on or below a field asked for is there
   afterwards, moved up past the elements dropped from the arrays on the way; an element that is
   not a document is among those, unless the field asked for lies above it.
   */
  lemma InclusionKeeps(spec: Value, doc: Doc, a: Address, s: Value)
    requires spec.Obj? && AsksForAny(spec) && Scalar(s)
    requires There(Obj(doc), a) == Some(s) && Names(spec, Walked(Obj(doc), a))
    ensures There(Obj(Projected(spec, doc)), Moved(Obj(doc), Tips(spec), a)) == Some(s)
  {
    hide There, Walked, Names, Covers, Minimal, Wanted, ExcludeFields, IncludeFields, Moved, NamedPaths, Include;
    NamedAre(spec);
    NoEmptyPath(spec);
    CoversMinimal(Wanted(spec), Walked(Obj(doc), a));
    WantedNames(spec, Walked(Obj(doc), a));
    IncludeAt(Obj(doc), Tips(spec), a);
    IncludeDocument(doc, Tips(spec));
    SomeSpec(spec);
  }

  /** Nothing else is there: every scalar of the result is one of those. */
  lemma InclusionKeepsOnly(spec: Value, doc: Doc, b: Address, s: Value) returns (a: Address)
    requires spec.Obj? && AsksForAny(spec) && Scalar(s) && There(Obj(Projected(spec, doc)), b) == Some(s)
    ensures There(Obj(doc), a) == Some(s) && Names(spec, Walked(Obj(doc), a)) && Moved(Obj(doc), Tips(spec), a) == b
  {
    hide There, Walked, Names, Covers, Minimal, Wanted, ExcludeFields, IncludeFields, Moved, NamedPaths, Include,
      WholeWay;
    NamedAre(spec);
    NoEmptyPath(spec);
    IncludeDocument(doc, Tips(spec));
    SomeSpec(spec);
    a := IncludedFrom(Obj(doc), Tips(spec), b);
    IncludeAt(Obj(doc), Tips(spec), a);
    CoversMinimal(Wanted(spec), Walked(Obj(doc), a));
    WantedNames(spec, Walked(Obj(doc), a));
  }

  lemma SomeSpec(spec: Value)
    requires spec.Obj? && AsksForAny(spec)
    ensures spec.fields != map[]
  {
  }

  lemma IncludeDocument(doc: Doc, paths: Paths)
    requires [] !in paths && paths != {}
    ensures Include(Obj(doc), paths) == Some(Obj(IncludeFields(Obj(doc), paths)))
  {
  }

  // ----- which projections compile -----

  /** Every field asked for or declined, under a good name, and none asked for above or below a declined one. */
  lemma CompilesWhen(spec: Value)
    requires spec.Obj?
    ensures Compiles(spec) <==>
              && (forall k <- spec.fields :: (Asks(spec, k) || Declines(spec, k)) && GoodName(k))
              && (forall k, l | Asks(spec, k) && Declines(spec, l) ::
                    !Under(k, SplitPath(l)) && !Under(l, SplitPath(k)))
  {
    hide SplitPath, Contains, GoodName, ValidPath, Under, NamedPaths, Clashing;
    forall k | k in spec.fields
      ensures ValidPath(k) <==> GoodName(k)
      ensures ProjectionValue(spec.fields[k]).Some? <==> Asks(spec, k) || Declines(spec, k)
    {
      GoodNameIsValid(k);
    }
    ClashWhen(spec);
  }

  lemma ClashWhen(spec: Value)
    requires spec.Obj?
    ensures Clashing(NamedPaths(spec, false), NamedPaths(spec, true)) <==>
              exists k, l :: Asks(spec, k) && Declines(spec, l) && (Under(k, SplitPath(l)) || Under(l, SplitPath(k)))
  {
    hide SplitPath, Contains, ProjectionValue, Asks, Declines, NamedPaths;
    if k, l :| Asks(spec, k) && Declines(spec, l) && (Under(k, SplitPath(l)) || Under(l, SplitPath(k))) {
      NamedBy(spec, SplitPath(k));
      NamedBy(spec, SplitPath(l));
    }
    if Clashing(NamedPaths(spec, false), NamedPaths(spec, true)) {
      var e, i :| e in NamedPaths(spec, false) && i in NamedPaths(spec, true) && (Contains(e, i) || Contains(i, e));
      NamedBy(spec, e);
      NamedBy(spec, i);
    }
  }

  lemma NamedBy(spec: Value, p: Path)
    requires spec.Obj?
    ensures p in NamedPaths(spec, true) <==> exists k: string :: Asks(spec, k) && SplitPath(k) == p
    ensures p in NamedPaths(spec, false) <==> exists k: string :: Declines(spec, k) && SplitPath(k) == p
  {
    hide SplitPath, ProjectionValue;
    NamedAre(spec);
  }

  /** A field name: no dollar in front, and no dot in front, at the end, or next to another. */
  predicate GoodName(field: string) {
    && field != "" && field[0] != '$' && field[0] != '.' && field[|field| - 1] != '.'
    && forall i | 0 <= i < |field| - 1 :: !(field[i] == '.' && field[i + 1] == '.')
  }

  lemma GoodNameIsValid(field: string)
    ensures ValidPath(field) <==> GoodName(field)
  {
    EmptySegments(field);
    var r := SplitPath(field);
    assert r == [r[0]] + r[1..];
    hide SplitPath;
    if field != "" && field[|field| - 1] == '.' {
      assert DotAt(field, |field| - 1);
    }
    if i :| 0 <= i < |field| - 1 && field[i] == '.' && field[i + 1] == '.' {
      assert DotAt(field, i);
    }
  }

  /** A dot with no segment after it. */
  predicate DotAt(field: string, i: nat) {
    i < |field| && field[i] == '.' && (i + 1 == |field| || field[i + 1] == '.')
  }

  lemma {:induction false} EmptySegments(field: string)
    ensures SplitPath(field)[0] == "" <==> field == "" || field[0] == '.'
    ensures "" in SplitPath(field)[1..] <==> exists i: nat :: DotAt(field, i)
  {
    if field != "" {
      var rest := SplitPath(field[1..]);
      EmptySegments(field[1..]);
      assert rest == [rest[0]] + rest[1..];
      var here := SplitPath(field);
      assert here[1..] == if field[0] == '.' then rest else rest[1..];
      assert (exists i: nat :: DotAt(field, i)) <==> DotAt(field, 0) || exists i: nat :: DotAt(field[1..], i) by {
        Shifted(field);
      }
      assert DotAt(field, 0) <==> field[0] == '.' && rest[0] == "";
    }
  }

  lemma Shifted(field: string)
    requires field != ""
    ensures (exists i: nat :: DotAt(field, i)) <==> DotAt(field, 0) || exists i: nat :: DotAt(field[1..], i)
  {
    if i: nat :| DotAt(field, i) {
      assert i == 0 || DotAt(field[1..], i - 1);
    }
    if i: nat :| DotAt(field[1..], i) {
      assert DotAt(field, i + 1);
    }
  }
}
