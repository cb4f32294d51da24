/**
 What filters mean to a caller (internal/engine/compile.go, match.go): which value a dotted path
 names, with positions written as numerals, and which documents each operator passes, in terms of
 the published order of values and of nothing the engine computes with.
 */
module Meaning {
  import opened Wrappers
  import opened Values
  import opened Order
  import opened Filters

  // ----- numerals -----

  const DIGITS := "0123456789"

  ghost predicate AllDigits(s: string) {
    forall c <- s :: c in DIGITS
  }

  function DigitValue(c: char): (d: nat)
    requires c in DIGITS
    ensures d < 10 && DIGITS[d] == c
  {
    if c == '0' then 0 else if c == '1' then 1 else if c == '2' then 2 else if c == '3' then 3
    else if c == '4' then 4 else if c == '5' then 5 else if c == '6' then 6 else if c == '7' then 7
    else if c == '8' then 8 else 9
  }

  /** The number a string of digits writes, the last digit being the units. */
  ghost function NumberOf(s: string): nat
    requires AllDigits(s)
  {
    if s == "" then 0
    else
      assert s[|s| - 1] in s && forall c <- s[..|s| - 1] :: c in s;
      10 * NumberOf(s[..|s| - 1]) + DigitValue(s[|s| - 1])
  }

  /** How a number is written. */
  function Decimal(i: nat): (s: string)
    ensures s != ""
  {
    if i < 10 then [DIGITS[i]] else Decimal(i / 10) + [DIGITS[i % 10]]
  }

  /** A segment that names position i: its digits, perhaps more zeros in front, perhaps a sign. */
  ghost predicate Numeral(key: string, i: nat) {
    i < 0x8000_0000_0000_0000 &&
    exists s: string :: s != "" && AllDigits(s) && NumberOf(s) == i
                        && (key == s || key == "+" + s || (i == 0 && key == "-" + s))
  }

  lemma {:induction false} DecimalWrites(i: nat)
    ensures AllDigits(Decimal(i)) && NumberOf(Decimal(i)) == i
  {
    if i >= 10 {
      DecimalWrites(i / 10);
      var s, c := Decimal(i / 10), DIGITS[i % 10];
      assert (s + [c])[..|s + [c]| - 1] == s;
    }
  }

  lemma DecimalIsNumeral(i: nat)
    requires i < 0x8000_0000_0000_0000
    ensures Numeral(Decimal(i), i)
  {
    DecimalWrites(i);
  }

  /** Only one number is written by a segment. */
  lemma NumeralOnce(key: string, i: nat, j: nat)
    requires Numeral(key, i) && Numeral(key, j)
    ensures i == j
  {
    NumeralIs(key, i);
    NumeralIs(key, j);
  }

  lemma {:induction false} DigitsSnoc(s: string, c: char, n: nat)
    ensures Digits(s + [c], n) ==
            match Digits(s, n)
            case None => None
            case Some(m) => if c in DIGITS then Some(10 * m + DigitValue(c)) else None
  {
    if s == "" {
      assert (s + [c])[1..] == "";
    } else {
      assert (s + [c])[1..] == s[1..] + [c] && (s + [c])[0] == s[0];
      if '0' <= s[0] <= '9' {
        DigitsSnoc(s[1..], c, 10 * n + (s[0] as int - '0' as int));
      }
    }
  }

  lemma {:induction false} DigitsWrite(s: string)
    ensures Digits(s, 0).Some? <==> AllDigits(s)
    ensures AllDigits(s) ==> Digits(s, 0) == Some(NumberOf(s))
  {
    if s != "" {
      var init, c := s[..|s| - 1], s[|s| - 1];
      DigitsWrite(init);
      DigitsSnoc(init, c, 0);
      assert s == init + [c];
      assert AllDigits(s) <==> AllDigits(init) && c in DIGITS;
    }
  }

  /** strconv.Atoi gives a position for the segments that name one. */
  lemma NumeralIs(key: string, i: nat)
    ensures Atoi(key) == Some(i as int) <==> Numeral(key, i)
  {
    DigitsWrite(key);
    if key != "" {
      DigitsWrite(key[1..]);
      assert key == [key[0]] + key[1..];
    }
    if Atoi(key) == Some(i as int) {
      var s := if key[0] == '-' || key[0] == '+' then key[1..] else key;
      assert AllDigits(s) && NumberOf(s) == i;
    }
    if Numeral(key, i) {
      var s :| s != "" && AllDigits(s) && NumberOf(s) == i
               && (key == s || key == "+" + s || (i == 0 && key == "-" + s));
      assert s[0] in s;
      assert ("+" + s)[1..] == s && ("-" + s)[1..] == s;
    }
  }

  lemma IndexIsNumeral(items: seq<Value>, key: string)
    ensures forall i: nat :: IndexOf(items, key) == Some(i) <==> i < |items| && Numeral(key, i)
  {
    forall i: nat
      ensures IndexOf(items, key) == Some(i) <==> i < |items| && Numeral(key, i)
    {
      NumeralIs(key, i);
    }
  }

  // ----- what a path names -----

  /** A path without dots is one segment; one with a dot goes on after the first. */
  lemma {:induction false} PathSegments(first: string, rest: string)
    requires '.' !in first
    ensures SplitPath(first) == [first]
    ensures SplitPath(first + "." + rest) == [first] + SplitPath(rest)
  {
    var all := first + "." + rest;
    if first == "" {
      assert all[1..] == rest && all[0] == '.';
    } else {
      PathSegments(first[1..], rest);
      assert all[1..] == first[1..] + "." + rest && all[0] == first[0] && first[0] in first;
      assert [first[0]] + first[1..] == first;
    }
  }

  /** Inside an array a segment names a position, or a key of every element that has it. */
  lemma ArrayReaches(items: seq<Value>, path: seq<string>, w: Value)
    requires path != []
    ensures Reaches(Arr(items), path, w) <==>
              || (exists i: nat | i < |items| && Numeral(path[0], i) :: Reaches(items[i], path[1..], w))
              || (exists i: nat | i < |items| && items[i].Obj? && path[0] in items[i].fields ::
                    Reaches(items[i].fields[path[0]], path[1..], w))
  {
    IndexIsNumeral(items, path[0]);
    hide IndexOf, Numeral;
    if i: nat :| i < |items| && Numeral(path[0], i) && Reaches(items[i], path[1..], w) {
      assert IndexOf(items, path[0]) == Some(i);
    }
    if i: nat :| i < |items| && items[i].Obj? && path[0] in items[i].fields
                 && Reaches(items[i].fields[path[0]], path[1..], w) {
      assert Steps(items[i], path[0]);
    }
  }

  /** A dotted field goes into the object or array under its first segment, and into nothing else. */
  lemma DottedReaches(doc: Doc, first: string, rest: string, w: Value)
    requires '.' !in first
    ensures Reaches(Obj(doc), SplitPath(first + "." + rest), w) <==>
              first in doc && (doc[first].Obj? || doc[first].Arr?) && Reaches(doc[first], SplitPath(rest), w)
  {
    PathSegments(first, rest);
    var path := SplitPath(first + "." + rest);
    assert path[1..] == SplitPath(rest);
    hide SplitPath;
  }

  /** A position written out reaches the element there; no other, unless an element has it as a key. */
  lemma PositionReaches(items: seq<Value>, i: nat, w: Value)
    requires i < |items| && i < 0x8000_0000_0000_0000
    ensures Reaches(Arr(items), [Decimal(i)], items[i])
    ensures (forall x <- items | x.Obj? :: Decimal(i) !in x.fields) ==>
              (Reaches(Arr(items), [Decimal(i)], w) <==> w == items[i])
  {
    var path := [Decimal(i)];
    DecimalIsNumeral(i);
    ArrayReaches(items, path, w);
    ArrayReaches(items, path, items[i]);
    forall j: nat | Numeral(path[0], j)
      ensures j == i
    {
      NumeralOnce(path[0], i, j);
    }
    hide Numeral, Decimal;
    assert path[1..] == [];
  }

  /** A segment that names no position of the array, nor a key of any element, reaches nothing. */
  lemma NothingThere(items: seq<Value>, path: seq<string>, w: Value)
    requires path != [] && (forall i: nat | i < |items| :: !Numeral(path[0], i))
    requires forall x <- items | x.Obj? :: path[0] !in x.fields
    ensures !Reaches(Arr(items), path, w)
  {
    ArrayReaches(items, path, w);
    hide Numeral;
  }

  /** What a field without dots finds: the value there, or the sentinel. */
  function At(doc: Doc, field: string): Value {
    if field in doc then doc[field] else Absent
  }

  lemma FieldFinds(doc: Doc, field: string, w: Value)
    requires '.' !in field
    ensures Finds(doc, SplitPath(field), w) <==> w == At(doc, field)
    ensures Nowhere(doc, SplitPath(field)) <==> field !in doc
  {
    PathSegments(field, "");
    assert [field][1..] == [];
    forall x: Value
      ensures Reaches(Obj(doc), [field], x) <==> field in doc && x == doc[field]
    {
    }
    if field in doc {
      assert Reaches(Obj(doc), [field], doc[field]);
    }
  }

  /** An operator on such a field looks at the value, and at its elements if it is an array. */
  lemma FieldCandidate(doc: Doc, field: string, c: Value)
    requires '.' !in field
    ensures var v := At(doc, field);
            Candidate(doc, SplitPath(field), c) <==> c == v || (v.Arr? && c in v.items)
  {
    FieldFinds(doc, field, At(doc, field));
    forall w: Value | Finds(doc, SplitPath(field), w)
      ensures w == At(doc, field)
    {
      FieldFinds(doc, field, w);
    }
    assert Yields(At(doc, field), c) <==> c == At(doc, field) || (At(doc, field).Arr? && c in At(doc, field).items);
  }

  // ----- the first of several -----

  /**
   Of several values along a path the first is the one sorting goes by: in an array, the element
   the segment names by position comes before those it is a key of, and these in their order.
   */
  lemma {:induction false} FirstAlong(items: seq<Value>, path: seq<string>, n: nat)
    requires path != [] && n < |items| && items[n].Obj? && path[0] in items[n].fields
    requires Reached(items[n].fields[path[0]], path[1..]) != []
    requires forall i: nat | i < n && items[i].Obj? && path[0] in items[i].fields ::
               Reached(items[i].fields[path[0]], path[1..]) == []
    requires forall i: nat | i < |items| && Numeral(path[0], i) :: Reached(items[i], path[1..]) == []
    ensures Reached(Arr(items), path) != []
    ensures Reached(Arr(items), path)[0] == Reached(items[n].fields[path[0]], path[1..])[0]
  {
    IndexIsNumeral(items, path[0]);
    hide IndexOf, Numeral;
    NothingBefore(items, path, n);
    StartsWith(items, path, n + 1, |items|);
  }

  lemma FirstByPosition(items: seq<Value>, path: seq<string>, i: nat)
    requires path != [] && i < |items| && Numeral(path[0], i) && Reached(items[i], path[1..]) != []
    ensures Reached(Arr(items), path) != [] && Reached(Arr(items), path)[0] == Reached(items[i], path[1..])[0]
  {
    IndexIsNumeral(items, path[0]);
    hide IndexOf, Numeral, Through;
  }

  lemma {:induction false} NothingBefore(items: seq<Value>, path: seq<string>, n: nat)
    requires path != [] && n <= |items|
    requires forall i: nat | i < n && items[i].Obj? && path[0] in items[i].fields ::
               Reached(items[i].fields[path[0]], path[1..]) == []
    ensures Through(items, path, n) == []
  {
    hide Reached;
    if n > 0 {
      NothingBefore(items, path, n - 1);
    }
  }

  lemma {:induction false} StartsWith(items: seq<Value>, path: seq<string>, n: nat, m: nat)
    requires path != [] && n <= m <= |items|
    ensures Through(items, path, n) <= Through(items, path, m)
  {
    hide Reached;
    if n < m {
      StartsWith(items, path, n, m - 1);
    }
  }

  // ----- what the operators pass -----

  /**
   The four orders compare within one kind, in the published order. What they look at is any
   value the path finds, or an element of one that is an array.
   */
  lemma OrderFilters(re: Regexps, field: string, y: Value, doc: Doc)
    requires IsField(field)
    ensures var p := SplitPath(field);
            && (Passes(re, OpFilter(field, "$gt", y), doc) <==>
                exists c: Value :: Candidate(doc, p, c) && KindOf(c) == KindOf(y) && Lower(y, c))
            && (Passes(re, OpFilter(field, "$lt", y), doc) <==>
                exists c: Value :: Candidate(doc, p, c) && KindOf(c) == KindOf(y) && Lower(c, y))
            && (Passes(re, OpFilter(field, "$gte", y), doc) <==>
                exists c: Value :: Candidate(doc, p, c) && KindOf(c) == KindOf(y) && (c == y || Lower(y, c)))
            && (Passes(re, OpFilter(field, "$lte", y), doc) <==>
                exists c: Value :: Candidate(doc, p, c) && KindOf(c) == KindOf(y) && (c == y || Lower(c, y)))
  {
    hide Passes, OpFilter, Candidate, SplitPath, Satisfies, Lower, KindOf;
    OrderFiltersMean(re, field, y, doc);
    forall c: Value
      ensures Satisfies(Gt, c, y) <==> KindOf(c) == KindOf(y) && Lower(y, c)
      ensures Satisfies(Lt, c, y) <==> KindOf(c) == KindOf(y) && Lower(c, y)
      ensures Satisfies(Gte, c, y) <==> KindOf(c) == KindOf(y) && (c == y || Lower(y, c))
      ensures Satisfies(Lte, c, y) <==> KindOf(c) == KindOf(y) && (c == y || Lower(c, y))
    {
      SatisfiesIs(c, y);
    }
  }

  lemma SatisfiesIs(c: Value, y: Value)
    ensures Satisfies(Gt, c, y) <==> KindOf(c) == KindOf(y) && Lower(y, c)
    ensures Satisfies(Lt, c, y) <==> KindOf(c) == KindOf(y) && Lower(c, y)
    ensures Satisfies(Gte, c, y) <==> KindOf(c) == KindOf(y) && (c == y || Lower(y, c))
    ensures Satisfies(Lte, c, y) <==> KindOf(c) == KindOf(y) && (c == y || Lower(c, y))
  {
    hide Compare, Lower, TypeRank, KindOf, KindBefore;
    KindDecides(c, y);
    CompareIsLower(c, y);
    CompareIsLower(y, c);
    Antisymmetric(c, y);
    EqualIsSame(c, y);
  }

  /** On a number in a field: by size. */
  lemma NumberFilters(re: Regexps, field: string, x: real, y: real, doc: Doc)
    requires IsField(field) && '.' !in field && field in doc && doc[field] == Num(x)
    ensures Passes(re, OpFilter(field, "$gt", Num(y)), doc) <==> x > y
    ensures Passes(re, OpFilter(field, "$gte", Num(y)), doc) <==> x >= y
    ensures Passes(re, OpFilter(field, "$lt", Num(y)), doc) <==> x < y
    ensures Passes(re, OpFilter(field, "$lte", Num(y)), doc) <==> x <= y
    ensures Passes(re, OpFilter(field, "$eq", Num(y)), doc) <==> x == y
  {
    hide Passes, OpFilter, Candidate, SplitPath;
    OrderFilters(re, field, Num(y), doc);
    EqFilter(re, field, Num(y), doc);
    CandidatesOf(doc, field);
    assert At(doc, field) == Num(x) && Candidate(doc, SplitPath(field), Num(x));
    assert (Lower(Num(y), Num(x)) <==> y < x) && (Lower(Num(x), Num(y)) <==> x < y);
    assert KindOf(Num(x)) == KindOf(Num(y));
  }

  lemma CandidatesOf(doc: Doc, field: string)
    requires '.' !in field
    ensures var v := At(doc, field);
            forall c: Value :: Candidate(doc, SplitPath(field), c) <==> c == v || (v.Arr? && c in v.items)
  {
    hide Candidate, SplitPath;
    forall c: Value
      ensures var v := At(doc, field); Candidate(doc, SplitPath(field), c) <==> c == v || (v.Arr? && c in v.items)
    {
      FieldCandidate(doc, field, c);
    }
  }

  /** Equality, as an operator or as a literal, asks for the very value, or for an element that is it. */
  lemma EqFilter(re: Regexps, field: string, y: Value, doc: Doc)
    requires IsField(field)
    ensures Passes(re, OpFilter(field, "$eq", y), doc) <==> Candidate(doc, SplitPath(field), y)
    ensures !(y.Obj? && AnyOperator(y)) ==>
              (Passes(re, Obj(map[field := y]), doc) <==> Candidate(doc, SplitPath(field), y))
  {
    hide Passes, OpFilter, Candidate, SplitPath;
    OrderFiltersMean(re, field, y, doc);
    assert forall c: Value :: Satisfies(Eq, c, y) <==> c == y;
    if !(y.Obj? && AnyOperator(y)) {
      LiteralClause(re, field, y, doc);
      OneClause(re, field, y, doc);
    }
  }

  lemma LiteralClause(re: Regexps, field: string, y: Value, doc: Doc)
    requires IsField(field) && !(y.Obj? && AnyOperator(y))
    ensures ClauseWellFormed(re, field, y)
    ensures ClauseMeans(re, field, y, doc) <==> SomeCandidate(doc, SplitPath(field), Eq, y)
  {
    hide SomeCandidate, SplitPath;
    if y.Obj? {
      AllIsAny(y);
    }
  }

  lemma AllIsAny(v: Value)
    requires v.Obj?
    ensures AllOperators(v) ==> AnyOperator(v)
  {
    if AllOperators(v) {
      var key :| key in v.fields;
      assert IsOperator(key);
    }
  }

  /** $exists asks whether the path reaches anything; null is something. */
  lemma ExistsFilter(re: Regexps, field: string, want: bool, doc: Doc)
    requires IsField(field)
    ensures Passes(re, OpFilter(field, "$exists", Bool(want)), doc) <==>
            (want <==> Somewhere(doc, SplitPath(field)))
    ensures '.' !in field ==> (Passes(re, OpFilter(field, "$exists", Bool(want)), doc) <==> (want <==> field in doc))
  {
    hide Passes, OpFilter, SplitPath;
    OpFilterMeans(re, field, "$exists", Bool(want), doc);
    assert OpMeans(re, field, "$exists", Bool(want), doc) <==> (Nowhere(doc, SplitPath(field)) <==> !want);
    assert OpWellFormed(re, field, "$exists", Bool(want));
    SomewhereOrNowhere(doc, SplitPath(field));
    if '.' !in field {
      FieldFinds(doc, field, Null);
    }
  }

  /** The path reaches something. */
  ghost predicate Somewhere(doc: Doc, path: seq<string>) {
    exists w: Value :: Reaches(Obj(doc), path, w)
  }

  lemma SomewhereOrNowhere(doc: Doc, path: seq<string>)
    ensures Nowhere(doc, path) <==> !Somewhere(doc, path)
  {
    if !Nowhere(doc, path) {
      var w: Value :| Reaches(Obj(doc), path, w);
      assert Somewhere(doc, path);
    }
  }

  /** $regex asks for a string, or an element that is one, which the pattern matches. */
  lemma RegexFilter(re: Regexps, field: string, pattern: string, doc: Doc)
    requires IsField(field) && re.valid(pattern)
    ensures Passes(re, OpFilter(field, "$regex", Str(pattern)), doc) <==>
            exists s: string :: Candidate(doc, SplitPath(field), Str(s)) && re.hits(pattern, s)
  {
    hide Passes, OpFilter, SplitPath, Candidate;
    OpFilterMeans(re, field, "$regex", Str(pattern), doc);
    if SomeMatch(re, doc, SplitPath(field), pattern) {
      var c: Value :| Candidate(doc, SplitPath(field), c) && c.Str? && re.hits(pattern, c.s);
      assert c == Str(c.s);
    }
  }

  // ----- what a filter of several parts passes -----

  /** A filter passes a document exactly when each of its entries does; the empty one passes all. */
  lemma EntriesAllPass(re: Regexps, f: Value, doc: Doc)
    requires f.Obj?
    ensures CompileFilter(re, f).Some? <==>
            forall key <- f.fields :: CompileFilter(re, Obj(map[key := f.fields[key]])).Some?
    ensures CompileFilter(re, f).Some? ==>
              (Passes(re, f, doc) <==> forall key <- f.fields :: Passes(re, Obj(map[key := f.fields[key]]), doc))
  {
    hide Decides, CompileFilter, ClauseMeans, ClauseWellFormed;
    CompiledFilterDecides(re, f, doc);
    forall key | key in f.fields
      ensures CompileFilter(re, Obj(map[key := f.fields[key]])).Some? <==> ClauseWellFormed(re, key, f.fields[key])
      ensures ClauseWellFormed(re, key, f.fields[key]) ==>
                (Passes(re, Obj(map[key := f.fields[key]]), doc) <==> ClauseMeans(re, key, f.fields[key], doc))
    {
      OneEntry(re, key, f.fields[key], doc);
    }
  }

  lemma OneEntry(re: Regexps, key: string, v: Value, doc: Doc)
    ensures CompileFilter(re, Obj(map[key := v])).Some? <==> ClauseWellFormed(re, key, v)
    ensures ClauseWellFormed(re, key, v) ==> (Passes(re, Obj(map[key := v]), doc) <==> ClauseMeans(re, key, v, doc))
  {
    hide Decides, CompileFilter, ClauseMeans, ClauseWellFormed, Passes;
    var f := Obj(map[key := v]);
    OneClause(re, key, v, doc);
    CompiledFilterDecides(re, f, doc);
    assert key in f.fields;
  }

  /** Several operators on one field have to pass together. */
  lemma OperatorsAllPass(re: Regexps, field: string, v: Value, doc: Doc)
    requires IsField(field) && v.Obj? && AllOperators(v)
    ensures CompileFilter(re, Obj(map[field := v])).Some? <==>
            forall op <- v.fields :: CompileFilter(re, OpFilter(field, op, v.fields[op])).Some?
    ensures CompileFilter(re, Obj(map[field := v])).Some? ==>
              (Passes(re, Obj(map[field := v]), doc) <==>
               forall op <- v.fields :: Passes(re, OpFilter(field, op, v.fields[op]), doc))
  {
    hide Decides, CompileFilter, OpMeans, OpWellFormed, Passes;
    OneEntry(re, field, v, doc);
    forall op | op in v.fields
      ensures CompileFilter(re, OpFilter(field, op, v.fields[op])).Some? <==> OpWellFormed(re, field, op, v.fields[op])
      ensures OpWellFormed(re, field, op, v.fields[op]) ==>
                (Passes(re, OpFilter(field, op, v.fields[op]), doc) <==> OpMeans(re, field, op, v.fields[op], doc))
    {
      OneOperator(re, field, op, v.fields[op], doc);
    }
    FieldParts(re, field, v, doc);
  }

  lemma OneOperator(re: Regexps, field: string, op: string, arg: Value, doc: Doc)
    requires IsField(field) && IsOperator(op)
    ensures OpFilter(field, op, arg).Obj?
    ensures CompileFilter(re, OpFilter(field, op, arg)).Some? <==> OpWellFormed(re, field, op, arg)
    ensures OpWellFormed(re, field, op, arg) ==>
              (Passes(re, OpFilter(field, op, arg), doc) <==> OpMeans(re, field, op, arg, doc))
  {
    hide Decides, CompileFilter, OpMeans, OpWellFormed, Passes;
    OpFilterMeans(re, field, op, arg, doc);
    CompiledFilterDecides(re, OpFilter(field, op, arg), doc);
  }

  lemma FieldParts(re: Regexps, field: string, v: Value, doc: Doc)
    requires IsField(field) && v.Obj? && AllOperators(v)
    ensures ClauseWellFormed(re, field, v) <==> forall op <- v.fields :: OpWellFormed(re, field, op, v.fields[op])
    ensures ClauseMeans(re, field, v, doc) <==> forall op <- v.fields :: OpMeans(re, field, op, v.fields[op], doc)
  {
    hide OpMeans, OpWellFormed;
    var op :| op in v.fields;
    assert AnyOperator(v);
  }

  /** $and takes all of its filters and $or one of them; neither takes an empty list. */
  lemma AndOrPass(re: Regexps, fs: seq<Value>, doc: Doc)
    requires forall f <- fs :: f.Obj?
    ensures forall key | key == "$and" || key == "$or" ::
              CompileFilter(re, Obj(map[key := Arr(fs)])).Some? <==>
              fs != [] && forall f <- fs :: CompileFilter(re, f).Some?
    ensures fs != [] && (forall f <- fs :: CompileFilter(re, f).Some?) ==>
              && (Passes(re, Obj(map["$and" := Arr(fs)]), doc) <==> forall f <- fs :: Passes(re, f, doc))
              && (Passes(re, Obj(map["$or" := Arr(fs)]), doc) <==> exists f <- fs :: Passes(re, f, doc))
  {
    hide Decides, CompileFilter, Means, WellFormed, Passes;
    OneEntry(re, "$and", Arr(fs), doc);
    OneEntry(re, "$or", Arr(fs), doc);
    forall f | f in fs
      ensures CompileFilter(re, f).Some? <==> WellFormed(re, f)
      ensures WellFormed(re, f) ==> (Passes(re, f, doc) <==> Means(re, f, doc))
    {
      PassesMeans(re, f, doc);
    }
    Branches(re, fs, doc);
  }

  lemma PassesMeans(re: Regexps, f: Value, doc: Doc)
    requires f.Obj?
    ensures CompileFilter(re, f).Some? <==> WellFormed(re, f)
    ensures WellFormed(re, f) ==> (Passes(re, f, doc) <==> Means(re, f, doc))
  {
    hide Decides, CompileFilter, Means, WellFormed;
    CompiledFilterDecides(re, f, doc);
  }

  lemma Branches(re: Regexps, fs: seq<Value>, doc: Doc)
    ensures forall key | key == "$and" || key == "$or" ::
              ClauseWellFormed(re, key, Arr(fs)) <==> fs != [] && forall f <- fs :: WellFormed(re, f)
    ensures ClauseMeans(re, "$and", Arr(fs), doc) <==> forall f <- fs :: Means(re, f, doc)
    ensures ClauseMeans(re, "$or", Arr(fs), doc) <==> exists f <- fs :: Means(re, f, doc)
  {
    hide Means, WellFormed;
    assert forall i | 0 <= i < |fs| :: fs[i] in fs;
    assert Arr(fs).items == fs;
  }

  /**
   Which entries there are. Under a field name, operators do not mix with other keys; under a name
   that starts with a dollar, only the three ways to put filters together.
   */
  lemma KnownEntries(re: Regexps, key: string, v: Value)
    ensures !IsOperator(key) ==>
              (CompileFilter(re, Obj(map[key := v])).Some? <==>
               && key != ""
               && (v.Obj? && AnyOperator(v) ==>
                     AllOperators(v)
                     && forall op <- v.fields :: CompileFilter(re, OpFilter(key, op, v.fields[op])).Some?))
    ensures IsOperator(key) ==>
              (CompileFilter(re, Obj(map[key := v])).Some? <==>
               || (key in ["$and", "$or"] && v.Arr? && v.items != []
                   && forall f <- v.items :: f.Obj? && CompileFilter(re, f).Some?)
               || (key == "$not" && v.Obj? && CompileFilter(re, v).Some?))
  {
    hide Decides, CompileFilter, WellFormed, OpWellFormed;
    OneEntry(re, key, v, map[]);
    if IsOperator(key) {
      if v.Arr? {
        forall f | f in v.items
          ensures WellFormed(re, f) <==> f.Obj? && CompileFilter(re, f).Some?
        {
          CompilesIs(re, f);
        }
        Branches(re, v.items, map[]);
        assert v == Arr(v.items);
      }
      CompilesIs(re, v);
    } else if key != "" && v.Obj? && AllOperators(v) {
      OperatorsAllPass(re, key, v, map[]);
    }
  }

  lemma CompilesIs(re: Regexps, f: Value)
    ensures WellFormed(re, f) <==> f.Obj? && CompileFilter(re, f).Some?
  {
    hide CompileFilter;
    if f.Obj? {
      hide Decides, Means;
      CompiledFilterDecides(re, f, map[]);
    }
  }

  /** Which operators there are, and what each takes. */
  lemma KnownOperators(re: Regexps, field: string, op: string, arg: Value)
    requires IsField(field) && IsOperator(op)
    ensures OpFilter(field, op, arg).Obj?
    ensures CompileFilter(re, OpFilter(field, op, arg)).Some? <==>
              || op in ["$eq", "$ne", "$gt", "$gte", "$lt", "$lte"]
              || (op in ["$in", "$nin"] && arg.Arr?)
              || (op == "$exists" && arg.Bool?)
              || (op == "$regex" && arg.Str? && re.valid(arg.s))
              || (op == "$not" && arg.Obj? && AllOperators(arg) && CompileFilter(re, Obj(map[field := arg])).Some?)
  {
    hide Decides, CompileFilter, AllOperators, FieldWellFormed;
    OneOperator(re, field, op, arg, map[]);
    OneEntry(re, field, arg, map[]);
  }
}
