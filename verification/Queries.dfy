/**
 Queries (scan.go:160-303) and paging (python/nosqlite/__init__.py:289-316): the two shapes a query
 runs in, over the payloads a scan hands out, and the loop that fetches a result page by page.
 Decoding is a function of the payload, possibly an error; emitting a result always succeeds.
 */
module Queries {
  import opened Framing
  import opened Wrappers
  import opened Values
  import opened Filters
  import opened Projections
  import Order
  import Meaning
  import Sorting
  import Scan

  /** What the program leaves to its libraries: decoding JSON and matching patterns. */
  datatype Env = Env(decode: Bytes -> Option<Doc>, re: Regexps)

  datatype Query = Query(filter: Value, projection: Value, order: seq<Sorting.SortKey>, skip: int, limit: int)

  ghost predicate Lawful(env: Env) {
    forall b: Bytes :: env.decode(b).Some? ==> Decoded(env.decode(b).value)
  }

  // ----- the answer -----

  ghost predicate Hits(env: Env, filter: Value, payload: Bytes) {
    env.decode(payload).Some? && Means(env.re, filter, env.decode(payload).value)
  }

  /** The documents of the collection that pass the filter, in scan order. */
  ghost function Matches(env: Env, filter: Value, docs: seq<Bytes>): (r: seq<Doc>)
    ensures |r| <= |docs|
  {
    if docs == [] then []
    else
      var payload := docs[|docs| - 1];
      Matches(env, filter, docs[..|docs| - 1])
      + if Hits(env, filter, payload) then [env.decode(payload).value] else []
  }

  ghost predicate AllDecode(env: Env, docs: seq<Bytes>) {
    forall b <- docs :: env.decode(b).Some?
  }

  /** The document at every level's sort path, or the sentinel. */
  ghost function KeysOf(order: seq<Sorting.SortKey>, doc: Doc): seq<Value> {
    seq(|order|, i requires 0 <= i < |order| => Found(doc, SplitPath(order[i].field))[0])
  }

  /** The matches as sort entries: narrowed, keyed on the whole document, numbered as they come. */
  ghost function EntriesOf(q: Query, found: seq<Doc>): (r: seq<Sorting.Entry>)
    requires q.projection.Obj?
    ensures |r| == |found|
    ensures forall i | 0 <= i < |found| ::
              r[i] == Sorting.Entry(Obj(Projected(q.projection, found[i])), KeysOf(q.order, found[i]), i + 1)
  {
    seq(|found|, i requires 0 <= i < |found| =>
      Sorting.Entry(Obj(Projected(q.projection, found[i])), KeysOf(q.order, found[i]), i + 1))
  }

  ghost function DocsOfEntries(entries: seq<Sorting.Entry>): (r: seq<Value>)
    ensures |r| == |entries| && forall i | 0 <= i < |r| :: r[i] == entries[i].doc
  {
    seq(|entries|, i requires 0 <= i < |entries| => entries[i].doc)
  }

  /** All results in order: every match, narrowed, in scan order or sorted. */
  ghost function Everything(env: Env, q: Query, docs: seq<Bytes>): seq<Value>
    requires q.projection.Obj?
  {
    var entries := EntriesOf(q, Matches(env, q.filter, docs));
    DocsOfEntries(if q.order == [] then entries else Sorting.Sort(q.order, entries))
  }

  function Min(a: int, b: int): int {
    if a < b then a else b
  }

  /** Positions skip to skip + limit of a list, as far as they exist; a limit of 0 is none. */
  function Slice<T>(s: seq<T>, skip: nat, limit: nat): seq<T> {
    s[Min(skip, |s|)..if limit == 0 then |s| else Min(skip + limit, |s|)]
  }

  /** What the query asks for. */
  ghost function Answer(env: Env, q: Query, docs: seq<Bytes>): seq<Value>
    requires q.projection.Obj? && q.skip >= 0 && q.limit >= 0
  {
    Slice(Everything(env, q, docs), q.skip, q.limit)
  }

  /** A query with its filter and projection compiled. */
  ghost predicate Compiled(env: Env, q: Query, m: Matcher, proj: Projection)
    reads if proj.Narrow? then {proj.tree} + proj.tree.nodes.Values else {}
  {
    && Lawful(env) && q.filter.Obj? && q.projection.Obj? && q.skip >= 0 && q.limit >= 0
    && CompileFilter(env.re, q.filter) == Some(m)
    && (proj.Whole? <==> q.projection.fields == map[])
    && (proj.Narrow? ==>
          && proj.including == (NamedPaths(q.projection, true) != {})
          && proj.tree.Valid() && proj.tree.Leaves() == Minimal(Wanted(q.projection)))
  }

  // ----- matches of a prefix -----

  lemma {:induction false} MatchesPrefix(env: Env, filter: Value, docs: seq<Bytes>, n: nat)
    requires n <= |docs|
    ensures var some, all := Matches(env, filter, docs[..n]), Matches(env, filter, docs);
            |some| <= |all| && some == all[..|some|]
  {
    hide Hits;
    if n == |docs| {
      assert docs[..n] == docs;
    } else {
      assert docs[..|docs| - 1][..n] == docs[..n];
      MatchesPrefix(env, filter, docs[..|docs| - 1], n);
    }
  }

  lemma MatchesStep(env: Env, filter: Value, docs: seq<Bytes>, i: nat)
    requires i < |docs|
    ensures Matches(env, filter, docs[..i + 1]) ==
            Matches(env, filter, docs[..i]) + if Hits(env, filter, docs[i]) then [env.decode(docs[i]).value] else []
  {
    hide Hits;
    assert docs[..i + 1][..i] == docs[..i];
  }

  lemma EntriesStep(q: Query, found: seq<Doc>, doc: Doc)
    requires q.projection.Obj?
    ensures EntriesOf(q, found + [doc]) ==
            EntriesOf(q, found) + [Sorting.Entry(Obj(Projected(q.projection, doc)), KeysOf(q.order, doc), |found| + 1)]
  {
    hide Projected, KeysOf;
  }

  /** The unsorted results, in terms of the matches. */
  ghost function Narrowed(q: Query, found: seq<Doc>): (r: seq<Value>)
    requires q.projection.Obj?
    ensures |r| == |found|
  {
    DocsOfEntries(EntriesOf(q, found))
  }

  lemma NarrowedStep(q: Query, found: seq<Doc>, doc: Doc)
    requires q.projection.Obj?
    ensures Narrowed(q, found + [doc]) == Narrowed(q, found) + [Obj(Projected(q.projection, doc))]
  {
    hide Projected, KeysOf;
    EntriesStep(q, found, doc);
  }

  /** Results past the end of the page change nothing. */
  lemma SliceOfPrefix<T>(s: seq<T>, n: nat, skip: nat, limit: nat)
    requires n <= |s| && limit > 0 && n >= skip + limit
    ensures Slice(s[..n], skip, limit) == Slice(s, skip, limit)
  {
  }

  lemma SliceStep<T>(s: seq<T>, x: T, skip: nat, limit: nat)
    requires limit > 0 ==> |s| < skip + limit
    ensures Slice(s + [x], skip, limit) == Slice(s, skip, limit) + if |s| < skip then [] else [x]
    ensures |Slice(s, skip, limit)| == if |s| < skip then 0 else |s| - skip
  {
    if |s| >= skip {
      assert (s + [x])[skip..] == s[skip..] + [x];
    }
  }

  lemma NarrowedPrefix(q: Query, found: seq<Doc>, n: nat)
    requires q.projection.Obj? && n <= |found|
    ensures Narrowed(q, found[..n]) == Narrowed(q, found)[..n]
  {
    hide Projected, KeysOf;
  }

  /** The page is full: nothing further on can change it. */
  lemma PageIsFull(env: Env, q: Query, docs: seq<Bytes>, n: nat)
    requires q.projection.Obj? && q.skip >= 0 && q.limit > 0 && n <= |docs|
    requires |Matches(env, q.filter, docs[..n])| >= q.skip + q.limit
    ensures Slice(Narrowed(q, Matches(env, q.filter, docs[..n])), q.skip, q.limit) ==
            Slice(Narrowed(q, Matches(env, q.filter, docs)), q.skip, q.limit)
  {
    hide Narrowed, Matches;
    var some, all := Matches(env, q.filter, docs[..n]), Matches(env, q.filter, docs);
    MatchesPrefix(env, q.filter, docs, n);
    NarrowedPrefix(q, all, |some|);
    SliceOfPrefix(Narrowed(q, all), |some|, q.skip, q.limit);
  }

  // ----- the two shapes -----

  /** When an unsorted query lets the scan go on: the last payload decoded, and the page has room. */
  ghost predicate GoesOn(env: Env, q: Query, seen: seq<Bytes>) {
    && (seen != [] ==> env.decode(seen[|seen| - 1]).Some?)
    && (q.limit > 0 ==> |Matches(env, q.filter, seen)| < q.skip + q.limit)
  }

  ghost function Goer(env: Env, q: Query): Scan.Visitor {
    (seen: seq<Bytes>) => GoesOn(env, q, seen)
  }

  /** Decodes one payload and asks the matcher about it. */
  method Ask(env: Env, q: Query, m: Matcher, payload: Bytes) returns (doc: Option<Doc>, hit: bool)
    requires Lawful(env) && q.filter.Obj? && CompileFilter(env.re, q.filter) == Some(m)
    ensures doc == env.decode(payload) && (hit <==> Hits(env, q.filter, payload))
  {
    hide Decides, Means, CompileFilter, Decoded;
    doc := env.decode(payload);
    if doc.None? {
      return doc, false;
    }
    CompiledFilterDecides(env.re, q.filter, doc.value);
    hit := Match(env.re, m, doc.value);
  }

  /**
   runUnsorted: emits matches as they come and stops the scan once the page is full. It fails on a
   payload that does not decode, if the scan gets that far.
   */
  method RunUnsorted(env: Env, q: Query, m: Matcher, proj: Projection, docs: seq<Bytes>)
    returns (ok: bool, out: seq<Value>, scanned: nat, matched: nat)
    requires Compiled(env, q, m, proj)
    ensures Done(env, q, docs, scanned, ok, out, matched)
  {
    hide Compiled, Matches, Narrowed, Slice, Hits, GoesOn, Goer, AllDecode, Running, Done, Projected;
    hide CompileFilter, Lawful, Tree.Valid, Tree.Leaves, Minimal, Wanted, NamedPaths;
    CompiledParts(env, q, m, proj);
    RunStarts(env, q, docs);
    ok, out, scanned, matched := true, [], 0, 0;
    while scanned < |docs|
      invariant ok && scanned <= |docs| && Running(env, q, docs, scanned, out, matched)
      invariant |out| == if matched < q.skip then 0 else matched - q.skip
      invariant q.limit > 0 ==> matched < q.skip + q.limit
      invariant Compiled(env, q, m, proj)
      decreases |docs| - scanned
    {
      var doc, hit := Ask(env, q, m, docs[scanned]);
      RunStep(env, q, docs, scanned, out, matched);
      scanned := scanned + 1;
      if doc.None? {
        ok := false;
        return;
      }
      if !hit {
        continue;
      }
      matched := matched + 1;
      if matched <= q.skip {
        continue;
      }
      CompiledParts(env, q, m, proj);
      var narrowed := Apply(proj, doc.value, q.projection);
      out := out + [Obj(narrowed)];
      if q.limit > 0 && |out| >= q.limit {
        return;
      }
    }
    RunEnds(env, q, docs, out, matched);
  }

  lemma CompiledParts(env: Env, q: Query, m: Matcher, proj: Projection)
    requires Compiled(env, q, m, proj)
    ensures Lawful(env) && q.filter.Obj? && q.projection.Obj? && q.skip >= 0 && q.limit >= 0
    ensures CompileFilter(env.re, q.filter) == Some(m)
    ensures proj.Whole? <==> q.projection.fields == map[]
    ensures proj.Narrow? ==>
              && proj.including == (NamedPaths(q.projection, true) != {})
              && proj.tree.Valid() && proj.tree.Leaves() == Minimal(Wanted(q.projection))
  {
  }

  /** The state of an unsorted query after i payloads, none of which stopped it. */
  ghost predicate Running(env: Env, q: Query, docs: seq<Bytes>, i: nat, out: seq<Value>, matched: nat) {
    && q.projection.Obj? && q.skip >= 0 && q.limit >= 0 && i <= |docs|
    && Scan.Visiting(docs, Goer(env, q), docs[..i], i)
    && AllDecode(env, docs[..i])
    && matched == |Matches(env, q.filter, docs[..i])|
    && (q.limit > 0 ==> matched < q.skip + q.limit)
    && out == Slice(Narrowed(q, Matches(env, q.filter, docs[..i])), q.skip, q.limit)
  }

  /** The query has stopped after n payloads with these results. */
  ghost predicate Done(env: Env, q: Query, docs: seq<Bytes>, n: nat, ok: bool, out: seq<Value>, matched: nat) {
    && q.projection.Obj? && q.skip >= 0 && q.limit >= 0
    && n <= |docs| && docs[..n] == Scan.Visited(docs, Goer(env, q))
    && (ok <==> AllDecode(env, docs[..n]))
    && matched == |Matches(env, q.filter, docs[..n])|
    && (ok ==> out == Slice(Narrowed(q, Matches(env, q.filter, docs)), q.skip, q.limit))
  }

  lemma RunStarts(env: Env, q: Query, docs: seq<Bytes>)
    requires q.projection.Obj? && q.skip >= 0 && q.limit >= 0
    ensures Running(env, q, docs, 0, [], 0)
  {
    Scan.VisitEnds(docs, Goer(env, q), []);
  }

  lemma RunEnds(env: Env, q: Query, docs: seq<Bytes>, out: seq<Value>, matched: nat)
    requires Running(env, q, docs, |docs|, out, matched)
    ensures Done(env, q, docs, |docs|, true, out, matched)
  {
    hide Matches, Narrowed, Slice, GoesOn, AllDecode;
    assert docs[..|docs|] == docs;
    Scan.VisitEnds(docs, Goer(env, q), docs);
  }

  /** One more payload: an error, a miss, a match before the page, on it, or the one that fills it. */
  lemma RunStep(env: Env, q: Query, docs: seq<Bytes>, i: nat, out: seq<Value>, matched: nat)
    requires Running(env, q, docs, i, out, matched) && i < |docs|
    ensures env.decode(docs[i]).None? ==> Done(env, q, docs, i + 1, false, out, matched)
    ensures env.decode(docs[i]).Some? && !Hits(env, q.filter, docs[i]) ==> Running(env, q, docs, i + 1, out, matched)
    ensures Hits(env, q.filter, docs[i]) ==>
              var result := Obj(Projected(q.projection, env.decode(docs[i]).value));
              var next := if matched < q.skip then out else out + [result];
              if q.limit > 0 && matched + 1 >= q.skip + q.limit then Done(env, q, docs, i + 1, true, next, matched + 1)
              else Running(env, q, docs, i + 1, next, matched + 1)
  {
    hide Matches, Narrowed, Slice, Projected;
    var found := Matches(env, q.filter, docs[..i]);
    MatchesStep(env, q.filter, docs, i);
    AllDecodeStep(env, docs, i);
    assert docs[..i] + [docs[i]] == docs[..i + 1];
    Scan.VisitStep(docs, Goer(env, q), docs[..i], i);
    if Hits(env, q.filter, docs[i]) {
      var doc := env.decode(docs[i]).value;
      NarrowedStep(q, found, doc);
      SliceStep(Narrowed(q, found), Obj(Projected(q.projection, doc)), q.skip, q.limit);
      NarrowedSize(q, found);
      if q.limit > 0 && matched + 1 >= q.skip + q.limit {
        PageIsFull(env, q, docs, i + 1);
      }
    } else {
      NothingMore(found);
    }
  }

  lemma NarrowedSize(q: Query, found: seq<Doc>)
    requires q.projection.Obj?
    ensures |Narrowed(q, found)| == |found|
  {
  }

  lemma NothingMore<T>(s: seq<T>)
    ensures s + [] == s
  {
  }

  lemma AllDecodeStep(env: Env, docs: seq<Bytes>, i: nat)
    requires i < |docs|
    ensures AllDecode(env, docs[..i + 1]) <==> AllDecode(env, docs[..i]) && env.decode(docs[i]).Some?
  {
    assert docs[..i + 1] == docs[..i] + [docs[i]];
  }

  /** The entries of a query are a stream: a key for every level, and no two numbers alike. */
  lemma EntriesAreStream(q: Query, found: seq<Doc>)
    requires q.projection.Obj?
    ensures Sorting.Stream(q.order, EntriesOf(q, found))
  {
  }

  /** The sort keys come from the whole document, so a query can sort on what its projection drops. */
  method SortKeys(q: Query, doc: Doc) returns (keys: seq<Value>)
    ensures keys == KeysOf(q.order, doc)
  {
    keys := [];
    for i := 0 to |q.order|
      invariant |keys| == i && forall j | 0 <= j < i :: keys[j] == Found(doc, SplitPath(q.order[j].field))[0]
    {
      var v := LookupOne(doc, SplitPath(q.order[i].field));
      keys := keys + [v];
    }
  }

  /** Hands out sorted entries from position skip, at most limit of them. */
  method EmitPage(q: Query, ordered: seq<Sorting.Entry>, ghost all: seq<Sorting.Entry>) returns (out: seq<Value>)
    requires q.skip >= 0 && q.limit >= 0
    requires ordered == if q.limit > 0 then Sorting.Front(all, q.skip + q.limit) else all
    ensures out == Slice(DocsOfEntries(all), q.skip, q.limit)
  {
    out := [];
    var i := q.skip;
    while i < |ordered|
      invariant q.skip <= i && (i <= |ordered| || i == q.skip)
      invariant |out| == i - q.skip && (q.limit > 0 ==> |out| < q.limit)
      invariant forall j | 0 <= j < |out| :: out[j] == ordered[q.skip + j].doc
    {
      out := out + [ordered[i].doc];
      i := i + 1;
      if q.limit > 0 && |out| >= q.limit {
        break;
      }
    }
  }

  /**
   runSorted: with a limit, a heap of the best skip + limit entries; without, every match kept and
   sorted. Either way the page is what sorting everything and slicing would give.
   */
  method RunSorted(env: Env, q: Query, m: Matcher, proj: Projection, docs: seq<Bytes>)
    returns (ok: bool, out: seq<Value>, scanned: nat, matched: nat)
    requires Compiled(env, q, m, proj)
    ensures scanned <= |docs| && (ok ==> scanned == |docs|)
    ensures ok <==> AllDecode(env, docs)
    ensures matched == |Matches(env, q.filter, docs[..scanned])|
    ensures ok ==>
              out == Slice(DocsOfEntries(Sorting.Sort(q.order, EntriesOf(q, Matches(env, q.filter, docs)))),
                           q.skip, q.limit)
  {
    hide Compiled, Matches, Slice, Hits, AllDecode, Projected, EntriesOf, DocsOfEntries, KeysOf;
    hide CompileFilter, Lawful, Tree.Valid, Tree.Leaves, Minimal, Wanted, NamedPaths;
    hide Sorting.TopK.Keeps, Sorting.TopK.Valid, Sorting.Sort, Sorting.Stream, Sorting.Front, Gathered, Decoded;
    CompiledParts(env, q, m, proj);
    SortStarts(env, q, docs);
    var heap: Sorting.TopK? := null;
    var all: seq<Sorting.Entry> := [];
    if q.limit > 0 {
      heap := new Sorting.TopK(q.skip + q.limit, q.order);
    }
    ghost var stream: seq<Sorting.Entry> := [];
    ok, out, scanned, matched := true, [], 0, 0;
    while scanned < |docs|
      invariant Compiled(env, q, m, proj)
      invariant ok && scanned <= |docs| && Gathered(env, q, docs, scanned, stream, matched)
      invariant if q.limit > 0 then Holds(heap, q, stream) else all == stream
      decreases |docs| - scanned
    {
      var doc, hit := Ask(env, q, m, docs[scanned]);
      GatherStep(env, q, docs, scanned, stream, matched);
      scanned := scanned + 1;
      if doc.None? {
        return false, [], scanned, matched;
      }
      if !hit {
        continue;
      }
      matched := matched + 1;
      var keys := SortKeys(q, doc.value);
      CompiledParts(env, q, m, proj);
      var narrowed := Apply(proj, doc.value, q.projection);
      var entry := Sorting.Entry(Obj(narrowed), keys, matched);
      if q.limit > 0 {
        heap.Add(entry, stream);
      } else {
        all := all + [entry];
      }
      stream := stream + [entry];
    }
    GatherEnds(env, q, docs, stream, matched);
    CompiledParts(env, q, m, proj);
    out := FinishSorted(q, heap, all, stream);
  }

  /** The tail of runSorted: the entries in order, and the page of them that is asked for. */
  method FinishSorted(q: Query, heap: Sorting.TopK?, all: seq<Sorting.Entry>, ghost stream: seq<Sorting.Entry>)
    returns (out: seq<Value>)
    requires q.skip >= 0 && q.limit >= 0
    requires if q.limit > 0 then Holds(heap, q, stream) else all == stream
    ensures out == Slice(DocsOfEntries(Sorting.Sort(q.order, stream)), q.skip, q.limit)
  {
    hide Slice, DocsOfEntries, Sorting.TopK.Keeps, Sorting.Sort, Sorting.Front;
    var ordered: seq<Sorting.Entry>;
    if q.limit > 0 {
      ordered := heap.SortedEntries(stream);
    } else {
      ordered := Sorting.SortEntries(all, q.order);
    }
    out := EmitPage(q, ordered, Sorting.Sort(q.order, stream));
  }

  /** The heap holds the best of the stream. */
  ghost predicate Holds(heap: Sorting.TopK?, q: Query, stream: seq<Sorting.Entry>)
    reads heap
  {
    heap != null && heap.k == q.skip + q.limit && heap.order == q.order && heap.Keeps(stream)
  }

  /** After i payloads, all decoded, these are the entries of the matches. */
  ghost predicate Gathered(env: Env, q: Query, docs: seq<Bytes>, i: nat, stream: seq<Sorting.Entry>, matched: nat) {
    && q.projection.Obj? && i <= |docs| && AllDecode(env, docs[..i])
    && matched == |Matches(env, q.filter, docs[..i])|
    && stream == EntriesOf(q, Matches(env, q.filter, docs[..i]))
  }

  lemma SortStarts(env: Env, q: Query, docs: seq<Bytes>)
    requires q.projection.Obj?
    ensures Gathered(env, q, docs, 0, [], 0)
  {
  }

  lemma GatherStep(env: Env, q: Query, docs: seq<Bytes>, i: nat, stream: seq<Sorting.Entry>, matched: nat)
    requires Gathered(env, q, docs, i, stream, matched) && i < |docs|
    ensures env.decode(docs[i]).None? ==> !AllDecode(env, docs)
    ensures matched == |Matches(env, q.filter, docs[..i])|
    ensures env.decode(docs[i]).None? ==> matched == |Matches(env, q.filter, docs[..i + 1])|
    ensures env.decode(docs[i]).Some? && !Hits(env, q.filter, docs[i]) ==>
              Gathered(env, q, docs, i + 1, stream, matched)
    ensures Hits(env, q.filter, docs[i]) ==>
              var doc := env.decode(docs[i]).value;
              var entry := Sorting.Entry(Obj(Projected(q.projection, doc)), KeysOf(q.order, doc), matched + 1);
              && Gathered(env, q, docs, i + 1, stream + [entry], matched + 1)
              && Sorting.Stream(q.order, stream + [entry])
  {
    hide Matches, Projected, KeysOf, EntriesOf, Sorting.Stream;
    var found := Matches(env, q.filter, docs[..i]);
    MatchesStep(env, q.filter, docs, i);
    AllDecodeStep(env, docs, i);
    assert docs[i] in docs;
    if Hits(env, q.filter, docs[i]) {
      EntriesStep(q, found, env.decode(docs[i]).value);
      EntriesAreStream(q, found + [env.decode(docs[i]).value]);
    } else {
      NothingMore(found);
    }
  }

  lemma GatherEnds(env: Env, q: Query, docs: seq<Bytes>, stream: seq<Sorting.Entry>, matched: nat)
    requires Gathered(env, q, docs, |docs|, stream, matched)
    ensures AllDecode(env, docs) && stream == EntriesOf(q, Matches(env, q.filter, docs)) && docs[..|docs|] == docs
    ensures matched == |Matches(env, q.filter, docs)|
  {
    assert docs[..|docs|] == docs;
  }

  // ----- the whole query -----

  /** The parts of a query that are checked before anything is read. */
  ghost predicate Accepted(env: Env, q: Query)
    requires q.filter.Obj? && q.projection.Obj?
  {
    Bounded(q) && WellFormed(env.re, q.filter) && Compiles(q.projection)
  }

  /** Query.validate: no negative bound, and no sort key without a field name. */
  ghost predicate Bounded(q: Query) {
    q.skip >= 0 && q.limit >= 0 && forall key <- q.order :: key.field != ""
  }

  method Validate(q: Query) returns (ok: bool)
    ensures ok <==> Bounded(q)
  {
    if q.skip < 0 || q.limit < 0 {
      return false;
    }
    for i := 0 to |q.order|
      invariant forall j | 0 <= j < i :: q.order[j].field != ""
    {
      if q.order[i].field == "" {
        assert q.order[i] in q.order;
        return false;
      }
    }
    ok := true;
  }

  /** What the query reads decodes: an unsorted one may stop early, a sorted one reads everything. */
  ghost predicate ReadsWell(env: Env, q: Query, docs: seq<Bytes>) {
    if q.order == [] then AllDecode(env, Scan.Visited(docs, Goer(env, q))) else AllDecode(env, docs)
  }

  /**
   runQuery: refuses exactly the queries that are not well formed and those that run into a payload
   that does not decode; answers every other with the slice of all results it asks for.
   */
  method RunQuery(env: Env, q: Query, docs: seq<Bytes>) returns (r: Option<seq<Value>>)
    requires Lawful(env) && q.filter.Obj? && q.projection.Obj?
    ensures r.Some? <==> Accepted(env, q) && ReadsWell(env, q, docs)
    ensures r.Some? ==> r.value == Answer(env, q, docs)
  {
    hide Slice, AllDecode, Matches, EntriesOf, DocsOfEntries, Lawful, Goer, CompileFilter, WellFormed, Compiles;
    hide Tree.Valid, Tree.Leaves, Minimal, Wanted, NamedPaths, Sorting.Sort;
    var valid := Validate(q);
    if !valid {
      return None;
    }
    FilterCompiles(env, q);
    var m := CompileFilter(env.re, q.filter);
    if m.None? {
      return None;
    }
    var proj := CompileProjection(q.projection);
    if proj.None? {
      return None;
    }
    var ok, out, scanned, matched;
    if |q.order| == 0 {
      ok, out, scanned, matched := RunUnsorted(env, q, m.value, proj.value, docs);
    } else {
      ok, out, scanned, matched := RunSorted(env, q, m.value, proj.value, docs);
    }
    r := if ok then Some(out) else None;
  }

  lemma FilterCompiles(env: Env, q: Query)
    requires q.filter.Obj?
    ensures CompileFilter(env.re, q.filter).Some? <==> WellFormed(env.re, q.filter)
  {
    CompiledFilterDecides(env.re, q.filter, map[]);
  }

  /** Scan order is the order of sorting by no key at all. */
  lemma UnsortedIsSortedByNothing(q: Query, found: seq<Doc>)
    requires q.projection.Obj? && q.order == []
    ensures Sorting.Sort(q.order, EntriesOf(q, found)) == EntriesOf(q, found)
  {
    hide Projected;
    var entries := EntriesOf(q, found);
    EntriesAreStream(q, found);
    Sorting.SortIsSorted(q.order, entries);
    Sorting.SortCounts(q.order, entries);
    Sorting.SortedIsUnique(q.order, Sorting.Sort(q.order, entries), entries);
  }

  // ----- what a query answers, row by row -----

  /** Positions skip to skip + limit, said position by position. */
  lemma SliceIs<T>(s: seq<T>, skip: nat, limit: nat)
    ensures var r := Slice(s, skip, limit);
            && |r| == (if |s| <= skip then 0 else if limit == 0 then |s| - skip else Min(limit, |s| - skip))
            && forall i | 0 <= i < |r| :: r[i] == s[skip + i]
  {
  }

  /** The value a document is sorted by at one level: the first its path finds, or the sentinel. */
  ghost function SortValue(doc: Doc, field: string): Value {
    Found(doc, SplitPath(field))[0]
  }

  /** Of a field without dots that is the value there. */
  lemma SortValueIs(doc: Doc, field: string)
    ensures Finds(doc, SplitPath(field), SortValue(doc, field))
    ensures '.' !in field ==> SortValue(doc, field) == if field in doc then doc[field] else Absent
  {
    hide SplitPath, Found;
    FoundIsFinds(doc, SplitPath(field));
    assert SortValue(doc, field) in Found(doc, SplitPath(field));
    if '.' !in field {
      Meaning.FieldFinds(doc, field, SortValue(doc, field));
    }
  }

  /** The levels before l find the same in both documents. */
  ghost predicate SameUpTo(order: seq<Sorting.SortKey>, a: Doc, b: Doc, l: nat)
    requires l <= |order|
  {
    forall m | 0 <= m < l :: SortValue(a, order[m].field) == SortValue(b, order[m].field)
  }

  ghost predicate AheadAt(order: seq<Sorting.SortKey>, a: Doc, b: Doc, l: nat)
    requires l < |order|
  {
    && SameUpTo(order, a, b, l)
    && var x, y := SortValue(a, order[l].field), SortValue(b, order[l].field);
       if order[l].desc then Order.Lower(y, x) else Order.Lower(x, y)
  }

  /** Document a comes ahead of b by the first level that differs, or by its place in the scan. */
  ghost predicate Ahead(order: seq<Sorting.SortKey>, a: Doc, b: Doc, earlier: bool) {
    (exists l: nat | l < |order| :: AheadAt(order, a, b, l)) || (SameUpTo(order, a, b, |order|) && earlier)
  }

  lemma InOrderIsAhead(order: seq<Sorting.SortKey>, a: Doc, b: Doc, x: Sorting.Entry, y: Sorting.Entry)
    requires x.keys == KeysOf(order, a) && y.keys == KeysOf(order, b) && Sorting.InOrder(order, x, y)
    ensures Ahead(order, a, b, x.rank < y.rank)
  {
    hide Order.Lower, SortValue, Found, SplitPath;
    KeysAre(order, a);
    KeysAre(order, b);
    hide KeysOf;
    if l: nat :| Sorting.AheadAt(order, x, y, l) {
      assert AheadAt(order, a, b, l);
    }
  }

  lemma KeysAre(order: seq<Sorting.SortKey>, doc: Doc)
    ensures |KeysOf(order, doc)| == |order|
    ensures forall l | 0 <= l < |order| :: KeysOf(order, doc)[l] == SortValue(doc, order[l].field)
  {
    hide SplitPath, Found;
  }

  /** The places of the matches among the documents: all that decode and pass, in scan order. */
  ghost predicate Places(env: Env, filter: Value, docs: seq<Bytes>, found: seq<Doc>, p: seq<nat>) {
    && |p| == |found|
    && (forall j | 0 <= j < |p| ::
          p[j] < |docs| && Hits(env, filter, docs[p[j]]) && found[j] == env.decode(docs[p[j]]).value)
    && (forall i, j | 0 <= i < j < |p| :: p[i] < p[j])
    && (forall i | 0 <= i < |docs| && Hits(env, filter, docs[i]) :: exists j | 0 <= j < |p| :: p[j] == i)
  }

  lemma {:induction false} MatchesAre(env: Env, filter: Value, docs: seq<Bytes>) returns (p: seq<nat>)
    ensures Places(env, filter, docs, Matches(env, filter, docs), p)
  {
    hide Hits, Places;
    if docs == [] {
      p := [];
      NoPlaces(env, filter);
    } else {
      var n := |docs| - 1;
      p := MatchesAre(env, filter, docs[..n]);
      PlacesStep(env, filter, docs, Matches(env, filter, docs[..n]), p);
      p := if Hits(env, filter, docs[n]) then p + [n] else p;
    }
  }

  lemma NoPlaces(env: Env, filter: Value)
    ensures Places(env, filter, [], [], [])
  {
  }

  lemma PlacesStep(env: Env, filter: Value, docs: seq<Bytes>, found: seq<Doc>, p: seq<nat>)
    requires docs != [] && Places(env, filter, docs[..|docs| - 1], found, p)
    ensures var n := |docs| - 1;
            if Hits(env, filter, docs[n]) then Places(env, filter, docs, found + [env.decode(docs[n]).value], p + [n])
            else Places(env, filter, docs, found + [], p)
  {
    var n := |docs| - 1;
    var hit := Hits(env, filter, docs[n]);
    var q := if hit then p + [n] else p;
    hide Means;
    forall i | 0 <= i < |docs| && Hits(env, filter, docs[i])
      ensures exists j | 0 <= j < |q| :: q[j] == i
    {
      if i < n {
        assert docs[..n][i] == docs[i];
        var j :| 0 <= j < |p| && p[j] == i;
        assert q[j] == i;
      } else {
        assert q[|p|] == n;
      }
    }
    assert found + [] == found;
  }

  /** Sorting puts the matches in order: each once, by its keys, ties in the order they were found. */
  lemma SortedPlaces(q: Query, found: seq<Doc>) returns (r: seq<nat>)
    requires q.projection.Obj?
    ensures |r| == |found| && (forall i | 0 <= i < |r| :: r[i] < |found|)
    ensures forall k | 0 <= k < |found| :: k in r
    ensures forall i, j | 0 <= i < j < |r| :: r[i] != r[j] && Ahead(q.order, found[r[i]], found[r[j]], r[i] < r[j])
    ensures var rows := DocsOfEntries(Sorting.Sort(q.order, EntriesOf(q, found)));
            |rows| == |r| && forall i | 0 <= i < |r| :: rows[i] == Obj(Projected(q.projection, found[r[i]]))
  {
    hide *;
    var entries := EntriesOf(q, found);
    EntriesAreStream(q, found);
    Sorting.SortArranges(q.order, entries);
    Sorting.SortCounts(q.order, entries);
    var s := Sorting.Sort(q.order, entries);
    Sorting.SameMembers(s, entries);
    Sorting.RanksOnce(q.order, entries, s);
    RanksAre(q, found, s);
    r := PlacesInOrder(q, found, s);
  }

  /** Entries are numbered by their places among the matches. */
  ghost predicate Numbered(q: Query, found: seq<Doc>, s: seq<Sorting.Entry>)
    requires q.projection.Obj?
  {
    forall i | 0 <= i < |s| ::
      && 1 <= s[i].rank <= |found|
      && s[i] == Sorting.Entry(Obj(Projected(q.projection, found[s[i].rank - 1])),
                               KeysOf(q.order, found[s[i].rank - 1]), s[i].rank)
  }

  lemma PlacesInOrder(q: Query, found: seq<Doc>, s: seq<Sorting.Entry>) returns (r: seq<nat>)
    requires q.projection.Obj? && Numbered(q, found, s) && |s| == |found|
    requires Sorting.Arranged(q.order, s) && Sorting.Stream(q.order, s)
    requires forall e: Sorting.Entry :: e in s <==> e in EntriesOf(q, found)
    ensures |r| == |found| && (forall i | 0 <= i < |r| :: r[i] < |found|)
    ensures forall k | 0 <= k < |found| :: k in r
    ensures forall i, j | 0 <= i < j < |r| :: r[i] != r[j] && Ahead(q.order, found[r[i]], found[r[j]], r[i] < r[j])
    ensures var rows := DocsOfEntries(s);
            |rows| == |r| && forall i | 0 <= i < |r| :: rows[i] == Obj(Projected(q.projection, found[r[i]]))
  {
    hide Projected, KeysOf, Sorting.InOrder, Sorting.Stream, Ahead, EntriesOf, DocsOfEntries;
    r := seq(|s|, i requires 0 <= i < |s| => s[i].rank - 1);
    forall i, j | 0 <= i < j < |r|
      ensures r[i] != r[j] && Ahead(q.order, found[r[i]], found[r[j]], r[i] < r[j])
    {
      RanksDiffer(q.order, s, i, j);
      InOrderIsAhead(q.order, found[r[i]], found[r[j]], s[i], s[j]);
    }
    EveryPlace(q, found, s, r);
  }

  lemma EveryPlace(q: Query, found: seq<Doc>, s: seq<Sorting.Entry>, r: seq<nat>)
    requires q.projection.Obj? && |s| == |r| && forall i | 0 <= i < |r| :: r[i] == s[i].rank - 1
    requires forall e: Sorting.Entry :: e in s <==> e in EntriesOf(q, found)
    ensures forall k | 0 <= k < |found| :: k in r
  {
    hide Projected, KeysOf, EntriesOf;
    var entries := EntriesOf(q, found);
    forall k | 0 <= k < |found|
      ensures k in r
    {
      assert entries[k] in entries;
      var i :| 0 <= i < |s| && s[i] == entries[k];
      assert r[i] == k;
    }
  }

  lemma RanksDiffer(order: seq<Sorting.SortKey>, s: seq<Sorting.Entry>, i: nat, j: nat)
    requires Sorting.Stream(order, s) && i < j < |s|
    ensures s[i].rank != s[j].rank
  {
  }

  /** An entry's number is its place among the matches. */
  lemma RanksAre(q: Query, found: seq<Doc>, s: seq<Sorting.Entry>)
    requires q.projection.Obj? && forall x: Sorting.Entry :: x in s <==> x in EntriesOf(q, found)
    ensures Numbered(q, found, s)
  {
    hide Projected, KeysOf;
    var entries := EntriesOf(q, found);
    forall i | 0 <= i < |s|
      ensures 1 <= s[i].rank <= |found| && s[i] == entries[s[i].rank - 1]
    {
      assert s[i] in entries;
      var k :| 0 <= k < |entries| && entries[k] == s[i];
    }
  }

  /** All results of a query, by their places among the documents. */
  ghost predicate Rows(env: Env, q: Query, docs: seq<Bytes>, rows: seq<nat>) {
    && (forall i | 0 <= i < |rows| :: rows[i] < |docs| && env.decode(docs[rows[i]]).Some?)
    && (forall n: nat :: n in rows <==>
          n < |docs| && env.decode(docs[n]).Some? && Passes(env.re, q.filter, env.decode(docs[n]).value))
    && (forall i, j | 0 <= i < j < |rows| ::
          && rows[i] != rows[j]
          && Ahead(q.order, env.decode(docs[rows[i]]).value, env.decode(docs[rows[j]]).value, rows[i] < rows[j]))
  }

  /**
   What a query answers, end to end. The rows are the places of exactly the documents the filter
   passes, each once, ordered by the sort keys and then by scan order; the answer is what the
   projection makes of the rows from skip on, limit of them or as many as there are.
   */
  lemma AnswerRows(env: Env, q: Query, docs: seq<Bytes>) returns (rows: seq<nat>)
    requires q.filter.Obj? && q.projection.Obj? && CompileFilter(env.re, q.filter).Some?
    requires q.skip >= 0 && q.limit >= 0
    ensures Rows(env, q, docs, rows)
    ensures var r := Answer(env, q, docs);
            && |r| == (if |rows| <= q.skip then 0
                       else if q.limit == 0 then |rows| - q.skip else Min(q.limit, |rows| - q.skip))
            && forall i | 0 <= i < |r| ::
                 r[i] == Obj(Projected(q.projection, env.decode(docs[rows[q.skip + i]]).value))
  {
    hide Projected, Ahead, Sorting.Sort, CompileFilter, Means, Slice, Matches, EntriesOf, DocsOfEntries, Places,
      Passing, Everything, Hits, Passes;
    var found := Matches(env, q.filter, docs);
    var p := MatchesAre(env, q.filter, docs);
    var r := SortedPlaces(q, found);
    HitsPass(env, q.filter, docs);
    EverythingIsSorted(env, q, docs);
    SliceIs(Everything(env, q, docs), q.skip, q.limit);
    PlacesBound(env, q.filter, docs, found, p);
    rows := seq(|r|, i requires 0 <= i < |r| => p[r[i]]);
    RowsAre(env, q, docs, found, p, r, rows);
  }

  ghost predicate Passing(env: Env, filter: Value, docs: seq<Bytes>) {
    forall n | 0 <= n < |docs| ::
      Hits(env, filter, docs[n]) <==>
      env.decode(docs[n]).Some? && Passes(env.re, filter, env.decode(docs[n]).value)
  }

  lemma PlaceOf(env: Env, filter: Value, docs: seq<Bytes>, found: seq<Doc>, p: seq<nat>, n: nat) returns (k: nat)
    requires Places(env, filter, docs, found, p) && n < |docs| && Hits(env, filter, docs[n])
    ensures k < |p| && p[k] == n
  {
    hide Hits;
    k :| 0 <= k < |p| && p[k] == n;
  }

  lemma PlacesBound(env: Env, filter: Value, docs: seq<Bytes>, found: seq<Doc>, p: seq<nat>)
    requires Places(env, filter, docs, found, p)
    ensures |p| == |found|
    ensures forall j | 0 <= j < |p| ::
              p[j] < |docs| && env.decode(docs[p[j]]).Some? && found[j] == env.decode(docs[p[j]]).value
  {
  }

  lemma HitsPass(env: Env, filter: Value, docs: seq<Bytes>)
    requires filter.Obj? && CompileFilter(env.re, filter).Some?
    ensures Passing(env, filter, docs)
  {
    hide CompileFilter, Means, Decides;
    forall n | 0 <= n < |docs| && env.decode(docs[n]).Some?
      ensures Passes(env.re, filter, env.decode(docs[n]).value) <==> Means(env.re, filter, env.decode(docs[n]).value)
    {
      CompiledFilterDecides(env.re, filter, env.decode(docs[n]).value);
    }
  }

  /** With sort keys or without. */
  lemma EverythingIsSorted(env: Env, q: Query, docs: seq<Bytes>)
    requires q.projection.Obj?
    ensures Everything(env, q, docs) ==
            DocsOfEntries(Sorting.Sort(q.order, EntriesOf(q, Matches(env, q.filter, docs))))
  {
    hide Projected, Sorting.Sort, Matches;
    if q.order == [] {
      UnsortedIsSortedByNothing(q, Matches(env, q.filter, docs));
    }
  }

  lemma RowsAre(env: Env, q: Query, docs: seq<Bytes>, found: seq<Doc>, p: seq<nat>,
                r: seq<nat>, rows: seq<nat>)
    requires |r| == |p| == |rows| && (forall i | 0 <= i < |r| :: r[i] < |p| && rows[i] == p[r[i]])
    requires forall k | 0 <= k < |p| :: k in r
    requires Places(env, q.filter, docs, found, p) && Passing(env, q.filter, docs)
    requires forall i, j | 0 <= i < j < |r| :: r[i] != r[j] && Ahead(q.order, found[r[i]], found[r[j]], r[i] < r[j])
    ensures Rows(env, q, docs, rows)
  {
    hide Ahead, Passes, Means;
    forall n: nat
      ensures n in rows <==> n < |docs| && Hits(env, q.filter, docs[n])
    {
      if n < |docs| && Hits(env, q.filter, docs[n]) {
        var k := PlaceOf(env, q.filter, docs, found, p, n);
        assert k in r;
        var i :| 0 <= i < |r| && r[i] == k;
        assert rows[i] == n;
      }
      if n in rows {
        var i :| 0 <= i < |rows| && rows[i] == n;
        assert p[r[i]] == n;
      }
    }
    forall i, j | 0 <= i < j < |rows|
      ensures rows[i] != rows[j] && (r[i] < r[j] <==> rows[i] < rows[j])
    {
      if r[i] < r[j] {
        assert p[r[i]] < p[r[j]];
      } else {
        assert p[r[j]] < p[r[i]];
      }
    }
  }

  // ----- paging -----

  lemma {:induction false} MatchesSize(env: Env, filter: Value, docs: seq<Bytes>, n: nat)
    requires n <= |docs|
    ensures |Matches(env, filter, docs[..n])| <= |Matches(env, filter, docs)|
  {
    MatchesPrefix(env, filter, docs, n);
  }

  /** With room left on the page to the end, only a payload that does not decode stops the scan. */
  lemma {:induction false} OnlyErrorsStop(env: Env, q: Query, docs: seq<Bytes>, i: nat)
    requires i <= |docs| && (q.limit > 0 ==> |Matches(env, q.filter, docs)| < q.skip + q.limit)
    requires AllDecode(env, docs[..Scan.Stop(docs, Goer(env, q), i)])
    ensures Scan.Stop(docs, Goer(env, q), i) == |docs|
    decreases |docs| - i
  {
    hide Matches;
    if i < |docs| {
      var n := Scan.Stop(docs, Goer(env, q), i);
      assert docs[..n][i] == docs[i] && docs[i] in docs[..n];
      assert docs[..i + 1][i] == docs[i];
      MatchesSize(env, q.filter, docs, i + 1);
      assert GoesOn(env, q, docs[..i + 1]);
      OnlyErrorsStop(env, q, docs, i + 1);
    }
  }

  /** A page that is not full means the query read everything; reading everything is enough for any page. */
  lemma ShortPageReadsAll(env: Env, q: Query, docs: seq<Bytes>)
    requires q.projection.Obj? && q.skip >= 0 && q.limit > 0
    ensures AllDecode(env, docs) ==> ReadsWell(env, q, docs)
    ensures ReadsWell(env, q, docs) && |Answer(env, q, docs)| < q.limit ==> AllDecode(env, docs)
  {
    hide Matches, EntriesOf, Projected;
    var n := Scan.Stop(docs, Goer(env, q), 0);
    assert forall b | b in docs[..n] :: b in docs;
    if ReadsWell(env, q, docs) && |Answer(env, q, docs)| < q.limit && q.order == [] {
      OnlyErrorsStop(env, q, docs, 0);
      assert docs[..|docs|] == docs;
    }
  }

  lemma EverythingIgnoresPage(env: Env, q: Query, docs: seq<Bytes>, skip: int, limit: int)
    requires q.projection.Obj?
    ensures Everything(env, q.(skip := skip, limit := limit), docs) == Everything(env, q, docs)
  {
    hide Matches, Projected, KeysOf, Sorting.Sort;
    var found := Matches(env, q.filter, docs);
    assert EntriesOf(q.(skip := skip, limit := limit), found) == EntriesOf(q, found);
  }

  lemma PagesJoin<T>(all: seq<T>, skip: nat, offset: nat, batch: nat)
    requires skip <= offset && batch > 0
    ensures var page := Slice(all, offset, batch);
            && |page| <= batch
            && (|page| < batch ==> all[Min(skip, |all|)..Min(offset, |all|)] + page == all[Min(skip, |all|)..])
            && (|page| == batch ==>
                  && offset + batch <= |all|
                  && all[Min(skip, |all|)..Min(offset, |all|)] + page == all[Min(skip, |all|)..offset + batch])
  {
  }

  /**
   iter_find, with no writer in between: the pages, fetched one query at a time, join up to every
   result after the skipped ones, each once and in order, and the loop ends. It raises exactly when
   the batch is not positive, a page's query is refused, or a payload of the collection does not decode.
   */
  method IterFind(env: Env, q: Query, batch: int, docs: seq<Bytes>) returns (r: Option<seq<Value>>)
    requires Lawful(env) && q.filter.Obj? && q.projection.Obj?
    ensures r.Some? <==> batch > 0 && Accepted(env, q.(limit := batch)) && AllDecode(env, docs)
    ensures r.Some? ==> r.value == Slice(Everything(env, q, docs), q.skip, 0)
  {
    hide AllDecode, Matches, Everything, ReadsWell, WellFormed, Compiles, Lawful;
    if batch <= 0 {
      return None;
    }
    ghost var all := Everything(env, q, docs);
    var offset, out := q.skip, [];
    while true
      invariant offset == q.skip || 0 <= q.skip <= offset <= |all|
      invariant offset >= 0 ==> q.skip >= 0 && out == all[Min(q.skip, |all|)..Min(offset, |all|)]
      invariant offset > q.skip ==> Accepted(env, q.(limit := batch))
      decreases |all| - offset
    {
      var part := q.(skip := offset, limit := batch);
      var page := RunQuery(env, part, docs);
      if offset >= 0 {
        EverythingIgnoresPage(env, q, docs, offset, batch);
        ShortPageReadsAll(env, part, docs);
        PagesJoin(all, q.skip, offset, batch);
      }
      if page.None? {
        return None;
      }
      out := out + page.value;
      if |page.value| < batch {
        return Some(out);
      }
      offset := offset + |page.value|;
    }
  }
}
