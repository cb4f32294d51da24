/**
 Filters (internal/engine/compile.go, match.go): the meaning of a filter document, stated on the
 document itself; path lookup with implicit array traversal; the compiler to a matcher tree; the
 walk of that tree; and the proof that the two together decide the meaning. Regular expressions
 are two unknown predicates: which patterns compile, and which strings they match.
 */
module Filters {
  import opened Wrappers
  import opened Values

  type Doc = map<string, Value>

  datatype Regexps = Regexps(valid: string -> bool, hits: (string, string) -> bool)

  datatype Op = Eq | Ne | Gt | Gte | Lt | Lte

  datatype Matcher =
    | MatchAll
    | And(children: seq<Matcher>)
    | Or(children: seq<Matcher>)
    | Not(child: Matcher)
    | Cmp(path: seq<string>, op: Op, value: Value)
    | In(path: seq<string>, values: seq<Value>, negate: bool)
    | Exists(path: seq<string>, want: bool)
    | Regex(path: seq<string>, pattern: string)

  // ----- paths -----

  /** SplitPath: strings.Split on the dot. */
  function SplitPath(field: string): (r: seq<string>)
    ensures r != [] && forall x <- r :: '.' !in x
    ensures Joined(r) == field
  {
    if field == "" then [""]
    else
      var rest := SplitPath(field[1..]);
      if field[0] == '.' then [""] + rest
      else
        var r := [[field[0]] + rest[0]] + rest[1..];
        JoinedHead(field[0], rest);
        r
  }

  /** The segments with dots between them. */
  ghost function Joined(path: seq<string>): string
    requires path != []
  {
    if |path| == 1 then path[0] else path[0] + "." + Joined(path[1..])
  }

  lemma JoinedHead(c: char, path: seq<string>)
    requires path != []
    ensures Joined([[c] + path[0]] + path[1..]) == [c] + Joined(path)
  {
    var r := [[c] + path[0]] + path[1..];
    assert r[1..] == path[1..];
    if |path| > 1 {
      assert Joined(r) == ([c] + path[0]) + "." + Joined(path[1..]);
    }
  }

  function Digits(s: string, n: nat): Option<nat> {
    if s == "" then Some(n)
    else if '0' <= s[0] <= '9' then Digits(s[1..], 10 * n + (s[0] as int - '0' as int))
    else None
  }

  /** strconv.Atoi on 64-bit integers: an optional sign and at least one digit, in range. */
  function Atoi(s: string): Option<int> {
    var signed := s != "" && (s[0] == '-' || s[0] == '+');
    var body := if signed then s[1..] else s;
    if body == "" then None
    else
      match Digits(body, 0)
      case None => None
      case Some(m) =>
        var n: int := m;
        if s[0] == '-' then (if n <= 0x8000_0000_0000_0000 then Some(-n) else None)
        else if n < 0x8000_0000_0000_0000 then Some(n)
        else None
  }

  /** The element a segment names by number. */
  function IndexOf(items: seq<Value>, key: string): Option<nat>
    ensures IndexOf(items, key).Some? ==> IndexOf(items, key).value < |items|
  {
    match Atoi(key)
    case Some(i) => if 0 <= i < |items| then Some(i as nat) else None
    case None => None
  }

  /** Value w lies at the path: a segment is a key, a position, or a key of any element. */
  ghost predicate Reaches(v: Value, path: seq<string>, w: Value)
    decreases |path|
  {
    if path == [] then w == v
    else if v.Obj? then path[0] in v.fields && Reaches(v.fields[path[0]], path[1..], w)
    else if v.Arr? then
      || (IndexOf(v.items, path[0]).Some? && Reaches(v.items[IndexOf(v.items, path[0]).value], path[1..], w))
      || exists i | 0 <= i < |v.items| ::
           Steps(v.items[i], path[0]) && Reaches(v.items[i].fields[path[0]], path[1..], w)
    else false
  }

  predicate Steps(v: Value, key: string) {
    v.Obj? && key in v.fields
  }

  /** A lookup finds what lies at the path, or the sentinel when nothing does. */
  ghost predicate Finds(doc: Doc, path: seq<string>, w: Value) {
    Reaches(Obj(doc), path, w) || (w == Absent && Nowhere(doc, path))
  }

  ghost predicate Nowhere(doc: Doc, path: seq<string>) {
    forall w: Value :: !Reaches(Obj(doc), path, w)
  }

  /** A found array stands for itself and for each of its elements. */
  ghost predicate Yields(v: Value, c: Value) {
    c == v || (v.Arr? && c in v.items)
  }

  ghost predicate Candidate(doc: Doc, path: seq<string>, c: Value) {
    exists v: Value :: Finds(doc, path, v) && Yields(v, c)
  }

  /** No sentinel anywhere a lookup could return it: what decoding JSON gives. */
  ghost predicate Decoded(doc: Doc) {
    forall path: seq<string> :: !Reaches(Obj(doc), path, Absent)
  }

  // ----- the meaning of a filter -----

  predicate IsOperator(key: string) {
    key != "" && key[0] == '$'
  }

  predicate AllOperators(v: Value)
    requires v.Obj?
  {
    |v.fields| > 0 && forall k <- v.fields :: IsOperator(k)
  }

  predicate AnyOperator(v: Value)
    requires v.Obj?
  {
    exists k <- v.fields :: IsOperator(k)
  }

  /** What an ordering or equality asks of one candidate. Orderings hold within a type only. */
  predicate Satisfies(op: Op, c: Value, value: Value) {
    match op
    case Eq => c == value
    case Ne => c != value
    case Gt => TypeRank(c) == TypeRank(value) && Compare(c, value) > 0
    case Gte => TypeRank(c) == TypeRank(value) && Compare(c, value) >= 0
    case Lt => TypeRank(c) == TypeRank(value) && Compare(c, value) < 0
    case Lte => TypeRank(c) == TypeRank(value) && Compare(c, value) <= 0
  }

  ghost predicate SomeCandidate(doc: Doc, path: seq<string>, op: Op, value: Value) {
    exists c: Value :: Candidate(doc, path, c) && Satisfies(op, c, value)
  }

  ghost predicate SomeAmong(doc: Doc, path: seq<string>, values: seq<Value>) {
    exists c: Value :: Candidate(doc, path, c) && c in values
  }

  ghost predicate SomeMatch(re: Regexps, doc: Doc, path: seq<string>, pattern: string) {
    exists c: Value :: Candidate(doc, path, c) && c.Str? && re.hits(pattern, c.s)
  }

  /** One operator applied to one field. */
  ghost predicate OpMeans(re: Regexps, field: string, op: string, arg: Value, doc: Doc)
    decreases arg, 2
  {
    var path := SplitPath(field);
    match op
    case "$eq" => SomeCandidate(doc, path, Eq, arg)
    case "$ne" => !SomeCandidate(doc, path, Eq, arg)
    case "$gt" => SomeCandidate(doc, path, Gt, arg)
    case "$gte" => SomeCandidate(doc, path, Gte, arg)
    case "$lt" => SomeCandidate(doc, path, Lt, arg)
    case "$lte" => SomeCandidate(doc, path, Lte, arg)
    case "$in" => arg.Arr? && SomeAmong(doc, path, arg.items)
    case "$nin" => arg.Arr? && !SomeAmong(doc, path, arg.items)
    case "$exists" => arg.Bool? && (Nowhere(doc, path) <==> !arg.b)
    case "$regex" => arg.Str? && SomeMatch(re, doc, path, arg.s)
    case "$not" => arg.Obj? && !FieldMeans(re, field, arg, doc)
    case _ => false
  }

  /** A field against a constraint: every operator of an operator document, or equality with a literal. */
  ghost predicate FieldMeans(re: Regexps, field: string, v: Value, doc: Doc)
    decreases v, 1
  {
    if v.Obj? && AllOperators(v) then forall op | op in v.fields :: OpMeans(re, field, op, v.fields[op], doc)
    else SomeCandidate(doc, SplitPath(field), Eq, v)
  }

  /** One entry of a filter document. */
  ghost predicate ClauseMeans(re: Regexps, key: string, v: Value, doc: Doc)
    decreases v, 2
  {
    match key
    case "$and" => v.Arr? && forall i | 0 <= i < |v.items| :: Means(re, v.items[i], doc)
    case "$or" => v.Arr? && exists i | 0 <= i < |v.items| :: Means(re, v.items[i], doc)
    case "$not" => v.Obj? && !Means(re, v, doc)
    case _ => FieldMeans(re, key, v, doc)
  }

  /** A document passes a filter when it passes every entry. */
  ghost predicate Means(re: Regexps, f: Value, doc: Doc)
    decreases f, 1
  {
    f.Obj? && forall key | key in f.fields :: ClauseMeans(re, key, f.fields[key], doc)
  }

  // ----- which filters compile -----

  predicate OpWellFormed(re: Regexps, field: string, op: string, arg: Value)
    decreases arg, 2
  {
    match op
    case "$eq" => true
    case "$ne" => true
    case "$gt" => true
    case "$gte" => true
    case "$lt" => true
    case "$lte" => true
    case "$in" => arg.Arr?
    case "$nin" => arg.Arr?
    case "$exists" => arg.Bool?
    case "$regex" => arg.Str? && re.valid(arg.s)
    case "$not" => arg.Obj? && AllOperators(arg) && FieldWellFormed(re, field, arg)
    case _ => false
  }

  predicate FieldWellFormed(re: Regexps, field: string, v: Value)
    decreases v, 1
  {
    && field != ""
    && (v.Obj? && AnyOperator(v) ==>
          AllOperators(v) && forall op <- v.fields :: OpWellFormed(re, field, op, v.fields[op]))
  }

  predicate ClauseWellFormed(re: Regexps, key: string, v: Value)
    decreases v, 2
  {
    if key == "$and" || key == "$or" then
      v.Arr? && |v.items| > 0 && forall i | 0 <= i < |v.items| :: WellFormed(re, v.items[i])
    else if key == "$not" then WellFormed(re, v)
    else !IsOperator(key) && FieldWellFormed(re, key, v)
  }

  predicate WellFormed(re: Regexps, f: Value)
    decreases f, 1
  {
    f.Obj? && forall key <- f.fields :: ClauseWellFormed(re, key, f.fields[key])
  }

  // ----- the compiler -----

  /** The i-th key of an object in sorted order. */
  function KeyAt(v: Value, i: nat): string
    requires v.Obj? && i < |v.fields|
  {
    SortedKeys(v.fields)[i]
  }

  /** The value under it. */
  function ValueAt(v: Value, i: nat): (r: Value)
    requires v.Obj? && i < |v.fields|
    ensures r < v
  {
    KeyIn(v.fields, i);
    v.fields[SortedKeys(v.fields)[i]]
  }

  function CompileFilter(re: Regexps, f: Value): Option<Matcher>
    requires f.Obj?
  {
    if |f.fields| == 0 then Some(MatchAll) else CompileDocument(re, f)
  }

  /** Several nodes are a conjunction; one stands alone. */
  function Conjoin(nodes: Option<seq<Matcher>>): Option<Matcher> {
    match nodes
    case None => None
    case Some(ms) => if |ms| == 1 then Some(ms[0]) else Some(And(ms))
  }

  /** Adds a node in front; an error anywhere is an error of the whole. */
  function Prefixed(node: Option<Matcher>, rest: Option<seq<Matcher>>): Option<seq<Matcher>> {
    if node.Some? && rest.Some? then Some([node.value] + rest.value) else None
  }

  function CompileDocument(re: Regexps, f: Value): Option<Matcher>
    requires f.Obj?
    decreases f, 1, 0
  {
    Conjoin(CompileKeys(re, f, 0))
  }

  /** The entries of a filter document from the i-th key in sorted order. */
  function CompileKeys(re: Regexps, f: Value, i: nat): Option<seq<Matcher>>
    requires f.Obj? && i <= |f.fields|
    decreases f, 0, |f.fields| - i
  {
    if i == |f.fields| then Some([])
    else
      var key, v := KeyAt(f, i), ValueAt(f, i);
      var node := if IsOperator(key) then CompileLogical(re, key, v) else CompileField(re, key, v);
      if node.None? then None else Prefixed(node, CompileKeys(re, f, i + 1))
  }

  function CompileLogical(re: Regexps, op: string, v: Value): Option<Matcher>
    decreases v, 2, 0
  {
    if op == "$and" || op == "$or" then
      if !v.Arr? || |v.items| == 0 then None
      else
        match CompileBranches(re, v, 0)
        case None => None
        case Some(ms) => if op == "$and" then Some(And(ms)) else Some(Or(ms))
    else if op == "$not" then
      if !v.Obj? then None
      else
        match CompileDocument(re, v)
        case None => None
        case Some(m) => Some(Not(m))
    else None
  }

  /** The branches of $and or $or from the i-th. */
  function CompileBranches(re: Regexps, v: Value, i: nat): Option<seq<Matcher>>
    requires v.Arr? && i <= |v.items|
    decreases v, 0, |v.items| - i
  {
    if i == |v.items| then Some([])
    else if !v.items[i].Obj? then None
    else
      var node := CompileDocument(re, v.items[i]);
      if node.None? then None else Prefixed(node, CompileBranches(re, v, i + 1))
  }

  function CompileField(re: Regexps, field: string, v: Value): Option<Matcher>
    decreases v, 1, 0
  {
    if field == "" then None
    else if !v.Obj? || !AllOperators(v) then
      if v.Obj? && AnyOperator(v) then None else Some(Cmp(SplitPath(field), Eq, v))
    else Conjoin(CompileOperators(re, field, v, 0))
  }

  /** The operators of an operator document from the i-th in sorted order. */
  function CompileOperators(re: Regexps, field: string, v: Value, i: nat): Option<seq<Matcher>>
    requires v.Obj? && i <= |v.fields|
    decreases v, 0, |v.fields| - i
  {
    if i == |v.fields| then Some([])
    else
      var node := CompileOperator(re, field, KeyAt(v, i), ValueAt(v, i));
      if node.None? then None else Prefixed(node, CompileOperators(re, field, v, i + 1))
  }

  function CompileOperator(re: Regexps, field: string, op: string, arg: Value): Option<Matcher>
    decreases arg, 2, 0
  {
    var path := SplitPath(field);
    match op
    case "$eq" => Some(Cmp(path, Eq, arg))
    case "$ne" => Some(Cmp(path, Ne, arg))
    case "$gt" => Some(Cmp(path, Gt, arg))
    case "$gte" => Some(Cmp(path, Gte, arg))
    case "$lt" => Some(Cmp(path, Lt, arg))
    case "$lte" => Some(Cmp(path, Lte, arg))
    case "$in" => if arg.Arr? then Some(In(path, arg.items, false)) else None
    case "$nin" => if arg.Arr? then Some(In(path, arg.items, true)) else None
    case "$exists" => if arg.Bool? then Some(Exists(path, arg.b)) else None
    case "$regex" => if arg.Str? && re.valid(arg.s) then Some(Regex(path, arg.s)) else None
    case "$not" =>
      if !arg.Obj? || !AllOperators(arg) then None
      else
        (match CompileField(re, field, arg)
         case None => None
         case Some(m) => Some(Not(m)))
    case _ => None
  }

  // ----- what a matcher decides -----

  ghost predicate Decides(re: Regexps, m: Matcher, doc: Doc) {
    match m
    case MatchAll => true
    case And(children) => forall i | 0 <= i < |children| :: Decides(re, children[i], doc)
    case Or(children) => exists i | 0 <= i < |children| :: Decides(re, children[i], doc)
    case Not(child) => !Decides(re, child, doc)
    case Cmp(path, op, value) =>
      if op == Ne then !SomeCandidate(doc, path, Eq, value) else SomeCandidate(doc, path, op, value)
    case In(path, values, negate) => SomeAmong(doc, path, values) != negate
    case Exists(path, want) => Nowhere(doc, path) != want
    case Regex(path, pattern) => SomeMatch(re, doc, path, pattern)
  }

  // ----- compiling then matching decides the meaning -----

  lemma ConjoinDecides(re: Regexps, nodes: Option<seq<Matcher>>, doc: Doc)
    ensures Conjoin(nodes).Some? <==> nodes.Some?
    ensures nodes.Some? ==>
              (Decides(re, Conjoin(nodes).value, doc) <==>
               forall i | 0 <= i < |nodes.value| :: Decides(re, nodes.value[i], doc))
  {
    if nodes.Some? && |nodes.value| != 1 {
      assert Conjoin(nodes).value == And(nodes.value);
    }
  }

  lemma {:induction false} DocumentCompiles(re: Regexps, f: Value, doc: Doc)
    requires f.Obj?
    ensures CompileDocument(re, f).Some? <==> WellFormed(re, f)
    ensures CompileDocument(re, f).Some? ==> (Decides(re, CompileDocument(re, f).value, doc) <==> Means(re, f, doc))
    decreases f, 1, 0
  {
    KeysCompile(re, f, 0, doc);
    KeyNodesConjoin(re, f, CompileKeys(re, f, 0), doc);
  }

  /** Walking the sorted keys reaches every entry and nothing else. */
  lemma EveryKey(v: Value)
    requires v.Obj?
    ensures forall i | 0 <= i < |v.fields| :: KeyAt(v, i) in v.fields && v.fields[KeyAt(v, i)] == ValueAt(v, i)
    ensures forall k <- v.fields :: exists i :: 0 <= i < |v.fields| && KeyAt(v, i) == k
  {
    var keys := SortedKeys(v.fields);
    OrderedKeys(v.fields.Keys);
    assert |keys| == |v.fields|;
    forall i | 0 <= i < |v.fields|
      ensures KeyAt(v, i) in v.fields && v.fields[KeyAt(v, i)] == ValueAt(v, i)
    {
      KeyIn(v.fields, i);
    }
    forall k <- v.fields
      ensures exists i :: 0 <= i < |v.fields| && KeyAt(v, i) == k
    {
      assert k in keys;
      var i :| 0 <= i < |keys| && keys[i] == k;
      assert KeyAt(v, i) == k;
    }
  }

  /** The nodes stand for the entries of the filter document from the i-th key on. */
  ghost predicate KeyNodes(re: Regexps, f: Value, nodes: Option<seq<Matcher>>, i: nat, doc: Doc) {
    && f.Obj? && i <= |f.fields|
    && (nodes.Some? <==> forall j | i <= j < |f.fields| :: ClauseWellFormed(re, KeyAt(f, j), ValueAt(f, j)))
    && (nodes.Some? ==>
          && |nodes.value| == |f.fields| - i
          && forall j | i <= j < |f.fields| ::
               Decides(re, nodes.value[j - i], doc) <==> ClauseMeans(re, KeyAt(f, j), ValueAt(f, j), doc))
  }

  lemma KeyNodesConjoin(re: Regexps, f: Value, nodes: Option<seq<Matcher>>, doc: Doc)
    requires KeyNodes(re, f, nodes, 0, doc)
    ensures Conjoin(nodes).Some? <==> WellFormed(re, f)
    ensures nodes.Some? ==> (Decides(re, Conjoin(nodes).value, doc) <==> Means(re, f, doc))
  {
    hide KeyAt, ValueAt, Conjoin;
    KeysWellFormed(re, f);
    KeysMean(re, f, doc);
    ConjoinDecides(re, nodes, doc);
    if nodes.Some? {
      assert forall j | 0 <= j < |f.fields| ::
          Decides(re, nodes.value[j], doc) <==> ClauseMeans(re, KeyAt(f, j), ValueAt(f, j), doc);
    }
  }

  /** A filter document is well formed when each of its keys, taken in order, is. */
  lemma KeysWellFormed(re: Regexps, f: Value)
    requires f.Obj?
    ensures WellFormed(re, f) <==> forall j | 0 <= j < |f.fields| :: ClauseWellFormed(re, KeyAt(f, j), ValueAt(f, j))
  {
    hide KeyAt, ValueAt;
    EveryKey(f);
  }

  /** A document passes a filter when it passes each of its keys, taken in order. */
  lemma KeysMean(re: Regexps, f: Value, doc: Doc)
    requires f.Obj?
    ensures Means(re, f, doc) <==> forall j | 0 <= j < |f.fields| :: ClauseMeans(re, KeyAt(f, j), ValueAt(f, j), doc)
  {
    hide KeyAt, ValueAt;
    EveryKey(f);
  }

  /** The nodes stand for the operators of an operator document from the i-th on. */
  ghost predicate OpNodes(re: Regexps, field: string, v: Value, nodes: Option<seq<Matcher>>, i: nat, doc: Doc) {
    && v.Obj? && i <= |v.fields|
    && (nodes.Some? <==> forall j | i <= j < |v.fields| :: OpWellFormed(re, field, KeyAt(v, j), ValueAt(v, j)))
    && (nodes.Some? ==>
          && |nodes.value| == |v.fields| - i
          && forall j | i <= j < |v.fields| ::
               Decides(re, nodes.value[j - i], doc) <==> OpMeans(re, field, KeyAt(v, j), ValueAt(v, j), doc))
  }

  lemma OpNodesConjoin(re: Regexps, field: string, v: Value, nodes: Option<seq<Matcher>>, doc: Doc)
    requires OpNodes(re, field, v, nodes, 0, doc)
    ensures Conjoin(nodes).Some? <==> forall op <- v.fields :: OpWellFormed(re, field, op, v.fields[op])
    ensures nodes.Some? ==>
              (Decides(re, Conjoin(nodes).value, doc) <==>
               forall op | op in v.fields :: OpMeans(re, field, op, v.fields[op], doc))
  {
    hide KeyAt, ValueAt, Conjoin;
    EveryKey(v);
    ConjoinDecides(re, nodes, doc);
    if nodes.Some? {
      assert forall j | 0 <= j < |v.fields| ::
          Decides(re, nodes.value[j], doc) <==> OpMeans(re, field, KeyAt(v, j), ValueAt(v, j), doc);
    }
  }

  /** The node, if there is one, stands for the entry. */
  ghost predicate NodeStands(re: Regexps, key: string, v: Value, node: Option<Matcher>, doc: Doc) {
    && (node.Some? <==> ClauseWellFormed(re, key, v))
    && (node.Some? ==> (Decides(re, node.value, doc) <==> ClauseMeans(re, key, v, doc)))
  }

  lemma OneMoreKey(re: Regexps, f: Value, node: Option<Matcher>, rest: Option<seq<Matcher>>, i: nat, doc: Doc)
    requires f.Obj? && i < |f.fields| && KeyNodes(re, f, rest, i + 1, doc)
    requires NodeStands(re, KeyAt(f, i), ValueAt(f, i), node, doc)
    ensures KeyNodes(re, f, Prefixed(node, rest), i, doc)
  {
    hide KeyAt, ValueAt;
    var nodes := Prefixed(node, rest);
    if nodes.Some? {
      forall j | i <= j < |f.fields|
        ensures ClauseWellFormed(re, KeyAt(f, j), ValueAt(f, j))
        ensures Decides(re, nodes.value[j - i], doc) <==> ClauseMeans(re, KeyAt(f, j), ValueAt(f, j), doc)
      {
        if j > i {
          assert nodes.value[j - i] == rest.value[j - (i + 1)];
        }
      }
    }
  }

  lemma {:induction false} KeysCompile(re: Regexps, f: Value, i: nat, doc: Doc)
    requires f.Obj? && i <= |f.fields|
    ensures KeyNodes(re, f, CompileKeys(re, f, i), i, doc)
    decreases f, 0, |f.fields| - i
  {
    hide CompileLogical, CompileField, KeyAt, ValueAt, IsOperator, Prefixed, NodeStands;
    if i < |f.fields| {
      var key, v := KeyAt(f, i), ValueAt(f, i);
      ClauseCompiles(re, key, v, doc);
      KeysCompile(re, f, i + 1, doc);
      var node := if IsOperator(key) then CompileLogical(re, key, v) else CompileField(re, key, v);
      OneMoreKey(re, f, node, CompileKeys(re, f, i + 1), i, doc);
      NothingPrefixed(node, CompileKeys(re, f, i + 1));
    }
  }

  lemma NothingPrefixed(node: Option<Matcher>, rest: Option<seq<Matcher>>)
    ensures node.None? ==> Prefixed(node, rest).None?
  {
  }

  lemma {:induction false} ClauseCompiles(re: Regexps, key: string, v: Value, doc: Doc)
    ensures var node := if IsOperator(key) then CompileLogical(re, key, v) else CompileField(re, key, v);
            NodeStands(re, key, v, node, doc)
    decreases v, 3, 0
  {
    hide CompileDocument, CompileField, CompileBranches, BranchNodes, SplitPath;
    if key == "$and" || key == "$or" {
      if v.Arr? {
        BranchesCompile(re, v, 0, doc);
        BranchNodesJoin(re, v, CompileBranches(re, v, 0), doc);
      }
    } else if key == "$not" {
      if v.Obj? {
        DocumentCompiles(re, v, doc);
      } else {
        NotADocument(re, v);
      }
    } else if !IsOperator(key) {
      FieldCompiles(re, key, v, doc);
    }
  }

  /** The nodes stand for the branches from the i-th on. */
  ghost predicate BranchNodes(re: Regexps, v: Value, nodes: Option<seq<Matcher>>, i: nat, doc: Doc) {
    && v.Arr? && i <= |v.items|
    && (nodes.Some? <==> forall j | i <= j < |v.items| :: WellFormed(re, v.items[j]))
    && (nodes.Some? ==>
          && |nodes.value| == |v.items| - i
          && forall j | i <= j < |v.items| ::
               Decides(re, nodes.value[j - i], doc) <==> Means(re, v.items[j], doc))
  }

  lemma BranchNodesJoin(re: Regexps, v: Value, nodes: Option<seq<Matcher>>, doc: Doc)
    requires BranchNodes(re, v, nodes, 0, doc)
    ensures nodes.Some? <==> forall j | 0 <= j < |v.items| :: WellFormed(re, v.items[j])
    ensures nodes.Some? ==>
              && (Decides(re, And(nodes.value), doc) <==> forall j | 0 <= j < |v.items| :: Means(re, v.items[j], doc))
              && (Decides(re, Or(nodes.value), doc) <==> exists j | 0 <= j < |v.items| :: Means(re, v.items[j], doc))
  {
    hide Means, WellFormed, Decides;
    if nodes.Some? {
      var ms := nodes.value;
      ManyDecide(re, ms, doc);
      forall j | 0 <= j < |v.items|
        ensures Decides(re, ms[j], doc) <==> Means(re, v.items[j], doc)
      {
        assert ms[j - 0] == ms[j];
      }
    }
  }

  /** What a conjunction and a disjunction of matchers decide. */
  lemma ManyDecide(re: Regexps, ms: seq<Matcher>, doc: Doc)
    ensures Decides(re, And(ms), doc) <==> forall j | 0 <= j < |ms| :: Decides(re, ms[j], doc)
    ensures Decides(re, Or(ms), doc) <==> exists j | 0 <= j < |ms| :: Decides(re, ms[j], doc)
  {
  }

  lemma OneMoreBranch(re: Regexps, v: Value, node: Option<Matcher>, rest: Option<seq<Matcher>>, i: nat, doc: Doc)
    requires v.Arr? && i < |v.items| && BranchNodes(re, v, rest, i + 1, doc)
    requires node.Some? <==> WellFormed(re, v.items[i])
    requires node.Some? ==> (Decides(re, node.value, doc) <==> Means(re, v.items[i], doc))
    ensures BranchNodes(re, v, Prefixed(node, rest), i, doc)
  {
    var nodes := Prefixed(node, rest);
    if nodes.Some? {
      forall j | i <= j < |v.items|
        ensures WellFormed(re, v.items[j])
        ensures Decides(re, nodes.value[j - i], doc) <==> Means(re, v.items[j], doc)
      {
        if j > i {
          assert nodes.value[j - i] == rest.value[j - (i + 1)];
        }
      }
    }
  }

  lemma NotADocument(re: Regexps, v: Value)
    requires !v.Obj?
    ensures !WellFormed(re, v)
  {
  }

  lemma {:induction false} BranchesCompile(re: Regexps, v: Value, i: nat, doc: Doc)
    requires v.Arr? && i <= |v.items|
    ensures BranchNodes(re, v, CompileBranches(re, v, i), i, doc)
    decreases v, 0, |v.items| - i
  {
    if i < |v.items| {
      var node := if v.items[i].Obj? then CompileDocument(re, v.items[i]) else None;
      if v.items[i].Obj? {
        DocumentCompiles(re, v.items[i], doc);
      } else {
        NotADocument(re, v.items[i]);
      }
      BranchesCompile(re, v, i + 1, doc);
      OneMoreBranch(re, v, node, CompileBranches(re, v, i + 1), i, doc);
    }
  }

  lemma {:induction false} FieldCompiles(re: Regexps, field: string, v: Value, doc: Doc)
    ensures var node := CompileField(re, field, v);
            && (node.Some? <==> FieldWellFormed(re, field, v))
            && (node.Some? ==> (Decides(re, node.value, doc) <==> FieldMeans(re, field, v, doc)))
    decreases v, 1, 0
  {
    if field != "" && v.Obj? && AllOperators(v) {
      OperatorsCompile(re, field, v, 0, doc);
      OpNodesConjoin(re, field, v, CompileOperators(re, field, v, 0), doc);
    }
  }

  /** The node, if there is one, stands for the operator. */
  ghost predicate OpStands(re: Regexps, field: string, op: string, arg: Value, node: Option<Matcher>, doc: Doc) {
    && (node.Some? <==> OpWellFormed(re, field, op, arg))
    && (node.Some? ==> (Decides(re, node.value, doc) <==> OpMeans(re, field, op, arg, doc)))
  }

  lemma OneMoreOp(re: Regexps, field: string, v: Value, node: Option<Matcher>, rest: Option<seq<Matcher>>, i: nat,
                  doc: Doc)
    requires v.Obj? && i < |v.fields| && OpNodes(re, field, v, rest, i + 1, doc)
    requires OpStands(re, field, KeyAt(v, i), ValueAt(v, i), node, doc)
    ensures OpNodes(re, field, v, Prefixed(node, rest), i, doc)
  {
    hide KeyAt, ValueAt;
    var nodes := Prefixed(node, rest);
    if nodes.Some? {
      forall j | i <= j < |v.fields|
        ensures OpWellFormed(re, field, KeyAt(v, j), ValueAt(v, j))
        ensures Decides(re, nodes.value[j - i], doc) <==> OpMeans(re, field, KeyAt(v, j), ValueAt(v, j), doc)
      {
        if j > i {
          assert nodes.value[j - i] == rest.value[j - (i + 1)];
        }
      }
    }
  }

  lemma {:induction false} OperatorsCompile(re: Regexps, field: string, v: Value, i: nat, doc: Doc)
    requires v.Obj? && i <= |v.fields| && field != ""
    ensures OpNodes(re, field, v, CompileOperators(re, field, v, i), i, doc)
    decreases v, 0, |v.fields| - i
  {
    hide CompileOperator, KeyAt, ValueAt, Prefixed, OpStands;
    if i < |v.fields| {
      OperatorCompiles(re, field, KeyAt(v, i), ValueAt(v, i), doc);
      OperatorsCompile(re, field, v, i + 1, doc);
      var node := CompileOperator(re, field, KeyAt(v, i), ValueAt(v, i));
      OneMoreOp(re, field, v, node, CompileOperators(re, field, v, i + 1), i, doc);
      NothingPrefixed(node, CompileOperators(re, field, v, i + 1));
    }
  }

  lemma {:induction false} OperatorCompiles(re: Regexps, field: string, op: string, arg: Value, doc: Doc)
    requires field != ""
    ensures OpStands(re, field, op, arg, CompileOperator(re, field, op, arg), doc)
    decreases arg, 2, 0
  {
    hide OpStands, CompileOperator, OpWellFormed, OpMeans, FieldWellFormed, FieldMeans, CompileField, SplitPath;
    if op == "$not" {
      if arg.Obj? {
        FieldCompiles(re, field, arg, doc);
      }
      NegationCompiles(re, field, arg, doc);
    } else {
      PlainOperatorCompiles(re, field, op, arg, doc);
    }
  }

  lemma PlainOperatorCompiles(re: Regexps, field: string, op: string, arg: Value, doc: Doc)
    requires op != "$not"
    ensures OpStands(re, field, op, arg, CompileOperator(re, field, op, arg), doc)
  {
    hide SplitPath, SomeCandidate, SomeAmong, SomeMatch, Nowhere, CompileField, AllOperators, FieldMeans;
  }

  lemma NegationCompiles(re: Regexps, field: string, arg: Value, doc: Doc)
    requires arg.Obj? ==>
               var node := CompileField(re, field, arg);
               && (node.Some? <==> FieldWellFormed(re, field, arg))
               && (node.Some? ==> (Decides(re, node.value, doc) <==> FieldMeans(re, field, arg, doc)))
    ensures OpStands(re, field, "$not", arg, CompileOperator(re, field, "$not", arg), doc)
  {
    hide SplitPath, SomeCandidate, SomeAmong, SomeMatch, Nowhere, CompileField, AllOperators, FieldMeans,
      FieldWellFormed;
  }

  /**
   Compilation succeeds on exactly the well-formed filters, and the compiled matcher decides what the
   filter document means, in which neither key order nor the order of evaluation appears.
   */
  lemma CompiledFilterDecides(re: Regexps, f: Value, doc: Doc)
    requires f.Obj?
    ensures CompileFilter(re, f).Some? <==> WellFormed(re, f)
    ensures CompileFilter(re, f).Some? ==> (Decides(re, CompileFilter(re, f).value, doc) <==> Means(re, f, doc))
  {
    DocumentCompiles(re, f, doc);
  }

  // ----- looking up a path -----

  /** What collectPath appends, in its order. */
  function Reached(v: Value, path: seq<string>): seq<Value>
    decreases |path|, 1, 0
  {
    if path == [] then [v]
    else
      match v
      case Obj(fields) => if path[0] in fields then Reached(fields[path[0]], path[1..]) else []
      case Arr(items) =>
        var i := IndexOf(items, path[0]);
        (if i.Some? then Reached(items[i.value], path[1..]) else []) + Through(items, path, |items|)
      case _ => []
  }

  /** What the first n elements contribute by their keys. */
  function Through(items: seq<Value>, path: seq<string>, n: nat): seq<Value>
    requires path != [] && n <= |items|
    decreases |path|, 0, n
  {
    if n == 0 then []
    else
      Through(items, path, n - 1)
      + if Steps(items[n - 1], path[0]) then Reached(items[n - 1].fields[path[0]], path[1..]) else []
  }

  lemma {:induction false} ReachedIsReaches(v: Value, path: seq<string>, w: Value)
    ensures w in Reached(v, path) <==> Reaches(v, path, w)
    decreases |path|, 1, 0
  {
    if path != [] {
      match v
      case Obj(fields) =>
        if path[0] in fields {
          ReachedIsReaches(fields[path[0]], path[1..], w);
        }
      case Arr(items) =>
        var i := IndexOf(items, path[0]);
        if i.Some? {
          ReachedIsReaches(items[i.value], path[1..], w);
        }
        ThroughReaches(items, path, |items|, w);
      case _ =>
    }
  }

  lemma {:induction false} ThroughReaches(items: seq<Value>, path: seq<string>, n: nat, w: Value)
    requires path != [] && n <= |items|
    ensures w in Through(items, path, n) <==>
            exists i | 0 <= i < n :: Steps(items[i], path[0]) && Reaches(items[i].fields[path[0]], path[1..], w)
    decreases |path|, 0, n
  {
    if n > 0 {
      ThroughReaches(items, path, n - 1, w);
      if Steps(items[n - 1], path[0]) {
        ReachedIsReaches(items[n - 1].fields[path[0]], path[1..], w);
      }
    }
  }

  /** The slice collectPath is handed to append to. */
  class Results {
    var values: seq<Value>

    constructor ()
      ensures values == []
    {
      values := [];
    }
  }

  lemma ReachedUnfolds(v: Value, path: seq<string>)
    ensures path == [] ==> Reached(v, path) == [v]
    ensures path != [] && v.Obj? && path[0] in v.fields ==> Reached(v, path) == Reached(v.fields[path[0]], path[1..])
    ensures path != [] && v.Obj? && path[0] !in v.fields ==> Reached(v, path) == []
    ensures path != [] && v.Arr? ==>
              var i := IndexOf(v.items, path[0]);
              Reached(v, path) ==
              (if i.Some? then Reached(v.items[i.value], path[1..]) else []) + Through(v.items, path, |v.items|)
    ensures path != [] && !v.Obj? && !v.Arr? ==> Reached(v, path) == []
  {
  }

  lemma ThroughUnfolds(items: seq<Value>, path: seq<string>, n: nat)
    requires path != [] && n < |items|
    ensures Through(items, path, 0) == []
    ensures Through(items, path, n + 1) ==
            Through(items, path, n) +
            if Steps(items[n], path[0]) then Reached(items[n].fields[path[0]], path[1..]) else []
  {
  }

  method CollectPath(v: Value, path: seq<string>, out: Results)
    modifies out
    ensures out.values == old(out.values) + Reached(v, path)
    decreases |path|
  {
    hide Atoi, Reached, Through;
    ReachedUnfolds(v, path);
    if path == [] {
      out.values := out.values + [v];
      return;
    }
    match v
    case Obj(fields) =>
      if path[0] in fields {
        CollectPath(fields[path[0]], path[1..], out);
      }
    case Arr(items) =>
      var i := IndexOf(items, path[0]);
      if i.Some? {
        CollectPath(items[i.value], path[1..], out);
      }
      ghost var before := out.values;
      for j := 0 to |items|
        invariant out.values == before + if j == 0 then [] else Through(items, path, j)
      {
        ThroughUnfolds(items, path, j);
        if Steps(items[j], path[0]) {
          CollectPath(items[j].fields[path[0]], path[1..], out);
        }
      }
      NoneThrough(items, path);
    case _ =>
  }

  lemma NoneThrough(items: seq<Value>, path: seq<string>)
    requires path != []
    ensures items == [] ==> Through(items, path, 0) == []
  {
  }

  ghost function Found(doc: Doc, path: seq<string>): (r: seq<Value>)
    ensures r != []
  {
    var out := Reached(Obj(doc), path);
    if out == [] then [Absent] else out
  }

  /** The values of a lookup are what the path finds, and the sentinel comes alone. */
  lemma FoundIsFinds(doc: Doc, path: seq<string>)
    ensures forall w: Value :: w in Found(doc, path) <==> Finds(doc, path, w)
    ensures Nowhere(doc, path) ==> Found(doc, path) == [Absent]
  {
    forall w: Value
      ensures w in Reached(Obj(doc), path) <==> Reaches(Obj(doc), path, w)
    {
      ReachedIsReaches(Obj(doc), path, w);
    }
    var out := Reached(Obj(doc), path);
    if out != [] {
      assert out[0] in out;
    }
  }

  /** lookupPath: a one-segment path is answered without collecting. */
  method LookupPath(doc: Doc, path: seq<string>) returns (found: seq<Value>)
    ensures found == Found(doc, path)
  {
    if |path| == 1 {
      assert path[1..] == [] && (path[0] in doc ==> Reached(doc[path[0]], []) == [doc[path[0]]]);
      return if path[0] in doc then [doc[path[0]]] else [Absent];
    }
    var out := new Results();
    CollectPath(Obj(doc), path, out);
    found := if |out.values| == 0 then [Absent] else out.values;
  }

  /** LookupOne, for sort keys: the first value found, the sentinel when there is none. */
  method LookupOne(doc: Doc, path: seq<string>) returns (v: Value)
    ensures v == Found(doc, path)[0] && Finds(doc, path, v)
  {
    FoundIsFinds(doc, path);
    var found := LookupPath(doc, path);
    v := found[0];
    assert v in found;
  }

  // ----- the walk of a matcher -----

  /** None of the first n values yields a candidate that passes. */
  ghost predicate NoneYet(found: seq<Value>, n: nat, p: Value -> bool)
    requires n <= |found|
  {
    forall i, c: Value | 0 <= i < n && Yields(found[i], c) :: !p(c)
  }

  lemma NoneAtAll(doc: Doc, path: seq<string>, found: seq<Value>, p: Value -> bool)
    requires found == Found(doc, path) && NoneYet(found, |found|, p)
    ensures forall c: Value | Candidate(doc, path, c) :: !p(c)
  {
    FoundIsFinds(doc, path);
    forall c: Value | Candidate(doc, path, c)
      ensures !p(c)
    {
      var v :| Finds(doc, path, v) && Yields(v, c);
      assert v in found;
    }
  }

  /** The loop all three leaf nodes share: each value found, then each element if it is an array. */
  method AnyCandidate(doc: Doc, path: seq<string>, p: Value -> bool) returns (hit: bool)
    ensures hit <==> exists c: Value :: Candidate(doc, path, c) && p(c)
  {
    FoundIsFinds(doc, path);
    var found := LookupPath(doc, path);
    for i := 0 to |found|
      invariant NoneYet(found, i, p)
    {
      var v := found[i];
      assert Finds(doc, path, v);
      if p(v) {
        assert Yields(v, v);
        return true;
      }
      if v.Arr? {
        for j := 0 to |v.items|
          invariant forall m | 0 <= m < j :: !p(v.items[m])
        {
          if p(v.items[j]) {
            assert Yields(v, v.items[j]);
            return true;
          }
        }
      }
    }
    NoneAtAll(doc, path, found, p);
    hit := false;
  }

  /** cmpNode.matchValue, for the operators it is asked about: $ne never is. */
  predicate MatchValue(op: Op, c: Value, value: Value) {
    if op == Eq then Compare(c, value) == 0
    else if TypeRank(c) != TypeRank(value) then false
    else
      var d := Compare(c, value);
      match op
      case Gt => d > 0
      case Gte => d >= 0
      case Lt => d < 0
      case Lte => d <= 0
      case _ => false
  }

  lemma MatchValueSatisfies(value: Value)
    ensures forall op: Op, c: Value | op != Ne :: MatchValue(op, c, value) <==> Satisfies(op, c, value)
  {
    forall op: Op, c: Value | op != Ne
      ensures MatchValue(op, c, value) <==> Satisfies(op, c, value)
    {
      EqualIsSame(c, value);
    }
  }

  /** Some value of the list compares equal. */
  predicate Among(c: Value, values: seq<Value>) {
    exists i | 0 <= i < |values| :: Compare(c, values[i]) == 0
  }

  lemma AmongIsIn(values: seq<Value>)
    ensures forall c: Value :: Among(c, values) <==> c in values
  {
    forall c: Value
      ensures Among(c, values) <==> c in values
    {
      forall i | 0 <= i < |values|
        ensures Compare(c, values[i]) == 0 <==> c == values[i]
      {
        EqualIsSame(c, values[i]);
      }
    }
  }

  /** Match: conjunctions and disjunctions stop at the first child that settles them. */
  method Match(re: Regexps, m: Matcher, doc: Doc) returns (b: bool)
    requires Decoded(doc)
    ensures b <==> Decides(re, m, doc)
    decreases m
  {
    match m
    case MatchAll => b := true;
    case And(children) =>
      for i := 0 to |children|
        invariant forall j | 0 <= j < i :: Decides(re, children[j], doc)
      {
        var yes := Match(re, children[i], doc);
        if !yes {
          return false;
        }
      }
      b := true;
    case Or(children) =>
      for i := 0 to |children|
        invariant forall j | 0 <= j < i :: !Decides(re, children[j], doc)
      {
        var yes := Match(re, children[i], doc);
        if yes {
          return true;
        }
      }
      b := false;
    case Not(child) =>
      var yes := Match(re, child, doc);
      b := !yes;
    case Cmp(path, op, value) =>
      MatchValueSatisfies(value);
      if op == Ne {
        var eq := AnyCandidate(doc, path, (c: Value) => MatchValue(Eq, c, value));
        b := !eq;
      } else {
        b := AnyCandidate(doc, path, (c: Value) => MatchValue(op, c, value));
      }
    case In(path, values, negate) =>
      AmongIsIn(values);
      var hit := AnyCandidate(doc, path, (c: Value) => Among(c, values));
      b := hit != negate;
    case Exists(path, want) =>
      FoundIsFinds(doc, path);
      var found := LookupPath(doc, path);
      assert found[0] in found;
      b := !(|found| == 1 && found[0] == Absent) == want;
    case Regex(path, pattern) =>
      b := AnyCandidate(doc, path, (c: Value) => c.Str? && re.hits(pattern, c.s));
  }

  // ----- what the operators promise each other -----

  /** A filter of one operator on one field. */
  function OpFilter(field: string, op: string, arg: Value): Value {
    Obj(map[field := Obj(map[op := arg])])
  }

  /** Whether a document passes a filter, as compiling and matching decide it. */
  ghost predicate Passes(re: Regexps, f: Value, doc: Doc) {
    f.Obj? && CompileFilter(re, f).Some? && Decides(re, CompileFilter(re, f).value, doc)
  }

  /** A filter names a field when its key is neither empty nor an operator. */
  predicate IsField(key: string) {
    key != "" && !IsOperator(key)
  }

  lemma OpFilterMeans(re: Regexps, field: string, op: string, arg: Value, doc: Doc)
    requires IsField(field) && IsOperator(op)
    ensures WellFormed(re, OpFilter(field, op, arg)) <==> OpWellFormed(re, field, op, arg)
    ensures OpWellFormed(re, field, op, arg) ==>
              (Passes(re, OpFilter(field, op, arg), doc) <==> OpMeans(re, field, op, arg, doc))
  {
    var f, sub := OpFilter(field, op, arg), Obj(map[op := arg]);
    CompiledFilterDecides(re, f, doc);
    assert op in sub.fields && field in f.fields;
    assert AllOperators(sub) && AnyOperator(sub);
    assert FieldWellFormed(re, field, sub) <==> OpWellFormed(re, field, op, arg);
    assert ClauseWellFormed(re, field, sub) <==> FieldWellFormed(re, field, sub);
    assert FieldMeans(re, field, sub, doc) <==> OpMeans(re, field, op, arg, doc);
    assert ClauseMeans(re, field, sub, doc) <==> FieldMeans(re, field, sub, doc);
  }

  /** $in is the disjunction of $eq over its list. */
  lemma InIsAnyEq(re: Regexps, field: string, values: seq<Value>, doc: Doc)
    requires IsField(field)
    ensures Passes(re, OpFilter(field, "$in", Arr(values)), doc) <==>
            exists i | 0 <= i < |values| :: Passes(re, OpFilter(field, "$eq", values[i]), doc)
  {
    OpFilterMeans(re, field, "$in", Arr(values), doc);
    forall i | 0 <= i < |values|
      ensures Passes(re, OpFilter(field, "$eq", values[i]), doc) <==>
              Candidate(doc, SplitPath(field), values[i])
    {
      OpFilterMeans(re, field, "$eq", values[i], doc);
    }
  }

  lemma OrderFiltersMean(re: Regexps, field: string, arg: Value, doc: Doc)
    requires IsField(field)
    ensures var path := SplitPath(field);
            && (Passes(re, OpFilter(field, "$eq", arg), doc) <==> SomeCandidate(doc, path, Eq, arg))
            && (Passes(re, OpFilter(field, "$gt", arg), doc) <==> SomeCandidate(doc, path, Gt, arg))
            && (Passes(re, OpFilter(field, "$gte", arg), doc) <==> SomeCandidate(doc, path, Gte, arg))
            && (Passes(re, OpFilter(field, "$lt", arg), doc) <==> SomeCandidate(doc, path, Lt, arg))
            && (Passes(re, OpFilter(field, "$lte", arg), doc) <==> SomeCandidate(doc, path, Lte, arg))
  {
    hide Passes, OpFilter, SomeCandidate, SplitPath;
    OpFilterMeans(re, field, "$eq", arg, doc);
    OpFilterMeans(re, field, "$gt", arg, doc);
    OpFilterMeans(re, field, "$gte", arg, doc);
    OpFilterMeans(re, field, "$lt", arg, doc);
    OpFilterMeans(re, field, "$lte", arg, doc);
  }

  /** $gte is $gt or $eq, and $lte is $lt or $eq, with arrays traversed. */
  lemma GteIsGtOrEq(re: Regexps, field: string, arg: Value, doc: Doc)
    requires IsField(field)
    ensures Passes(re, OpFilter(field, "$gte", arg), doc) <==>
            Passes(re, OpFilter(field, "$gt", arg), doc) || Passes(re, OpFilter(field, "$eq", arg), doc)
    ensures Passes(re, OpFilter(field, "$lte", arg), doc) <==>
            Passes(re, OpFilter(field, "$lt", arg), doc) || Passes(re, OpFilter(field, "$eq", arg), doc)
  {
    hide Passes, OpFilter, Candidate, SplitPath, Satisfies;
    OrderFiltersMean(re, field, arg, doc);
    OrderSplits(arg);
  }

  lemma OrderSplits(arg: Value)
    ensures forall c: Value :: Satisfies(Gte, c, arg) <==> Satisfies(Gt, c, arg) || Satisfies(Eq, c, arg)
    ensures forall c: Value :: Satisfies(Lte, c, arg) <==> Satisfies(Lt, c, arg) || Satisfies(Eq, c, arg)
  {
    forall c: Value
      ensures Satisfies(Gte, c, arg) <==> Satisfies(Gt, c, arg) || Satisfies(Eq, c, arg)
      ensures Satisfies(Lte, c, arg) <==> Satisfies(Lt, c, arg) || Satisfies(Eq, c, arg)
    {
      EqualIsSame(c, arg);
    }
  }

  /** $ne and $nin are exact complements of $eq and $in. */
  lemma NegatedOperators(re: Regexps, field: string, arg: Value, doc: Doc)
    requires IsField(field)
    ensures Passes(re, OpFilter(field, "$ne", arg), doc) <==> !Passes(re, OpFilter(field, "$eq", arg), doc)
    ensures arg.Arr? ==>
              (Passes(re, OpFilter(field, "$nin", arg), doc) <==> !Passes(re, OpFilter(field, "$in", arg), doc))
  {
    hide Passes, OpFilter, SomeCandidate, SomeAmong, SplitPath;
    OpFilterMeans(re, field, "$ne", arg, doc);
    OpFilterMeans(re, field, "$eq", arg, doc);
    OpFilterMeans(re, field, "$nin", arg, doc);
    OpFilterMeans(re, field, "$in", arg, doc);
  }

  /** So are both forms of $not: of every document, exactly one of the pair lets it pass. */
  lemma NotIsComplement(re: Regexps, field: string, arg: Value, doc: Doc)
    requires IsField(field)
    ensures arg.Obj? && AllOperators(arg) && FieldWellFormed(re, field, arg) ==>
              (Passes(re, OpFilter(field, "$not", arg), doc) <==> !Passes(re, Obj(map[field := arg]), doc))
    ensures WellFormed(re, arg) ==> (Passes(re, Obj(map["$not" := arg]), doc) <==> !Passes(re, arg, doc))
  {
    NotOfOperators(re, field, arg, doc);
    NotOfFilter(re, arg, doc);
  }

  lemma NotOfOperators(re: Regexps, field: string, arg: Value, doc: Doc)
    requires IsField(field)
    ensures arg.Obj? && AllOperators(arg) && FieldWellFormed(re, field, arg) ==>
              (Passes(re, OpFilter(field, "$not", arg), doc) <==> !Passes(re, Obj(map[field := arg]), doc))
  {
    hide Passes, OpFilter, FieldMeans, AllOperators, FieldWellFormed;
    OpFilterMeans(re, field, "$not", arg, doc);
    OneClause(re, field, arg, doc);
  }

  lemma NotOfFilter(re: Regexps, arg: Value, doc: Doc)
    ensures WellFormed(re, arg) ==> (Passes(re, Obj(map["$not" := arg]), doc) <==> !Passes(re, arg, doc))
  {
    hide Decides, CompileFilter, Means;
    OneClause(re, "$not", arg, doc);
    if WellFormed(re, arg) {
      CompiledFilterDecides(re, arg, doc);
    }
  }

  lemma OneClause(re: Regexps, key: string, v: Value, doc: Doc)
    ensures var f := Obj(map[key := v]);
            ClauseWellFormed(re, key, v) ==> (Passes(re, f, doc) <==> ClauseMeans(re, key, v, doc))
  {
    var f := Obj(map[key := v]);
    CompiledFilterDecides(re, f, doc);
    assert key in f.fields;
  }
}
