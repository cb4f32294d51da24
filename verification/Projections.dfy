/**
 Projections (internal/engine/projection.go): the tree of paths, built in place one path at a time;
 the compiler that fills it; the two walkers that read it; and what they keep of a document. A tree
 is known by its leaves: the set of paths it names. The walkers' copies are values here, so their
 independence of the original is not in question.
 */
module Projections {
  import opened Wrappers
  import opened Values
  import opened Filters

  type Path = seq<string>
  type Paths = set<Path>

  // ----- sets of paths -----

  /** pathContains: what inner names is part of what outer names. */
  predicate Contains(outer: Path, inner: Path) {
    |outer| <= |inner| && inner[..|outer|] == outer
  }

  /** Some path of the set names p or something p is part of. */
  predicate Covers(paths: Paths, p: Path) {
    exists q <- paths :: Contains(q, p)
  }

  /** The paths not part of what another names. */
  ghost function Minimal(paths: Paths): Paths {
    set p | p in paths && forall q <- paths :: Contains(q, p) ==> q == p
  }

  /** A path inserted: nothing new when it is covered, otherwise it displaces what it covers. */
  ghost function Inserted(paths: Paths, p: Path): Paths {
    if Covers(paths, p) then paths else {p} + set q | q in paths && !Contains(p, q)
  }

  ghost function InsertedAll(list: seq<Path>): Paths {
    if list == [] then {} else Inserted(InsertedAll(list[..|list| - 1]), list[|list| - 1])
  }

  /** Every path is covered by a minimal one. */
  lemma {:induction false} MinimalCovers(paths: Paths, p: Path)
    requires p in paths
    ensures Covers(Minimal(paths), p)
    decreases |p|
  {
    if p in Minimal(paths) {
      assert Contains(p, p);
    } else {
      var q :| q in paths && Contains(q, p) && q != p;
      MinimalCovers(paths, q);
      var m :| m in Minimal(paths) && Contains(m, q);
      assert Contains(m, p);
    }
  }

  lemma UncoveredByMinimal(paths: Paths, p: Path)
    requires !Covers(Minimal(paths), p)
    ensures !Covers(paths, p)
  {
    if Covers(paths, p) {
      var x :| x in paths && Contains(x, p);
      MinimalCovers(paths, x);
      var y :| y in Minimal(paths) && Contains(y, x);
      ContainsTransitive(y, x, p);
    }
  }

  lemma ContainsTransitive(a: Path, b: Path, c: Path)
    requires Contains(a, b) && Contains(b, c)
    ensures Contains(a, c)
  {
    assert c[..|a|] == b[..|a|];
  }

  lemma MinimalStep(paths: Paths, p: Path)
    ensures Inserted(Minimal(paths), p) == Minimal(paths + {p})
  {
    var m, n := Minimal(paths), Minimal(paths + {p});
    assert Contains(p, p);
    if Covers(m, p) {
      var c :| c in m && Contains(c, p);
      forall q
        ensures q in m <==> q in n
      {
        if q in m && Contains(p, q) {
          assert Contains(c, q);
        }
        if q in n && q == p {
          assert c == p;
        }
      }
    } else {
      forall q
        ensures q in Inserted(m, p) <==> q in n
      {
        if q == p {
          UncoveredByMinimal(paths, p);
        }
      }
    }
  }

  /** Whatever the order of insertion, the leaves are exactly the minimal paths of the list. */
  lemma {:induction false} InsertionOrderIsIrrelevant(list: seq<Path>)
    ensures InsertedAll(list) == Minimal(set p | p in list)
  {
    if list == [] {
      assert (set p | p in list) == {};
    } else {
      var init, p := list[..|list| - 1], list[|list| - 1];
      InsertionOrderIsIrrelevant(init);
      MinimalStep((set q | q in init), p);
      assert list == init + [p];
      assert (set q | q in list) == (set q | q in init) + {p};
    }
  }

  // ----- the tree -----

  /** The path one segment further. */
  function Ext(p: Path, k: string): (r: Path)
    ensures r != []
  {
    p + [k]
  }

  /** With no path of the set a proper part of p, only p itself can cover it. */
  lemma OnlyItself(paths: Paths, p: Path)
    requires forall j | 0 <= j < |p| :: p[..j] !in paths
    ensures Covers(paths, p) <==> p in paths
  {
    assert Contains(p, p);
    forall q | q in paths && Contains(q, p)
      ensures q == p
    {
      assert p[..|p|] == p;
    }
  }

  lemma ExtOf(path: Path, q: Path, k: string)
    ensures Contains(path, q) ==> Contains(path, Ext(q, k))
    ensures Contains(path, Ext(q, k)) ==> Contains(path, q) || path == Ext(q, k)
    ensures Contains(path, q) ==> path != Ext(q, k)
  {
    var r := Ext(q, k);
    assert r[..|q|] == q;
    if Contains(path, r) {
      if |path| == |r| {
        assert r[..|path|] == r;
      } else {
        assert q[..|path|] == r[..|path|];
      }
    }
    if Contains(path, q) {
      assert q[..|path|] == r[..|path|];
    }
  }

  /** Of two ways to the same place, one contains the other. */
  lemma Comparable(a: Path, b: Path, c: Path)
    requires Contains(a, c) && Contains(b, c)
    ensures Contains(a, b) || Contains(b, a)
  {
    if |a| <= |b| {
      assert b[..|a|] == c[..|b|][..|a|] == c[..|a|];
    } else {
      assert a[..|b|] == c[..|a|][..|b|] == c[..|b|];
    }
  }

  lemma ExtOnce(p: Path, k: string, q: Path, m: string)
    requires Ext(p, k) == Ext(q, m)
    ensures p == q && k == m
  {
    assert Ext(p, k)[..|p|] == p && Ext(q, m)[..|q|] == q;
    assert Ext(p, k)[|p|] == k && Ext(q, m)[|q|] == m;
  }

  lemma ExtPrefix(path: Path, i: nat)
    requires i < |path|
    ensures path[..i + 1] == Ext(path[..i], path[i])
    ensures forall p | Contains(p, path[..i]) :: Contains(p, path[..i + 1])
    ensures Contains(path[..i + 1], path[..i + 1])
  {
    forall p | Contains(p, path[..i])
      ensures Contains(p, path[..i + 1])
    {
      assert path[..i + 1][..|p|] == path[..i][..|p|];
    }
  }

  /** projNode: a leaf names everything below it. */
  class Node {
    var leaf: bool
    var children: map<string, Node>

    constructor ()
      ensures !leaf && children == map[]
    {
      leaf, children := false, map[];
    }
  }

  /** The nodes are linked as their paths say, no two paths lead to one node, and a leaf has no children. */
  ghost predicate LinkedAs(nodes: map<Path, Node>, kids: map<Path, map<string, Node>>, leaves: Paths) {
    && kids.Keys == nodes.Keys
    && (forall p, q | p in nodes && q in nodes && nodes[p] == nodes[q] :: p == q)
    && (forall p: Path, k: string | p in kids && k in kids[p] ::
          Ext(p, k) in nodes && nodes[Ext(p, k)] == kids[p][k])
    && (forall p: Path, k: string | Ext(p, k) in nodes :: p in kids && k in kids[p])
    && (forall p | p in leaves :: p in kids && kids[p] == map[])
  }

  lemma LinkedAttach(nodes: map<Path, Node>, kids: map<Path, map<string, Node>>, leaves: Paths,
                     p: Path, seg: string, next: Node)
    requires LinkedAs(nodes, kids, leaves) && p in nodes && p !in leaves && seg !in kids[p] && next !in nodes.Values
    ensures Ext(p, seg) !in nodes
    ensures LinkedAs(nodes[Ext(p, seg) := next], kids[p := kids[p][seg := next]][Ext(p, seg) := map[]], leaves)
  {
    hide Ext;
    ExtLonger(p, seg);
    var x := Ext(p, seg);
    var m, n := nodes[x := next], kids[p := kids[p][seg := next]][x := map[]];
    forall q: Path, k: string | q in n && k in n[q]
      ensures Ext(q, k) in m && m[Ext(q, k)] == n[q][k]
    {
      if Ext(q, k) == x {
        ExtOnce(q, k, p, seg);
      }
    }
    forall q: Path, k: string | Ext(q, k) in m
      ensures q in n && k in n[q]
    {
      if Ext(q, k) == x {
        ExtOnce(q, k, p, seg);
      } else {
        assert q != x;
      }
    }
  }

  /** What stays in the tree when the node at the path becomes a leaf. */
  ghost predicate Stays(path: Path, q: Path) {
    Contains(path, q) ==> q == path
  }

  ghost function CutOff(nodes: map<Path, Node>, path: Path): map<Path, Node> {
    map q | q in nodes && Stays(path, q) :: nodes[q]
  }

  ghost function KidsLeft(kids: map<Path, map<string, Node>>, path: Path): map<Path, map<string, Node>> {
    map q | q in kids && Stays(path, q) :: if q == path then map[] else kids[q]
  }

  ghost function LeavesLeft(leaves: Paths, path: Path): Paths {
    {path} + set q | q in leaves && !Contains(path, q)
  }

  lemma LinkedCut(nodes: map<Path, Node>, kids: map<Path, map<string, Node>>, leaves: Paths, path: Path)
    requires LinkedAs(nodes, kids, leaves) && path in nodes
    ensures LinkedAs(CutOff(nodes, path), KidsLeft(kids, path), LeavesLeft(leaves, path))
  {
    hide Ext, Contains;
    ContainsItself(path);
    var m, n := CutOff(nodes, path), KidsLeft(kids, path);
    forall q: Path, k: string | q in n && k in n[q]
      ensures Ext(q, k) in m && m[Ext(q, k)] == n[q][k]
    {
      ExtOf(path, q, k);
    }
    forall q: Path, k: string | Ext(q, k) in m
      ensures q in n && k in n[q]
    {
      ExtOf(path, q, k);
    }
  }

  /** The state of the tree in which the path is about to be cut at. */
  ghost predicate CutReady(nodes: map<Path, Node>, leaves: Paths, path: Path) {
    && path in nodes && (forall q | q in leaves :: q in nodes)
    && (forall q | q in nodes && q != [] :: Contains(q, path) || exists l <- leaves :: Contains(q, l))
    && (path in leaves ==> forall q | q in leaves && Contains(path, q) :: q == path)
    && (Covers(leaves, path) <==> path in leaves)
  }

  lemma AfterCut(nodes: map<Path, Node>, leaves: Paths, path: Path)
    requires CutReady(nodes, leaves, path)
    ensures LeavesLeft(leaves, path) == Inserted(leaves, path) && CutOff(nodes, path).Values <= nodes.Values
    ensures forall q | q in CutOff(nodes, path) && q != [] :: exists l <- LeavesLeft(leaves, path) :: Contains(q, l)
  {
    hide Contains;
    ContainsItself(path);
    if path in leaves {
      assert LeavesLeft(leaves, path) == leaves;
    }
    forall q | q in CutOff(nodes, path) && q != []
      ensures exists l <- LeavesLeft(leaves, path) :: Contains(q, l)
    {
      if !Contains(q, path) {
        var l :| l in leaves && Contains(q, l);
        if Contains(path, l) {
          Comparable(q, path, l);
        }
      }
    }
  }

  lemma ContainsItself(p: Path)
    ensures Contains(p, p)
  {
  }

  lemma RootStays(path: Path)
    ensures Stays(path, [])
  {
  }

  lemma ExtLonger(p: Path, k: string)
    ensures Ext(p, k) != p
  {
    assert |Ext(p, k)| == |p| + 1;
  }

  lemma RootIsShort(p: Path, k: string)
    ensures Ext(p, k) != []
  {
  }

  /** The tree under one root; its nodes are listed by the path that leads to them. */
  class Tree {
    const root: Node
    ghost var nodes: map<Path, Node>

    ghost function Kids(): map<Path, map<string, Node>>
      reads this, nodes.Values
    {
      map p | p in nodes :: nodes[p].children
    }

    ghost predicate Linked()
      reads this, nodes.Values
    {
      [] in nodes && nodes[[]] == root && LinkedAs(nodes, Kids(), Leaves())
    }

    ghost function Leaves(): Paths
      reads this, nodes.Values
    {
      set p | p in nodes && nodes[p].leaf
    }

    /** Every node but the root leads to a leaf, or lies on the way to where a path is being put. */
    ghost predicate Leading(tip: Path)
      reads this, nodes.Values
    {
      forall p | p in nodes && p != [] :: Contains(p, tip) || exists l <- Leaves() :: Contains(p, l)
    }

    ghost predicate Valid()
      reads this, nodes.Values
    {
      Linked() && Leading([])
    }

    constructor ()
      ensures Valid() && Leaves() == {} && fresh(root) && nodes == map[[] := root]
    {
      root := new Node();
      new;
      nodes := map[[] := root];
    }

    /** A blank node put under cur for the next segment. */
    method Attach(cur: Node, seg: string, next: Node, ghost p: Path)
      requires Linked() && p in nodes && nodes[p] == cur
      requires !cur.leaf && seg !in cur.children
      requires next !in nodes.Values && !next.leaf && next.children == map[]
      modifies this, cur
      ensures Linked() && Leaves() == old(Leaves())
      ensures nodes == old(nodes)[Ext(p, seg) := next] && cur.children == old(cur.children)[seg := next]
      ensures !cur.leaf
    {
      hide LinkedAs, Ext, Leaves, Kids, Linked;
      BeforeAttach(p, cur, seg, next);
      label before:
      cur.children := cur.children[seg := next];
      nodes := nodes[Ext(p, seg) := next];
      WasAttached@before(p, seg, next);
      LeavesAttached@before(p, seg, next);
      AttachStands(p, seg, next, old(nodes));
    }

    lemma BeforeAttach(p: Path, cur: Node, seg: string, next: Node)
      requires Linked() && p in nodes && nodes[p] == cur && !cur.leaf && seg !in cur.children
      requires next !in nodes.Values
      ensures p in Kids() && Ext(p, seg) !in nodes && [] in nodes && nodes[[]] == root
      ensures LinkedAs(nodes[Ext(p, seg) := next], Kids()[p := Kids()[p][seg := next]][Ext(p, seg) := map[]], Leaves())
      ensures forall p, q | p in nodes && q in nodes && nodes[p] == nodes[q] :: p == q
    {
      hide Ext;
      LinkedAttach(nodes, Kids(), Leaves(), p, seg, next);
    }

    twostate lemma WasAttached(new p: Path, new seg: string, new next: Node)
      requires p in old(nodes) && p in old(Kids()) && Ext(p, seg) !in old(nodes)
      requires nodes == old(nodes)[Ext(p, seg) := next]
      requires old(nodes)[p].children == old(nodes[p].children)[seg := next]
      requires next.children == map[]
      requires forall q | q in old(nodes) && q != p :: unchanged(old(nodes)[q])
      ensures Kids() == old(Kids())[p := old(Kids())[p][seg := next]][Ext(p, seg) := map[]]
    {
      hide Ext, Leaves;
      ExtLonger(p, seg);
    }

    twostate lemma LeavesAttached(new p: Path, new seg: string, new next: Node)
      requires p in old(nodes) && Ext(p, seg) !in old(nodes)
      requires nodes == old(nodes)[Ext(p, seg) := next]
      requires !next.leaf && !old(nodes)[p].leaf && !old(nodes[p].leaf)
      requires forall q | q in old(nodes) && q != p :: unchanged(old(nodes)[q])
      ensures Leaves() == old(Leaves())
    {
      hide Ext, Kids;
    }

    lemma AttachStands(p: Path, seg: string, next: Node, was: map<Path, Node>)
      requires nodes == was[Ext(p, seg) := next] && [] in was && was[[]] == root
      requires LinkedAs(nodes, Kids(), Leaves())
      ensures Linked()
    {
      hide LinkedAs, Kids, Leaves;
      RootIsShort(p, seg);
    }

    /** The loop of insert, i segments along: cur is there, and no shorter path covers this one so far. */
    ghost predicate At(path: Path, i: nat, cur: Node, before: Paths)
      reads this, nodes.Values
    {
      && i <= |path| && path[..i] in nodes && nodes[path[..i]] == cur
      && Linked() && Leading(path[..i]) && Leaves() == before
      && (forall j | 0 <= j < i :: path[..j] !in before)
    }

    lemma AtStart(path: Path)
      requires Valid()
      ensures At(path, 0, root, Leaves()) && root in nodes.Values
    {
    }

    lemma AtFacts(path: Path, i: nat, cur: Node, before: Paths)
      requires At(path, i, cur, before)
      ensures Linked() && i <= |path| && path[..i] in nodes && nodes[path[..i]] == cur && Leaves() == before
    {
    }

    lemma AtLeaf(path: Path, i: nat, cur: Node, before: Paths)
      requires At(path, i, cur, before) && cur.leaf
      ensures Valid() && before == Inserted(before, path) && Leaves() == before
    {
      hide Linked;
      assert path[..i] in before && Contains(path[..i], path);
    }

    lemma AtChild(path: Path, i: nat, cur: Node, before: Paths)
      requires At(path, i, cur, before) && i < |path| && !cur.leaf && path[i] in cur.children
      ensures At(path, i + 1, cur.children[path[i]], before) && cur.children[path[i]] in nodes.Values
    {
      hide Ext, Contains;
      ExtPrefix(path, i);
      assert path[..i] !in before;
    }

    lemma AtEnd(path: Path, cur: Node, before: Paths)
      requires At(path, |path|, cur, before)
      ensures Linked() && Leading(path) && path in nodes && nodes[path] == cur && Leaves() == before
      ensures forall j | 0 <= j < |path| :: path[..j] !in Leaves()
    {
      hide Linked;
      assert path[..|path|] == path;
    }

    twostate lemma AtAttached(new path: Path, new i: nat, cur: Node, new before: Paths, new next: Node)
      requires old(At(path, i, cur, before)) && i < |path| && !cur.leaf && !next.leaf
      requires Linked() && Leaves() == before
      requires nodes == old(nodes)[Ext(path[..i], path[i]) := next]
      ensures At(path, i + 1, next, before)
    {
      hide Ext, Contains, Linked;
      ExtPrefix(path, i);
      assert path[..i] !in before;
    }

    /** With a node come all those on the way to it. */
    lemma {:induction false} WayIn(q: Path, j: nat)
      requires Linked() && q in nodes && j <= |q|
      ensures q[..j] in nodes
      decreases |q|
    {
      if j < |q| {
        var init, k := q[..|q| - 1], q[|q| - 1];
        assert Ext(init, k) == q;
        WayIn(init, j);
        assert init[..j] == q[..j];
      } else {
        assert q[..j] == q;
      }
    }

    /** Below a leaf there is nothing. */
    lemma NothingBelow(path: Path, q: Path)
      requires Linked() && path in nodes && nodes[path].leaf && q in nodes && Contains(path, q)
      ensures q == path
    {
      if |q| > |path| {
        assert Ext(path, q[|path|]) == q[..|path| + 1];
        WayIn(q, |path| + 1);
        assert false;
      } else {
        assert q[..|q|] == q;
      }
    }

    lemma BeforeCut(path: Path)
      requires Linked() && Leading(path) && path in nodes
      requires forall j | 0 <= j < |path| :: path[..j] !in Leaves()
      ensures CutReady(nodes, Leaves(), path) && [] in nodes && nodes[[]] == root
      ensures LinkedAs(CutOff(nodes, path), KidsLeft(Kids(), path), LeavesLeft(Leaves(), path))
      ensures forall p, q | p in nodes && q in nodes && nodes[p] == nodes[q] :: p == q
    {
      LinkedCut(nodes, Kids(), Leaves(), path);
      OnlyItself(Leaves(), path);
      if path in Leaves() {
        forall q | q in Leaves() && Contains(path, q)
          ensures q == path
        {
          NothingBelow(path, q);
        }
      }
    }

    /** The end of the path becomes a leaf and loses its children. */
    method Cut(cur: Node, ghost path: Path)
      requires Linked() && Leading(path) && path in nodes && nodes[path] == cur
      requires forall j | 0 <= j < |path| :: path[..j] !in Leaves()
      modifies this, cur
      ensures Valid() && Leaves() == Inserted(old(Leaves()), path)
      ensures nodes.Values <= old(nodes.Values)
    {
      hide LinkedAs, Contains, Inserted, CutReady, Linked, Leading, Leaves, Kids, Stays, CutOff, KidsLeft, LeavesLeft;
      BeforeCut(path);
      AfterCut(nodes, Leaves(), path);
      label before:
      cur.leaf := true;
      cur.children := map[];
      nodes := CutOff(nodes, path);
      WasCut@before(path);
      CutStands(old(nodes), old(Leaves()), path);
    }

    twostate lemma WasCut(new path: Path)
      requires path in old(nodes) && nodes == CutOff(old(nodes), path)
      requires old(nodes)[path].leaf && old(nodes)[path].children == map[]
      requires forall q | q in old(nodes) && q != path :: unchanged(old(nodes)[q])
      ensures Kids() == KidsLeft(old(Kids()), path) && Leaves() == LeavesLeft(old(Leaves()), path)
    {
      hide Contains;
      ContainsItself(path);
    }

    lemma CutStands(was: map<Path, Node>, before: Paths, path: Path)
      requires nodes == CutOff(was, path) && [] in was && was[[]] == root
      requires LinkedAs(nodes, Kids(), Leaves()) && Leaves() == LeavesLeft(before, path)
      requires forall q | q in nodes && q != [] :: exists l <- LeavesLeft(before, path) :: Contains(q, l)
      ensures Valid()
    {
      hide LinkedAs, Contains, LeavesLeft, Leaves, Kids;
      RootStays(path);
    }

    /**
     insert: walks down, making the nodes that are missing; stops where a shorter path already covers
     this one; and at the end of the path cuts off whatever was below.
     */
    method Insert(path: Path)
      requires Valid()
      modifies this, nodes.Values
      ensures Valid() && Leaves() == Inserted(old(Leaves()), path)
      ensures forall n | n in nodes.Values :: n in old(nodes.Values) || fresh(n)
    {
      hide Linked, Leading, Leaves, Valid, At, Contains, Ext, Inserted;
      ghost var before := Leaves();
      AtStart(path);
      var cur := root;
      for i := 0 to |path|
        invariant At(path, i, cur, before)
        invariant cur in nodes.Values
        invariant forall n | n in nodes.Values :: n in old(nodes.Values) || fresh(n)
      {
        if cur.leaf {
          AtLeaf(path, i, cur, before);
          return;
        }
        if path[i] in cur.children {
          AtChild(path, i, cur, before);
          cur := cur.children[path[i]];
        } else {
          var next := new Node();
          label made:
          AtFacts(path, i, cur, before);
          Attach(cur, path[i], next, path[..i]);
          AtAttached@made(path, i, cur, before, next);
          assert nodes[Ext(path[..i], path[i])] == next;
          cur := next;
        }
      }
      AtEnd(path, cur, before);
      Cut(cur, path);
    }

    // ----- walking the tree -----

    lemma RootIsThere()
      requires Valid()
      ensures [] in nodes && nodes[[]] == root
    {
    }

    /** What the node at a path and one of its keys say about the paths still to go. */
    lemma ChildRest(p: Path, k: string)
      requires Valid() && p in nodes
      ensures Sub(Rest(Leaves(), p), k) == Rest(Leaves(), Ext(p, k))
      ensures k in nodes[p].children <==> Rest(Leaves(), Ext(p, k)) != {}
      ensures k in nodes[p].children ==>
                && Ext(p, k) in nodes && nodes[Ext(p, k)] == nodes[p].children[k]
                && (nodes[Ext(p, k)].leaf <==> [] in Rest(Leaves(), Ext(p, k)))
    {
      hide Contains;
      RestStep(Leaves(), p, k);
      RestEmpty(Leaves(), Ext(p, k));
      if k in nodes[p].children {
        RootIsShort(p, k);
        OnlyRoot(Ext(p, k));
        var l :| l in Leaves() && Contains(Ext(p, k), l);
      }
      if Rest(Leaves(), Ext(p, k)) != {} {
        var l := RestFrom(Leaves(), Ext(p, k));
        WayIn(l, |Ext(p, k)|);
      }
    }

    /** includeMap: walks the children and looks each up in the document. */
    method IncludeMap(src: Value, at: Node, ghost p: Path) returns (out: Doc)
      requires Valid() && p in nodes && nodes[p] == at && src.Obj?
      ensures out == IncludeFields(src, Rest(Leaves(), p))
      decreases src, 0
    {
      hide Valid, Linked, Leading, Leaves, Rest, Sub, Ext, Include;
      ghost var paths := Rest(Leaves(), p);
      out := map[];
      var todo := at.children.Keys;
      while todo != {}
        invariant todo <= at.children.Keys
        invariant out == map k | k in IncludeFields(src, paths) && k in at.children && k !in todo ::
                           IncludeFields(src, paths)[k]
        decreases |todo|
      {
        var k :| k in todo;
        ChildRest(p, k);
        todo := todo - {k};
        if k in src.fields {
          var child := at.children[k];
          IncludeUnfolds(src.fields[k], Sub(paths, k));
          if child.leaf {
            out := out[k := src.fields[k]];
          } else {
            var sub := IncludeValue(src.fields[k], child, Ext(p, k));
            if sub.Some? {
              out := out[k := sub.value];
            }
          }
        }
      }
      forall k | k in IncludeFields(src, paths)
        ensures k in at.children
      {
        ChildRest(p, k);
        IncludeUnfolds(src.fields[k], Sub(paths, k));
      }
      assert out == IncludeFields(src, paths);
    }

    /** includeValue: element by element through an array, nothing from a scalar. */
    method IncludeValue(v: Value, at: Node, ghost p: Path) returns (out: Option<Value>)
      requires Valid() && p in nodes && nodes[p] == at && !at.leaf && Rest(Leaves(), p) != {}
      ensures out == Include(v, Rest(Leaves(), p))
      decreases v, 1
    {
      hide Valid, Linked, Leading, Rest, Sub, Ext;
      ghost var paths := Rest(Leaves(), p);
      RestEmpty(Leaves(), p);
      match v
      case Obj(_) =>
        var fields := IncludeMap(v, at, p);
        out := Some(Obj(fields));
      case Arr(items) =>
        var kept := [];
        for i := 0 to |items|
          invariant kept == IncludeItems(v, paths, i)
        {
          if items[i].Obj? {
            var fields := IncludeMap(items[i], at, p);
            kept := kept + [Obj(fields)];
          }
        }
        out := Some(Arr(kept));
      case _ => out := None;
    }

    /** excludeMap: walks the document and looks each key up in the tree. */
    method ExcludeMap(src: Value, at: Node, ghost p: Path) returns (out: Doc)
      requires Valid() && p in nodes && nodes[p] == at && src.Obj?
      ensures out == ExcludeFields(src, Rest(Leaves(), p))
      decreases src, 0
    {
      hide Valid, Linked, Leading, Leaves, Rest, Sub, Ext, Exclude;
      ghost var paths := Rest(Leaves(), p);
      out := map[];
      var todo := src.fields.Keys;
      while todo != {}
        invariant todo <= src.fields.Keys
        invariant out == map k | k in ExcludeFields(src, paths) && k !in todo :: ExcludeFields(src, paths)[k]
        decreases |todo|
      {
        var k :| k in todo;
        ChildRest(p, k);
        todo := todo - {k};
        if k !in at.children {
          out := out[k := src.fields[k]];
        } else if !at.children[k].leaf {
          var sub := ExcludeValue(src.fields[k], at.children[k], Ext(p, k));
          out := out[k := sub];
        }
      }
    }

    method ExcludeValue(v: Value, at: Node, ghost p: Path) returns (out: Value)
      requires Valid() && p in nodes && nodes[p] == at
      ensures out == Exclude(v, Rest(Leaves(), p))
      decreases v, 1
    {
      hide Valid, Linked, Leading, Leaves, Rest, Sub, Ext;
      ghost var paths := Rest(Leaves(), p);
      match v
      case Obj(_) =>
        var fields := ExcludeMap(v, at, p);
        out := Obj(fields);
      case Arr(items) =>
        var kept := [];
        for i := 0 to |items|
          invariant kept == ExcludeItems(v, paths, i)
        {
          if items[i].Obj? {
            var fields := ExcludeMap(items[i], at, p);
            kept := kept + [Obj(fields)];
          } else {
            kept := kept + [items[i]];
          }
        }
        out := Arr(kept);
      case _ => out := v;
    }
  }

  // ----- what the walkers compute -----

  /** The paths through a key, from there on. */
  ghost function Sub(paths: Paths, k: string): Paths {
    set p | p in paths && p != [] && p[0] == k :: p[1..]
  }

  /** The paths through a node, from there on. */
  ghost function Rest(paths: Paths, p: Path): Paths {
    set q | q in paths && Contains(p, q) :: q[|p|..]
  }

  lemma RestStep(paths: Paths, p: Path, k: string)
    ensures Sub(Rest(paths, p), k) == Rest(paths, Ext(p, k))
  {
    var e := Ext(p, k);
    forall q | q in paths
      ensures Contains(e, q) <==> Contains(p, q) && |q| > |p| && q[|p|] == k
      ensures Contains(e, q) ==> q[|p|..][1..] == q[|e|..]
    {
      if |q| > |p| && Contains(p, q) {
        assert q[..|p| + 1] == q[..|p|] + [q[|p|]];
      }
      if Contains(e, q) {
        assert q[..|p|] == q[..|e|][..|p|] == e[..|p|] == p;
        assert q[|p|] == q[..|e|][|p|] == e[|p|];
      }
    }
    forall r | r in Sub(Rest(paths, p), k)
      ensures r in Rest(paths, e)
    {
      var t :| t in Rest(paths, p) && t != [] && t[0] == k && r == t[1..];
      var q :| q in paths && Contains(p, q) && t == q[|p|..];
      assert q[|p|] == t[0];
    }
    forall r | r in Rest(paths, e)
      ensures r in Sub(Rest(paths, p), k)
    {
      var q :| q in paths && Contains(e, q) && r == q[|e|..];
      assert q[|p|..] in Rest(paths, p) && q[|p|..][0] == k;
    }
  }

  lemma RestEmpty(paths: Paths, p: Path)
    ensures [] in Rest(paths, p) <==> p in paths
    ensures (exists q <- paths :: Contains(p, q)) <==> Rest(paths, p) != {}
  {
    if p in paths {
      assert Contains(p, p) && p[|p|..] == [];
    }
    if [] in Rest(paths, p) {
      var q :| q in paths && Contains(p, q) && q[|p|..] == [];
      assert q == q[..|p|] + q[|p|..] == p;
    }
    if q :| q in paths && Contains(p, q) {
      assert q[|p|..] in Rest(paths, p);
    }
    if Rest(paths, p) != {} {
      var r :| r in Rest(paths, p);
      var q :| q in paths && Contains(p, q) && r == q[|p|..];
    }
  }

  lemma RestFrom(paths: Paths, p: Path) returns (q: Path)
    requires Rest(paths, p) != {}
    ensures q in paths && Contains(p, q) && |p| <= |q| && q[..|p|] == p
  {
    RestEmpty(paths, p);
    q :| q in paths && Contains(p, q);
  }

  lemma OnlyRoot(p: Path)
    ensures Contains(p, []) ==> p == []
  {
  }

  /** What inclusion makes of a value with these paths still to go; nothing when none reaches into it. */
  ghost function Include(v: Value, paths: Paths): Option<Value>
    decreases v, 1, 0
  {
    if paths == {} then None
    else if [] in paths then Some(v)
    else
      match v
      case Obj(_) => Some(Obj(IncludeFields(v, paths)))
      case Arr(items) => Some(Arr(IncludeItems(v, paths, |items|)))
      case _ => None
  }

  ghost function IncludeFields(v: Value, paths: Paths): Doc
    requires v.Obj?
    decreases v, 0, 0
  {
    map k | k in v.fields && Include(v.fields[k], Sub(paths, k)).Some? :: Include(v.fields[k], Sub(paths, k)).value
  }

  /** Of the first n elements, the documents, each with its included fields. */
  ghost function IncludeItems(v: Value, paths: Paths, n: nat): seq<Value>
    requires v.Arr? && n <= |v.items|
    decreases v, 0, n
  {
    if n == 0 then []
    else
      IncludeItems(v, paths, n - 1)
      + if v.items[n - 1].Obj? then [Obj(IncludeFields(v.items[n - 1], paths))] else []
  }

  lemma IncludeUnfolds(v: Value, paths: Paths)
    ensures paths == {} ==> Include(v, paths) == None
    ensures [] in paths ==> Include(v, paths) == Some(v)
  {
  }

  ghost function Exclude(v: Value, paths: Paths): Value
    decreases v, 1, 0
  {
    match v
    case Obj(_) => Obj(ExcludeFields(v, paths))
    case Arr(items) => Arr(ExcludeItems(v, paths, |items|))
    case _ => v
  }

  ghost function ExcludeFields(v: Value, paths: Paths): Doc
    requires v.Obj?
    decreases v, 0, 0
  {
    map k | k in v.fields && [] !in Sub(paths, k) ::
      if Sub(paths, k) == {} then v.fields[k] else Exclude(v.fields[k], Sub(paths, k))
  }

  ghost function ExcludeItems(v: Value, paths: Paths, n: nat): seq<Value>
    requires v.Arr? && n <= |v.items|
    decreases v, 0, n
  {
    if n == 0 then []
    else
      ExcludeItems(v, paths, n - 1)
      + [if v.items[n - 1].Obj? then Obj(ExcludeFields(v.items[n - 1], paths)) else v.items[n - 1]]
  }

  // ----- what a projection keeps -----

  /** The value at a path of keys. */
  function ValueOn(v: Value, p: Path): Option<Value>
    decreases |p|
  {
    if p == [] then Some(v)
    else if v.Obj? && p[0] in v.fields then ValueOn(v.fields[p[0]], p[1..])
    else None
  }

  predicate Scalar(v: Value) {
    !v.Obj? && !v.Arr?
  }

  predicate ArrayFree(v: Value)
    decreases v
  {
    !v.Arr? && (v.Obj? ==> forall k <- v.fields :: ArrayFree(v.fields[k]))
  }

  lemma CoversStep(paths: Paths, p: Path)
    requires p != []
    ensures Covers(paths, p) <==> [] in paths || Covers(Sub(paths, p[0]), p[1..])
  {
    if [] in paths {
      assert Contains([], p);
    }
    if Covers(paths, p) && [] !in paths {
      var q :| q in paths && Contains(q, p);
      assert q[0] == p[..|q|][0];
      assert p[1..][..|q| - 1] == p[..|q|][1..];
      assert q[1..] in Sub(paths, p[0]) && Contains(q[1..], p[1..]);
    }
    if Covers(Sub(paths, p[0]), p[1..]) {
      var r :| r in Sub(paths, p[0]) && Contains(r, p[1..]);
      var q :| q in paths && q != [] && q[0] == p[0] && r == q[1..];
      assert q == [q[0]] + q[1..];
      assert p[..|q|] == [p[0]] + p[1..][..|r|];
      assert Contains(q, p);
    }
  }

  lemma CoversNothing(paths: Paths)
    ensures Covers(paths, []) <==> [] in paths
  {
    assert Contains([], []);
  }

  /** A scalar survives inclusion exactly when some path of the tree names it or something it is part of. */
  lemma {:induction false} IncludeKeeps(v: Value, paths: Paths, p: Path, s: Value)
    requires ArrayFree(v) && Scalar(s)
    ensures (Include(v, paths).Some? && ValueOn(Include(v, paths).value, p) == Some(s)) <==>
            (ValueOn(v, p) == Some(s) && Covers(paths, p))
    decreases v
  {
    if p == [] {
      CoversNothing(paths);
    } else {
      CoversStep(paths, p);
      if v.Obj? && [] !in paths {
        if p[0] in v.fields {
          IncludeKeeps(v.fields[p[0]], Sub(paths, p[0]), p[1..], s);
        }
      }
    }
  }

  /** It survives exclusion exactly when none does. */
  lemma {:induction false} ExcludeKeeps(v: Value, paths: Paths, p: Path, s: Value)
    requires ArrayFree(v) && Scalar(s) && [] !in paths
    ensures ValueOn(Exclude(v, paths), p) == Some(s) <==> ValueOn(v, p) == Some(s) && !Covers(paths, p)
    decreases v
  {
    if p == [] {
      CoversNothing(paths);
    } else {
      CoversStep(paths, p);
      if v.Obj? && p[0] in v.fields {
        var sub := Sub(paths, p[0]);
        if [] in sub {
          assert Contains([], p[1..]);
        } else if sub != {} {
          ExcludeKeeps(v.fields[p[0]], sub, p[1..], s);
        }
      }
    }
  }

  /** So the two directions of one tree split the scalars of an array-free document between them. */
  lemma ScalarsSplit(doc: Doc, paths: Paths, p: Path, s: Value)
    requires ArrayFree(Obj(doc)) && Scalar(s) && [] !in paths
    ensures var kept, left := Obj(IncludeFields(Obj(doc), paths)), Obj(ExcludeFields(Obj(doc), paths));
            && (ValueOn(kept, p) == Some(s) <==> ValueOn(Obj(doc), p) == Some(s) && Covers(paths, p))
            && (ValueOn(left, p) == Some(s) <==> ValueOn(Obj(doc), p) == Some(s) && !Covers(paths, p))
  {
    IncludeKeeps(Obj(doc), paths, p, s);
    ExcludeKeeps(Obj(doc), paths, p, s);
    if paths == {} {
      NothingIncluded(Obj(doc), paths);
    }
  }

  lemma NothingIncluded(v: Value, paths: Paths)
    requires v.Obj? && paths == {}
    ensures IncludeFields(v, paths) == map[]
  {
    assert forall k: string :: Sub(paths, k) == {};
  }

  // ----- projecting twice -----

  /** Including what inclusion left changes nothing, arrays and all. */
  lemma {:induction false} IncludeTwice(v: Value, paths: Paths)
    ensures Include(v, paths).Some? ==> Include(Include(v, paths).value, paths) == Include(v, paths)
    ensures v.Obj? ==> IncludeFields(Obj(IncludeFields(v, paths)), paths) == IncludeFields(v, paths)
    decreases v, 1, 0
  {
    match v
    case Obj(fields) =>
      forall k | k in fields
        ensures var sub := Sub(paths, k);
                Include(fields[k], sub).Some? ==> Include(Include(fields[k], sub).value, sub) == Include(fields[k], sub)
      {
        IncludeTwice(fields[k], Sub(paths, k));
      }
      assert IncludeFields(Obj(IncludeFields(v, paths)), paths) == IncludeFields(v, paths);
    case Arr(items) =>
      ItemsTwice(v, paths, |items|);
    case _ =>
  }

  lemma {:induction false} ItemsTwice(v: Value, paths: Paths, n: nat)
    requires v.Arr? && n <= |v.items|
    ensures var kept := IncludeItems(v, paths, n); IncludeItems(Arr(kept), paths, |kept|) == kept
    decreases v, 0, n
  {
    if n > 0 {
      ItemsTwice(v, paths, n - 1);
      var kept, item := IncludeItems(v, paths, n - 1), v.items[n - 1];
      if item.Obj? {
        IncludeTwice(item, paths);
        var more := kept + [Obj(IncludeFields(item, paths))];
        ItemsPrefix(Arr(more), Arr(kept), paths, |kept|);
        OneItem(Arr(more), paths, |more|);
      } else {
        assert IncludeItems(v, paths, n) == kept;
      }
    }
  }

  lemma OneItem(v: Value, paths: Paths, n: nat)
    requires v.Arr? && 0 < n <= |v.items| && v.items[n - 1].Obj?
    ensures IncludeItems(v, paths, n) == IncludeItems(v, paths, n - 1) + [Obj(IncludeFields(v.items[n - 1], paths))]
  {
  }

  lemma {:induction false} ItemsPrefix(a: Value, b: Value, paths: Paths, n: nat)
    requires a.Arr? && b.Arr? && n <= |a.items| && n <= |b.items| && a.items[..n] == b.items[..n]
    ensures IncludeItems(a, paths, n) == IncludeItems(b, paths, n)
    ensures ExcludeItems(a, paths, n) == ExcludeItems(b, paths, n)
  {
    if n > 0 {
      assert a.items[n - 1] == a.items[..n][n - 1] == b.items[..n][n - 1] == b.items[n - 1];
      assert a.items[..n - 1] == a.items[..n][..n - 1] == b.items[..n][..n - 1] == b.items[..n - 1];
      ItemsPrefix(a, b, paths, n - 1);
    }
  }

  /** Nor does excluding again what exclusion left. */
  lemma {:induction false} ExcludeTwice(v: Value, paths: Paths)
    ensures Exclude(Exclude(v, paths), paths) == Exclude(v, paths)
    ensures v.Obj? ==> ExcludeFields(Obj(ExcludeFields(v, paths)), paths) == ExcludeFields(v, paths)
    decreases v, 1, 0
  {
    match v
    case Obj(fields) =>
      forall k | k in fields
        ensures var sub := Sub(paths, k); Exclude(Exclude(fields[k], sub), sub) == Exclude(fields[k], sub)
      {
        ExcludeTwice(fields[k], Sub(paths, k));
      }
      assert ExcludeFields(Obj(ExcludeFields(v, paths)), paths) == ExcludeFields(v, paths);
    case Arr(items) =>
      ExcludedItemsTwice(v, paths, |items|);
    case _ =>
  }

  lemma {:induction false} ExcludedItemsTwice(v: Value, paths: Paths, n: nat)
    requires v.Arr? && n <= |v.items|
    ensures var kept := ExcludeItems(v, paths, n); |kept| == n && ExcludeItems(Arr(kept), paths, n) == kept
    decreases v, 0, n
  {
    if n > 0 {
      ExcludedItemsTwice(v, paths, n - 1);
      var kept, item := ExcludeItems(v, paths, n - 1), v.items[n - 1];
      if item.Obj? {
        ExcludeTwice(item, paths);
      }
      var more := ExcludeItems(v, paths, n);
      assert more[..n - 1] == kept;
      ItemsPrefix(Arr(more), Arr(kept), paths, n - 1);
    }
  }

  // ----- compiling a projection -----

  /** projectionValue: one field's yes or no; anything but a boolean or a number is an error. */
  function ProjectionValue(v: Value): Option<bool> {
    match v
    case Bool(b) => Some(b)
    case Num(n) => Some(n != 0.0)
    case _ => None
  }

  predicate ValidPath(field: string) {
    field != "" && "" !in SplitPath(field) && !IsOperator(field)
  }

  /** One field of a projection document with the path it names. */
  datatype Named = Named(field: string, path: Path)

  ghost predicate WellFormedSpec(spec: Value)
    requires spec.Obj?
  {
    forall k <- spec.fields :: ProjectionValue(spec.fields[k]).Some? && ValidPath(k)
  }

  /** The paths a projection document includes, and those it excludes. */
  ghost function NamedPaths(spec: Value, keep: bool): Paths
    requires spec.Obj?
  {
    set k | k in spec.fields && ProjectionValue(spec.fields[k]) == Some(keep) :: SplitPath(k)
  }

  /** A path on each side, one part of the other. */
  ghost predicate Clashing(excl: Paths, incl: Paths) {
    exists e <- excl, i <- incl :: Contains(e, i) || Contains(i, e)
  }

  ghost predicate Compiles(spec: Value)
    requires spec.Obj?
  {
    WellFormedSpec(spec) && !Clashing(NamedPaths(spec, false), NamedPaths(spec, true))
  }

  /** The paths the compiled tree has to cover: the inclusions with _id, or else the exclusions. */
  ghost function Wanted(spec: Value): Paths
    requires spec.Obj?
  {
    var incl, excl := NamedPaths(spec, true), NamedPaths(spec, false);
    if incl == {} then excl else if ["_id"] in excl then incl else incl + {["_id"]}
  }

  datatype Projection = Whole | Narrow(including: bool, tree: Tree)

  ghost function PathsOf(list: seq<Named>): Paths {
    set n | n in list :: n.path
  }

  /** The first n keys in order, those with the given answer. */
  ghost function NamedUpTo(spec: Value, keep: bool, n: nat): seq<Named>
    requires spec.Obj? && n <= |spec.fields|
  {
    if n == 0 then []
    else
      NamedUpTo(spec, keep, n - 1)
      + if ProjectionValue(ValueAt(spec, n - 1)) == Some(keep)
        then [Named(KeyAt(spec, n - 1), SplitPath(KeyAt(spec, n - 1)))] else []
  }

  lemma {:induction false} NamedUpToAre(spec: Value, keep: bool, n: nat)
    requires spec.Obj? && n <= |spec.fields|
    ensures forall e: Named :: e in NamedUpTo(spec, keep, n) <==>
              exists i | 0 <= i < n :: ProjectionValue(ValueAt(spec, i)) == Some(keep)
                                       && e == Named(KeyAt(spec, i), SplitPath(KeyAt(spec, i)))
  {
    hide ValueAt, KeyAt, ProjectionValue, SplitPath;
    if n > 0 {
      NamedUpToAre(spec, keep, n - 1);
    }
  }

  lemma NamedAll(spec: Value, keep: bool)
    requires spec.Obj?
    ensures PathsOf(NamedUpTo(spec, keep, |spec.fields|)) == NamedPaths(spec, keep)
  {
    hide ValueAt, KeyAt, ProjectionValue, SplitPath;
    NamedUpToAre(spec, keep, |spec.fields|);
    EveryKey(spec);
    var list := NamedUpTo(spec, keep, |spec.fields|);
    forall p | p in NamedPaths(spec, keep)
      ensures p in PathsOf(list)
    {
      var k :| k in spec.fields && ProjectionValue(spec.fields[k]) == Some(keep) && p == SplitPath(k);
      var i :| 0 <= i < |spec.fields| && KeyAt(spec, i) == k;
      assert ProjectionValue(ValueAt(spec, i)) == Some(keep);
      assert Named(k, p) in list;
    }
  }

  /** Every path of the list, put into a fresh tree. */
  method Plant(list: seq<Named>) returns (tree: Tree)
    ensures fresh(tree) && fresh(tree.nodes.Values) && tree.Valid() && tree.Leaves() == Minimal(PathsOf(list))
  {
    hide Tree.Valid, Tree.Leaves, Inserted, Minimal, PathsOf, InsertedAll;
    tree := new Tree();
    ghost var paths: seq<Path> := [];
    Planted(list, paths);
    for i := 0 to |list|
      invariant fresh(tree) && fresh(tree.nodes.Values) && tree.Valid()
      invariant |paths| == i && forall j | 0 <= j < i :: paths[j] == list[j].path
      invariant tree.Leaves() == InsertedAll(paths)
    {
      tree.Insert(list[i].path);
      OneMorePath(paths, list[i].path);
      paths := paths + [list[i].path];
    }
    Planted(list, paths);
  }

  lemma OneMorePath(paths: seq<Path>, p: Path)
    ensures InsertedAll(paths + [p]) == Inserted(InsertedAll(paths), p)
  {
    assert (paths + [p])[..|paths|] == paths;
  }

  lemma Planted(list: seq<Named>, paths: seq<Path>)
    ensures InsertedAll([]) == {}
    ensures |paths| == |list| && (forall j | 0 <= j < |list| :: paths[j] == list[j].path) ==>
              InsertedAll(paths) == Minimal(PathsOf(list))
  {
    if |paths| == |list| && forall j | 0 <= j < |list| :: paths[j] == list[j].path {
      InsertionOrderIsIrrelevant(paths);
      forall p | p in PathsOf(list)
        ensures p in paths
      {
        var n :| n in list && n.path == p;
        var j :| 0 <= j < |list| && list[j] == n;
        assert paths[j] == p;
      }
      forall p | p in paths
        ensures p in PathsOf(list)
      {
        var j :| 0 <= j < |list| && paths[j] == p;
        assert list[j] in list;
      }
      assert (set p | p in paths) == PathsOf(list);
    }
  }

  method CompileProjection(spec: Value) returns (r: Option<Projection>)
    requires spec.Obj?
    ensures r.Some? <==> Compiles(spec)
    ensures r.Some? ==> (r.value.Whole? <==> spec.fields == map[])
    ensures r.Some? && r.value.Narrow? ==>
              && r.value.including == (NamedPaths(spec, true) != {})
              && r.value.tree.Valid() && r.value.tree.Leaves() == Minimal(Wanted(spec))
  {
    hide Tree.Valid, Tree.Leaves, Minimal, PathsOf, NamedPaths, Wanted, Clashing, Compiles, ValidPath, ProjectionValue;
    hide SplitPath, KeyAt, ValueAt;
    if |spec.fields| == 0 {
      NothingToCompile(spec);
      return Some(Whole);
    }
    var incl: seq<Named>, excl: seq<Named> := [], [];
    for i := 0 to |spec.fields|
      invariant incl == NamedUpTo(spec, true, i) && excl == NamedUpTo(spec, false, i)
      invariant forall j | 0 <= j < i :: ProjectionValue(ValueAt(spec, j)).Some? && ValidPath(KeyAt(spec, j))
    {
      var field, keep := KeyAt(spec, i), ProjectionValue(ValueAt(spec, i));
      if keep.None? || !ValidPath(field) {
        BadField(spec, i);
        return None;
      }
      if keep.value {
        incl := incl + [Named(field, SplitPath(field))];
      } else {
        excl := excl + [Named(field, SplitPath(field))];
      }
    }
    BothSides(spec, incl, excl);
    if |incl| == 0 {
      var tree := Plant(excl);
      return Some(Narrow(false, tree));
    }
    var clash, idExcluded := CheckExclusions(incl, excl);
    if clash {
      return None;
    }
    var id := Named("_id", ["_id"]);
    var tree := Plant(if idExcluded then incl else incl + [id]);
    WantedWithId(spec, incl, excl);
    r := Some(Narrow(true, tree));
  }

  lemma NothingToCompile(spec: Value)
    requires spec.Obj? && |spec.fields| == 0
    ensures Compiles(spec) && spec.fields == map[]
  {
  }

  lemma BadField(spec: Value, i: nat)
    requires spec.Obj? && i < |spec.fields|
    requires ProjectionValue(ValueAt(spec, i)).None? || !ValidPath(KeyAt(spec, i))
    ensures !Compiles(spec) && spec.fields != map[]
  {
    EveryKey(spec);
  }

  /** With every field good, the two lists hold the two sides of the document. */
  lemma BothSides(spec: Value, incl: seq<Named>, excl: seq<Named>)
    requires spec.Obj? && spec.fields != map[]
    requires incl == NamedUpTo(spec, true, |spec.fields|) && excl == NamedUpTo(spec, false, |spec.fields|)
    requires forall j | 0 <= j < |spec.fields| :: ProjectionValue(ValueAt(spec, j)).Some? && ValidPath(KeyAt(spec, j))
    ensures PathsOf(incl) == NamedPaths(spec, true) && PathsOf(excl) == NamedPaths(spec, false)
    ensures Compiles(spec) <==> !Clashing(PathsOf(excl), PathsOf(incl))
    ensures forall e <- excl :: e.path == SplitPath(e.field)
    ensures incl == [] ==> NamedPaths(spec, true) == {} && Compiles(spec) && Wanted(spec) == PathsOf(excl)
    ensures incl != [] ==> NamedPaths(spec, true) != {}
  {
    hide ProjectionValue, ValidPath, SplitPath, KeyAt, ValueAt, Contains;
    NamedAll(spec, true);
    NamedAll(spec, false);
    NamedUpToAre(spec, false, |spec.fields|);
    EveryKey(spec);
    if incl != [] {
      assert incl[0] in incl && incl[0].path in PathsOf(incl);
    }
  }

  lemma WantedWithId(spec: Value, incl: seq<Named>, excl: seq<Named>)
    requires spec.Obj? && incl != []
    requires PathsOf(incl) == NamedPaths(spec, true) && PathsOf(excl) == NamedPaths(spec, false)
    ensures ["_id"] in PathsOf(excl) ==> Wanted(spec) == PathsOf(incl)
    ensures ["_id"] !in PathsOf(excl) ==> Wanted(spec) == PathsOf(incl + [Named("_id", ["_id"])])
  {
    hide NamedPaths;
    assert incl[0] in incl && incl[0].path in PathsOf(incl);
    assert PathsOf(incl + [Named("_id", ["_id"])]) == PathsOf(incl) + {["_id"]};
  }

  /** The loop over the exclusions beside an inclusion. */
  method CheckExclusions(incl: seq<Named>, excl: seq<Named>) returns (clash: bool, idExcluded: bool)
    requires forall e <- excl :: e.path == SplitPath(e.field)
    ensures clash <==> Clashing(PathsOf(excl), PathsOf(incl))
    ensures !clash ==> (idExcluded <==> ["_id"] in PathsOf(excl))
  {
    clash, idExcluded := false, false;
    IdPath();
    for i := 0 to |excl|
      invariant !clash
      invariant forall a, b | 0 <= a < i && 0 <= b < |incl| :: Apart(excl[a].path, incl[b].path)
      invariant idExcluded <==> exists a | 0 <= a < i :: excl[a].path == ["_id"]
    {
      for j := 0 to |incl|
        invariant forall b | 0 <= b < j :: Apart(excl[i].path, incl[b].path)
      {
        if !Apart(excl[i].path, incl[j].path) {
          assert excl[i].path in PathsOf(excl) && incl[j].path in PathsOf(incl);
          return true, idExcluded;
        }
      }
      SplitOnce(excl[i].field, "_id");
      if excl[i].field == "_id" {
        idExcluded := true;
      }
    }
    if idExcluded {
      var a :| 0 <= a < |excl| && excl[a].path == ["_id"];
      assert excl[a] in excl;
    }
  }

  /** Neither path is part of what the other names. */
  predicate Apart(a: Path, b: Path) {
    !Contains(a, b) && !Contains(b, a)
  }

  lemma SplitOnce(a: string, b: string)
    ensures SplitPath(a) == SplitPath(b) ==> a == b
  {
    assert Joined(SplitPath(a)) == a && Joined(SplitPath(b)) == b;
  }

  lemma IdPath()
    ensures SplitPath("_id") == ["_id"]
  {
    assert SplitPath("") == [""];
    assert SplitPath("d") == ["d"];
    assert "id"[1..] == "d" && "_id"[1..] == "id";
    assert SplitPath("id") == ["id"];
  }

  /** What a projection document makes of a document. */
  ghost function Projected(spec: Value, doc: Doc): Doc
    requires spec.Obj?
  {
    if spec.fields == map[] then doc
    else if NamedPaths(spec, true) != {} then IncludeFields(Obj(doc), Minimal(Wanted(spec)))
    else ExcludeFields(Obj(doc), Minimal(Wanted(spec)))
  }

  /** Apply, after a successful compilation. */
  method Apply(proj: Projection, doc: Doc, ghost spec: Value) returns (out: Doc)
    requires spec.Obj? && (proj.Whole? <==> spec.fields == map[])
    requires proj.Narrow? ==>
               && proj.including == (NamedPaths(spec, true) != {})
               && proj.tree.Valid() && proj.tree.Leaves() == Minimal(Wanted(spec))
    ensures out == Projected(spec, doc)
  {
    hide Tree.Valid, Tree.Leaves, Minimal, NamedPaths, Wanted, Rest;
    match proj
    case Whole => out := doc;
    case Narrow(including, tree) =>
      tree.RootIsThere();
      RestOfAll(tree.Leaves());
      if including {
        out := tree.IncludeMap(Obj(doc), tree.root, []);
      } else {
        out := tree.ExcludeMap(Obj(doc), tree.root, []);
      }
  }

  lemma RestOfAll(paths: Paths)
    ensures Rest(paths, []) == paths
  {
    forall q | q in paths
      ensures q in Rest(paths, [])
    {
      assert Contains([], q) && q[0..] == q;
    }
    forall q | q in Rest(paths, [])
      ensures q in paths
    {
      var r :| r in paths && Contains([], r) && q == r[0..];
      assert q == r;
    }
  }

  lemma CoversMinimal(paths: Paths, p: Path)
    ensures Covers(Minimal(paths), p) <==> Covers(paths, p)
  {
    if Covers(paths, p) {
      var q :| q in paths && Contains(q, p);
      MinimalCovers(paths, q);
      var m :| m in Minimal(paths) && Contains(m, q);
      ContainsTransitive(m, q, p);
    }
  }

  /**
   The promise of a projection, from the document that asks for it: with any inclusion, a scalar
   stays exactly when it lies on or below an included path, or below _id unless that is excluded;
   with none, exactly when it lies on or below no excluded path.
   */
  lemma ProjectionKeeps(spec: Value, doc: Doc, p: Path, s: Value)
    requires spec.Obj? && spec.fields != map[] && ArrayFree(Obj(doc)) && Scalar(s)
    ensures ValueOn(Obj(Projected(spec, doc)), p) == Some(s) <==>
            ValueOn(Obj(doc), p) == Some(s) && (Covers(Wanted(spec), p) <==> NamedPaths(spec, true) != {})
  {
    hide Contains, ProjectionValue;
    assert [] !in Wanted(spec);
    ScalarsSplit(doc, Minimal(Wanted(spec)), p, s);
    CoversMinimal(Wanted(spec), p);
  }

  /** Projecting twice is projecting once, for any document. */
  lemma ProjectedTwice(spec: Value, doc: Doc)
    requires spec.Obj?
    ensures Projected(spec, Projected(spec, doc)) == Projected(spec, doc)
  {
    IncludeTwice(Obj(doc), Minimal(Wanted(spec)));
    ExcludeTwice(Obj(doc), Minimal(Wanted(spec)));
  }
}
