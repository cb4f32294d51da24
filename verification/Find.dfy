/**
 Finding the documents a write is for (collection.go, findFirstLocked and findAllLocked): a scan
 whose visitor counts the matches and stops at a limit hands out just enough of the collection
 to contain the first matches, and no more.
 */
module Find {
  import opened Wrappers
  import opened Framing
  import opened Slots
  import opened Database
  import opened Live
  import opened Scan

  /** The positions among the first n documents that a filter accepts. */
  function AcceptedUpTo(docs: seq<Bytes>, accepts: Bytes -> bool, n: nat): (ps: seq<nat>)
    requires n <= |docs|
    ensures Ascending(ps, n)
  {
    if n == 0 then []
    else
      var ps := AcceptedUpTo(docs, accepts, n - 1);
      if accepts(docs[n - 1]) then ps + [n - 1] else ps
  }

  function Accepted(docs: seq<Bytes>, accepts: Bytes -> bool): (ps: seq<nat>)
    ensures Ascending(ps, |docs|)
  {
    AcceptedUpTo(docs, accepts, |docs|)
  }

  /** The callback of a scan for at most limit matches, or for all of them when limit is not positive. */
  function Quota(accepts: Bytes -> bool, limit: int): Visitor {
    (handed: seq<Bytes>) => limit <= 0 || |Accepted(handed, accepts)| < limit
  }

  ghost predicate Wanting(docs: seq<Bytes>, accepts: Bytes -> bool, limit: int, i: nat)
    requires i <= |docs|
  {
    limit <= 0 || |AcceptedUpTo(docs, accepts, i)| < limit
  }

  lemma {:induction false} AcceptedPrefix(docs: seq<Bytes>, more: seq<Bytes>, accepts: Bytes -> bool, n: nat)
    requires n <= |docs| <= |more| && docs == more[..|docs|]
    ensures AcceptedUpTo(docs, accepts, n) == AcceptedUpTo(more, accepts, n)
  {
    if n > 0 {
      AcceptedPrefix(docs, more, accepts, n - 1);
      assert docs[n - 1] == more[n - 1];
    }
  }

  /** While matches are still wanted, the limited list is the unlimited one. */
  lemma {:induction false} NotYetFull(s: seq<Slot>, accepts: Bytes -> bool, limit: int, n: nat)
    requires n <= |s| && (n > 0 ==> Wanting(DocsOf(s), accepts, limit, n - 1))
    ensures MatchesUpTo(s, accepts, limit, n) == AcceptedUpTo(DocsOf(s), accepts, n)
  {
    if n > 0 {
      NotYetFull(s, accepts, limit, n - 1);
    }
  }

  lemma MatchesStep(s: seq<Slot>, accepts: Bytes -> bool, limit: int, n: nat)
    requires n < |s|
    ensures MatchesUpTo(s, accepts, limit, n + 1) ==
            var ps := MatchesUpTo(s, accepts, limit, n);
            if accepts(s[n].doc) && (limit <= 0 || |ps| < limit) then ps + [n] else ps
  {
  }

  /** Once the limit is reached nothing is added. */
  lemma {:induction false} Full(s: seq<Slot>, accepts: Bytes -> bool, limit: int, i: nat, n: nat)
    requires i <= n <= |s| && 0 < limit <= |MatchesUpTo(s, accepts, limit, i)|
    ensures MatchesUpTo(s, accepts, limit, n) == MatchesUpTo(s, accepts, limit, i)
  {
    hide MatchesUpTo;
    if i < n {
      Full(s, accepts, limit, i, n - 1);
      MatchesStep(s, accepts, limit, n - 1);
    }
  }

  /** The scan stops right after the match that fills the quota, or at the end. */
  lemma {:induction false} StopsWhenFull(docs: seq<Bytes>, accepts: Bytes -> bool, limit: int, i: nat)
    requires i <= |docs| && Wanting(docs, accepts, limit, i)
    ensures var n := Stop(docs, Quota(accepts, limit), i);
            && (n > 0 ==> Wanting(docs, accepts, limit, n - 1))
            && (n == |docs| || !Wanting(docs, accepts, limit, n))
    decreases |docs| - i
  {
    if i < |docs| {
      AcceptedPrefix(docs[..i + 1], docs, accepts, i + 1);
      if Wanting(docs, accepts, limit, i + 1) {
        StopsWhenFull(docs, accepts, limit, i + 1);
      }
    }
  }

  /** The matches among the documents handed out are the first matches of the collection. */
  lemma VisitedMatches(s: seq<Slot>, accepts: Bytes -> bool, limit: int)
    ensures Accepted(Visited(DocsOf(s), Quota(accepts, limit)), accepts) == Matches(s, accepts, limit)
  {
    var docs := DocsOf(s);
    var n := Stop(docs, Quota(accepts, limit), 0);
    StopsWhenFull(docs, accepts, limit, 0);
    NotYetFull(s, accepts, limit, n);
    AcceptedPrefix(docs[..n], docs, accepts, n);
    if n < |docs| {
      Full(s, accepts, limit, n, |s|);
    }
  }

  /** A scan for one match ends with it, or finds none. */
  lemma FirstIsLast(s: seq<Slot>, accepts: Bytes -> bool)
    ensures var v := Visited(DocsOf(s), Quota(accepts, 1));
            Matches(s, accepts, 1) == if v != [] && accepts(v[|v| - 1]) then [|v| - 1] else []
  {
    var docs := DocsOf(s);
    StopsWhenFull(docs, accepts, 1, 0);
    VisitedMatches(s, accepts, 1);
    var v := Visited(docs, Quota(accepts, 1));
    if v != [] {
      AcceptedPrefix(v, docs, accepts, |v| - 1);
      hide Matches, Visited;
    }
  }

  /** What the callback of findAllLocked gathers: the matches' positions and _ids. */
  method Gather(k: Codec, visits: seq<Bytes>, accepts: Bytes -> bool) returns (ps: seq<nat>, ids: seq<string>, ok: bool)
    ensures ok ==> ps == Accepted(visits, accepts) && IdsAt(k, visits, ps) == Some(ids)
    ensures !ok ==> IdsAt(k, visits, Accepted(visits, accepts)) == None
  {
    ps, ids, ok := [], [], true;
    for i := 0 to |visits|
      invariant ok && ps == AcceptedUpTo(visits, accepts, i) && IdsAt(k, visits, ps) == Some(ids)
    {
      if accepts(visits[i]) {
        assert (ps + [i])[..|ps|] == ps;
        var id := k.exact(visits[i]);
        if id == "" {
          ok := false;
          NoIds(k, visits, accepts, i + 1);
          return;
        }
        ps, ids := ps + [i], ids + [id];
      }
    }
  }

  lemma {:induction false} NoIds(k: Codec, docs: seq<Bytes>, accepts: Bytes -> bool, i: nat)
    requires i <= |docs| && IdsAt(k, docs, AcceptedUpTo(docs, accepts, i)) == None
    ensures IdsAt(k, docs, Accepted(docs, accepts)) == None
    decreases |docs| - i
  {
    if i < |docs| {
      var ps := AcceptedUpTo(docs, accepts, i);
      assert (ps + [i])[..|ps|] == ps;
      NoIds(k, docs, accepts, i + 1);
    }
  }

  /** The _ids found in a list of documents at some positions. */
  function IdsAt(k: Codec, docs: seq<Bytes>, ps: seq<nat>): Option<seq<string>>
    requires Ascending(ps, |docs|)
  {
    if ps == [] then Some([])
    else
      match IdsAt(k, docs, ps[..|ps| - 1])
      case None => None
      case Some(ids) =>
        var id := k.exact(docs[ps[|ps| - 1]]);
        if id == "" then None else Some(ids + [id])
  }

  /** Documents with usable _ids yield them all. */
  lemma {:induction false} IdsAreThere(k: Codec, s: seq<Slot>, docs: seq<Bytes>, ps: seq<nat>)
    requires IdsOk(k, s) && docs <= DocsOf(s) && Ascending(ps, |docs|)
    ensures IdsAt(k, docs, ps).Some? && |IdsAt(k, docs, ps).value| == |ps|
    ensures forall i | 0 <= i < |ps| :: k.exact(s[ps[i]].doc) == IdsAt(k, docs, ps).value[i] != ""
  {
    if ps != [] {
      var n := |ps| - 1;
      IdsAreThere(k, s, docs, ps[..n]);
      var p := ps[n];
      assert docs[p] == s[p].doc;
    }
  }
}
