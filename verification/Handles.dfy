/**
 The handle table of the C interface (capi/capi.go): opening, acquiring, releasing and closing, each
 critical section under the registry lock one step, interleaved in any way. A close that finds calls
 inside sleeps on the condition variable, which a release that empties a handle broadcasts.
 */
module Handles {

  /** Where a foreign call stands between two critical sections; a call not listed is outside. */
  datatype Call =
    | Inside(id: int)
    | Waiting(id: int, asleep: bool)
    | Closing(id: int)

  /** A handle: its count, its mark, whether the registry lists it, how often its database was closed. */
  datatype Entry = Entry(refs: int, closed: bool, listed: bool, closes: nat)

  /** All handles ever given out, the one with id i at position i - 1, and the calls under way. */
  datatype State = State(handles: seq<Entry>, calls: map<nat, Call>) {
    predicate Knows(id: int) {
      1 <= id <= |handles|
    }

    function At(id: int): Entry
      requires Knows(id)
    {
      handles[id - 1]
    }

    function With(id: int, e: Entry): State
      requires Knows(id)
    {
      State(handles[id - 1 := e], calls)
    }

    function Calling(t: nat, c: Call): State {
      State(handles, calls[t := c])
    }

    function Returned(t: nat): State {
      State(handles, calls - {t})
    }
  }

  /** One critical section, or the closing of a database after it, by call t. */
  datatype Step =
    | Open
    | Acquire(t: nat, id: int)
    | Release(t: nat)
    | Close(t: nat, id: int)
    | Wake(t: nat)
    | CloseDatabase(t: nat)

  /** A step is possible: a new call has to be new, and a call goes on from where it stands. */
  predicate Enabled(s: State, step: Step) {
    match step
    case Open => true
    case Acquire(t, _) => t !in s.calls
    case Release(t) => t in s.calls && s.calls[t].Inside? && s.Knows(s.calls[t].id)
    case Close(t, _) => t !in s.calls
    case Wake(t) => t in s.calls && s.calls[t].Waiting? && !s.calls[t].asleep && s.Knows(s.calls[t].id)
    case CloseDatabase(t) => t in s.calls && s.calls[t].Closing? && s.Knows(s.calls[t].id)
  }

  /** The broadcast: every sleeper is awake. */
  function Awake(calls: map<nat, Call>): map<nat, Call> {
    map t | t in calls :: if calls[t].Waiting? then Waiting(calls[t].id, false) else calls[t]
  }

  /** The check of the waiting loop: go to sleep, or take the handle off the registry. */
  function Wait(s: State, t: nat, id: int): State
    requires s.Knows(id)
  {
    var e := s.At(id);
    if e.refs > 0 then s.Calling(t, Waiting(id, true))
    else s.With(id, e.(listed := false)).Calling(t, Closing(id))
  }

  function Next(s: State, step: Step): State
    requires Enabled(s, step)
  {
    match step
    case Open => State(s.handles + [Entry(0, false, true, 0)], s.calls)
    case Acquire(t, id) =>
      if !s.Knows(id) || !s.At(id).listed || s.At(id).closed then s
      else s.With(id, s.At(id).(refs := s.At(id).refs + 1)).Calling(t, Inside(id))
    case Release(t) =>
      var id := s.calls[t].id;
      var e := s.At(id);
      var left := s.With(id, e.(refs := e.refs - 1)).Returned(t);
      if e.refs - 1 == 0 then State(left.handles, Awake(left.calls)) else left
    case Close(t, id) =>
      if !s.Knows(id) || !s.At(id).listed || s.At(id).closed then s
      else Wait(s.With(id, s.At(id).(closed := true)), t, id)
    case Wake(t) => Wait(s, t, s.calls[t].id)
    case CloseDatabase(t) =>
      var id := s.calls[t].id;
      s.With(id, s.At(id).(closes := s.At(id).closes + 1)).Returned(t)
  }

  // ----- what every run keeps -----

  /** The calls inside a handle, and the one call that is closing it. */
  ghost function Insiders(s: State, id: int): set<nat> {
    set t | t in s.calls && s.calls[t] == Inside(id)
  }

  ghost predicate Closer(s: State, t: nat, id: int) {
    t in s.calls && !s.calls[t].Inside? && s.calls[t].id == id
  }

  ghost predicate NoCloser(s: State, id: int) {
    forall t | t in s.calls :: !Closer(s, t, id)
  }

  ghost predicate SoundHandle(s: State, id: int)
    requires s.Knows(id)
  {
    var e := s.At(id);
    && e.refs == |Insiders(s, id)|
    && (forall t, u | t in s.calls && u in s.calls && Closer(s, t, id) && Closer(s, u, id) :: t == u)
    && (forall t | t in s.calls && Closer(s, t, id) ::
          && e.closed && e.closes == 0
          && (s.calls[t].Waiting? ==> e.listed && (s.calls[t].asleep ==> e.refs > 0))
          && (s.calls[t].Closing? ==> !e.listed && e.refs == 0))
    && (!e.closed ==> e.listed && e.closes == 0)
    && (e.closed && NoCloser(s, id) ==> !e.listed && e.refs == 0 && e.closes == 1)
    && (e.closes > 0 ==> e.closed && NoCloser(s, id))
  }

  ghost predicate Sound(s: State) {
    && (forall t | t in s.calls :: s.Knows(s.calls[t].id))
    && (forall id | 1 <= id <= |s.handles| :: SoundHandle(s, id))
  }

  lemma SoundAtStart()
    ensures Sound(State([], map[]))
  {
  }

  /** A handle none of whose fields or calls changed is as sound as it was. */
  lemma OtherHandle(s: State, n: State, id: int)
    requires s.Knows(id) && n.Knows(id) && SoundHandle(s, id) && s.At(id) == n.At(id)
    requires forall t | t in s.calls && s.calls[t].id == id :: t in n.calls && n.calls[t] == s.calls[t]
    requires forall t | t in n.calls && n.calls[t].id == id :: t in s.calls && s.calls[t].id == id
    ensures SoundHandle(n, id)
  {
    assert Insiders(s, id) == Insiders(n, id);
    forall t: nat
      ensures Closer(s, t, id) <==> Closer(n, t, id)
    {
    }
  }

  /** Sound but for one handle, all of whose own conditions have been shown. */
  lemma SoundButFor(s: State, n: State, t: nat, id: int)
    requires Sound(s) && n.Knows(id) && |n.handles| == |s.handles|
    requires forall x | 1 <= x <= |s.handles| && x != id :: s.At(x) == n.At(x)
    requires forall u: nat | u != t :: (u in s.calls <==> u in n.calls) && (u in s.calls ==> s.calls[u] == n.calls[u])
    requires t in s.calls ==> s.calls[t].id == id
    requires t in n.calls ==> n.calls[t].id == id
    requires SoundHandle(n, id)
    ensures Sound(n)
  {
    hide SoundHandle;
    forall x | 1 <= x <= |n.handles| && x != id
      ensures SoundHandle(n, x)
    {
      OtherHandle(s, n, x);
    }
  }

  lemma OpenKeeps(s: State)
    requires Sound(s)
    ensures Sound(Next(s, Open))
  {
    var n := Next(s, Open);
    forall id | 1 <= id <= |n.handles|
      ensures SoundHandle(n, id)
    {
      if id <= |s.handles| {
        OtherHandle(s, n, id);
      } else {
        assert Insiders(n, id) == {};
      }
    }
  }

  lemma AcquireKeeps(s: State, t: nat, id: int)
    requires Sound(s) && Enabled(s, Acquire(t, id))
    ensures Sound(Next(s, Acquire(t, id)))
  {
    var n := Next(s, Acquire(t, id));
    if n != s {
      assert SoundHandle(s, id);
      assert Insiders(n, id) == Insiders(s, id) + {t};
      assert forall u: nat | Closer(n, u, id) :: Closer(s, u, id);
      SoundButFor(s, n, t, id);
    }
  }

  lemma ReleaseKeeps(s: State, t: nat)
    requires Sound(s) && Enabled(s, Release(t))
    ensures Sound(Next(s, Release(t)))
  {
    var id := s.calls[t].id;
    var n := Next(s, Release(t));
    ReleasedIds(s, t);
    forall x | 1 <= x <= |n.handles|
      ensures SoundHandle(n, x)
    {
      ReleasedHandle(s, t, x);
    }
  }

  lemma ReleasedIds(s: State, t: nat)
    requires Sound(s) && Enabled(s, Release(t))
    ensures var n := Next(s, Release(t));
            |n.handles| == |s.handles| && forall u | u in n.calls :: n.Knows(n.calls[u].id)
  {
  }

  lemma ReleasedHandle(s: State, t: nat, x: int)
    requires s.Knows(x) && SoundHandle(s, x) && Enabled(s, Release(t))
    ensures SoundHandle(Next(s, Release(t)), x)
  {
    hide Insiders;
    ReleasedInsiders(s, t, x);
    ReleasedClosers(s, t, x);
  }

  lemma ReleasedInsiders(s: State, t: nat, x: int)
    requires Enabled(s, Release(t)) && s.Knows(x)
    ensures var n := Next(s, Release(t));
            Insiders(n, x) == if x == s.calls[t].id then Insiders(s, x) - {t} else Insiders(s, x)
    ensures x == s.calls[t].id ==> t in Insiders(s, x)
  {
  }

  /** It leaves the closing calls where they are, awake if the handle is empty now. */
  lemma ReleasedClosers(s: State, t: nat, x: int)
    requires Enabled(s, Release(t)) && s.Knows(x)
    ensures var n := Next(s, Release(t));
            && (forall u: nat :: Closer(n, u, x) <==> Closer(s, u, x))
            && (forall u: nat | Closer(s, u, x) ::
                  && n.calls[u].Waiting? == s.calls[u].Waiting?
                  && (n.calls[u].Waiting? && n.calls[u].asleep ==>
                        s.calls[u].asleep && s.At(s.calls[t].id).refs != 1))
  {
  }

  lemma WaitKeeps(s: State, t: nat, id: int)
    requires s.Knows(id) && s.At(id).closed && s.At(id).listed && s.At(id).closes == 0
    requires s.At(id).refs == |Insiders(s, id)|
    requires forall u: nat | u != t :: !Closer(s, u, id)
    requires t in s.calls ==> s.calls[t].Waiting?
    ensures SoundHandle(Wait(s, t, id), id)
  {
    var n := Wait(s, t, id);
    assert Insiders(n, id) == Insiders(s, id);
    assert Closer(n, t, id);
    forall u: nat | u != t
      ensures !Closer(n, u, id)
    {
      assert !Closer(s, u, id);
    }
  }

  lemma CloseKeeps(s: State, t: nat, id: int)
    requires Sound(s) && Enabled(s, Close(t, id))
    ensures Sound(Next(s, Close(t, id)))
  {
    var n := Next(s, Close(t, id));
    if n != s {
      assert SoundHandle(s, id);
      var marked := s.With(id, s.At(id).(closed := true));
      assert Insiders(marked, id) == Insiders(s, id);
      assert forall u: nat :: Closer(marked, u, id) <==> Closer(s, u, id);
      WaitKeeps(marked, t, id);
      SoundButFor(s, n, t, id);
    }
  }

  lemma WakeKeeps(s: State, t: nat)
    requires Sound(s) && Enabled(s, Wake(t))
    ensures Sound(Next(s, Wake(t)))
  {
    var id := s.calls[t].id;
    assert SoundHandle(s, id) && Closer(s, t, id);
    WaitKeeps(s, t, id);
    SoundButFor(s, Next(s, Wake(t)), t, id);
  }

  lemma CloseDatabaseKeeps(s: State, t: nat)
    requires Sound(s) && Enabled(s, CloseDatabase(t))
    ensures Sound(Next(s, CloseDatabase(t)))
  {
    var id := s.calls[t].id;
    var n := Next(s, CloseDatabase(t));
    assert SoundHandle(s, id) && Closer(s, t, id);
    assert Insiders(n, id) == Insiders(s, id);
    assert forall u: nat | Closer(n, u, id) :: Closer(s, u, id) && u != t;
    SoundButFor(s, n, t, id);
  }

  lemma StepKeeps(s: State, step: Step)
    requires Sound(s) && Enabled(s, step)
    ensures Sound(Next(s, step))
  {
    match step
    case Open => OpenKeeps(s);
    case Acquire(t, id) => AcquireKeeps(s, t, id);
    case Release(t) => ReleaseKeeps(s, t);
    case Close(t, id) => CloseKeeps(s, t, id);
    case Wake(t) => WakeKeeps(s, t);
    case CloseDatabase(t) => CloseDatabaseKeeps(s, t);
  }

  // ----- whole runs -----

  /** A run: any steps in any order, those not possible passed over. */
  function RunFrom(s: State, steps: seq<Step>): State
    decreases |steps|
  {
    if steps == [] then s
    else RunFrom(if Enabled(s, steps[0]) then Next(s, steps[0]) else s, steps[1..])
  }

  lemma {:induction false} EveryRunIsSound(s: State, steps: seq<Step>)
    requires Sound(s)
    ensures Sound(RunFrom(s, steps))
    decreases |steps|
  {
    if steps != [] {
      if Enabled(s, steps[0]) {
        StepKeeps(s, steps[0]);
      }
      EveryRunIsSound(if Enabled(s, steps[0]) then Next(s, steps[0]) else s, steps[1..]);
    }
  }

  /** What never goes back: a handle keeps its id, stays closed, stays off the registry, keeps its closings. */
  ghost predicate Onward(s: State, n: State) {
    && |s.handles| <= |n.handles|
    && forall id | 1 <= id <= |s.handles| ::
         && (s.At(id).closed ==> n.At(id).closed)
         && (!s.At(id).listed ==> !n.At(id).listed)
         && s.At(id).closes <= n.At(id).closes
  }

  lemma {:induction false} RunsGoOnward(s: State, steps: seq<Step>)
    ensures Onward(s, RunFrom(s, steps))
    decreases |steps|
  {
    if steps != [] {
      RunsGoOnward(if Enabled(s, steps[0]) then Next(s, steps[0]) else s, steps[1..]);
    }
  }

  // ----- what the protocol promises -----

  /** In every state a run can reach, the count is the number of calls inside, and no database is closed twice. */
  lemma RefsCountCallsInside(steps: seq<Step>, id: int)
    requires RunFrom(State([], map[]), steps).Knows(id)
    ensures var s := RunFrom(State([], map[]), steps);
            s.At(id).refs == |Insiders(s, id)| && s.At(id).closes <= 1
  {
    SoundAtStart();
    EveryRunIsSound(State([], map[]), steps);
    assert SoundHandle(RunFrom(State([], map[]), steps), id);
  }

  /** Whenever a database is about to be closed, no call is inside it and it has not been closed before. */
  lemma ClosedAloneAndOnce(steps: seq<Step>, t: nat)
    requires Enabled(RunFrom(State([], map[]), steps), CloseDatabase(t))
    ensures var s := RunFrom(State([], map[]), steps);
            var id := s.calls[t].id;
            Insiders(s, id) == {} && s.At(id).closes == 0 && s.At(id).closed && !s.At(id).listed
  {
    var s := RunFrom(State([], map[]), steps);
    SoundAtStart();
    EveryRunIsSound(State([], map[]), steps);
    var id := s.calls[t].id;
    assert SoundHandle(s, id) && Closer(s, t, id);
    assert |Insiders(s, id)| == 0;
  }

  /**
   A handle that is open lets in every call that asks: in every reachable state, whoever is inside
   already, the call is inside afterwards, counted once, and no other call or handle has changed.
   */
  lemma OpenHandleLetsIn(steps: seq<Step>, t: nat, id: int)
    requires var s := RunFrom(State([], map[]), steps);
             s.Knows(id) && s.At(id).listed && !s.At(id).closed && t !in s.calls
    ensures var s := RunFrom(State([], map[]), steps);
            var n := Next(s, Acquire(t, id));
            && n.calls == s.calls[t := Inside(id)] && Insiders(n, id) == Insiders(s, id) + {t}
            && |n.handles| == |s.handles| && n.At(id) == s.At(id).(refs := |Insiders(s, id)| + 1)
            && forall x | s.Knows(x) && x != id :: n.At(x) == s.At(x)
  {
    RefsCountCallsInside(steps, id);
  }

  /** A handle stays open until a call asks to close it, whatever else happens. */
  lemma {:induction false} OpenUntilAsked(s: State, steps: seq<Step>, id: int)
    requires Sound(s) && s.Knows(id) && !s.At(id).closed
    requires forall step <- steps :: !(step.Close? && step.id == id)
    ensures var n := RunFrom(s, steps); n.Knows(id) && n.At(id).listed && !n.At(id).closed
    decreases |steps|
  {
    assert SoundHandle(s, id);
    if steps != [] {
      var n := if Enabled(s, steps[0]) then Next(s, steps[0]) else s;
      if Enabled(s, steps[0]) {
        StepKeeps(s, steps[0]);
        StaysOpen(s, steps[0], id);
      }
      assert forall step | step in steps[1..] :: step in steps;
      OpenUntilAsked(n, steps[1..], id);
    }
  }

  lemma StaysOpen(s: State, step: Step, id: int)
    requires Sound(s) && s.Knows(id) && !s.At(id).closed && Enabled(s, step) && !(step.Close? && step.id == id)
    ensures Next(s, step).Knows(id) && !Next(s, step).At(id).closed
  {
  }

  /** A call that leaves is out, and no longer counted; everyone else is where they were, asleep or woken. */
  lemma LeavingIsCounted(steps: seq<Step>, t: nat)
    requires Enabled(RunFrom(State([], map[]), steps), Release(t))
    ensures var s := RunFrom(State([], map[]), steps);
            var n, id := Next(s, Release(t)), s.calls[t].id;
            && n.calls.Keys == s.calls.Keys - {t} && Insiders(n, id) == Insiders(s, id) - {t}
            && |n.handles| == |s.handles| && n.At(id) == s.At(id).(refs := |Insiders(s, id)| - 1)
            && (forall x | s.Knows(x) && x != id :: n.At(x) == s.At(x))
            && (forall u | u in n.calls && !s.calls[u].Waiting? :: n.calls[u] == s.calls[u])
  {
    var s := RunFrom(State([], map[]), steps);
    RefsCountCallsInside(steps, s.calls[t].id);
    ReleasedInsiders(s, t, s.calls[t].id);
    hide RunFrom, Insiders;
  }

  /** The first close shuts the door; it may close at once only when nobody is inside, and else waits. */
  lemma CloseShutsTheDoor(steps: seq<Step>, t: nat, id: int)
    requires var s := RunFrom(State([], map[]), steps);
             s.Knows(id) && s.At(id).listed && !s.At(id).closed && t !in s.calls
    ensures var s := RunFrom(State([], map[]), steps);
            var n := Next(s, Close(t, id));
            && n.Knows(id) && n.At(id).closed && Insiders(n, id) == Insiders(s, id)
            && n.At(id).listed == (Insiders(s, id) != {})
            && n.calls == s.calls[t := if Insiders(s, id) != {} then Waiting(id, true) else Closing(id)]
  {
    RefsCountCallsInside(steps, id);
  }

  /** The steps by which every call inside a handle leaves and a close of it that waits goes on to the end. */
  predicate Winding(steps: seq<Step>) {
    forall step <- steps :: step.Release? || step.Wake? || step.CloseDatabase?
  }

  /**
   Every close can finish: from any reachable state in which a handle is closed and its database
   still open, the calls inside leaving one by one and the waiting call going on close the database.
   */
  lemma {:induction false} EveryCloseCanFinish(s: State, id: int) returns (steps: seq<Step>)
    requires Sound(s) && s.Knows(id) && s.At(id).closed && s.At(id).closes == 0
    ensures Winding(steps) && RunFrom(s, steps).Knows(id) && RunFrom(s, steps).At(id).closes == 1
    decreases |Insiders(s, id)|
  {
    assert SoundHandle(s, id);
    if s.At(id).refs == 0 {
      var t := LastClose(s, id);
      steps := [Wake(t), CloseDatabase(t)];
    } else {
      var t :| t in Insiders(s, id);
      var n := Next(s, Release(t));
      StepKeeps(s, Release(t));
      ReleasedInsiders(s, t, id);
      var rest := EveryCloseCanFinish(n, id);
      steps := [Release(t)] + rest;
      assert steps[1..] == rest;
    }
  }

  /** With nobody inside, the one call closing the handle is awake, and going on closes the database. */
  lemma LastClose(s: State, id: int) returns (t: nat)
    requires Sound(s) && s.Knows(id) && s.At(id).closed && s.At(id).refs == 0 && s.At(id).closes == 0
    ensures Closer(s, t, id) && (Enabled(s, Wake(t)) || Enabled(s, CloseDatabase(t)))
    ensures RunFrom(s, [Wake(t), CloseDatabase(t)]).Knows(id)
    ensures RunFrom(s, [Wake(t), CloseDatabase(t)]).At(id).closes == 1
  {
    assert SoundHandle(s, id);
    t :| t in s.calls && Closer(s, t, id);
    var next := if Enabled(s, Wake(t)) then Next(s, Wake(t)) else s;
    assert [Wake(t), CloseDatabase(t)][1..] == [CloseDatabase(t)];
    assert RunFrom(s, [Wake(t), CloseDatabase(t)]) == RunFrom(next, [CloseDatabase(t)]);
    assert RunFrom(next, [CloseDatabase(t)]) == RunFrom(Next(next, CloseDatabase(t)), []);
  }

  /** Once closing has begun, no call gets in, however the run goes on. */
  lemma NobodyEntersAfterClose(s: State, steps: seq<Step>, t: nat, id: int)
    requires s.Knows(id) && s.At(id).closed
    requires Enabled(RunFrom(s, steps), Acquire(t, id))
    ensures Next(RunFrom(s, steps), Acquire(t, id)) == RunFrom(s, steps)
  {
    RunsGoOnward(s, steps);
  }

  /** A new handle gets an id no handle had, and keeps it: ids are never used again. */
  lemma IdsAreNeverReused(s: State, steps: seq<Step>)
    ensures var n := Next(s, Open);
            var id := |s.handles| + 1;
            !s.Knows(id) && n.Knows(id) && RunFrom(n, steps).Knows(id)
            && !RunFrom(n, steps).Knows(|RunFrom(n, steps).handles| + 1)
            && |RunFrom(n, steps).handles| + 1 != id
  {
    RunsGoOnward(Next(s, Open), steps);
  }

  /**
   No wake-up is lost: in every reachable state, a closed handle with no call inside and its database
   still open has one call closing it, that call can go on, and going on closes the database.
   */
  lemma WaitingCloseCanFinish(steps: seq<Step>, id: int) returns (t: nat)
    requires var s := RunFrom(State([], map[]), steps);
             s.Knows(id) && s.At(id).closed && s.At(id).refs == 0 && s.At(id).closes == 0
    ensures var s := RunFrom(State([], map[]), steps);
            && Closer(s, t, id)
            && (Enabled(s, Wake(t)) || Enabled(s, CloseDatabase(t)))
            && RunFrom(s, [Wake(t), CloseDatabase(t)]).Knows(id)
            && RunFrom(s, [Wake(t), CloseDatabase(t)]).At(id).closes == 1
  {
    var s := RunFrom(State([], map[]), steps);
    SoundAtStart();
    EveryRunIsSound(State([], map[]), steps);
    t := LastClose(s, id);
  }

  // ----- the code -----

  /** One open database with its reference count; closings counts the calls of the database's Close. */
  class Handle {
    var refs: int
    var closed: bool
    var closings: nat

    constructor ()
      ensures refs == 0 && !closed && closings == 0
    {
      refs, closed, closings := 0, false, 0;
    }
  }

  datatype Outcome = Done | Refused | MustWait

  /** The registry with its lock held. */
  class Registry {
    var registry: map<int, Handle>
    var nextID: int
    ghost var all: seq<Handle>
    ghost var calls: map<nat, Call>

    ghost predicate Valid()
      reads this
    {
      && nextID == |all| + 1
      && (forall i, j | 0 <= i < j < |all| :: all[i] != all[j])
      && forall id | id in registry :: 1 <= id <= |all| && registry[id] == all[id - 1]
    }

    ghost function View(): State
      reads this, all
    {
      State(seq(|all|, i requires 0 <= i < |all| reads this, all =>
        Entry(all[i].refs, all[i].closed, i + 1 in registry, all[i].closings)), calls)
    }

    constructor ()
      ensures Valid() && View() == State([], map[]) && all == []
    {
      registry, nextID, all, calls := map[], 1, [], map[];
    }

    /** The registration in nsq_open. */
    method Register() returns (id: int)
      requires Valid()
      modifies this
      ensures Valid() && View() == Next(old(View()), Open) && id == |old(all)| + 1
      ensures |all| == |old(all)| + 1 && all[..|old(all)|] == old(all) && fresh(all[|old(all)|])
      ensures id !in old(registry) && registry == old(registry)[id := all[id - 1]]
      ensures registry[id].refs == 0 && !registry[id].closed
    {
      id := nextID;
      nextID := nextID + 1;
      var h := new Handle();
      registry := registry[id := h];
      all := all + [h];
    }

    /** acquire: any number of calls get into a listed handle that is not closed, and none into another. */
    method Acquire(id: int, ghost t: nat) returns (h: Handle?)
      requires Valid() && t !in calls
      modifies this`calls, all
      ensures Valid() && View() == Next(old(View()), Step.Acquire(t, id))
      ensures h != null <==> id in registry && !old(registry[id].closed)
      ensures h != null ==> h == registry[id] && h.refs == old(h.refs) + 1 && calls == old(calls)[t := Inside(id)]
      ensures h != null ==> 1 <= id <= |all| && h == all[id - 1]
      ensures h == null ==> View() == old(View())
    {
      if id !in registry || registry[id].closed {
        return null;
      }
      h := registry[id];
      h.refs := h.refs + 1;
      calls := calls[t := Inside(id)];
    }

    /** release, with the broadcast when the count drops to nothing. */
    method Release(h: Handle, ghost t: nat)
      requires Valid() && Enabled(View(), Step.Release(t)) && all[calls[t].id - 1] == h
      modifies this`calls, h`refs
      ensures Valid() && View() == Next(old(View()), Step.Release(t))
      ensures h.refs == old(h.refs) - 1 && calls.Keys == old(calls.Keys) - {t}
      ensures h.refs == 0 ==> forall u | u in calls && calls[u].Waiting? :: !calls[u].asleep
    {
      h.refs := h.refs - 1;
      calls := calls - {t};
      if h.refs == 0 {
        calls := Awake(calls);
      }
    }

    /** nsq_close up to its first wait or its unlock. */
    method Close(id: int, ghost t: nat) returns (r: Outcome, h: Handle?)
      requires Valid() && t !in calls
      modifies this`calls, this`registry, all
      ensures Valid() && View() == Next(old(View()), Step.Close(t, id))
      ensures h != null ==> t in calls && calls[t].id == id && 1 <= id <= |all| && h == all[id - 1]
      ensures h == null ==> calls == old(calls)
      ensures r == MustWait <==> t in calls && calls[t].Waiting?
      ensures r == Refused <==> id !in old(registry)
      ensures h != null <==> id in old(registry) && !old(registry[id].closed)
      ensures h == null ==> View() == old(View())
      ensures h != null ==> h == old(registry[id]) && h.closed && h.refs == old(h.refs)
      ensures h != null ==> if h.refs > 0 then r == MustWait && registry == old(registry)
                            else r == Done && registry == old(registry) - {id}
    {
      if id !in registry {
        return Refused, null;
      }
      h := registry[id];
      if h.closed {
        return Done, null;
      }
      h.closed := true;
      r := Recheck(id, h, t);
    }

    /** The condition of the waiting loop and, when it is met, the removal from the registry. */
    method Recheck(id: int, h: Handle, ghost t: nat) returns (r: Outcome)
      requires Valid() && 1 <= id <= |all| && all[id - 1] == h
      modifies this`calls, this`registry
      ensures Valid() && View() == Wait(old(View()), t, id)
      ensures r == if h.refs > 0 then MustWait else Done
      ensures registry == if h.refs > 0 then old(registry) else old(registry) - {id}
    {
      if h.refs > 0 {
        calls := calls[t := Waiting(id, true)];
        return MustWait;
      }
      registry := registry - {id};
      calls := calls[t := Closing(id)];
      r := Done;
    }

    /** The call of the database's Close, after the lock is gone. */
    method CloseDatabase(h: Handle, ghost t: nat)
      requires Valid() && Enabled(View(), Step.CloseDatabase(t)) && all[calls[t].id - 1] == h
      modifies this`calls, h`closings
      ensures Valid() && View() == Next(old(View()), Step.CloseDatabase(t))
    {
      h.closings := h.closings + 1;
      calls := calls - {t};
    }
  }
}
