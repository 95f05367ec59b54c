/** The reference-counted cross-process mutex of ipc_mutex.c as a step system.  Every step is one
    action of one process; processes may crash between any two steps. */
module IpcMutex {
  import opened Basics
  import opened RobustMutex

  /** Where a process is in the code.  `Retrying` is the head of the loop in lock after a
      recovery; the three states before it are the recovery itself. */
  datatype Place = Idle | GotOwnerDead | MadeConsistent | Decrementing | Retrying | Locked

  datatype Process = Process(segment: nat, place: Place)

  /** A shared memory segment.  `lost` counts, for the proof only, references that crashes left
      behind and no recovery will return. */
  datatype Segment = Segment(refcnt: int, mutex: Mutex, lost: nat)

  /** `procs` are the live processes with a handle, `name` the segment the name denotes. */
  datatype World = World(procs: map<Pid, Process>, segments: seq<Segment>, name: Option<nat>)

  const INITIAL := World(map[], [], None)

  datatype Event =
    | Create(p: Pid)
    | Lock(p: Pid)
    | Consistent(p: Pid)
    | UnlockDead(p: Pid)
    | Decrement(p: Pid)
    | Unlock(p: Pid)
    | Destroy(p: Pid)
    | Crash(p: Pid)

  /** Conversion to the 16-bit signed reference count. */
  function Wrap16(x: int): int {
    (x + 32768) % 65536 - 32768
  }

  function WithRefcnt(w: World, g: nat, delta: int): World
    requires g < |w.segments|
  {
    var s := w.segments[g];
    w.(segments := w.segments[g := s.(refcnt := Wrap16(s.refcnt + delta))])
  }

  function WithMutex(w: World, g: nat, m: Mutex): World
    requires g < |w.segments|
  {
    w.(segments := w.segments[g := w.segments[g].(mutex := m)])
  }

  function At(w: World, p: Pid, place: Place): World
    requires p in w.procs
  {
    w.(procs := w.procs[p := w.procs[p].(place := place)])
  }

  /** References a crash at `place` leaves behind: its own, unless the death of the owner will be
      noticed and its reference returned, and the one it was about to return for another. */
  function LostAt(place: Place): nat {
    match place
    case Locked => 0
    case Decrementing => 2
    case _ => 1
  }

  ghost predicate WellFormed(w: World) {
    && (forall p :: p in w.procs ==> w.procs[p].segment < |w.segments|)
    && (w.name.Some? ==> w.name.value < |w.segments|)
  }

  /** One step; `None` when the event cannot happen now. */
  function Next(w: World, e: Event): Option<World>
    requires WellFormed(w)
  {
    match e
    case Create(p) =>
      if p in w.procs then None
      else if w.name.None? then
        var g := |w.segments|;
        Some(World(w.procs[p := Process(g, Idle)], w.segments + [Segment(1, Free, 0)], Some(g)))
      else
        var g := w.name.value;
        Some(WithRefcnt(w.(procs := w.procs[p := Process(g, Idle)]), g, 1))
    case Lock(p) =>
      if p !in w.procs || (w.procs[p].place != Idle && w.procs[p].place != Retrying) then None
      else
        var g := w.procs[p].segment;
        var m := w.segments[g].mutex;
        if m.NotRecoverable? then Some(At(w, p, Idle))
        else if !CanLock(m) then None
        else Some(At(WithMutex(w, g, Acquire(m, p)), p, if m.Free? then Locked else GotOwnerDead))
    case Consistent(p) =>
      if p !in w.procs || w.procs[p].place != GotOwnerDead then None
      else
        var g := w.procs[p].segment;
        Some(At(WithMutex(w, g, MakeConsistent(w.segments[g].mutex)), p, MadeConsistent))
    case UnlockDead(p) =>
      if p !in w.procs || w.procs[p].place != MadeConsistent then None
      else
        var g := w.procs[p].segment;
        Some(At(WithMutex(w, g, Release(w.segments[g].mutex)), p, Decrementing))
    case Decrement(p) =>
      if p !in w.procs || w.procs[p].place != Decrementing then None
      else Some(At(WithRefcnt(w, w.procs[p].segment, -1), p, Retrying))
    case Unlock(p) =>
      if p !in w.procs || w.procs[p].place != Locked then None
      else
        var g := w.procs[p].segment;
        Some(At(WithMutex(w, g, Release(w.segments[g].mutex)), p, Idle))
    case Destroy(p) =>
      if p !in w.procs || w.procs[p].place != Idle then None
      else
        var g := w.procs[p].segment;
        var d := WithRefcnt(w.(procs := w.procs - {p}), g, -1);
        Some(if d.segments[g].refcnt == 0 then d.(name := None) else d)
    case Crash(p) =>
      if p !in w.procs then None
      else
        var g := w.procs[p].segment;
        var s := w.segments[g];
        var dead := s.(mutex := Die(s.mutex, p), lost := s.lost + LostAt(w.procs[p].place));
        Some(World(w.procs - {p}, w.segments[g := dead], w.name))
  }

  // ----- Counting references -----

  ghost function Users(procs: map<Pid, Process>, g: nat): set<Pid> {
    set p | p in procs && procs[p].segment == g
  }

  /** Places from which a process still owes the reference count a decrement for a dead owner. */
  predicate Owes(x: Process) {
    x.place == GotOwnerDead || x.place == MadeConsistent || x.place == Decrementing
  }

  ghost function Recovering(procs: map<Pid, Process>, g: nat): set<Pid> {
    set p | p in procs && procs[p].segment == g && Owes(procs[p])
  }

  /** The references segment `g` accounts for. */
  ghost function References(w: World, g: nat): nat
    requires g < |w.segments|
  {
    |Users(w.procs, g)| + |Recovering(w.procs, g)|
    + (if w.segments[g].mutex.OwnerDead? then 1 else 0) + w.segments[g].lost
  }

  function Count(b: bool): nat { if b then 1 else 0 }

  lemma RemoveProcess(procs: map<Pid, Process>, p: Pid, g: nat)
    requires p in procs
    ensures |Users(procs - {p}, g)| == |Users(procs, g)| - Count(procs[p].segment == g)
    ensures |Recovering(procs - {p}, g)| == |Recovering(procs, g)| - Count(procs[p].segment == g && Owes(procs[p]))
  {
    UsersWithout(procs, p, g);
    hide Users, Recovering;
    RemoveOne(Users(procs, g), p);
    RemoveOne(Recovering(procs, g), p);
  }

  lemma UsersWithout(procs: map<Pid, Process>, p: Pid, g: nat)
    requires p in procs
    ensures Users(procs - {p}, g) == Users(procs, g) - {p}
    ensures Recovering(procs - {p}, g) == Recovering(procs, g) - {p}
    ensures p in Users(procs, g) <==> procs[p].segment == g
    ensures p in Recovering(procs, g) <==> procs[p].segment == g && Owes(procs[p])
  {
  }

  lemma RemoveOne(s: set<Pid>, p: Pid)
    ensures |s - {p}| == |s| - Count(p in s)
  {
    if p !in s {
      assert s - {p} == s;
    }
  }

  lemma AddProcess(procs: map<Pid, Process>, p: Pid, x: Process, g: nat)
    requires p !in procs
    ensures |Users(procs[p := x], g)| == |Users(procs, g)| + Count(x.segment == g)
    ensures |Recovering(procs[p := x], g)| == |Recovering(procs, g)| + Count(x.segment == g && Owes(x))
  {
    var more := procs[p := x];
    RemoveProcess(more, p, g);
    assert more - {p} == procs;
  }

  lemma MoveProcess(procs: map<Pid, Process>, p: Pid, x: Process, g: nat)
    requires p in procs && x.segment == procs[p].segment
    ensures Users(procs[p := x], g) == Users(procs, g)
    ensures |Recovering(procs[p := x], g)|
            == |Recovering(procs, g)| - Count(x.segment == g && Owes(procs[p])) + Count(x.segment == g && Owes(x))
  {
    RemoveProcess(procs, p, g);
    AddProcess(procs - {p}, p, x, g);
    assert (procs - {p})[p := x] == procs[p := x];
  }

  lemma WrapAdds(x: int, d: int)
    requires -1 <= d <= 1
    ensures Wrap16(Wrap16(x) + d) == Wrap16(x + d)
  {
  }

  // ----- The invariant -----

  /** What a process may rely on where it is. */
  ghost predicate ProcessOk(w: World, p: Pid)
    requires p in w.procs
  {
    var x := w.procs[p];
    && x.segment < |w.segments|
    && (x.place == Locked || x.place == MadeConsistent ==> w.segments[x.segment].mutex == Held(p))
    && (x.place == GotOwnerDead ==> w.segments[x.segment].mutex == Inconsistent(p))
  }

  /** The mutex of a segment is never lost and its owner is a live process that knows it. */
  ghost predicate MutexOk(w: World, g: nat)
    requires g < |w.segments|
  {
    match w.segments[g].mutex
    case NotRecoverable => false
    case Held(p) => p in w.procs && (w.procs[p] == Process(g, Locked) || w.procs[p] == Process(g, MadeConsistent))
    case Inconsistent(p) => p in w.procs && w.procs[p] == Process(g, GotOwnerDead)
    case _ => true
  }

  ghost predicate Accounted(w: World, g: nat)
    requires g < |w.segments|
  {
    w.segments[g].refcnt == Wrap16(References(w, g))
  }

  ghost predicate Inv(w: World) {
    && WellFormed(w)
    && (forall p :: p in w.procs ==> ProcessOk(w, p))
    && (forall g :: 0 <= g < |w.segments| ==> MutexOk(w, g) && Accounted(w, g))
  }

  lemma NextKeepsProcess(w: World, e: Event, p: Pid)
    requires Inv(w) && Next(w, e).Some? && p in Next(w, e).value.procs
    ensures ProcessOk(Next(w, e).value, p)
  {
    hide Accounted, Wrap16;
    if e.p in w.procs {
      assert ProcessOk(w, e.p);
    }
    if p in w.procs {
      assert ProcessOk(w, p);
    }
  }

  lemma NextKeepsMutex(w: World, e: Event, g: nat)
    requires Inv(w) && Next(w, e).Some? && g < |Next(w, e).value.segments|
    ensures MutexOk(Next(w, e).value, g)
  {
    hide Accounted, Wrap16;
    if e.p in w.procs {
      assert ProcessOk(w, e.p);
    }
    if g < |w.segments| {
      assert MutexOk(w, g);
    }
  }

  lemma NextKeepsAccounts(w: World, e: Event, g: nat)
    requires Inv(w) && Next(w, e).Some? && g < |Next(w, e).value.segments|
    ensures Accounted(Next(w, e).value, g)
  {
    hide Users, Recovering, Wrap16;
    var w' := Next(w, e).value;
    var p := e.p;
    if p in w.procs {
      assert ProcessOk(w, p);
    }
    if g < |w.segments| {
      assert Accounted(w, g);
      WrapAdds(References(w, g), 1);
      WrapAdds(References(w, g), -1);
    }
    match e
    case Create(_) => CreateKeepsAccounts(w, p, g);
    case Destroy(_) => RemoveProcess(w.procs, p, g);
    case Crash(_) => RemoveProcess(w.procs, p, g);
    case _ => MoveProcess(w.procs, p, w'.procs[p], g);
  }

  lemma CreateKeepsAccounts(w: World, p: Pid, g: nat)
    requires Inv(w) && p !in w.procs && g < |Next(w, Create(p)).value.segments|
    ensures Accounted(Next(w, Create(p)).value, g)
  {
    hide MutexOk, ProcessOk;
    var w' := Next(w, Create(p)).value;
    AddProcess(w.procs, p, w'.procs[p], g);
    if g < |w.segments| {
      assert Accounted(w, g);
      WrapAdds(References(w, g), 1);
    } else {
      assert Users(w.procs, g) == {} && Recovering(w.procs, g) == {};
    }
  }

  // ----- Runs -----

  ghost function Run(events: seq<Event>): (w: Option<World>)
    ensures w.Some? ==> WellFormed(w.value)
    decreases |events|
  {
    if events == [] then Some(INITIAL)
    else
      var before := Run(events[..|events| - 1]);
      if before.None? then None
      else
        NextWellFormed(before.value, events[|events| - 1]);
        Next(before.value, events[|events| - 1])
  }

  /** Every reachable state satisfies the invariant. */
  lemma {:induction false} RunKeepsInv(events: seq<Event>)
    requires Run(events).Some?
    ensures Inv(Run(events).value)
    decreases |events|
  {
    hide Inv, Next;
    if events == [] {
      InitialInv();
    } else {
      RunKeepsInv(events[..|events| - 1]);
      NextKeepsInv(Run(events[..|events| - 1]).value, events[|events| - 1]);
    }
  }

  lemma InitialInv()
    ensures Inv(INITIAL)
  {
  }

  lemma NextKeepsInv(w: World, e: Event)
    requires Inv(w)
    ensures Next(w, e).Some? ==> Inv(Next(w, e).value)
  {
    if Next(w, e).Some? {
      var w' := Next(w, e).value;
      hide Next, MutexOk, Accounted, ProcessOk;
      forall p | p in w'.procs
        ensures ProcessOk(w', p)
      {
        NextKeepsProcess(w, e, p);
      }
      forall g: nat | g < |w'.segments|
        ensures MutexOk(w', g) && Accounted(w', g)
      {
        NextKeepsMutex(w, e, g);
        NextKeepsAccounts(w, e, g);
      }
      NextWellFormed(w, e);
    }
  }

  lemma NextWellFormed(w: World, e: Event)
    requires WellFormed(w)
    ensures Next(w, e).Some? ==> WellFormed(Next(w, e).value)
  {
  }

  /** In every reachable state the process whose lock call returned 0 owns its segment's mutex in
      a consistent state, alone, and no lock call ever fails. */
  lemma LockedAlone(events: seq<Event>, p: Pid, q: Pid)
    requires Run(events).Some? && p in Run(events).value.procs && q in Run(events).value.procs
    requires Run(events).value.procs[p].place == Locked
    ensures var w := Run(events).value;
      && w.segments[w.procs[p].segment].mutex == Held(p)
      && (w.procs[q] == w.procs[p] ==> q == p)
      && !w.segments[w.procs[q].segment].mutex.NotRecoverable?
  {
    hide Run;
    var w := Run(events).value;
    RunKeepsInv(events);
    assert ProcessOk(w, p) && ProcessOk(w, q);
    assert MutexOk(w, w.procs[q].segment);
  }

  /** Below the width of the counter it is exact: the live handles, the decrements still owed for
      dead owners, and what crashes left behind. */
  lemma RefcntCovers(events: seq<Event>, g: nat)
    requires Run(events).Some? && g < |Run(events).value.segments|
    requires References(Run(events).value, g) <= 32767
    ensures var w := Run(events).value;
      w.segments[g].refcnt == References(w, g) >= |Users(w.procs, g)| + |Recovering(w.procs, g)|
  {
    hide Run;
    RunKeepsInv(events);
    assert Accounted(Run(events).value, g);
  }

  /** In every reachable state, destroy unlinks the name exactly when the references accounted
      for leave none but the caller's, modulo the width of the counter. */
  lemma UnlinksIff(events: seq<Event>, p: Pid)
    requires Run(events).Some? && Next(Run(events).value, Destroy(p)).Some? && Run(events).value.name.Some?
    ensures var w := Run(events).value;
      w.procs[p].segment < |w.segments|
      && (Next(w, Destroy(p)).value.name.None? <==> References(w, w.procs[p].segment) % 65536 == 1)
  {
    hide Run, References, Wrap16;
    var w := Run(events).value;
    RunKeepsInv(events);
    assert ProcessOk(w, p);
    assert Accounted(w, w.procs[p].segment);
    WrapAdds(References(w, w.procs[p].segment), -1);
    WrapZero(References(w, w.procs[p].segment));
  }

  lemma WrapZero(n: nat)
    ensures Wrap16(n - 1) == 0 <==> n % 65536 == 1
  {
  }

  /** Below the width of the counter: when destroy unlinks the name, no other live process has a
      handle, no recovery is under way, and the mutex being destroyed is unlocked. */
  lemma UnlinksOnlyWhenAlone(events: seq<Event>, p: Pid)
    requires Run(events).Some? && Next(Run(events).value, Destroy(p)).Some?
    requires Run(events).value.name.Some? && Next(Run(events).value, Destroy(p)).value.name.None?
    requires References(Run(events).value, Run(events).value.procs[p].segment) <= 65536
    ensures var w := Run(events).value;
      var g := w.procs[p].segment;
      Users(w.procs, g) == {p} && Recovering(w.procs, g) == {} && w.segments[g].mutex == Free && w.segments[g].lost == 0
  {
    hide Run, Wrap16;
    var w := Run(events).value;
    var g := w.procs[p].segment;
    RunKeepsInv(events);
    UnlinksIff(events, p);
    assert References(w, g) == 1;
    assert p in Users(w.procs, g);
    Singleton(Users(w.procs, g), p);
    assert MutexOk(w, g) && w.procs[p].place == Idle;
    assert forall q :: q in w.procs && w.procs[q].segment == g ==> q in Users(w.procs, g);
  }

  lemma Singleton(s: set<Pid>, p: Pid)
    requires p in s && |s| <= 1
    ensures s == {p}
  {
    assert |s - {p}| == |s| - 1;
  }

  /** All handles map the segment the name denotes. */
  ghost predicate OneSegment(w: World) {
    forall p :: p in w.procs ==> w.name == Some(w.procs[p].segment)
  }

  /** As long as no segment accounts for more references than the counter can tell apart, all live
      handles map one segment. */
  lemma {:induction false} OneSegmentKept(events: seq<Event>)
    requires Run(events).Some?
    requires forall k, g: nat :: 0 <= k <= |events| && Run(events[..k]).Some? && g < |Run(events[..k]).value.segments|
               ==> References(Run(events[..k]).value, g) <= 65536
    ensures OneSegment(Run(events).value)
    decreases |events|
  {
    if events != [] {
      var n := |events| - 1;
      var before, e := events[..n], events[n];
      forall k | 0 <= k <= n
        ensures before[..k] == events[..k]
      {
      }
      OneSegmentKept(before);
      var w := Run(before).value;
      RunKeepsInv(before);
      if e.Destroy? && Next(w, e).value.name.None? && w.name.Some? {
        assert before[..n] == before;
        assert ProcessOk(w, e.p);
        UnlinksOnlyWhenAlone(before, e.p);
        forall q | q in w.procs
          ensures q == e.p
        {
          assert q in Users(w.procs, w.procs[e.p].segment);
        }
      }
    }
  }

  /** With one segment the mutual exclusion is global: at most one live process is inside. */
  lemma LockedGlobally(events: seq<Event>, p: Pid, q: Pid)
    requires Run(events).Some? && OneSegment(Run(events).value)
    requires p in Run(events).value.procs && Run(events).value.procs[p].place == Locked
    requires q in Run(events).value.procs && Run(events).value.procs[q].place == Locked
    ensures p == q
  {
    LockedAlone(events, p, q);
  }

  // ----- Progress -----

  /** `p` is about to lock. */
  predicate AtLock(w: World, p: Pid) {
    p in w.procs && (w.procs[p].place == Idle || w.procs[p].place == Retrying)
  }

  /** A live process owns the mutex of segment `g`. */
  ghost predicate Owned(w: World, g: nat)
    requires g < |w.segments|
  {
    exists q :: q in w.procs && (w.segments[g].mutex == Held(q) || w.segments[g].mutex == Inconsistent(q))
  }

  /** In every reachable state a process about to lock has to wait exactly while a live process owns
      the mutex; every other step of the code is always possible. */
  lemma BlockedIff(events: seq<Event>, e: Event)
    requires Run(events).Some? && e.p in Run(events).value.procs && !e.Create?
    ensures var w := Run(events).value;
      var x := w.procs[e.p];
      && x.segment < |w.segments|
      && (e.Lock? ==> (Next(w, e).None? <==> !AtLock(w, e.p) || Owned(w, x.segment)))
      && (e.Consistent? ==> (Next(w, e).Some? <==> x.place == GotOwnerDead))
      && (e.UnlockDead? ==> (Next(w, e).Some? <==> x.place == MadeConsistent))
      && (e.Decrement? ==> (Next(w, e).Some? <==> x.place == Decrementing))
      && (e.Unlock? ==> (Next(w, e).Some? <==> x.place == Locked))
      && (e.Destroy? ==> (Next(w, e).Some? <==> x.place == Idle))
      && (e.Crash? ==> Next(w, e).Some?)
  {
    hide Run, Accounted;
    var w := Run(events).value;
    RunKeepsInv(events);
    assert ProcessOk(w, e.p);
    assert MutexOk(w, w.procs[e.p].segment);
  }

  /** What a step leaves of `p` and its segment. */
  ghost predicate Stands(w: Option<World>, p: Pid, g: nat, place: Place, mutex: Mutex, refcnt: int) {
    && w.Some? && p in w.value.procs && w.value.procs[p] == Process(g, place)
    && g < |w.value.segments| && w.value.segments[g].mutex == mutex && w.value.segments[g].refcnt == refcnt
  }

  /** A free mutex is locked at once. */
  lemma LocksFree(events: seq<Event>, p: Pid, g: nat, refcnt: int)
    requires Run(events).Some? && AtLock(Run(events).value, p)
    requires Stands(Run(events), p, g, Run(events).value.procs[p].place, Free, refcnt)
    ensures Stands(Run(events + [Lock(p)]), p, g, Locked, Held(p), refcnt)
  {
    hide Run;
    RunStep(events, Lock(p));
  }

  /** After a dead owner, a process about to lock recovers the mutex, returns the dead owner's reference
      and gets the lock. */
  lemma Recovers(events: seq<Event>, p: Pid, g: nat, refcnt: int)
    requires Run(events).Some? && AtLock(Run(events).value, p)
    requires Stands(Run(events), p, g, Run(events).value.procs[p].place, OwnerDead, refcnt)
    ensures Stands(Run(events + [Lock(p)] + [Consistent(p)] + [UnlockDead(p)] + [Decrement(p)] + [Lock(p)]),
                   p, g, Locked, Held(p), Wrap16(refcnt - 1))
  {
    hide Run, Wrap16;
    RunStep(events, Lock(p));
    var e1 := events + [Lock(p)];
    RunStep(e1, Consistent(p));
    var e2 := e1 + [Consistent(p)];
    RunStep(e2, UnlockDead(p));
    var e3 := e2 + [UnlockDead(p)];
    assert Stands(Run(e3), p, g, Decrementing, Free, refcnt);
    RunStep(e3, Decrement(p));
    var e4 := e3 + [Decrement(p)];
    assert Stands(Run(e4), p, g, Retrying, Free, Wrap16(refcnt - 1));
    RunStep(e4, Lock(p));
  }

  /** The death of a process inside the lock does not stop the others: any of them recovers the mutex,
      returns the dead owner's reference and is inside. */
  lemma SurvivesCrash(events: seq<Event>, p: Pid, q: Pid, g: nat, refcnt: int)
    requires Run(events).Some? && Stands(Run(events), p, g, Locked, Held(p), refcnt)
    requires AtLock(Run(events).value, q) && Run(events).value.procs[q].segment == g
    ensures var after := events + [Crash(p)];
      Stands(Run(after + [Lock(q)] + [Consistent(q)] + [UnlockDead(q)] + [Decrement(q)] + [Lock(q)]),
             q, g, Locked, Held(q), Wrap16(refcnt - 1))
  {
    hide Run;
    RunStep(events, Crash(p));
    Recovers(events + [Crash(p)], q, g, refcnt);
  }

  /** Unlock hands the mutex over: any process about to lock gets it. */
  lemma HandsOver(events: seq<Event>, p: Pid, q: Pid, g: nat, refcnt: int)
    requires Run(events).Some? && Stands(Run(events), p, g, Locked, Held(p), refcnt)
    requires AtLock(Run(events).value, q) && Run(events).value.procs[q].segment == g
    ensures Stands(Run(events + [Unlock(p)]), p, g, Idle, Free, refcnt)
    ensures Stands(Run(events + [Unlock(p)] + [Lock(q)]), q, g, Locked, Held(q), refcnt)
  {
    hide Run;
    RunStep(events, Unlock(p));
    RunStep(events + [Unlock(p)], Lock(q));
  }

  /** A handle refers to the segment of the name and adds a reference; the first one makes the segment. */
  lemma Creates(events: seq<Event>, p: Pid)
    requires Run(events).Some? && p !in Run(events).value.procs
    ensures var w := Run(events).value;
      var w' := Run(events + [Create(p)]);
      && w'.Some? && w'.value.name.Some?
      && (w.name.Some? ==>
            var g := w.name.value;
            && w'.value.name == Some(g) && g < |w.segments|
            && Stands(w', p, g, Idle, w.segments[g].mutex, Wrap16(w.segments[g].refcnt + 1)))
      && (w.name.None? ==> Stands(w', p, |w.segments|, Idle, Free, 1) && w'.value.name == Some(|w.segments|))
  {
    hide Run, Wrap16;
    RunStep(events, Create(p));
  }

  // ----- The counter can overflow -----

  /** `n` times: a process creates a handle and crashes. */
  function Churn(n: nat): seq<Event> {
    if n == 0 then [] else Churn(n - 1) + [Create(0)] + [Crash(0)]
  }

  lemma RunStep(events: seq<Event>, e: Event)
    requires Run(events).Some?
    ensures Run(events + [e]) == Next(Run(events).value, e)
  {
    assert (events + [e])[..|events|] == events;
  }

  lemma {:induction false} ChurnLoses(n: nat)
    requires n > 0
    ensures Run(Churn(n)) == Some(World(map[], [Segment(Wrap16(n), Free, n)], Some(0)))
  {
    hide Run;
    if n > 1 {
      ChurnLoses(n - 1);
      WrapAdds(n - 1, 1);
    } else {
      assert Run([]) == Some(INITIAL) by { RunEmpty(); }
    }
    RunStep(Churn(n - 1), Create(0));
    var w := Run(Churn(n - 1) + [Create(0)]).value;
    assert w.procs == map[0 := Process(0, Idle)];
    assert w.segments == [Segment(Wrap16(n), Free, n - 1)];
    RunStep(Churn(n - 1) + [Create(0)], Crash(0));
    assert w.procs - {0} == map[];
    assert w.segments[0 := Segment(Wrap16(n), Free, n)] == [Segment(Wrap16(n), Free, n)];
  }

  lemma RunEmpty()
    ensures Run([]) == Some(INITIAL)
  {
  }

  /** The bound is needed: after 65535 crashes without the lock, destroy unlinks the name although
      another live process still has a handle. */
  lemma OverflowUnlinksEarly()
    ensures var w := Run(Churn(65535) + [Create(1)] + [Create(0)] + [Destroy(0)]);
      w.Some? && w.value.name.None? && 1 in w.value.procs
  {
    hide Run, Churn;
    ChurnLoses(65535);
    RunStep(Churn(65535), Create(1));
    RunStep(Churn(65535) + [Create(1)], Create(0));
    RunStep(Churn(65535) + [Create(1)] + [Create(0)], Destroy(0));
  }
}
