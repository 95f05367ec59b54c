/** The memory-mapped robust mutex of shm_mutex.c with its two diagnostic counters, as a step
    system in which a process may crash anywhere, also between a counter and the mutex call next
    to it. */
module ShmMutex {
  import opened Basics
  import opened RobustMutex

  /** `Acquired`: locked but not counted yet.  `Releasing`: uncounted but not unlocked yet.
      `GotOwnerDead` and `MadeConsistent`: taking over from a dead owner. */
  datatype Place = Idle | Acquired | GotOwnerDead | MadeConsistent | Holding | Releasing

  /** The shared record and the live processes that map it.  For the proof only, `lost` counts
      references no recovery will return and `torn` counts crashes between a counter update and
      the mutex call it belongs to. */
  datatype World = World(procs: map<Pid, Place>, magic: bool, refCount: int, lockCount: int,
                         mutex: Mutex, lost: nat, torn: nat)

  const INITIAL := World(map[], false, 0, 0, Free, 0, 0)

  datatype Event =
    | Alloc(p: Pid)
    | Lock(p: Pid)
    | CountLock(p: Pid)
    | Consistent(p: Pid)
    | TakeOver(p: Pid)
    | CountUnlock(p: Pid)
    | Unlock(p: Pid)
    | Destroy(p: Pid)
    | Crash(p: Pid)

  predicate IsAt(w: World, p: Pid, place: Place) {
    p in w.procs && w.procs[p] == place
  }

  predicate TakingOver(place: Place) {
    place == GotOwnerDead || place == MadeConsistent
  }

  /** Inside the window between a counter update and the mutex call it belongs to. */
  predicate Torn(place: Place) {
    place == Acquired || place == Releasing
  }

  function Move(w: World, p: Pid, place: Place): World {
    w.(procs := w.procs[p := place])
  }

  /** One step; `None` when the event cannot happen now. */
  function Next(w: World, e: Event): Option<World> {
    match e
    case Alloc(p) =>
      if p in w.procs then None
      else
        var ready := if w.magic then w else w.(magic := true, refCount := 0, lockCount := 0, mutex := Free);
        Some(Move(ready, p, Idle).(refCount := ready.refCount + 1))
    case Lock(p) =>
      if !IsAt(w, p, Idle) || !CanLock(w.mutex) then None
      else Some(Move(w, p, if w.mutex.Free? then Acquired else GotOwnerDead).(mutex := Acquire(w.mutex, p)))
    case CountLock(p) =>
      if !IsAt(w, p, Acquired) then None
      else Some(Move(w, p, Holding).(lockCount := w.lockCount + 1))
    case Consistent(p) =>
      if !IsAt(w, p, GotOwnerDead) then None
      else Some(Move(w, p, MadeConsistent).(mutex := MakeConsistent(w.mutex)))
    case TakeOver(p) =>
      if !IsAt(w, p, MadeConsistent) then None
      else Some(Move(w, p, Holding).(refCount := w.refCount - 1))
    case CountUnlock(p) =>
      if !IsAt(w, p, Holding) then None
      else Some(Move(w, p, Releasing).(lockCount := w.lockCount - 1))
    case Unlock(p) =>
      if !IsAt(w, p, Releasing) then None
      else Some(Move(w, p, Idle).(mutex := Release(w.mutex)))
    case Destroy(p) =>
      if !IsAt(w, p, Idle) then None
      else Some(w.(procs := w.procs - {p}, refCount := w.refCount - 1))
    case Crash(p) =>
      if p !in w.procs then None
      else
        var place := w.procs[p];
        Some(w.(procs := w.procs - {p}, mutex := Die(w.mutex, p),
                lost := w.lost + (if place == Idle || TakingOver(place) then 1 else 0),
                torn := w.torn + (if Torn(place) then 1 else 0)))
  }

  // ----- The invariant -----

  ghost predicate ProcessOk(w: World, p: Pid)
    requires p in w.procs
  {
    match w.procs[p]
    case Idle => w.mutex != Held(p) && w.mutex != Inconsistent(p)
    case GotOwnerDead => w.mutex == Inconsistent(p)
    case _ => w.mutex == Held(p)
  }

  ghost predicate MutexOk(w: World) {
    match w.mutex
    case NotRecoverable => false
    case Held(p) => p in w.procs && w.procs[p] != Idle && w.procs[p] != GotOwnerDead
    case Inconsistent(p) => IsAt(w, p, GotOwnerDead)
    case _ => true
  }

  /** The lock that `lockCount` should show: taken, and past the window in which a live owner's
      count is pending. */
  ghost function Counted(w: World): int
    requires MutexOk(w)
  {
    match w.mutex
    case Held(p) => if Torn(w.procs[p]) then 0 else 1
    case Inconsistent(_) => 1
    case OwnerDead => 1
    case _ => 0
  }

  /** References besides those of live processes: a dead owner's, until a successor returns it,
      and the lost ones. */
  ghost function Unreturned(w: World): nat
    requires MutexOk(w)
  {
    w.lost + match w.mutex
             case Held(p) => (if w.procs[p] == MadeConsistent then 1 else 0)
             case Inconsistent(_) => 1
             case OwnerDead => 1
             case _ => 0
  }

  ghost predicate Inv(w: World) {
    && (!w.magic ==> w.procs == map[] && w.lost == 0 && w.torn == 0 && w.mutex == Free)
    && (forall p :: p in w.procs ==> ProcessOk(w, p))
    && MutexOk(w)
    && w.lockCount == Counted(w) - w.torn
    && w.refCount == |w.procs| + Unreturned(w)
  }

  lemma NextKeepsProcess(w: World, e: Event, p: Pid)
    requires Inv(w) && Next(w, e).Some? && p in Next(w, e).value.procs
    ensures ProcessOk(Next(w, e).value, p)
  {
    hide Counted, Unreturned;
    if e.p in w.procs {
      assert ProcessOk(w, e.p);
    }
    if p in w.procs {
      assert ProcessOk(w, p);
    }
  }

  lemma NextKeepsLockCount(w: World, e: Event)
    requires Inv(w) && Next(w, e).Some?
    ensures var w' := Next(w, e).value;
      MutexOk(w') && w'.lockCount == Counted(w') - w'.torn
  {
    hide Unreturned;
    if e.p in w.procs {
      assert ProcessOk(w, e.p);
    }
  }

  lemma MapSizes(m: map<Pid, Place>, p: Pid, place: Place)
    ensures |m[p := place]| == |m| + (if p in m then 0 else 1)
    ensures |m - {p}| == |m| - (if p in m then 1 else 0)
  {
    assert m[p := place].Keys == m.Keys + {p};
    assert (m - {p}).Keys == m.Keys - {p};
    assert |m - {p}| == |(m - {p}).Keys|;
  }

  lemma LeavingKeepsRefCount(w: World, e: Event)
    requires Inv(w) && Next(w, e).Some? && MutexOk(Next(w, e).value) && (e.Destroy? || e.Crash?)
    ensures Next(w, e).value.refCount == |Next(w, e).value.procs| + Unreturned(Next(w, e).value)
  {
    hide Counted;
    assert ProcessOk(w, e.p);
    MapSizes(w.procs, e.p, Idle);
  }

  lemma StayingSize(w: World, e: Event)
    requires Next(w, e).Some? && !e.Destroy? && !e.Crash?
    ensures |Next(w, e).value.procs| == |w.procs| + (if e.Alloc? then 1 else 0)
  {
    var procs := Next(w, e).value.procs;
    MapSizes(w.procs, e.p, procs[e.p]);
    assert procs == w.procs[e.p := procs[e.p]];
  }

  lemma StayingKeepsRefCount(w: World, e: Event)
    requires Inv(w) && Next(w, e).Some? && MutexOk(Next(w, e).value) && !e.Destroy? && !e.Crash?
    ensures Next(w, e).value.refCount - Unreturned(Next(w, e).value)
            == w.refCount - Unreturned(w) + (if e.Alloc? then 1 else 0)
  {
    hide Counted;
    if e.p in w.procs {
      assert ProcessOk(w, e.p);
    }
  }

  lemma NextKeepsMagic(w: World, e: Event)
    requires Inv(w) && Next(w, e).Some?
    ensures Next(w, e).value.magic
  {
  }

  lemma NextKeepsInv(w: World, e: Event)
    requires Inv(w) && Next(w, e).Some?
    ensures Inv(Next(w, e).value)
  {
    hide Next, ProcessOk, Counted, Unreturned, MutexOk;
    var w' := Next(w, e).value;
    NextKeepsMagic(w, e);
    NextKeepsLockCount(w, e);
    if e.Destroy? || e.Crash? {
      LeavingKeepsRefCount(w, e);
    } else {
      StayingSize(w, e);
      StayingKeepsRefCount(w, e);
    }
    forall p | p in w'.procs
      ensures ProcessOk(w', p)
    {
      NextKeepsProcess(w, e, p);
    }
  }

  // ----- Runs -----

  ghost function Run(events: seq<Event>): Option<World>
    decreases |events|
  {
    if events == [] then Some(INITIAL)
    else
      var before := Run(events[..|events| - 1]);
      if before.None? then None else Next(before.value, events[|events| - 1])
  }

  /** Every reachable state satisfies the invariant. */
  lemma {:induction false} RunKeepsInv(events: seq<Event>)
    requires Run(events).Some?
    ensures Inv(Run(events).value)
    decreases |events|
  {
    if events != [] {
      hide Inv, Next;
      RunKeepsInv(events[..|events| - 1]);
      NextKeepsInv(Run(events[..|events| - 1]).value, events[|events| - 1]);
    } else {
      InitialInv();
    }
  }

  lemma InitialInv()
    ensures Inv(INITIAL)
  {
  }

  lemma RunEmpty()
    ensures Run([]) == Some(INITIAL)
  {
  }

  lemma RunUnfolds(events: seq<Event>)
    requires events != [] && Run(events).Some?
    ensures var n := |events| - 1;
      Run(events[..n]).Some? && Run(events) == Next(Run(events[..n]).value, events[n])
  {
    hide Next, Inv;
  }

  lemma TornStep(w: World, e: Event)
    requires Next(w, e).Some?
    ensures Next(w, e).value.torn == w.torn + (if e.Crash? && e.p in w.procs && Torn(w.procs[e.p]) then 1 else 0)
  {
  }

  /** The crashes of a run that fall inside a window. */
  ghost function TornCrashes(events: seq<Event>): nat
    requires Run(events).Some?
    decreases |events|
  {
    if events == [] then 0
    else
      RunUnfolds(events);
      var n := |events| - 1;
      var w := Run(events[..n]).value;
      TornCrashes(events[..n])
      + if events[n].Crash? && events[n].p in w.procs && Torn(w.procs[events[n].p]) then 1 else 0
  }

  lemma {:induction false} TornCountsCrashes(events: seq<Event>)
    requires Run(events).Some?
    ensures Run(events).value.torn == TornCrashes(events)
    decreases |events|
  {
    hide Run, Inv, Next;
    if events == [] {
      RunEmpty();
    } else {
      var n := |events| - 1;
      RunUnfolds(events);
      TornStep(Run(events[..n]).value, events[n]);
      TornCountsCrashes(events[..n]);
    }
  }

  /** In every reachable state with nobody between a counter and its mutex call, `lockCount` is
      low by the number of crashes that ever fell between the two.  So it shows the lock (1 when
      held by a live or a dead owner, 0 when free) exactly when there was no such crash. */
  lemma LockCountIff(events: seq<Event>)
    requires Run(events).Some?
    requires forall p :: p in Run(events).value.procs ==> !Torn(Run(events).value.procs[p])
    ensures var w := Run(events).value;
      var shown := if w.mutex.Free? then 0 else 1;
      w.lockCount == shown - TornCrashes(events) && (w.lockCount == shown <==> TornCrashes(events) == 0)
  {
    hide Run;
    RunKeepsInv(events);
    TornCountsCrashes(events);
  }

  lemma RunStep(events: seq<Event>, e: Event)
    requires Run(events).Some?
    ensures Run(events + [e]) == Next(Run(events).value, e)
  {
    hide Next, Inv;
    assert (events + [e])[..|events|] == events;
  }

  /** Such a crash exists: a process dies after taking the mutex and before counting it, and
      `lockCount` is 0 although a dead owner still has the lock. */
  lemma CrashHidesLock()
    ensures var w := Run([Alloc(0)] + [Lock(0)] + [Crash(0)]);
      w.Some? && w.value.procs == map[] && w.value.mutex == OwnerDead && w.value.lockCount == 0
  {
    hide Run;
    RunEmpty();
    assert [] + [Alloc(0)] == [Alloc(0)];
    RunStep([], Alloc(0));
    RunStep([Alloc(0)], Lock(0));
    RunStep([Alloc(0)] + [Lock(0)], Crash(0));
  }

  /** Mutual exclusion and reference accounting in every reachable state. */
  lemma ReferencesAccounted(events: seq<Event>, p: Pid, q: Pid)
    requires Run(events).Some? && p in Run(events).value.procs && q in Run(events).value.procs
    ensures var w := Run(events).value;
      && w.refCount >= |w.procs|
      && (w.procs[p] != Idle && w.procs[q] != Idle ==> p == q)
  {
    hide Run;
    var w := Run(events).value;
    RunKeepsInv(events);
    assert ProcessOk(w, p) && ProcessOk(w, q);
  }

  // ----- Progress -----

  /** A live process owns the mutex. */
  ghost predicate Owned(w: World) {
    exists q :: q in w.procs && (w.mutex == Held(q) || w.mutex == Inconsistent(q))
  }

  /** In every reachable state a process about to lock has to wait exactly while a live process owns
      the mutex; every other step of the code is always possible. */
  lemma BlockedIff(events: seq<Event>, e: Event)
    requires Run(events).Some? && e.p in Run(events).value.procs && !e.Alloc?
    ensures var w := Run(events).value;
      var place := w.procs[e.p];
      && (e.Lock? ==> (Next(w, e).None? <==> place != Idle || Owned(w)))
      && (e.CountLock? ==> (Next(w, e).Some? <==> place == Acquired))
      && (e.Consistent? ==> (Next(w, e).Some? <==> place == GotOwnerDead))
      && (e.TakeOver? ==> (Next(w, e).Some? <==> place == MadeConsistent))
      && (e.CountUnlock? ==> (Next(w, e).Some? <==> place == Holding))
      && (e.Unlock? ==> (Next(w, e).Some? <==> place == Releasing))
      && (e.Destroy? ==> (Next(w, e).Some? <==> place == Idle))
      && (e.Crash? ==> Next(w, e).Some?)
  {
    hide Run, Counted, Unreturned;
    var w := Run(events).value;
    RunKeepsInv(events);
    assert ProcessOk(w, e.p);
  }

  /** Where `p` and the shared record stand. */
  ghost predicate Stands(w: Option<World>, p: Pid, place: Place, mutex: Mutex, lockCount: int, refCount: int) {
    && w.Some? && IsAt(w.value, p, place) && w.value.mutex == mutex
    && w.value.lockCount == lockCount && w.value.refCount == refCount
  }

  /** A free mutex is locked and counted. */
  lemma LocksFree(events: seq<Event>, p: Pid, locks: int, refs: int)
    requires Stands(Run(events), p, Idle, Free, locks, refs)
    ensures Stands(Run(events + [Lock(p)] + [CountLock(p)]), p, Holding, Held(p), locks + 1, refs)
  {
    hide Run;
    RunStep(events, Lock(p));
    RunStep(events + [Lock(p)], CountLock(p));
  }

  /** The lock of a dead owner is taken over: the count of locks stays, and the dead owner's reference
      is returned. */
  lemma TakesOver(events: seq<Event>, p: Pid, locks: int, refs: int)
    requires Stands(Run(events), p, Idle, OwnerDead, locks, refs)
    ensures Stands(Run(events + [Lock(p)] + [Consistent(p)] + [TakeOver(p)]), p, Holding, Held(p), locks, refs - 1)
  {
    hide Run;
    RunStep(events, Lock(p));
    RunStep(events + [Lock(p)], Consistent(p));
    RunStep(events + [Lock(p)] + [Consistent(p)], TakeOver(p));
  }

  /** The death of a process inside the lock does not stop the others. */
  lemma SurvivesCrash(events: seq<Event>, p: Pid, q: Pid, locks: int, refs: int)
    requires Stands(Run(events), p, Holding, Held(p), locks, refs) && Stands(Run(events), q, Idle, Held(p), locks, refs)
    ensures Stands(Run(events + [Crash(p)] + [Lock(q)] + [Consistent(q)] + [TakeOver(q)]),
                   q, Holding, Held(q), locks, refs - 1)
  {
    hide Run;
    RunStep(events, Crash(p));
    TakesOver(events + [Crash(p)], q, locks, refs);
  }

  /** Unlock uncounts the lock and hands the mutex over. */
  lemma HandsOver(events: seq<Event>, p: Pid, q: Pid, locks: int, refs: int)
    requires Stands(Run(events), p, Holding, Held(p), locks, refs) && Stands(Run(events), q, Idle, Held(p), locks, refs)
    ensures var after := events + [CountUnlock(p)] + [Unlock(p)];
      && Stands(Run(after), p, Idle, Free, locks - 1, refs)
      && Stands(Run(after + [Lock(q)] + [CountLock(q)]), q, Holding, Held(q), locks, refs)
  {
    hide Run;
    RunStep(events, CountUnlock(p));
    RunStep(events + [CountUnlock(p)], Unlock(p));
    LocksFree(events + [CountUnlock(p)] + [Unlock(p)], q, locks - 1, refs);
  }

  /** A handle adds a reference; the first one sets the record up. */
  lemma Allocates(events: seq<Event>, p: Pid)
    requires Run(events).Some? && p !in Run(events).value.procs
    ensures var w := Run(events).value;
      && (w.magic ==> Stands(Run(events + [Alloc(p)]), p, Idle, w.mutex, w.lockCount, w.refCount + 1))
      && (!w.magic ==> Stands(Run(events + [Alloc(p)]), p, Idle, Free, 0, 1))
  {
    hide Run;
    RunStep(events, Alloc(p));
  }

  /** Giving a handle back returns its reference. */
  lemma Destroys(events: seq<Event>, p: Pid)
    requires Run(events).Some? && IsAt(Run(events).value, p, Idle)
    ensures var w, w' := Run(events).value, Run(events + [Destroy(p)]);
      w'.Some? && p !in w'.value.procs && w'.value.refCount == w.refCount - 1 && w'.value.mutex == w.mutex
  {
    hide Run;
    RunStep(events, Destroy(p));
  }
}
