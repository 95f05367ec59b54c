/** The System V semaphore lock of ipc_semsv.c as a step system: creation by whoever comes first,
    removal by the creator, re-creation by a process that finds its semaphore gone, and the
    kernel's undo of a crashed process's operations (POSIX.1-2008, System Interfaces, semget,
    semctl and semop with SEM_UNDO). */
module IpcSemaphore {
  import opened Basics

  /** The kernel's semaphore for the name.  A removed semaphore's id never comes back. */
  datatype Semaphore = Semaphore(id: nat, value: int, initialised: bool, undo: map<Pid, int>)

  datatype Handle = Handle(semId: int, isCreator: bool, lockref: int)

  /** Where a process is in the code.  `Made` has created the semaphore and will set its value,
      `Found` has met an existing one and will look up its id, `Gone` has been told by lock that
      its semaphore does not exist. */
  datatype Place = Made | Found | Ready | Waiting | Holding | Gone

  /** A process without a handle is still in its first create. */
  datatype Process = Process(handle: Option<Handle>, place: Place)

  datatype World = World(procs: map<Pid, Process>, sem: Option<Semaphore>, nextId: nat)

  const INITIAL := World(map[], None, 0)

  datatype Event =
    | Semget(p: Pid)
    | SetVal(p: Pid)
    | Attach(p: Pid)
    | Lock(p: Pid)
    | Wake(p: Pid)
    | Unlock(p: Pid)
    | Destroy(p: Pid)
    | Crash(p: Pid)

  function UndoOf(s: Semaphore, p: Pid): int {
    if p in s.undo then s.undo[p] else 0
  }

  /** semop by `delta` with SEM_UNDO. */
  function Semop(s: Semaphore, p: Pid, delta: int): Semaphore {
    s.(value := s.value + delta, undo := s.undo[p := UndoOf(s, p) - delta])
  }

  predicate IsAt(w: World, p: Pid, place: Place) {
    p in w.procs && w.procs[p].place == place
  }

  /** Whether `p`'s handle names the live semaphore. */
  predicate Alive(w: World, p: Pid) {
    p in w.procs && w.procs[p].handle.Some? && w.sem.Some? && w.procs[p].handle.value.semId == w.sem.value.id
  }

  function Acquired(w: World, p: Pid): World
    requires Alive(w, p)
  {
    var h := w.procs[p].handle.value;
    World(w.procs[p := Process(Some(h.(lockref := h.lockref + 1)), Holding)],
          Some(Semop(w.sem.value, p, -1)), w.nextId)
  }

  function Move(w: World, p: Pid, place: Place): World
    requires p in w.procs
  {
    w.(procs := w.procs[p := w.procs[p].(place := place)])
  }

  /** One step; `None` when the event cannot happen now. */
  function Next(w: World, e: Event): Option<World> {
    match e
    case Semget(p) =>
      if p in w.procs && w.procs[p].place != Gone then None
      else
        var handle := if p in w.procs then w.procs[p].handle else None;
        if w.sem.Some? then Some(w.(procs := w.procs[p := Process(handle, Found)]))
        else Some(World(w.procs[p := Process(handle, Made)], Some(Semaphore(w.nextId, 0, false, map[])), w.nextId + 1))
    case SetVal(p) =>
      if !IsAt(w, p, Made) || w.sem.None? then None
      else
        var s := w.sem.value;
        Some(w.(procs := w.procs[p := Process(Some(Handle(s.id, true, 0)), Ready)],
                sem := Some(s.(value := 1, initialised := true, undo := map[]))))
    case Attach(p) =>
      if !IsAt(w, p, Found) then None
      else
        var id := if w.sem.Some? then w.sem.value.id else -1;
        Some(w.(procs := w.procs[p := Process(Some(Handle(id, false, 0)), Ready)]))
    case Lock(p) =>
      if !IsAt(w, p, Ready) then None
      else if !Alive(w, p) then Some(Move(w, p, Gone))
      else if w.sem.value.value > 0 then Some(Acquired(w, p))
      else Some(Move(w, p, Waiting))
    case Wake(p) =>
      if !IsAt(w, p, Waiting) then None
      else if !Alive(w, p) then Some(Move(w, p, Ready))
      else if w.sem.value.value > 0 then Some(Acquired(w, p))
      else None
    case Unlock(p) =>
      if !IsAt(w, p, Holding) then None
      else if !Alive(w, p) then Some(Move(w, p, Ready))
      else
        var h := w.procs[p].handle.value;
        Some(World(w.procs[p := Process(Some(h.(lockref := h.lockref - 1)), Ready)],
                   Some(Semop(w.sem.value, p, 1)), w.nextId))
    case Destroy(p) =>
      if !IsAt(w, p, Ready) || w.procs[p].handle.None? then None
      else if w.procs[p].handle.value.isCreator then
        if Alive(w, p) then Some(w.(procs := w.procs - {p}, sem := None))
        else Some(w)
      else Some(w.(procs := w.procs - {p}))
    case Crash(p) =>
      if p !in w.procs then None
      else
        var sem := if w.sem.None? then None
                   else Some(w.sem.value.(value := w.sem.value.value + UndoOf(w.sem.value, p),
                                          undo := w.sem.value.undo - {p}));
        Some(World(w.procs - {p}, sem, w.nextId))
  }

  // ----- The invariant -----

  /** Processes inside the lock on the live semaphore. */
  ghost function Holders(w: World): set<Pid> {
    set p | p in w.procs && w.procs[p].place == Holding && Alive(w, p)
  }

  predicate Creates(w: World, p: Pid) {
    p in w.procs && (w.procs[p].place == Made || (w.procs[p].handle.Some? && w.procs[p].handle.value.isCreator))
  }

  ghost predicate ProcessOk(w: World, p: Pid)
    requires p in w.procs
  {
    var x := w.procs[p];
    && (x.handle.Some? ==> x.handle.value.semId < w.nextId)
    && (Alive(w, p) && x.place != Holding ==> x.handle.value.lockref == 0)
    && match x.place
       case Made => w.sem.Some? && !w.sem.value.initialised && !Alive(w, p)
                    && (x.handle.Some? ==> !x.handle.value.isCreator)
       case Found => !Alive(w, p) && (x.handle.Some? ==> !x.handle.value.isCreator)
       case Gone => x.handle.Some? && !Alive(w, p) && !x.handle.value.isCreator
       case Waiting => x.handle.Some? && (x.handle.value.isCreator ==> Alive(w, p)) && x.handle.value.lockref == 0
       case Ready => x.handle.Some? && (x.handle.value.isCreator ==> Alive(w, p))
       case Holding => x.handle.Some? && (x.handle.value.isCreator ==> Alive(w, p)) && x.handle.value.lockref == 1
  }

  ghost predicate UndoOk(w: World, p: Pid)
    requires w.sem.Some?
  {
    UndoOf(w.sem.value, p) == if p in Holders(w) then 1 else 0
  }

  ghost predicate SemaphoreOk(w: World) {
    w.sem.Some? ==>
      var s := w.sem.value;
      && s.value >= 0
      && s.value + |Holders(w)| == (if s.initialised then 1 else 0)
  }

  ghost predicate Inv(w: World) {
    && (w.sem.Some? ==> w.sem.value.id < w.nextId)
    && (forall p :: p in w.procs ==> ProcessOk(w, p))
    && (forall p, q :: Creates(w, p) && Creates(w, q) ==> p == q)
    && (w.sem.Some? ==> forall p :: UndoOk(w, p))
    && SemaphoreOk(w)
  }

  lemma ActorKeepsProcess(w: World, e: Event)
    requires Inv(w) && Next(w, e).Some? && e.p in Next(w, e).value.procs
    ensures ProcessOk(Next(w, e).value, e.p)
  {
    hide UndoOk, SemaphoreOk, Creates;
    if e.p in w.procs {
      assert ProcessOk(w, e.p);
    }
  }

  /** A step leaves other processes where they are, and changes the identity of the semaphore only
      by making a new one or by its creator's removal. */
  lemma OthersUnmoved(w: World, e: Event, p: Pid)
    requires Next(w, e).Some? && p != e.p
    ensures var w' := Next(w, e).value;
      && w.nextId <= w'.nextId
      && (p in w.procs <==> p in w'.procs) && (p in w.procs ==> w'.procs[p] == w.procs[p])
      && (w.sem.Some? && w'.sem.Some? ==> w'.sem.value.id == w.sem.value.id)
      && (w.sem.Some? && w'.sem.Some? && !IsAt(w, e.p, Made) ==> w'.sem.value.initialised == w.sem.value.initialised)
      && (w.sem.None? && w'.sem.Some? ==> w'.sem.value.id == w.nextId)
      && (w.sem.Some? && w'.sem.None? ==> Creates(w, e.p))
  {
  }

  lemma OthersKeepProcess(w: World, e: Event, p: Pid)
    requires Inv(w) && Next(w, e).Some? && p in Next(w, e).value.procs && p != e.p
    ensures ProcessOk(Next(w, e).value, p)
  {
    hide UndoOk, SemaphoreOk;
    assert !Creates(w, p) || !Creates(w, e.p);
    assert ProcessOk(w, p);
    if e.p in w.procs {
      assert ProcessOk(w, e.p);
    }
    OthersUnmoved(w, e, p);
    hide Next;
  }

  lemma NextKeepsCreator(w: World, e: Event, p: Pid, q: Pid)
    requires Inv(w) && Next(w, e).Some?
    requires Creates(Next(w, e).value, p) && Creates(Next(w, e).value, q)
    ensures p == q
  {
    hide SemaphoreOk, UndoOk;
    assert Creates(w, p) && Creates(w, q) ==> p == q;
    assert p in w.procs ==> ProcessOk(w, p);
    assert q in w.procs ==> ProcessOk(w, q);
    assert e.p in w.procs ==> ProcessOk(w, e.p);
  }

  /** How a step changes the holders of a semaphore that stays alive. */
  ghost function HoldersAfter(w: World, e: Event): set<Pid> {
    match e
    case Lock(p) => if IsAt(w, p, Ready) && Alive(w, p) && w.sem.value.value > 0 then Holders(w) + {p} else Holders(w)
    case Wake(p) => if Alive(w, p) then Holders(w) + {p} else Holders(w)
    case Unlock(p) => Holders(w) - {p}
    case Crash(p) => Holders(w) - {p}
    case _ => Holders(w)
  }

  lemma HoldersChange(w: World, e: Event)
    requires Inv(w) && Next(w, e).Some? && w.sem.Some? && Next(w, e).value.sem.Some?
    ensures Holders(Next(w, e).value) == HoldersAfter(w, e)
  {
    hide UndoOk, SemaphoreOk;
    if e.p in w.procs {
      assert ProcessOk(w, e.p);
    }
    var w' := Next(w, e).value;
    forall q | q != e.p
      ensures q in Holders(w') <==> q in Holders(w)
    {
    }
  }

  /** What the kernel would give back to `p` after a step on a semaphore that stays alive. */
  ghost function UndoAfter(w: World, e: Event, p: Pid): int
    requires w.sem.Some?
  {
    var s := w.sem.value;
    match e
    case SetVal(_) => 0
    case Lock(q) => UndoOf(s, p) + if p == q && IsAt(w, q, Ready) && Alive(w, q) && s.value > 0 then 1 else 0
    case Wake(q) => UndoOf(s, p) + if p == q && Alive(w, q) then 1 else 0
    case Unlock(q) => UndoOf(s, p) - if p == q && Alive(w, q) then 1 else 0
    case Crash(q) => if p == q then 0 else UndoOf(s, p)
    case _ => UndoOf(s, p)
  }

  lemma UndoChange(w: World, e: Event, p: Pid)
    requires Next(w, e).Some? && w.sem.Some? && Next(w, e).value.sem.Some?
    ensures UndoOf(Next(w, e).value.sem.value, p) == UndoAfter(w, e, p)
  {
  }

  lemma NextKeepsUndo(w: World, e: Event, p: Pid)
    requires Inv(w) && Next(w, e).Some? && Next(w, e).value.sem.Some?
    ensures UndoOk(Next(w, e).value, p)
  {
    if w.sem.None? {
      NewSemaphore(w, e);
    } else {
      HoldersChange(w, e);
      UndoChange(w, e, p);
      UndoStep(w, e, p);
    }
  }

  lemma UndoStep(w: World, e: Event, p: Pid)
    requires Inv(w) && w.sem.Some? && Next(w, e).Some? && Next(w, e).value.sem.Some?
    ensures UndoAfter(w, e, p) == if p in HoldersAfter(w, e) then 1 else 0
  {
    hide Holders;
    assert UndoOk(w, p);
    HolderHolds(w, p);
    if e.p in w.procs {
      assert ProcessOk(w, e.p);
    }
  }

  lemma NewSemaphore(w: World, e: Event)
    requires Inv(w) && Next(w, e).Some? && w.sem.None? && Next(w, e).value.sem.Some?
    ensures e.Semget? && Holders(Next(w, e).value) == {}
  {
    var w' := Next(w, e).value;
    forall q | q in w'.procs
      ensures !Alive(w', q)
    {
      if q in w.procs {
        assert ProcessOk(w, q);
      }
    }
  }

  lemma NextKeepsSemaphore(w: World, e: Event)
    requires Inv(w) && Next(w, e).Some?
    ensures SemaphoreOk(Next(w, e).value)
  {
    hide Holders;
    var w' := Next(w, e).value;
    if w'.sem.Some? {
      if w.sem.None? {
        NewSemaphore(w, e);
      } else {
        HoldersChange(w, e);
        HoldersCount(w, e);
        if e.p in w.procs {
          assert ProcessOk(w, e.p);
        }
        HolderHolds(w, e.p);
        assert UndoOk(w, e.p);
      }
    }
  }

  lemma HoldersCount(w: World, e: Event)
    requires Next(w, e).Some?
    ensures |HoldersAfter(w, e)| == |Holders(w)|
      + (if e.p !in Holders(w) && e.p in HoldersAfter(w, e) then 1 else 0)
      - (if e.p in Holders(w) && e.p !in HoldersAfter(w, e) then 1 else 0)
  {
    hide Holders, Next;
    SetSizes(Holders(w), e.p);
  }

  lemma SetSizes(s: set<Pid>, p: Pid)
    ensures |s + {p}| == |s| + (if p in s then 0 else 1)
    ensures |s - {p}| == |s| - (if p in s then 1 else 0)
  {
    if p in s {
      assert s + {p} == s;
    } else {
      assert s - {p} == s;
    }
  }

  lemma HolderHolds(w: World, p: Pid)
    ensures p in Holders(w) <==> IsAt(w, p, Holding) && Alive(w, p)
  {
  }

  lemma NextKeepsInv(w: World, e: Event)
    requires Inv(w) && Next(w, e).Some?
    ensures Inv(Next(w, e).value)
  {
    var w' := Next(w, e).value;
    assert w'.sem.Some? ==> w'.sem.value.id < w'.nextId;
    hide Next, ProcessOk, UndoOk, SemaphoreOk, Creates;
    forall p | p in w'.procs
      ensures ProcessOk(w', p)
    {
      if p == e.p {
        ActorKeepsProcess(w, e);
      } else {
        OthersKeepProcess(w, e, p);
      }
    }
    forall p, q | Creates(w', p) && Creates(w', q)
      ensures p == q
    {
      NextKeepsCreator(w, e, p, q);
    }
    if w'.sem.Some? {
      forall p
        ensures UndoOk(w', p)
      {
        NextKeepsUndo(w, e, p);
      }
    }
    NextKeepsSemaphore(w, e);
  }

  // ----- Runs -----

  ghost function Run(events: seq<Event>): Option<World>
    decreases |events|
  {
    if events == [] then Some(INITIAL)
    else
      var before := Run(events[..|events| - 1]);
      if before.None? then None else Next(before.value, events[|events| - 1])
  }

  /** Every reachable state satisfies the invariant. */
  lemma {:induction false} RunKeepsInv(events: seq<Event>)
    requires Run(events).Some?
    ensures Inv(Run(events).value)
    decreases |events|
  {
    hide Inv, Next;
    if events == [] {
      InitialInv();
    } else {
      RunKeepsInv(events[..|events| - 1]);
      NextKeepsInv(Run(events[..|events| - 1]).value, events[|events| - 1]);
    }
  }

  lemma InitialInv()
    ensures Inv(INITIAL)
  {
  }

  lemma RunEmpty()
    ensures Run([]) == Some(INITIAL)
  {
  }

  lemma RunStep(events: seq<Event>, e: Event)
    requires Run(events).Some?
    ensures Run(events + [e]) == Next(Run(events).value, e)
  {
    hide Next, Inv;
    assert (events + [e])[..|events|] == events;
  }

  /** Conservation through crashes: in every reachable state an initialised semaphore's value and
      the processes inside its lock add up to one, the kernel would give back exactly one unit for
      each of them, and at most one process has created the semaphore. */
  lemma ValueAndHolders(events: seq<Event>, p: Pid, q: Pid)
    requires Run(events).Some? && Run(events).value.sem.Some?
    ensures var w := Run(events).value;
      && (w.sem.value.initialised ==> w.sem.value.value + |Holders(w)| == 1)
      && (!w.sem.value.initialised ==> w.sem.value.value == 0 && Holders(w) == {})
      && UndoOf(w.sem.value, p) == (if p in Holders(w) then 1 else 0)
      && (Creates(w, p) && Creates(w, q) ==> p == q)
  {
    hide Run;
    var w := Run(events).value;
    RunKeepsInv(events);
    assert UndoOk(w, p) && SemaphoreOk(w);
  }

  /** A creator's removal of its semaphore never fails, and a process that takes the re-create
      path, or is in the middle of it, is not inside the lock. */
  lemma RecreateNeverHolds(events: seq<Event>, p: Pid)
    requires Run(events).Some? && p in Run(events).value.procs
    ensures var w := Run(events).value;
      var x := w.procs[p];
      && (x.place == Ready ==> x.handle.Some? && (x.handle.value.isCreator ==> Alive(w, p)))
      && (x.place == Gone || x.place == Made || x.place == Found ==>
            p !in Holders(w) && (w.sem.Some? ==> UndoOf(w.sem.value, p) == 0))
      && (Alive(w, p) ==> x.handle.value.lockref == (if x.place == Holding then 1 else 0))
  {
    hide Run;
    var w := Run(events).value;
    RunKeepsInv(events);
    assert ProcessOk(w, p);
    assert w.sem.Some? ==> UndoOk(w, p);
  }

  // ----- Mutual exclusion across generations -----

  ghost predicate AnyHolding(w: World) {
    exists p :: IsAt(w, p, Holding)
  }

  /** A creator removes its semaphore while some process is inside the lock. */
  ghost predicate RemovesWhileHeld(w: World, e: Event) {
    e.Destroy? && Creates(w, e.p) && AnyHolding(w)
  }

  /** Unless a creator removed its semaphore while a process was inside the lock, every process
      inside holds the live semaphore, so there is at most one. */
  lemma {:induction false} ExclusiveUnlessRemoved(events: seq<Event>)
    requires Run(events).Some?
    requires forall k :: 0 <= k < |events| && Run(events[..k]).Some? ==>
               !RemovesWhileHeld(Run(events[..k]).value, events[k])
    ensures forall p :: IsAt(Run(events).value, p, Holding) ==> p in Holders(Run(events).value)
    decreases |events|
  {
    hide Run, Inv, Next;
    if events == [] {
      RunEmpty();
    } else {
      var n := |events| - 1;
      var before, e := events[..n], events[n];
      assert events == before + [e];
      RunPrefix(before, e);
      RunStep(before, e);
      forall k | 0 <= k < n
        ensures before[..k] == events[..k]
      {
      }
      ExclusiveUnlessRemoved(before);
      RunKeepsInv(before);
      HoldingStaysAlive(Run(before).value, e);
    }
  }

  lemma RunPrefix(before: seq<Event>, e: Event)
    requires Run(before + [e]).Some?
    ensures Run(before).Some?
  {
    hide Next, Inv;
    assert (before + [e])[..|before|] == before;
  }

  lemma HoldingStaysAlive(w: World, e: Event)
    requires Inv(w) && Next(w, e).Some? && !RemovesWhileHeld(w, e)
    requires forall p :: IsAt(w, p, Holding) ==> p in Holders(w)
    ensures forall p :: IsAt(Next(w, e).value, p, Holding) ==> p in Holders(Next(w, e).value)
  {
    hide UndoOk, SemaphoreOk, ProcessOk;
    var w' := Next(w, e).value;
    forall p | IsAt(w', p, Holding)
      ensures p in Holders(w')
    {
      assert p != e.p ==> IsAt(w, p, Holding);
    }
  }

  lemma AtMostOneInside(events: seq<Event>, p: Pid, q: Pid)
    requires Run(events).Some?
    requires forall k :: 0 <= k < |events| && Run(events[..k]).Some? ==>
               !RemovesWhileHeld(Run(events[..k]).value, events[k])
    requires IsAt(Run(events).value, p, Holding) && IsAt(Run(events).value, q, Holding)
    ensures p == q
  {
    hide Run;
    ExclusiveUnlessRemoved(events);
    RunKeepsInv(events);
    var w := Run(events).value;
    assert SemaphoreOk(w);
    OneElement(Holders(w), p, q);
  }

  lemma OneElement(s: set<Pid>, p: Pid, q: Pid)
    requires p in s && q in s && |s| <= 1
    ensures p == q
  {
    assert |s - {p}| == |s| - 1;
    assert q !in s - {p};
  }

  /** The condition is exact: once a creator removes its semaphore while `q` is inside, the same
      process can create a new one and lock it with `q` still inside. */
  lemma RemovalBreaksExclusion(events: seq<Event>, p: Pid, q: Pid)
    requires Run(events).Some? && Next(Run(events).value, Destroy(p)).Some?
    requires Creates(Run(events).value, p) && IsAt(Run(events).value, q, Holding)
    ensures var w := Run(events + [Destroy(p)] + [Semget(p)] + [SetVal(p)] + [Lock(p)]);
      p != q && w.Some? && IsAt(w.value, p, Holding) && IsAt(w.value, q, Holding)
  {
    hide Run;
    RunKeepsInv(events);
    assert ProcessOk(Run(events).value, p);
    RunStep(events, Destroy(p));
    RunStep(events + [Destroy(p)], Semget(p));
    RunStep(events + [Destroy(p)] + [Semget(p)], SetVal(p));
    RunStep(events + [Destroy(p)] + [Semget(p)] + [SetVal(p)], Lock(p));
  }

  /** A run after which process 1 is inside the lock of a semaphore that process 0 created. */
  const HELD := [Semget(0)] + [SetVal(0)] + [Semget(1)] + [Attach(1)] + [Lock(1)]

  lemma HeldRuns()
    ensures Run(HELD).Some? && Creates(Run(HELD).value, 0)
    ensures IsAt(Run(HELD).value, 0, Ready) && IsAt(Run(HELD).value, 1, Holding)
  {
    hide Run, Inv;
    RunEmpty();
    assert [] + [Semget(0)] == [Semget(0)];
    RunStep([], Semget(0));
    RunStep([Semget(0)], SetVal(0));
    RunStep([Semget(0)] + [SetVal(0)], Semget(1));
    RunStep([Semget(0)] + [SetVal(0)] + [Semget(1)], Attach(1));
    RunStep([Semget(0)] + [SetVal(0)] + [Semget(1)] + [Attach(1)], Lock(1));
  }

  /** Such a run exists: a creator removes its semaphore under another process and both end inside. */
  lemma TwoInside()
    ensures Run(HELD).Some? && RemovesWhileHeld(Run(HELD).value, Destroy(0))
    ensures var w := Run(HELD + [Destroy(0)] + [Semget(0)] + [SetVal(0)] + [Lock(0)]);
      w.Some? && IsAt(w.value, 0, Holding) && IsAt(w.value, 1, Holding)
  {
    hide Run, Inv;
    HeldRuns();
    assert IsAt(Run(HELD).value, 1, Holding);
    RemovalBreaksExclusion(HELD, 0, 1);
  }

  // ----- Progress -----

  /** In every reachable state a process blocked in lock has to wait exactly while its semaphore is
      alive and another process is inside or its creator has not set it up yet; every other step of
      the code is always possible. */
  lemma BlockedIff(events: seq<Event>, e: Event)
    requires Run(events).Some? && e.p in Run(events).value.procs
    ensures var w := Run(events).value;
      var place := w.procs[e.p].place;
      && (e.Semget? ==> (Next(w, e).Some? <==> place == Gone))
      && (e.SetVal? ==> (Next(w, e).Some? <==> place == Made))
      && (e.Attach? ==> (Next(w, e).Some? <==> place == Found))
      && (e.Lock? ==> (Next(w, e).Some? <==> place == Ready))
      && (e.Wake? && place != Waiting ==> Next(w, e).None?)
      && (e.Wake? && place == Waiting ==>
            (Next(w, e).None? <==> Alive(w, e.p) && (Holders(w) != {} || !w.sem.value.initialised)))
      && (e.Unlock? ==> (Next(w, e).Some? <==> place == Holding))
      && (e.Destroy? ==> (Next(w, e).Some? <==> place == Ready))
      && (e.Crash? ==> Next(w, e).Some?)
  {
    hide Run, UndoOk, Creates, Holders;
    var w := Run(events).value;
    RunKeepsInv(events);
    assert ProcessOk(w, e.p) && SemaphoreOk(w);
  }

  /** Where `p` stands, with the live semaphore at `value`. */
  ghost predicate Stands(w: Option<World>, p: Pid, place: Place, value: int) {
    w.Some? && IsAt(w.value, p, place) && Alive(w.value, p) && w.value.sem.value.value == value
  }

  /** A free semaphore is taken at once; otherwise lock blocks. */
  lemma Locks(events: seq<Event>, p: Pid, value: int)
    requires Stands(Run(events), p, Ready, value)
    ensures value > 0 ==> Stands(Run(events + [Lock(p)]), p, Holding, value - 1)
    ensures value <= 0 ==> Stands(Run(events + [Lock(p)]), p, Waiting, value)
  {
    hide Run, Inv;
    RunStep(events, Lock(p));
  }

  /** Unlock frees a live semaphore, and any process blocked on it can then wake up inside. */
  lemma HandsOver(events: seq<Event>, p: Pid, q: Pid, value: int)
    requires Stands(Run(events), p, Holding, value) && Stands(Run(events), q, Waiting, value)
    ensures Stands(Run(events + [Unlock(p)]), p, Ready, 1)
    ensures Stands(Run(events + [Unlock(p)] + [Wake(q)]), q, Holding, 0)
  {
    RunKeepsInv(events);
    HolderEmpties(Run(events).value, p);
    hide Run, Inv;
    RunStep(events, Unlock(p));
    RunStep(events + [Unlock(p)], Wake(q));
  }

  lemma HolderEmpties(w: World, p: Pid)
    requires Inv(w) && IsAt(w, p, Holding) && Alive(w, p)
    ensures w.sem.value.value == 0
  {
    hide UndoOk, ProcessOk, Creates;
    assert SemaphoreOk(w);
    assert p in Holders(w);
    assert |Holders(w)| == |Holders(w) - {p}| + 1;
  }

  /** The death of a process inside frees the semaphore as well. */
  lemma SurvivesCrash(events: seq<Event>, p: Pid, q: Pid, value: int)
    requires Stands(Run(events), p, Holding, value) && Stands(Run(events), q, Waiting, value)
    ensures Stands(Run(events + [Crash(p)] + [Wake(q)]), q, Holding, 0)
  {
    RunKeepsInv(events);
    HolderEmpties(Run(events).value, p);
    assert UndoOk(Run(events).value, p);
    HolderHolds(Run(events).value, p);
    hide Run, Inv, Holders;
    RunStep(events, Crash(p));
    RunStep(events + [Crash(p)], Wake(q));
  }

  /** A process blocked on a semaphore that is removed returns from lock without re-creating it; its
      next lock finds the semaphore gone and goes on to create or find another. */
  lemma WakesRemoved(events: seq<Event>, p: Pid)
    requires Run(events).Some? && IsAt(Run(events).value, p, Waiting) && !Alive(Run(events).value, p)
    ensures var w := Run(events).value;
      && Run(events + [Wake(p)]) == Some(w.(procs := w.procs[p := w.procs[p].(place := Ready)]))
      && var v := Run(events + [Wake(p)] + [Lock(p)] + [Semget(p)]);
         v.Some? && v.value.sem.Some? && IsAt(v.value, p, if w.sem.Some? then Found else Made)
  {
    hide Run, Inv;
    RunStep(events, Wake(p));
    RunStep(events + [Wake(p)], Lock(p));
    RunStep(events + [Wake(p)] + [Lock(p)], Semget(p));
  }

  /** The first process to come creates the semaphore, sets it to 1 and is its creator; a later one
      finds it and is not. */
  lemma Comes(events: seq<Event>, p: Pid)
    requires Run(events).Some? && p !in Run(events).value.procs
    ensures var w := Run(events).value;
      && (w.sem.None? ==> var v := Run(events + [Semget(p)] + [SetVal(p)]);
                          Stands(v, p, Ready, 1) && v.value.procs[p].handle.value.isCreator)
      && (w.sem.Some? ==> var v := Run(events + [Semget(p)] + [Attach(p)]);
                          Stands(v, p, Ready, w.sem.value.value) && !v.value.procs[p].handle.value.isCreator)
  {
    hide Run, Inv;
    RunStep(events, Semget(p));
    if Run(events).value.sem.None? {
      RunStep(events + [Semget(p)], SetVal(p));
    } else {
      RunStep(events + [Semget(p)], Attach(p));
    }
  }

  /** Destroy by the creator removes the semaphore, by another process only its own handle. */
  lemma Destroys(events: seq<Event>, p: Pid)
    requires Run(events).Some? && IsAt(Run(events).value, p, Ready)
    ensures var w, v := Run(events).value, Run(events + [Destroy(p)]);
      v.Some? && p !in v.value.procs && v.value.sem == (if Creates(w, p) then None else w.sem)
  {
    RunKeepsInv(events);
    assert ProcessOk(Run(events).value, p);
    hide Run, Inv;
    RunStep(events, Destroy(p));
  }
}
