/** Robust process-shared mutexes as POSIX.1-2008 describes them (System Interfaces,
    pthread_mutex_lock, pthread_mutex_consistent, pthread_mutex_unlock). */
module RobustMutex {
  import opened Basics

  /** `Held` is consistent ownership.  `Inconsistent` is the state an owner finds the mutex in
      after EOWNERDEAD, until it calls pthread_mutex_consistent. */
  datatype Mutex =
    | Free
    | Held(owner: Pid)
    | Inconsistent(owner: Pid)
    | OwnerDead
    | NotRecoverable

  predicate CanLock(m: Mutex) {
    m.Free? || m.OwnerDead?
  }

  /** The mutex after pthread_mutex_lock returns to `p`. */
  function Acquire(m: Mutex, p: Pid): Mutex
    requires CanLock(m)
  {
    if m.Free? then Held(p) else Inconsistent(p)
  }

  function MakeConsistent(m: Mutex): Mutex {
    if m.Inconsistent? then Held(m.owner) else m
  }

  /** Unlocking an inconsistent mutex makes it permanently unusable. */
  function Release(m: Mutex): Mutex {
    if m.Inconsistent? then NotRecoverable else Free
  }

  /** The mutex after process `p` dies. */
  function Die(m: Mutex, p: Pid): Mutex {
    if (m.Held? || m.Inconsistent?) && m.owner == p then OwnerDead else m
  }

  /** Taking over from a dead owner, the mutex can be locked again after unlocking exactly when it was
      made consistent in between; a mutex that was free needs nothing. */
  lemma RecoveryNeeded(m: Mutex, p: Pid)
    requires m == Free || m == OwnerDead
    ensures CanLock(m) && CanLock(Release(MakeConsistent(Acquire(m, p))))
    ensures CanLock(Release(Acquire(m, p))) <==> m == Free
  {
  }
}
