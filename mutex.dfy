/** The two mutexes of os/src/sync/mutex.rs as state machines. Blocking,
    waking and yielding are scheduler events outside this model: a blocked
    caller shows up as an entry of the wait queue, a woken one as the task
    `Unlock` hands the lock to, and a spinning caller that yields as a
    `None` result of one lock attempt. Both mutexes mark the calling
    process `deadlocked` on contention and clear the mark on unlock. */
module Mutexes {
  import opened Wrappers
  import opened Process

  class MutexSpin {
    var locked: bool

    constructor ()
      ensures !locked
    {
      locked := false;
    }

    /** One pass of the spin lock's retry loop. A free lock is taken and 0
        is returned. A held lock marks the process deadlocked; with
        detection on the call returns the deadlock code, otherwise the
        caller yields and will try again (`None`). */
    method Lock(process: ProcessInner) returns (r: Option<int>)
      modifies this, process`deadlocked
      ensures locked
      ensures !old(locked) ==> r == Some(0) && process.deadlocked == old(process.deadlocked)
      ensures old(locked) ==> process.deadlocked
      ensures old(locked) ==> r == if process.enableDeadlockDetect then Some(DEADLOCK_CODE) else None
    {
      if locked {
        process.deadlocked := true;
        var exitNow := false;
        if process.enableDeadlockDetect {
          exitNow := true;
        }
        if exitNow {
          return Some(DEADLOCK_CODE);
        }
        return None;
      } else {
        locked := true;
        return Some(0);
      }
    }

    /** Frees the lock and clears the process's deadlock mark. */
    method Unlock(process: ProcessInner)
      modifies this, process`deadlocked
      ensures !locked && !process.deadlocked
    {
      locked := false;
      process.deadlocked := false;
    }
  }

  /** The state of a blocking mutex: the flag and the FIFO of waiting tasks. */
  datatype BlockingState = BlockingState(locked: bool, waitQueue: seq<nat>)

  /** Nobody waits on a free mutex. */
  ghost predicate Consistent(s: BlockingState)
  {
    s.waitQueue != [] ==> s.locked
  }

  /** One `lock` call by task `current`, with the process's detection
      switch `detect`: the new state and the code returned (a blocked
      caller returns 0 once it is woken holding the lock). */
  function LockStep(s: BlockingState, detect: bool, current: nat): (next: (BlockingState, int))
  {
    if !s.locked then (BlockingState(true, s.waitQueue), 0)
    else if detect then (s, DEADLOCK_CODE)
    else (BlockingState(true, s.waitQueue + [current]), 0)
  }

  /** One `unlock` call: the front waiter, if any, is woken and keeps the
      mutex locked; otherwise the mutex becomes free. */
  function UnlockStep(s: BlockingState): (next: (BlockingState, Option<nat>))
    requires s.locked
  {
    if s.waitQueue != [] then (BlockingState(true, s.waitQueue[1..]), Some(s.waitQueue[0]))
    else (BlockingState(false, []), None)
  }

  /** Both transitions keep waiters off a free mutex, and unlock frees the
      mutex only when nobody waits. */
  lemma StepsKeepConsistent(s: BlockingState, detect: bool, current: nat)
    requires Consistent(s)
    ensures Consistent(LockStep(s, detect, current).0)
    ensures s.locked ==> Consistent(UnlockStep(s).0)
    ensures s.locked && !UnlockStep(s).0.locked ==> s.waitQueue == []
  {
  }

  /** Locking a free mutex and unlocking it again restores the free state. */
  lemma LockUnlockRoundTrip(s: BlockingState, detect: bool, current: nat)
    requires Consistent(s) && !s.locked
    ensures LockStep(s, detect, current) == (BlockingState(true, []), 0)
    ensures UnlockStep(LockStep(s, detect, current).0) == (BlockingState(false, []), None)
  {
  }

  /** The state after tasks `ts`, in this order, call `lock` with
      detection off. */
  function LockAll(s: BlockingState, ts: seq<nat>): (s': BlockingState)
    decreases |ts|
  {
    if ts == [] then s else LockAll(LockStep(s, false, ts[0]).0, ts[1..])
  }

  /** The tasks woken by `n` successive `unlock` calls, in order. */
  function Wakes(s: BlockingState, n: nat): (woken: seq<nat>)
    requires s.locked && n <= |s.waitQueue|
    decreases n
  {
    if n == 0 then []
    else [UnlockStep(s).1.value] + Wakes(UnlockStep(s).0, n - 1)
  }

  /** On a held mutex every further locker joins the back of the queue. */
  lemma {:induction false} LockAllEnqueues(s: BlockingState, ts: seq<nat>)
    requires s.locked
    ensures LockAll(s, ts) == BlockingState(true, s.waitQueue + ts)
    decreases |ts|
  {
    if ts != [] {
      var s' := LockStep(s, false, ts[0]).0;
      LockAllEnqueues(s', ts[1..]);
      assert s'.waitQueue + ts[1..] == s.waitQueue + ts;
    }
  }

  /** Unlocks hand the mutex to waiters from the front of the queue. */
  lemma {:induction false} WakesFromFront(s: BlockingState, n: nat)
    requires s.locked && n <= |s.waitQueue|
    ensures Wakes(s, n) == s.waitQueue[..n]
    decreases n
  {
    if n > 0 {
      var s' := UnlockStep(s).0;
      WakesFromFront(s', n - 1);
      assert s.waitQueue[..n] == [s.waitQueue[0]] + s.waitQueue[1..][..n - 1];
    }
  }

  /** FIFO hand-over: on a held mutex, the waiters already queued and then
      the tasks `ts` that call `lock` afterwards are granted the mutex in
      exactly that order. */
  lemma HandOverInArrivalOrder(s: BlockingState, ts: seq<nat>)
    requires s.locked
    ensures LockAll(s, ts).locked && |LockAll(s, ts).waitQueue| == |s.waitQueue| + |ts|
    ensures Wakes(LockAll(s, ts), |s.waitQueue| + |ts|) == s.waitQueue + ts
  {
    LockAllEnqueues(s, ts);
    WakesFromFront(LockAll(s, ts), |s.waitQueue| + |ts|);
  }

  class MutexBlocking {
    var locked: bool
    var waitQueue: seq<nat>

    function State(): (s: BlockingState)
      reads this
    {
      BlockingState(locked, waitQueue)
    }

    ghost predicate Valid()
      reads this
    {
      Consistent(State())
    }

    constructor ()
      ensures Valid() && State() == BlockingState(false, [])
    {
      locked := false;
      waitQueue := [];
    }

    /** `lock` by task `current`. On a held mutex the process is marked
        deadlocked; with detection on the deadlock code is returned at
        once, otherwise the task is queued at the back and blocks. */
    method Lock(process: ProcessInner, current: nat) returns (r: int)
      requires Valid()
      modifies this, process`deadlocked
      ensures Valid()
      ensures (State(), r) == LockStep(old(State()), process.enableDeadlockDetect, current)
      ensures process.deadlocked == (old(locked) || old(process.deadlocked))
    {
      if locked {
        process.deadlocked := true;
        var exitNow := false;
        if process.enableDeadlockDetect {
          exitNow := true;
        }
        if exitNow {
          return DEADLOCK_CODE;
        }
        waitQueue := waitQueue + [current];
      } else {
        locked := true;
      }
      r := 0;
    }

    /** `unlock`, which the kernel asserts is called on a held mutex:
        clears the process's deadlock mark, then wakes the front waiter and
        leaves the mutex locked for it, or frees the mutex when nobody
        waits. Returns the task woken. */
    method Unlock(process: ProcessInner) returns (woken: Option<nat>)
      requires Valid() && locked
      modifies this, process`deadlocked
      ensures Valid()
      ensures (State(), woken) == UnlockStep(old(State()))
      ensures !process.deadlocked
    {
      process.deadlocked := false;
      if waitQueue != [] {
        woken := Some(waitQueue[0]);
        waitQueue := waitQueue[1..];
      } else {
        woken := None;
        locked := false;
      }
    }
  }
}
