/** The part of a process control block's inner state that the
    synchronisation syscalls and the mutexes touch: the deadlock-detection
    switch, the `deadlocked` mark and the three id-indexed lists of
    synchronisation objects. Every access in the kernel goes through an
    exclusive borrow on a uniprocessor, so each method below is one atomic
    state transition. */
module Process {
  import opened Wrappers

  /** The value the kernel returns when it reports a deadlock. */
  const DEADLOCK_CODE: int := -0xDEAD

  /** What `sys_mutex_create` stores in a slot of `mutex_list`. */
  datatype MutexKind = SpinMutex | BlockingMutex

  /** A semaphore, as created: only its initial resource count is modelled. */
  datatype SemaphoreObj = Semaphore(resCount: nat)

  /** A condition variable; its internals are not part of this model. */
  datatype CondvarObj = Condvar

  class ProcessInner {
    var enableDeadlockDetect: bool
    var deadlocked: bool
    var mutexList: seq<Option<MutexKind>>
    var semaphoreList: seq<Option<SemaphoreObj>>
    var condvarList: seq<Option<CondvarObj>>
  }
}
