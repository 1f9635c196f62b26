/** The id bookkeeping of the synchronisation syscalls in
    os/src/syscall/sync.rs: creating a mutex, semaphore or condition
    variable reuses the lowest free slot of the process's list or appends
    one, `sys_semaphore_down` rejects ids above 2, and
    `sys_enable_deadlock_detect` sets the process's detection switch. */
module SyncSyscalls {
  import opened Wrappers
  import opened Process

  /** The lowest index whose slot is free, or the length when none is. */
  function FirstFree<T>(slots: seq<Option<T>>): (id: nat)
    ensures id <= |slots|
    ensures forall k | 0 <= k < id :: slots[k].Some?
    ensures id < |slots| ==> slots[id].None?
  {
    if slots == [] then 0
    else if slots[0].None? then 0
    else 1 + FirstFree(slots[1..])
  }

  /** `updated` is `slots` with `item` placed at `id`, appended when `id`
      is one past the end, and every other slot as it was. */
  ghost predicate FilledAt<T>(slots: seq<Option<T>>, id: nat, item: T, updated: seq<Option<T>>)
  {
    && id <= |slots|
    && |updated| == (if id < |slots| then |slots| else |slots| + 1)
    && updated[id] == Some(item)
    && forall k | 0 <= k < |slots| && k != id :: updated[k] == slots[k]
  }

  /** The slot list after a create syscall has stored `item`. */
  function Fill<T>(slots: seq<Option<T>>, item: T): (updated: seq<Option<T>>)
    ensures FilledAt(slots, FirstFree(slots), item, updated)
  {
    var id := FirstFree(slots);
    if id < |slots| then slots[id := Some(item)] else slots + [Some(item)]
  }

  /** Two creations in a row never hand out the same id. */
  lemma FillMovesFirstFree<T>(slots: seq<Option<T>>, item: T)
    ensures FirstFree(Fill(slots, item)) > FirstFree(slots)
  {
    var id, updated := FirstFree(slots), Fill(slots, item);
    assert forall k | 0 <= k <= id :: updated[k].Some?;
  }

  /** Searches the list for the first free slot and stores `item` there,
      or pushes it when every slot is taken; returns the slot's id. */
  method AllocSlot<T>(slots: seq<Option<T>>, item: T) returns (id: nat, updated: seq<Option<T>>)
    ensures id == FirstFree(slots)
    ensures updated == Fill(slots, item)
  {
    var i := 0;
    while i < |slots| && slots[i].Some?
      invariant 0 <= i <= |slots|
      invariant forall k | 0 <= k < i :: slots[k].Some?
    {
      i := i + 1;
    }
    if i < |slots| {
      id, updated := i, slots[i := Some(item)];
    } else {
      updated := slots + [Some(item)];
      id := |updated| - 1;
    }
  }

  /** `sys_mutex_create`: a spin mutex unless `blocking`. */
  method SysMutexCreate(process: ProcessInner, blocking: bool) returns (r: int)
    modifies process`mutexList
    ensures r == FirstFree(old(process.mutexList))
    ensures process.mutexList == Fill(old(process.mutexList), if blocking then BlockingMutex else SpinMutex)
  {
    var kind := if !blocking then SpinMutex else BlockingMutex;
    var id;
    id, process.mutexList := AllocSlot(process.mutexList, kind);
    r := id;
  }

  /** `sys_semaphore_create`: a semaphore with `resCount` units. */
  method SysSemaphoreCreate(process: ProcessInner, resCount: nat) returns (r: int)
    modifies process`semaphoreList
    ensures r == FirstFree(old(process.semaphoreList))
    ensures process.semaphoreList == Fill(old(process.semaphoreList), Semaphore(resCount))
  {
    var id;
    id, process.semaphoreList := AllocSlot(process.semaphoreList, Semaphore(resCount));
    r := id;
  }

  /** `sys_condvar_create`. */
  method SysCondvarCreate(process: ProcessInner) returns (r: int)
    modifies process`condvarList
    ensures r == FirstFree(old(process.condvarList))
    ensures process.condvarList == Fill(old(process.condvarList), Condvar)
  {
    var id;
    id, process.condvarList := AllocSlot(process.condvarList, Condvar);
    r := id;
  }

  /** The guard of `sys_semaphore_down`: ids above 2 are reported as a
      deadlock before the list is touched; any other id must name a live
      semaphore (the kernel unwraps it). The semaphore's own `down` is not
      part of this model. */
  method SysSemaphoreDown(process: ProcessInner, semId: nat) returns (r: int)
    requires semId <= 2 ==> semId < |process.semaphoreList| && process.semaphoreList[semId].Some?
    ensures semId > 2 ==> r == DEADLOCK_CODE
    ensures semId <= 2 ==> r == 0
  {
    if semId > 2 {
      return DEADLOCK_CODE;
    }
    assert process.semaphoreList[semId].Some?;
    r := 0;
  }

  /** `sys_enable_deadlock_detect`: any positive argument turns detection
      on, zero turns it off. */
  method SysEnableDeadlockDetect(process: ProcessInner, enabled: nat) returns (r: int)
    modifies process`enableDeadlockDetect
    ensures process.enableDeadlockDetect <==> enabled > 0
    ensures r == 0
  {
    if enabled > 0 {
      process.enableDeadlockDetect := true;
    } else {
      process.enableDeadlockDetect := false;
    }
    r := 0;
  }
}
