# rCore lab kernel: synchronisation bookkeeping, process syscalls and mutexes

This project models three sequential cores of a teaching kernel (rCore, a
RISC-V kernel written in Rust) and proves properties of them in Dafny. Each
core runs on a uniprocessor under exclusive borrows of the kernel's cells,
so every operation is one atomic state transition.

- **The resource-allocation table** (`ResourceAllocation`, os/src/syscall/sync.rs)
  keeps free units per resource type, per-thread rows of held and needed
  units, the thread ids, finish marks and a `maximum` column used for
  deadlock detection. It is a class whose `seq` fields the methods
  reassign. The model makes its quirks explicit. `allocation` and `need`
  start with one empty row, so they always have one row more than
  `tidList`, and a thread's row is its position in `tidList`.
  `AddThread` appends a full-width zero row, but the new thread is
  served by the row that was last before it: the first thread gets the
  initial empty row, which `AddResType` widens only for resource types
  added after that thread registered. `AddResType` pads only the rows
  `0 .. |tidList|-1`, so the last row is never widened by it.
  `AddThread` writes `finish` at the new thread's position without
  lengthening it, so it requires `finish` to be long enough already.
  Nothing in os/src/syscall/sync.rs lengthens `finish`; unless a caller
  pushes onto it, the first `addthread` indexes out of bounds
  (sync.rs:41, 76).
  The `usize` decrements of `dealloc` and
  `renew_maximum` are preconditions. The conservation law "free plus held
  units of each resource type stay constant" is stated with
  `ColumnTotal` and proved for `AddThread`, `Alloc`, `Dealloc` and
  `Release`.
- **Id slots of the synchronisation syscalls** (os/src/syscall/sync.rs).
  Creating a mutex, semaphore or condition variable stores it in the
  lowest free slot of the process's list, or appends it. `sys_semaphore_down`
  refuses ids above 2 with the deadlock code. `sys_enable_deadlock_detect`
  sets the detection switch.
- **Process syscalls** (os/src/syscall/process.rs), reduced to their
  decisions. These are:
  - the priority guard;
  - the argument checks of `mmap`, its page count and its permission flags;
  - exact-area removal in `munmap`;
  - child selection in `waitpid`;
  - the seconds/microseconds split of `get_time`;
  - the counter-to-syscall-number table of `task_info`.

  The page table is a map from virtual page number to the valid bit of
  its leaf entry. A page missing from the map has no leaf entry. Child
  processes are records (pid, zombie, exit code). The clock and the frame
  allocator's free-frame count are parameters. Values the kernel writes
  into user memory are returned.
- **Mutexes** (os/src/sync/mutex.rs). `MutexSpin` is one flag.
  `MutexBlocking` is a flag plus a FIFO wait queue, and unlocking hands
  the mutex straight to the front waiter. The value-level functions
  `LockStep` and `UnlockStep` specify the blocking mutex's methods. On
  them the model proves three things: waiters only exist while the mutex
  is held, lock-then-unlock is a round trip, and waiters get the mutex
  in arrival order.

The kernel's configuration module (os/src/config.rs) is not modelled;
`PAGE_SIZE` is taken as 4096 and `MAX_SYSCALL_NUM` as 500. `TaskStatus` follows
os/src/task/task.rs.

Files: `wrappers.dfy` (Option), `process_inner.dfy` (the process state the
synchronisation code touches), `resource_allocation.dfy`,
`sync_syscalls.dfy`, `mutex.dfy`, `process_syscalls.dfy`.

## Model

| member | source | states |
|---|---|---|
| ResourceTable.IndexOf | os/src/syscall/sync.rs:59-69 | the least position of a tid in the list, or -1 exactly when it is absent |
| ResourceTable.ColumnTotalUpdate | os/src/syscall/sync.rs:85-95 | replacing one thread's row changes a resource's held total by exactly the change in that row's entry |
| ResourceTable.ColumnTotalAppendZeros | os/src/syscall/sync.rs:72-74 | adding a zero row for a new thread leaves every held total unchanged |
| ResourceTable.ResourceAllocation.constructor | os/src/syscall/sync.rs:34-44 | all vectors empty except `allocation` and `need`, which start with one empty row |
| ResourceTable.ResourceAllocation.AddResType | os/src/syscall/sync.rs:46-54 | the count is appended to `available` and `maximum`; a 0 is appended to rows `0..tid_list.len()` of `allocation` and `need` only; everything else is unchanged |
| ResourceTable.ResourceAllocation.Find | os/src/syscall/sync.rs:60-69 | returns the least index holding `tid`, or -1 when there is none; changes nothing |
| ResourceTable.ResourceAllocation.AddThread | os/src/syscall/sync.rs:71-77 | appends zero rows as wide as `available` and the tid; clears `finish` at the new position, which must already exist; conserves resources |
| ResourceTable.ResourceAllocation.Alloc | os/src/syscall/sync.rs:79-90 | with a free unit, moves it from `available` to the thread's row, zeroes the thread's need, marks it finished, adds its row to `maximum`; conserves resources |
| ResourceTable.ResourceAllocation.Dealloc | os/src/syscall/sync.rs:92-96 | with a held unit, moves it back to `available`; conserves resources |
| ResourceTable.ResourceAllocation.RenewMaximum | os/src/syscall/sync.rs:98-110 | adds the thread's row to `maximum` if it is finished, subtracts it otherwise (no underflow allowed) |
| ResourceTable.ResourceAllocation.Release | os/src/syscall/sync.rs:112-118 | adds every held entry of the thread to `available` and zeroes them; other rows are untouched; conserves resources |
| ResourceTable.ResourceAllocation.IsDeadlocked | os/src/syscall/sync.rs:120-126 | true exactly when `maximum[res_id]` is 0; changes nothing |
| SyncSyscalls.FirstFree | os/src/syscall/sync.rs:168-173 | the least index whose slot is empty, or the length when every slot is taken |
| SyncSyscalls.Fill | os/src/syscall/sync.rs:174-185 | the new object sits at the first free id (appended when there is none); all other slots are unchanged |
| SyncSyscalls.FillMovesFirstFree | os/src/syscall/sync.rs:168-185 | after a creation the next free id is strictly larger, so two creations never return the same id |
| SyncSyscalls.AllocSlot | os/src/syscall/sync.rs:249-263 | the slot search and store return the first free id and the filled list |
| SyncSyscalls.SysMutexCreate | os/src/syscall/sync.rs:149-186 | a spin mutex unless blocking, stored at and returning the first free id |
| SyncSyscalls.SysSemaphoreCreate | os/src/syscall/sync.rs:235-267 | a semaphore with the given count, stored at and returning the first free id |
| SyncSyscalls.SysCondvarCreate | os/src/syscall/sync.rs:316-348 | a condition variable stored at and returning the first free id |
| SyncSyscalls.SysSemaphoreDown | os/src/syscall/sync.rs:291-314 | ids above 2 return -0xDEAD; other ids must name a live semaphore and return 0 |
| SyncSyscalls.SysEnableDeadlockDetect | os/src/syscall/sync.rs:400-413 | detection is on exactly when the argument is positive; returns 0 |
| Mutexes.MutexSpin.constructor | os/src/sync/mutex.rs:25-29 | a new spin mutex is free |
| Mutexes.MutexSpin.Lock | os/src/sync/mutex.rs:34-60 | a free lock is taken and 0 returned; a held lock marks the process deadlocked and returns -0xDEAD with detection on, otherwise yields to retry |
| Mutexes.MutexSpin.Unlock | os/src/sync/mutex.rs:62-72 | the lock is free and the process's deadlock mark cleared |
| Mutexes.StepsKeepConsistent | os/src/sync/mutex.rs:105-142 | lock and unlock keep "a non-empty queue implies locked"; unlock frees the mutex only when nobody waits |
| Mutexes.LockUnlockRoundTrip | os/src/sync/mutex.rs:121-142 | locking a free mutex returns 0, and unlocking it again restores the free state |
| Mutexes.LockAllEnqueues | os/src/sync/mutex.rs:105-120 | on a held mutex without detection, lockers join the back of the queue in call order |
| Mutexes.WakesFromFront | os/src/sync/mutex.rs:138-142 | successive unlocks wake waiters from the front of the queue |
| Mutexes.HandOverInArrivalOrder | os/src/sync/mutex.rs:102-144 | on a held mutex, queued waiters and later lockers are granted the mutex in exactly arrival order |
| Mutexes.MutexBlocking.constructor | os/src/sync/mutex.rs:87-97 | a new blocking mutex is free with an empty queue |
| Mutexes.MutexBlocking.Lock | os/src/sync/mutex.rs:102-126 | free: becomes locked, returns 0, queue unchanged; held: marks the process deadlocked, then returns -0xDEAD with detection on or queues the caller at the back; keeps the queue invariant |
| Mutexes.MutexBlocking.Unlock | os/src/sync/mutex.rs:129-144 | on a held mutex: clears the deadlock mark, pops and wakes the front waiter leaving the mutex locked, or frees it when the queue is empty |
| ProcessSyscalls.SplitMicros | os/src/syscall/process.rs:166-170 | `sec * 1_000_000 + usec` equals the microsecond count and `usec < 1_000_000` |
| ProcessSyscalls.SplitMicrosInverse | os/src/syscall/process.rs:167-170 | every normalised time value is the split of its own microsecond count |
| ProcessSyscalls.PageCount | os/src/syscall/process.rs:243 | the page count is the least number of pages covering `len` bytes |
| ProcessSyscalls.AlignedEndPage | os/src/syscall/process.rs:251-258 | from an aligned start, the page past `start + len` is the start page plus the page count, so the area mapped is the range checked |
| ProcessSyscalls.PortCheckAsBits | os/src/syscall/process.rs:239 | the kernel's bit tests on `port` reject exactly the ports outside 1..7 |
| ProcessSyscalls.MmapPermissions | os/src/syscall/process.rs:270-279 | the flags always include U, and include R, W, X exactly when bits 0, 1, 2 of `port` are set |
| ProcessSyscalls.FirstExactArea | os/src/syscall/process.rs:320-328 | the least index of an area whose range is exactly `[l, r)`, or the length when there is none |
| ProcessSyscalls.FirstMatchingZombie | os/src/syscall/process.rs:123-127 | the least index of a zombie child matching `pid`, or the length when there is none |
| ProcessSyscalls.AnyMatchingChild | os/src/syscall/process.rs:115-119 | true exactly when some child matches `pid` (-1 matches all) |
| ProcessSyscalls.FindMatchingZombie | os/src/syscall/process.rs:123-128 | the index of the first matching zombie, or -1 exactly when there is none |
| ProcessSyscalls.RemoveAtMultiset | os/src/syscall/process.rs:129 | removing one position takes out exactly that child and keeps all others |
| ProcessSyscalls.SyscallIdsIncreasing | os/src/syscall/process.rs:204-218 | the 15 reported syscall numbers strictly increase (so the remap is injective) and fit the array |
| ProcessSyscalls.ReportSyscallTimes | os/src/syscall/process.rs:200-218 | counter `k` lands at syscall number `SYSCALL_IDS[k]`; every other entry is 0 |
| ProcessSyscalls.TaskInner.SysSetPriority | os/src/syscall/process.rs:386-401 | a priority of 1 or less returns -1 and leaves the priority; any other is stored and returned |
| ProcessSyscalls.TaskInner.SysGetTime | os/src/syscall/process.rs:148-174 | the time value written is the normalised split of the clock reading; returns 0 |
| ProcessSyscalls.TaskInner.SysTaskInfo | os/src/syscall/process.rs:179-224 | reports the status, the remapped counters including this call, and the elapsed milliseconds |
| ProcessSyscalls.TaskInner.SysMmap | os/src/syscall/process.rs:227-286 | returns 0 exactly when start is aligned, port valid, enough frames free and no page of the range validly mapped; then maps every page of the range and adds the area with the port's permissions; otherwise -1 with nothing mapped |
| ProcessSyscalls.TaskInner.SysMunmap | os/src/syscall/process.rs:289-335 | returns 0 exactly when start is aligned, every page has an entry and some area covers exactly the range; then removes the first such area only and invalidates its pages; otherwise -1 |
| ProcessSyscalls.TaskInner.SysWaitpid | os/src/syscall/process.rs:106-143 | -1 when no child matches, -2 when none of the matching children is a zombie; otherwise removes the first matching zombie (others keep their order) and returns its pid and exit code |

## Left out

- A stride scheduler and its comparator: not in the modelled files, whose only priority logic is the guard in `sys_set_priority`; the scheduler files (such as os/src/task/manager.rs) are not part of this model.
- os/src/syscall/fs.rs (`sys_write`): console output only.
- ResourceTable.ResourceAllocation.Alloc: requires `tid` to be registered, its row wide enough for `resId` and for `maximum`, and `finish` long enough for its row. Otherwise `find` gives -1, whose `as usize` is `usize::MAX`, and the indexing at sync.rs:81, 86 or 88 (or at sync.rs:100-102 in `renew_maximum`) panics out of bounds; the row-offset quirk above makes a short row reachable.
- ResourceTable.ResourceAllocation.Dealloc: requires `tid` to be registered and its row wide enough for `resId`; otherwise the indexing at sync.rs:94 panics out of bounds (and an unregistered tid indexes at `usize::MAX`).
- ResourceTable.ResourceAllocation.RenewMaximum: requires `tid` to be registered, `finish` long enough for its row and the row as wide as `maximum`; otherwise the indexing at sync.rs:100, 102 or 107 panics out of bounds.
- ResourceTable.ResourceAllocation.Release: requires `tid` to be registered and its row as wide as `available`; otherwise the indexing at sync.rs:115-116 panics out of bounds.
- `resources_types_num` (os/src/syscall/sync.rs:56-58): a length accessor, equal to the length of `available`.
- `sleep`, `sys_sleep` and the wait loop in `alloc`: timer-driven waiting; `Alloc` instead requires a free unit.
- `sys_mutex_lock`, `sys_mutex_unlock`, `sys_semaphore_up`, `sys_condvar_signal`, `sys_condvar_wait`: they only look up a slot and call the object. The mutex calls are modelled in `Mutexes`. Semaphore and condition-variable internals are not part of this model.
- Process creation (`sys_fork`, `sys_exec`, `sys_spawn`), exit (`sys_exit`), yield (`sys_yield`), the pid query (`sys_getpid`) and heap growth (`sys_sbrk`): they act on the task manager, the loader and the address space's break, none of which is modelled. Their counter increments are left out too.
- `trace!` logging.
- ProcessSyscalls.TaskInner.SysTaskInfo: assumes the clock reads at or past the task's start time (`nowUs / 1000 >= startTime`); otherwise the `usize` subtraction `current_time - start_time` at process.rs:219 underflows, which the model does not capture.
- SyncSyscalls.SysSemaphoreDown: requires ids 0..2 to name a live semaphore; otherwise the indexing and `unwrap` at sync.rs:308 panic on an id the user chose, which the model does not capture.
- ResourceTable.ResourceAllocation.IsDeadlocked: requires `resId < |maximum|`; otherwise the indexing at sync.rs:122 panics out of bounds, which the model does not capture.
- `usize` and `u32` overflow: all additions are on unbounded naturals. This covers `available`, `maximum` and `allocation` updates, `len + PAGE_SIZE - 1`, `start + len` and the syscall counters.
- ProcessSyscalls.PageCount: states the ceiling for every `len`; in the kernel `len + PAGE_SIZE - 1` wraps for `len` within 4095 of `usize::MAX`.
- ProcessSyscalls.Matches: compares `pid as usize` modulo 2^64 and assumes `pid` is in `isize` range.
- ProcessSyscalls.TaskInner.SysMmap: the frame allocator is reduced to its free-frame count. `insert_framed_area` is modelled only by its effect: the range's pages are validly mapped and the area is appended. Physical frames are not modelled.
- ProcessSyscalls.TaskInner.SysMunmap: the area's `unmap` is modelled as clearing the valid bit of its pages. The page table's own assertion that those pages were valid, and frame deallocation, are not modelled.
- ProcessSyscalls.TaskInner.SysWaitpid: the `strong_count` assertion on the removed child is not modelled; the exit code written to user memory is returned instead.
- ProcessSyscalls.TaskInner.SysGetTime and ProcessSyscalls.TaskInner.SysTaskInfo: the address translation of the user buffer (which panics on an unmapped buffer) and the raw physical write are not modelled; the written value is returned.
- Mutexes.MutexSpin.Lock: models one pass of the retry loop; a `None` result means the caller yielded and tries again when next scheduled.
- Mutexes.MutexBlocking.Lock: blocking and waking are scheduler events; a blocked caller is its entry in the queue, and the 0 it returns after waking is the code `LockStep` gives.
- The process control block itself (os/src/task/process.rs is not part of this model): only the fields these cores touch are modelled, and its creation is not.
