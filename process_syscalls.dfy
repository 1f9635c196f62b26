/** The decision logic of the process syscalls in os/src/syscall/process.rs.
    Pointer translation and writes into user memory become returned
    values; the page table is a map from virtual page number to the valid
    bit of its leaf entry (a page absent from the map has no leaf entry);
    child processes are plain records; the clock is a parameter. Every
    syscall first counts itself in the task's `syscall_times`. */
module ProcessSyscalls {
  import opened Wrappers

  const PAGE_SIZE: nat := 4096
  const MAX_SYSCALL_NUM: nat := 500
  const USEC_PER_SEC: nat := 1_000_000
  /** How many syscalls the task counts internally. */
  const COUNTERS: nat := 15
  /** The syscall number internal counter `k` is reported under. */
  const SYSCALL_IDS: seq<nat> := [63, 64, 93, 124, 140, 169, 172, 214, 215, 220, 221, 222, 260, 400, 410]
  /** `usize::MAX + 1`, for reinterpreting an `isize` as a `usize`. */
  const USIZE_MODULUS: int := 0x1_0000_0000_0000_0000

  datatype TaskStatus = UnInit | Ready | Running | Exited

  /** `MapPermission` flags. */
  datatype Permission = R | W | X | U

  /** Half-open range of virtual page numbers `[l, r)`. */
  datatype VpnRange = VpnRange(l: nat, r: nat)

  datatype MapArea = MapArea(range: VpnRange, perms: set<Permission>)

  /** What `sys_waitpid` reads of a child process. */
  datatype Child = Child(pid: nat, zombie: bool, exitCode: int)

  datatype TimeVal = TimeVal(sec: nat, usec: nat)

  datatype TaskInfo = TaskInfo(status: TaskStatus, syscallTimes: seq<nat>, time: nat)

  // ---------------------------------------------------------------------
  // Time

  /** A time value read back as microseconds. */
  function Micros(t: TimeVal): (us: nat)
  {
    t.sec * USEC_PER_SEC + t.usec
  }

  /** `sys_get_time`'s split of a microsecond count into whole seconds and
      the microseconds left over. */
  function SplitMicros(us: nat): (t: TimeVal)
    ensures Micros(t) == us
    ensures t.usec < USEC_PER_SEC
  {
    TimeVal(us / USEC_PER_SEC, us % USEC_PER_SEC)
  }

  /** The split is the only normalised time value with that many
      microseconds. */
  lemma SplitMicrosInverse(t: TimeVal)
    requires t.usec < USEC_PER_SEC
    ensures SplitMicros(Micros(t)) == t
  {
  }

  // ---------------------------------------------------------------------
  // Pages and permissions

  /** Pages needed for `len` bytes: the least page count covering them. */
  function PageCount(len: nat): (n: nat)
    ensures n * PAGE_SIZE >= len
    ensures n > 0 ==> (n - 1) * PAGE_SIZE < len
  {
    (len + PAGE_SIZE - 1) / PAGE_SIZE
  }

  /** From a page-aligned start, the first page past `start + len` is the
      start page plus the pages `len` needs. */
  lemma AlignedEndPage(start: nat, len: nat)
    requires start % PAGE_SIZE == 0
    ensures PageCount(start + len) == start / PAGE_SIZE + PageCount(len)
  {
    var q := start / PAGE_SIZE;
    assert start == q * PAGE_SIZE;
    assert start + len + PAGE_SIZE - 1 == q * PAGE_SIZE + (len + PAGE_SIZE - 1);
  }

  function Pow2(k: nat): (p: nat)
    ensures p >= 1
  {
    if k == 0 then 1 else 2 * Pow2(k - 1)
  }

  /** Bit `k` of `n`. */
  predicate Bit(n: nat, k: nat)
  {
    (n / Pow2(k)) % 2 == 1
  }

  /** `mmap`'s `port` argument is valid when it has no bit outside 0x7 and
      at least one inside. */
  predicate PortValid(port: nat)
  {
    port < 8 && port % 8 != 0
  }

  /** The reference meaning of a `port`: always user-accessible, and
      readable, writable, executable as bits 0, 1, 2 say. */
  ghost function PortPermissions(port: nat): (perms: set<Permission>)
  {
    {U} + (if Bit(port, 0) then {R} else {})
        + (if Bit(port, 1) then {W} else {})
        + (if Bit(port, 2) then {X} else {})
  }

  /** The kernel's bit tests on `port` agree with the arithmetic ones the
      model uses. */
  lemma PortCheckAsBits(port: bv64)
    ensures ((port & !7) != 0 || (port & 7) == 0) <==> !PortValid(port as nat)
  {
  }

  /** The permission flags `sys_mmap` builds from a `port`. */
  method MmapPermissions(port: nat) returns (perms: set<Permission>)
    requires port < 8
    ensures perms == PortPermissions(port)
  {
    perms := {U};
    if port / 4 == 1 {
      perms := perms + {X};
    }
    if port % 2 == 1 {
      perms := perms + {R};
    }
    if (port % 4) / 2 == 1 {
      perms := perms + {W};
    }
    assert Pow2(1) == 2 && Pow2(2) == 4;
  }

  /** The pages `[lo, hi)`. */
  function PageRange(lo: nat, hi: nat): (pages: set<nat>)
    ensures forall v :: v in pages <==> lo <= v < hi
    decreases hi
  {
    if hi <= lo then {} else PageRange(lo, hi - 1) + {hi - 1}
  }

  /** `pt` with every page of `[lo, hi)` given a leaf entry whose valid bit
      is `valid`. */
  function MapRange(pt: map<nat, bool>, lo: nat, hi: nat, valid: bool): (m: map<nat, bool>)
    ensures forall v :: v in m <==> v in pt || lo <= v < hi
    ensures forall v | v in m :: m[v] == if lo <= v < hi then valid else pt[v]
  {
    map v | v in pt.Keys + PageRange(lo, hi) :: if lo <= v < hi then valid else pt[v]
  }

  /** No page of `[lo, lo + n)` is validly mapped. */
  ghost predicate NoneValid(pt: map<nat, bool>, lo: nat, n: nat)
  {
    forall v | lo <= v < lo + n && v in pt :: !pt[v]
  }

  /** Every page of `[lo, lo + n)` has a leaf entry. */
  ghost predicate AllPresent(pt: map<nat, bool>, lo: nat, n: nat)
  {
    forall v | lo <= v < lo + n :: v in pt
  }

  /** The conditions under which `sys_mmap` maps the range. */
  ghost predicate MmapAccepted(start: nat, len: nat, port: nat, freeFrames: nat, pt: map<nat, bool>)
  {
    && start % PAGE_SIZE == 0
    && PortValid(port)
    && PageCount(len) < freeFrames
    && NoneValid(pt, start / PAGE_SIZE, PageCount(len))
  }

  /** The first area covering exactly `[l, r)`, or the length when none does. */
  function FirstExactArea(areas: seq<MapArea>, l: nat, r: nat): (k: nat)
    ensures k <= |areas|
    ensures forall j | 0 <= j < k :: areas[j].range != VpnRange(l, r)
    ensures k < |areas| ==> areas[k].range == VpnRange(l, r)
  {
    if areas == [] then 0
    else if areas[0].range == VpnRange(l, r) then 0
    else 1 + FirstExactArea(areas[1..], l, r)
  }

  /** The conditions under which `sys_munmap` unmaps an area. */
  ghost predicate MunmapAccepted(start: nat, len: nat, pt: map<nat, bool>, areas: seq<MapArea>)
  {
    var lo := start / PAGE_SIZE;
    && start % PAGE_SIZE == 0
    && AllPresent(pt, lo, PageCount(len))
    && FirstExactArea(areas, lo, lo + PageCount(len)) < |areas|
  }

  // ---------------------------------------------------------------------
  // Children

  /** `pid as usize`: two's-complement reinterpretation of an `isize`. */
  function AsUsize(pid: int): (u: nat)
  {
    pid % USIZE_MODULUS
  }

  /** Whether `sys_waitpid(pid, ..)` is asking about child `c`; -1 asks
      about any child. */
  predicate Matches(pid: int, c: Child)
  {
    pid == -1 || AsUsize(pid) == c.pid
  }

  ghost predicate HasMatchingChild(children: seq<Child>, pid: int)
  {
    exists j | 0 <= j < |children| :: Matches(pid, children[j])
  }

  /** The first child that is a zombie and matches `pid`, or the length
      when there is none. */
  function FirstMatchingZombie(children: seq<Child>, pid: int): (k: nat)
    ensures k <= |children|
    ensures forall j | 0 <= j < k :: !(children[j].zombie && Matches(pid, children[j]))
    ensures k < |children| ==> children[k].zombie && Matches(pid, children[k])
  {
    if children == [] then 0
    else if children[0].zombie && Matches(pid, children[0]) then 0
    else 1 + FirstMatchingZombie(children[1..], pid)
  }

  /** The `children.iter().any(..)` scan of `sys_waitpid`. */
  method AnyMatchingChild(children: seq<Child>, pid: int) returns (any: bool)
    ensures any <==> HasMatchingChild(children, pid)
  {
    any := false;
    for j := 0 to |children|
      invariant any <==> exists m | 0 <= m < j :: Matches(pid, children[m])
    {
      if Matches(pid, children[j]) {
        any := true;
      }
    }
  }

  /** The `children.iter().enumerate().find(..)` scan of `sys_waitpid`:
      the position of the first zombie child matching `pid`, or -1. */
  method FindMatchingZombie(children: seq<Child>, pid: int) returns (idx: int)
    ensures idx == -1 <==> FirstMatchingZombie(children, pid) == |children|
    ensures idx != -1 ==> idx == FirstMatchingZombie(children, pid)
  {
    idx := -1;
    for j := 0 to |children|
      invariant idx == -1
      invariant forall m | 0 <= m < j :: !(children[m].zombie && Matches(pid, children[m]))
    {
      if children[j].zombie && Matches(pid, children[j]) {
        idx := j;
        break;
      }
    }
  }

  /** Removing position `k` takes exactly that one child out. */
  lemma {:induction false} RemoveAtMultiset(s: seq<Child>, k: nat)
    requires k < |s|
    ensures multiset(s[..k] + s[k + 1..]) + multiset{s[k]} == multiset(s)
  {
    assert s == s[..k] + [s[k]] + s[k + 1..];
  }

  // ---------------------------------------------------------------------
  // Syscall counters

  /** The reported syscall numbers increase, so no two counters land on
      the same number, and all fit the reported array. */
  lemma SyscallIdsIncreasing()
    ensures |SYSCALL_IDS| == COUNTERS
    ensures forall a, b | 0 <= a < b < COUNTERS :: SYSCALL_IDS[a] < SYSCALL_IDS[b]
    ensures forall a | 0 <= a < COUNTERS :: SYSCALL_IDS[a] < MAX_SYSCALL_NUM
  {
  }

  /** The `syscall_times` array `sys_task_info` reports: all zero except
      that counter `k` is reported under syscall number `SYSCALL_IDS[k]`. */
  method ReportSyscallTimes(counters: seq<nat>) returns (times: seq<nat>)
    requires |counters| == COUNTERS
    ensures |times| == MAX_SYSCALL_NUM
    ensures forall k | 0 <= k < COUNTERS :: times[SYSCALL_IDS[k]] == counters[k]
    ensures forall n | 0 <= n < MAX_SYSCALL_NUM && n !in SYSCALL_IDS :: times[n] == 0
  {
    times := [];
    for i := 0 to MAX_SYSCALL_NUM
      invariant |times| == i
      invariant forall n | 0 <= n < i :: times[n] == 0
    {
      times := times + [0];
    }
    times := times[63 := counters[0]];
    times := times[64 := counters[1]];
    times := times[93 := counters[2]];
    times := times[124 := counters[3]];
    times := times[140 := counters[4]];
    times := times[169 := counters[5]];
    times := times[172 := counters[6]];
    times := times[214 := counters[7]];
    times := times[215 := counters[8]];
    times := times[220 := counters[9]];
    times := times[221 := counters[10]];
    times := times[222 := counters[11]];
    times := times[260 := counters[12]];
    times := times[400 := counters[13]];
    times := times[410 := counters[14]];
  }

  // ---------------------------------------------------------------------
  // The task

  /** The fields of a task's inner state these syscalls read and write. */
  class TaskInner {
    var priority: int
    var syscallTimes: seq<nat>
    var children: seq<Child>
    /** Virtual page number to the valid bit of its leaf page-table entry. */
    var pageTable: map<nat, bool>
    var areas: seq<MapArea>
    var taskStatus: TaskStatus
    /** Start time in milliseconds. */
    var startTime: nat

    ghost predicate Valid()
      reads this
    {
      |syscallTimes| == COUNTERS
    }

    /** `sys_set_priority`: priorities of 1 or less are refused with -1;
        any other is stored and returned. */
    method SysSetPriority(prio: int) returns (r: int)
      requires Valid()
      modifies this`priority, this`syscallTimes
      ensures Valid()
      ensures syscallTimes == old(syscallTimes)[4 := old(syscallTimes[4]) + 1]
      ensures prio <= 1 ==> r == -1 && priority == old(priority)
      ensures prio > 1 ==> r == prio && priority == prio
    {
      syscallTimes := syscallTimes[4 := syscallTimes[4] + 1];
      if prio <= 1 {
        return -1;
      }
      priority := prio;
      r := prio;
    }

    /** `sys_get_time` at clock reading `nowUs`; the time value is what the
        kernel writes to the caller's buffer. */
    method SysGetTime(nowUs: nat) returns (r: int, ts: TimeVal)
      requires Valid()
      modifies this`syscallTimes
      ensures Valid()
      ensures syscallTimes == old(syscallTimes)[5 := old(syscallTimes[5]) + 1]
      ensures Micros(ts) == nowUs && ts.usec < USEC_PER_SEC
      ensures r == 0
    {
      syscallTimes := syscallTimes[5 := syscallTimes[5] + 1];
      ts := SplitMicros(nowUs);
      r := 0;
    }

    /** `sys_task_info` at clock reading `nowUs`; the record is what the
        kernel writes to the caller's buffer. The call is counted before
        the counters are reported, so it sees itself. */
    method SysTaskInfo(nowUs: nat) returns (r: int, info: TaskInfo)
      requires Valid()
      requires nowUs / 1000 >= startTime
      modifies this`syscallTimes
      ensures Valid()
      ensures syscallTimes == old(syscallTimes)[14 := old(syscallTimes[14]) + 1]
      ensures info.status == taskStatus
      ensures |info.syscallTimes| == MAX_SYSCALL_NUM
      ensures forall k | 0 <= k < COUNTERS :: info.syscallTimes[SYSCALL_IDS[k]] == syscallTimes[k]
      ensures forall n | 0 <= n < MAX_SYSCALL_NUM && n !in SYSCALL_IDS :: info.syscallTimes[n] == 0
      ensures info.time == nowUs / 1000 - startTime
      ensures r == 0
    {
      syscallTimes := syscallTimes[14 := syscallTimes[14] + 1];
      var currentTime := nowUs / 1000;
      var times := ReportSyscallTimes(syscallTimes);
      info := TaskInfo(taskStatus, times, currentTime - startTime);
      r := 0;
    }

    /** `sys_mmap` with `freeFrames` physical frames left in the frame
        allocator. On success the new area covers the pages from the page
        of `start` to the page holding `start + len - 1`, all validly
        mapped with the permissions `port` asks for. */
    method SysMmap(start: nat, len: nat, port: nat, freeFrames: nat) returns (r: int)
      requires Valid()
      modifies this`syscallTimes, this`pageTable, this`areas
      ensures Valid()
      ensures syscallTimes == old(syscallTimes)[11 := old(syscallTimes[11]) + 1]
      ensures r == 0 <==> MmapAccepted(start, len, port, freeFrames, old(pageTable))
      ensures r != 0 ==> r == -1 && pageTable == old(pageTable) && areas == old(areas)
      ensures r == 0 ==>
                && pageTable == MapRange(old(pageTable), start / PAGE_SIZE, start / PAGE_SIZE + PageCount(len), true)
                && areas == old(areas) + [MapArea(VpnRange(start / PAGE_SIZE, start / PAGE_SIZE + PageCount(len)),
                                                  PortPermissions(port))]
    {
      syscallTimes := syscallTimes[11 := syscallTimes[11] + 1];
      if start % PAGE_SIZE != 0 {
        return -1;
      }
      if port >= 8 || port % 8 == 0 {
        return -1;
      }
      var numPages := (len + PAGE_SIZE - 1) / PAGE_SIZE;
      if freeFrames <= numPages {
        return -1;
      }
      var startPage := start / PAGE_SIZE;
      for i := startPage to startPage + numPages
        invariant NoneValid(pageTable, startPage, i - startPage)
      {
        if i in pageTable && pageTable[i] {
          return -1;
        }
      }
      var permissions := MmapPermissions(port);
      // insert_framed_area: an area from the page of `start` to the page
      // past `start + len`, every page of it validly mapped
      var endPage := PageCount(start + len);
      AlignedEndPage(start, len);
      pageTable := MapRange(pageTable, startPage, endPage, true);
      areas := areas + [MapArea(VpnRange(startPage, endPage), permissions)];
      r := 0;
    }

    /** `sys_munmap`: the range must start on a page boundary, every page
        of it must have a page-table entry, and some area must cover
        exactly that range; the first such area is unmapped and removed. */
    method SysMunmap(start: nat, len: nat) returns (r: int)
      requires Valid()
      modifies this`syscallTimes, this`pageTable, this`areas
      ensures Valid()
      ensures syscallTimes == old(syscallTimes)[8 := old(syscallTimes[8]) + 1]
      ensures r == 0 <==> MunmapAccepted(start, len, old(pageTable), old(areas))
      ensures r != 0 ==> r == -1 && pageTable == old(pageTable) && areas == old(areas)
      ensures r == 0 ==>
                var lo := start / PAGE_SIZE;
                var hi := lo + PageCount(len);
                var k := FirstExactArea(old(areas), lo, hi);
                && areas == old(areas)[..k] + old(areas)[k + 1..]
                && pageTable == MapRange(old(pageTable), lo, hi, false)
    {
      syscallTimes := syscallTimes[8 := syscallTimes[8] + 1];
      if start % PAGE_SIZE != 0 {
        return -1;
      }
      var numPages := (len + PAGE_SIZE - 1) / PAGE_SIZE;
      var startPage := start / PAGE_SIZE;
      for n := 0 to numPages
        invariant AllPresent(pageTable, startPage, n)
      {
        if startPage + n !in pageTable {
          return -1;
        }
      }
      var ok := false;
      for i := 0 to |areas|
        invariant !ok
        invariant areas == old(areas) && pageTable == old(pageTable)
        invariant forall j | 0 <= j < i :: areas[j].range != VpnRange(startPage, startPage + numPages)
      {
        var range := areas[i].range;
        if range.l == startPage && range.r == startPage + numPages {
          // unmap: every page of the area keeps its entry, no longer valid
          pageTable := MapRange(pageTable, range.l, range.r, false);
          areas := areas[..i] + areas[i + 1..];
          ok := true;
          break;
        }
      }
      if !ok {
        return -1;
      }
      r := 0;
    }

    /** `sys_waitpid`: -1 when no child matches `pid`, -2 when children
        match but none of them is a zombie; otherwise the first matching
        zombie is taken out of `children` and its pid returned, with the
        exit code the kernel writes to the caller. */
    method SysWaitpid(pid: int) returns (r: int, exitCode: Option<int>)
      requires Valid()
      modifies this`syscallTimes, this`children
      ensures Valid()
      ensures syscallTimes == old(syscallTimes)[12 := old(syscallTimes[12]) + 1]
      ensures !HasMatchingChild(old(children), pid) ==>
                r == -1 && exitCode == None && children == old(children)
      ensures HasMatchingChild(old(children), pid) && FirstMatchingZombie(old(children), pid) == |old(children)| ==>
                r == -2 && exitCode == None && children == old(children)
      ensures FirstMatchingZombie(old(children), pid) < |old(children)| ==>
                var k := FirstMatchingZombie(old(children), pid);
                && r == old(children)[k].pid
                && exitCode == Some(old(children)[k].exitCode)
                && children == old(children)[..k] + old(children)[k + 1..]
                && multiset(children) + multiset{old(children)[k]} == multiset(old(children))
    {
      syscallTimes := syscallTimes[12 := syscallTimes[12] + 1];
      var any := AnyMatchingChild(children, pid);
      if !any {
        return -1, None;
      }
      var idx := FindMatchingZombie(children, pid);
      if idx >= 0 {
        var child := children[idx];
        RemoveAtMultiset(children, idx);
        children := children[..idx] + children[idx + 1..];
        exitCode := Some(child.exitCode);
        r := child.pid;
      } else {
        r, exitCode := -2, None;
      }
    }
  }
}
