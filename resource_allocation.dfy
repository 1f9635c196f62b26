/** The resource-allocation table the kernel keeps for deadlock detection
    (`ResourceAllocation` in os/src/syscall/sync.rs). Thread rows of
    `allocation` and `need` are found through `tidList`; `usize` entries are
    natural numbers, and a subtraction the kernel would underflow is ruled
    out by a precondition. */
module ResourceTable {

  /** Entry `j` of a row, reading an entry a short row lacks as 0. */
  function Cell(row: seq<nat>, j: nat): (c: nat)
  {
    if j < |row| then row[j] else 0
  }

  /** Units of resource type `j` held over all rows of `rows`. */
  function ColumnTotal(rows: seq<seq<nat>>, j: nat): (total: nat)
    decreases |rows|
  {
    if rows == [] then 0 else ColumnTotal(rows[..|rows| - 1], j) + Cell(rows[|rows| - 1], j)
  }

  /** Replacing one row changes a column total by exactly the difference
      between the new and the old entry of that row. */
  lemma {:induction false} ColumnTotalUpdate(rows: seq<seq<nat>>, i: nat, row: seq<nat>, j: nat)
    requires i < |rows|
    ensures ColumnTotal(rows[i := row], j) + Cell(rows[i], j) == ColumnTotal(rows, j) + Cell(row, j)
  {
    var n := |rows| - 1;
    if i == n {
      assert rows[i := row][..n] == rows[..n];
    } else {
      assert rows[i := row][..n] == rows[..n][i := row];
      ColumnTotalUpdate(rows[..n], i, row, j);
    }
  }

  /** Appending a row of zeros leaves every column total as it was. */
  lemma ColumnTotalAppendZeros(rows: seq<seq<nat>>, w: nat, j: nat)
    ensures ColumnTotal(rows + [Zeros(w)], j) == ColumnTotal(rows, j)
  {
    assert (rows + [Zeros(w)])[..|rows|] == rows;
  }

  /** `vec![0; n]`. */
  function Zeros(n: nat): (z: seq<nat>)
    ensures |z| == n && forall k | 0 <= k < n :: z[k] == 0
  {
    seq(n, _ => 0)
  }

  /** Conservation of resources between two states of the table: for each
      resource type, free units plus units held by the rows stay the same. */
  ghost predicate Conserved(available0: seq<nat>, allocation0: seq<seq<nat>>,
                            available1: seq<nat>, allocation1: seq<seq<nat>>)
  {
    && |available1| == |available0|
    && forall j | 0 <= j < |available0| ::
         available1[j] + ColumnTotal(allocation1, j) == available0[j] + ColumnTotal(allocation0, j)
  }

  /** The least position of `x` in `s`, or -1 when `x` does not occur. */
  function IndexOf(s: seq<nat>, x: nat): (r: int)
    ensures -1 <= r < |s|
    ensures r == -1 <==> x !in s
    ensures r >= 0 ==> s[r] == x && forall k | 0 <= k < r :: s[k] != x
  {
    if s == [] then -1
    else if s[0] == x then 0
    else
      var t := IndexOf(s[1..], x);
      if t == -1 then -1 else t + 1
  }

  class ResourceAllocation {
    /** Free units per resource type. */
    var available: seq<nat>
    /** Units held, one row per thread slot. */
    var allocation: seq<seq<nat>>
    /** Units requested and not yet granted, one row per thread slot. */
    var need: seq<seq<nat>>
    /** `tidList[i]` is the thread whose row is `i`. */
    var tidList: seq<nat>
    /** Whether thread slot `i` has been granted what it asked for. */
    var finish: seq<bool>
    /** Free units plus units that will come free when holders release. */
    var maximum: seq<nat>

    /** The shape every operation keeps: `available` and `maximum` grow
        together, and `allocation` and `need` hold one row more than there
        are threads, because they start with one empty row. */
    ghost predicate Valid()
      reads this
    {
      |maximum| == |available| && |allocation| == |tidList| + 1 && |need| == |tidList| + 1
    }

    /** The row a thread's entries are kept in. */
    ghost function Row(tid: nat): (row: int)
      reads this
    {
      IndexOf(tidList, tid)
    }

    constructor ()
      ensures Valid()
      ensures available == [] && maximum == [] && tidList == [] && finish == []
      ensures allocation == [[]] && need == [[]]
    {
      available := [];
      allocation := [[]];
      need := [[]];
      tidList := [];
      finish := [];
      maximum := [];
    }

    /** Registers a new resource type with `resCount` free units. Only the
        rows `0 .. |tidList|-1` get a column for it; the last row does not. */
    method AddResType(resCount: nat)
      requires Valid()
      modifies this
      ensures Valid()
      ensures available == old(available) + [resCount]
      ensures maximum == old(maximum) + [resCount]
      ensures |allocation| == |old(allocation)| && |need| == |old(need)|
      ensures forall i | 0 <= i < |allocation| ::
                allocation[i] == if i < |tidList| then old(allocation[i]) + [0] else old(allocation[i])
      ensures forall i | 0 <= i < |need| ::
                need[i] == if i < |tidList| then old(need[i]) + [0] else old(need[i])
      ensures tidList == old(tidList) && finish == old(finish)
    {
      available := available + [resCount];
      maximum := maximum + [resCount];
      for i := 0 to |tidList|
        invariant available == old(available) + [resCount] && maximum == old(maximum) + [resCount]
        invariant tidList == old(tidList) && finish == old(finish)
        invariant |allocation| == |old(allocation)| && |need| == |old(need)|
        invariant forall k | 0 <= k < |allocation| ::
                    allocation[k] == if k < i then old(allocation[k]) + [0] else old(allocation[k])
        invariant forall k | 0 <= k < |need| ::
                    need[k] == if k < i then old(need[k]) + [0] else old(need[k])
      {
        allocation := allocation[i := allocation[i] + [0]];
        need := need[i := need[i] + [0]];
      }
    }

    /** Position of `tid` in `tidList`, or -1 when it is not registered. */
    method Find(tid: nat) returns (idx: int)
      ensures idx == IndexOf(tidList, tid)
    {
      idx := -1;
      for i := 0 to |tidList|
        invariant idx == -1
        invariant forall k | 0 <= k < i :: tidList[k] != tid
      {
        if tidList[i] == tid {
          idx := i;
          break;
        }
      }
    }

    /** Registers thread `tid` with a zero row as wide as `available`, then
        clears `finish` at the thread's position, which `finish` must
        already have: the table never lengthens `finish`. */
    method AddThread(tid: nat)
      requires Valid()
      requires |finish| > |tidList|
      modifies this
      ensures Valid()
      ensures allocation == old(allocation) + [Zeros(|available|)]
      ensures need == old(need) + [Zeros(|available|)]
      ensures tidList == old(tidList) + [tid]
      ensures finish == old(finish)[|old(tidList)| := false]
      ensures available == old(available) && maximum == old(maximum)
      ensures Conserved(old(available), old(allocation), available, allocation)
    {
      var j := |available|;
      allocation := allocation + [Zeros(j)];
      need := need + [Zeros(j)];
      tidList := tidList + [tid];
      finish := finish[|tidList| - 1 := false];
      forall k | 0 <= k < |available|
        ensures ColumnTotal(allocation, k) == ColumnTotal(old(allocation), k)
      {
        ColumnTotalAppendZeros(old(allocation), j, k);
      }
    }

    /** Grants one unit of `resId` to thread `tid`: the unit moves from
        `available` to the thread's row, its need is cleared, the thread is
        marked finished, and `maximum` is renewed. The kernel first sleeps
        until a unit is free; here a free unit is required. */
    method Alloc(tid: nat, resId: nat)
      requires Valid()
      requires tid in tidList
      requires Row(tid) < |finish|
      requires resId < |available|
      requires resId < |allocation[Row(tid)]| && resId < |need[Row(tid)]|
      requires |maximum| <= |allocation[Row(tid)]|
      requires available[resId] >= 1
      modifies this
      ensures Valid()
      ensures tidList == old(tidList) && Row(tid) == old(Row(tid))
      ensures available == old(available)[resId := old(available[resId]) - 1]
      ensures allocation ==
                old(allocation)[Row(tid) := old(allocation[Row(tid)])[resId := old(allocation[Row(tid)][resId]) + 1]]
      ensures need == old(need)[Row(tid) := old(need[Row(tid)])[resId := 0]]
      ensures finish == old(finish)[Row(tid) := true]
      ensures |maximum| == |old(maximum)|
      ensures forall j | 0 <= j < |maximum| :: maximum[j] == old(maximum[j]) + allocation[Row(tid)][j]
      ensures Conserved(old(available), old(allocation), available, allocation)
    {
      var i := Find(tid);
      need := need[i := need[i][resId := 1]];
      available := available[resId := available[resId] - 1];
      allocation := allocation[i := allocation[i][resId := allocation[i][resId] + 1]];
      need := need[i := need[i][resId := 0]];
      assert need[i] == old(need[i])[resId := 0];
      finish := finish[i := true];
      RenewMaximum(tid);
      forall j | 0 <= j < |available|
        ensures available[j] + ColumnTotal(allocation, j) == old(available[j]) + ColumnTotal(old(allocation), j)
      {
        ColumnTotalUpdate(old(allocation), i, allocation[i], j);
      }
    }

    /** Returns one unit of `resId` from thread `tid` to `available`. The
        kernel's `usize` decrement underflows on an empty entry, so a held
        unit is required. */
    method Dealloc(tid: nat, resId: nat)
      requires Valid()
      requires tid in tidList
      requires resId < |available| && resId < |allocation[Row(tid)]|
      requires allocation[Row(tid)][resId] >= 1
      modifies this`available, this`allocation
      ensures Valid()
      ensures allocation ==
                old(allocation)[Row(tid) := old(allocation[Row(tid)])[resId := old(allocation[Row(tid)][resId]) - 1]]
      ensures available == old(available)[resId := old(available[resId]) + 1]
      ensures Conserved(old(available), old(allocation), available, allocation)
    {
      var i := Find(tid);
      allocation := allocation[i := allocation[i][resId := allocation[i][resId] - 1]];
      available := available[resId := available[resId] + 1];
      forall j | 0 <= j < |available|
        ensures available[j] + ColumnTotal(allocation, j) == old(available[j]) + ColumnTotal(old(allocation), j)
      {
        ColumnTotalUpdate(old(allocation), i, allocation[i], j);
      }
    }

    /** Adds the thread's row to `maximum` when the thread is finished and
        subtracts it otherwise; the subtraction must not underflow. */
    method RenewMaximum(tid: nat)
      requires Valid()
      requires tid in tidList
      requires Row(tid) < |finish|
      requires |maximum| <= |allocation[Row(tid)]|
      requires !finish[Row(tid)] ==>
                 forall j | 0 <= j < |maximum| :: allocation[Row(tid)][j] <= maximum[j]
      modifies this`maximum
      ensures Valid()
      ensures |maximum| == |old(maximum)|
      ensures forall j | 0 <= j < |maximum| ::
                maximum[j] == if finish[Row(tid)] then old(maximum[j]) + allocation[Row(tid)][j]
                              else old(maximum[j]) - allocation[Row(tid)][j]
    {
      var i := Find(tid);
      if finish[i] {
        for j := 0 to |maximum|
          invariant |maximum| == |old(maximum)|
          invariant forall k | 0 <= k < |maximum| ::
                      maximum[k] == if k < j then old(maximum[k]) + allocation[i][k] else old(maximum[k])
        {
          maximum := maximum[j := maximum[j] + allocation[i][j]];
        }
      } else {
        for j := 0 to |maximum|
          invariant |maximum| == |old(maximum)|
          invariant forall k | 0 <= k < |maximum| ::
                      maximum[k] == if k < j then old(maximum[k]) - allocation[i][k] else old(maximum[k])
        {
          maximum := maximum[j := maximum[j] - allocation[i][j]];
        }
      }
    }

    /** Gives back everything thread `tid` holds: each of its entries is
        added to `available` and then zeroed. */
    method Release(tid: nat)
      requires Valid()
      requires tid in tidList
      requires |available| <= |allocation[Row(tid)]|
      modifies this`available, this`allocation
      ensures Valid()
      ensures |available| == |old(available)|
      ensures forall j | 0 <= j < |available| ::
                available[j] == old(available[j]) + old(allocation[Row(tid)][j])
      ensures allocation ==
                old(allocation)[Row(tid) := Zeros(|available|) + old(allocation[Row(tid)])[|available|..]]
      ensures Conserved(old(available), old(allocation), available, allocation)
    {
      var i := Find(tid);
      ghost var row0 := allocation[i];
      for j := 0 to |available|
        invariant |available| == |old(available)| && |allocation| == |old(allocation)|
        invariant forall k | 0 <= k < |allocation| && k != i :: allocation[k] == old(allocation[k])
        invariant |allocation[i]| == |row0|
        invariant forall k | 0 <= k < |available| ::
                    available[k] == if k < j then old(available[k]) + row0[k] else old(available[k])
        invariant forall k | 0 <= k < |row0| :: allocation[i][k] == if k < j then 0 else row0[k]
      {
        available := available[j := available[j] + allocation[i][j]];
        allocation := allocation[i := allocation[i][j := 0]];
      }
      assert allocation[i] == Zeros(|available|) + row0[|available|..];
      assert allocation == old(allocation)[i := allocation[i]];
      forall j | 0 <= j < |available|
        ensures available[j] + ColumnTotal(allocation, j) == old(available[j]) + ColumnTotal(old(allocation), j)
      {
        ColumnTotalUpdate(old(allocation), i, allocation[i], j);
      }
    }

    /** A resource type is reported deadlocked exactly when no unit of it is
        free or will come free. */
    method IsDeadlocked(resId: nat) returns (result: bool)
      requires resId < |maximum|
      ensures result <==> maximum[resId] == 0
    {
      result := false;
      if maximum[resId] < 1 {
        result := true;
      }
    }
  }
}
