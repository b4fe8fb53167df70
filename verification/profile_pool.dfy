/** The pool of thread logs: slots are handed out to threads and recycled through a free list
    that runs through the slots themselves. */
module ProfilePool {

  const MAX_THREADS: nat := 32

  /** The fields of a thread log that its recycling touches. */
  class Slot {
    var put: nat
    var get: nat
    var active: bool
    var gpu: bool
    var stackPos: nat
    var freeListNext: int

    constructor ()
      ensures put == 0 && get == 0 && !active && !gpu && stackPos == 0 && freeListNext == 0
    {
      put, get, active, gpu, stackPos, freeListNext := 0, 0, false, false, 0, 0;
    }

    /** `Reset` */
    method Reset()
      modifies this
      ensures put == 0 && get == 0 && !active && !gpu && stackPos == 0 && freeListNext == 0
    {
      put, get, active, gpu, stackPos, freeListNext := 0, 0, false, false, 0, 0;
    }
  }

  function Max(a: int, b: int): int { if a > b then a else b }

  /** The values of a slot's fields. */
  datatype SlotState = SlotState(put: nat, get: nat, active: bool, gpu: bool, freeListNext: int)

  /** From `head` the links lead through exactly the slots `free`, in order and without repeats,
      and end; slots on the way are not active and have empty rings, and slot 0, the GPU's, is
      not among them. */
  ghost predicate Chain(slots: seq<SlotState>, head: int, free: seq<nat>)
    decreases |free|
  {
    if free == [] then head == -1
    else
      && head == free[0] && 0 < head < |slots| && free[0] !in free[1..]
      && !slots[head].active && slots[head].put == 0 && slots[head].get == 0
      && Chain(slots, slots[head].freeListNext, free[1..])
  }

  /** The list is linked, and every slot that is not active is on it. */
  ghost predicate FreeListOk(slots: seq<SlotState>, head: int, free: seq<nat>)
  {
    && slots != [] && slots[0].gpu && Chain(slots, head, free)
    && forall i: nat :: i < |slots| && !slots[i].active ==> i in free
  }

  /** Slots outside the list may change, and slots may be added. */
  lemma {:induction false} ChainFrame(slots: seq<SlotState>, slots': seq<SlotState>, head: int, free: seq<nat>)
    requires Chain(slots, head, free) && |slots| <= |slots'|
    requires forall i: nat :: i < |slots| && i in free ==> slots'[i] == slots[i]
    ensures Chain(slots', head, free)
    decreases |free|
  {
    if free != [] {
      ChainFrame(slots, slots', slots[head].freeListNext, free[1..]);
    }
  }

  /** Every slot is either active or on the list, and no slot is on it twice; slot 0 never is. */
  lemma {:induction false} EachSlotOnce(slots: seq<SlotState>, head: int, free: seq<nat>)
    requires Chain(slots, head, free)
    ensures forall i: nat :: i in free ==> 0 < i < |slots| && !slots[i].active
    ensures forall j, k :: 0 <= j < k < |free| ==> free[j] != free[k]
    decreases |free|
  {
    if free != [] {
      EachSlotOnce(slots, slots[head].freeListNext, free[1..]);
      assert forall i: nat :: i in free ==> i == free[0] || i in free[1..];
      forall j, k | 0 <= j < k < |free|
        ensures free[j] != free[k]
      {
        assert free[k] == free[1..][k - 1];
        assert j > 0 ==> free[j] == free[1..][j - 1];
      }
    }
  }

  /** Taking the head of the free list into use keeps the list in order. */
  lemma {:induction false} Recycled(slots: seq<SlotState>, head: int, free: seq<nat>, s: SlotState)
    requires FreeListOk(slots, head, free) && free != [] && s.active
    ensures 0 < head < |slots| && slots[head].put == 0 && slots[head].get == 0
    ensures FreeListOk(slots[head := s], slots[head].freeListNext, free[1..])
  {
    ChainFrame(slots, slots[head := s], slots[head].freeListNext, free[1..]);
  }

  /** Giving an active slot back puts it in front of the list. */
  lemma {:induction false} Released(slots: seq<SlotState>, head: int, free: seq<nat>, i: nat, s: SlotState)
    requires FreeListOk(slots, head, free) && 0 < i < |slots| && slots[i].active
    requires !s.active && s.put == 0 && s.get == 0 && s.freeListNext == head
    ensures FreeListOk(slots[i := s], i, [i] + free)
  {
    EachSlotOnce(slots, head, free);
    ChainFrame(slots, slots[i := s], head, free);
    assert ([i] + free)[1..] == free;
  }

  /** A new slot does not touch the list. */
  lemma {:induction false} Grown(slots: seq<SlotState>, head: int, free: seq<nat>, s: SlotState)
    requires FreeListOk(slots, head, free) && s.active
    ensures FreeListOk(slots + [s], head, free)
  {
    ChainFrame(slots, slots + [s], head, free);
  }

  ghost function StateOf(s: Slot): SlotState
    reads s
  {
    SlotState(s.put, s.get, s.active, s.gpu, s.freeListNext)
  }

  class Pool {
    const slots: array<Slot?>
    var numLogs: nat
    var freeListHead: int
    /** The indices on the free list, from the head on. */
    ghost var free: seq<nat>
    /** The largest number of logs that were ever live at once. */
    ghost var mostLive: int

    /** The objects of the pool. */
    ghost function Slots(): set<object?>
      reads this, slots
    {
      set i | 0 <= i < slots.Length :: slots[i]
    }

    ghost predicate Filled()
      reads this, slots
    {
      && slots.Length == MAX_THREADS && 1 <= numLogs <= MAX_THREADS
      && (forall i :: 0 <= i < numLogs ==> slots[i] != null)
      && (forall i :: numLogs <= i < MAX_THREADS ==> slots[i] == null)
      && (forall i, j :: 0 <= i < j < numLogs ==> slots[i] != slots[j])
    }

    ghost function States(): (r: seq<SlotState>)
      requires Filled()
      reads this, slots, Slots()
      ensures |r| == numLogs
      ensures forall i :: 0 <= i < numLogs ==> r[i] == StateOf(slots[i])
    {
      StatesUpTo(numLogs)
    }

    ghost function StatesUpTo(n: nat): (r: seq<SlotState>)
      requires Filled() && n <= numLogs
      reads this, slots, Slots()
      ensures |r| == n
      ensures forall i :: 0 <= i < n ==> r[i] == StateOf(slots[i])
    {
      if n == 0 then [] else StatesUpTo(n - 1) + [StateOf(slots[n - 1])]
    }

    /** The free list is in order, and there are no more slots than were ever needed at once. */
    ghost predicate Valid()
      reads this, slots, Slots()
    {
      Filled() && FreeListOk(States(), freeListHead, free) && mostLive == numLogs
    }

    /** How many logs are live. */
    ghost function Live(): int
      reads this
    {
      numLogs - |free|
    }

    /** There is a slot for another log exactly as long as fewer than 32 logs are live: with 32, the
        original takes the slot with index 32 of an array of 32. */
    lemma {:induction false} SlotLeft()
      requires Valid()
      ensures (free != [] || numLogs < slots.Length) <==> Live() < MAX_THREADS
      ensures Live() == MAX_THREADS ==> freeListHead == -1 && numLogs == slots.Length
    {
    }

    /** `MicroProfileInit`: the first log is the GPU's. */
    constructor ()
      ensures Valid() && numLogs == 1 && free == [] && fresh(slots) && fresh(Slots() - {null})
    {
      slots := new Slot?[MAX_THREADS](_ => null);
      numLogs := 1;
      freeListHead := -1;
      free := [];
      mostLive := 1;
      new;
      var gpuLog := new Slot();
      slots[0] := gpuLog;
      gpuLog.freeListNext := -1;
      gpuLog.active := true;
      gpuLog.gpu := true;
    }

    /** `MicroProfileCreateThreadLog`: recycle the head of the free list, or use a new slot. */
    method CreateThreadLog() returns (log: Slot)
      requires Valid() && (free != [] || numLogs < MAX_THREADS)
      modifies this, slots, Slots()
      ensures Valid() && log.active && log.put == log.get == log.stackPos == 0 && log in Slots()
      ensures Live() == old(Live()) + 1
      ensures old(free) != [] ==> free == old(free)[1..] && numLogs == old(numLogs) && log == old(slots[free[0]])
      ensures old(free) == [] ==> free == [] && numLogs == old(numLogs) + 1 && fresh(log)
      ensures forall i :: 0 <= i < old(numLogs) ==> slots[i] == old(slots[i]) && (slots[i] != log ==> unchanged(slots[i]))
    {
      if freeListHead != -1 {
        log := TakeHead();
      } else {
        log := AddSlot();
      }
    }

    method TakeHead() returns (log: Slot)
      requires Valid() && freeListHead != -1
      modifies `freeListHead, `free, `mostLive, Slots()
      ensures Valid() && free == old(free)[1..] && old(free) != [] && log == old(slots[free[0]]) && log in Slots()
      ensures log.active && log.put == log.get == log.stackPos == 0
      ensures forall i :: 0 <= i < numLogs && slots[i] != log ==> unchanged(slots[i])
    {
      ghost var s := SlotState(0, 0, true, false, -1);
      Recycled(States(), freeListHead, free, s);
      log := slots[freeListHead];
      assert log.put == 0 && log.get == 0;
      freeListHead := slots[freeListHead].freeListNext;
      log.Reset();
      log.freeListNext := -1;
      log.active := true;
      free := free[1..];
      mostLive := Max(mostLive, Live());
      assert States() == old(States())[old(freeListHead) := s];
    }

    method AddSlot() returns (log: Slot)
      requires Valid() && freeListHead == -1 && numLogs < MAX_THREADS
      modifies `numLogs, `mostLive, slots
      ensures Valid() && free == [] && numLogs == old(numLogs) + 1 && fresh(log) && log in Slots()
      ensures log.active && log.put == log.get == log.stackPos == 0
      ensures forall i :: 0 <= i < old(numLogs) ==> slots[i] == old(slots[i])
    {
      ghost var s := SlotState(0, 0, true, false, -1);
      Grown(States(), freeListHead, free, s);
      log := new Slot();
      log.freeListNext := -1;
      log.active := true;
      slots[numLogs] := log;
      numLogs := numLogs + 1;
      mostLive := Max(mostLive, Live());
      assert States() == old(States()) + [s];
    }

    /** The search for a log's slot. */
    method IndexOf(log: Slot) returns (index: int)
      requires Filled()
      ensures -1 <= index < MAX_THREADS
      ensures index >= 0 ==> slots[index] == log
      ensures index < 0 ==> log !in Slots()
    {
      for i := 0 to MAX_THREADS
        invariant forall k :: 0 <= k < i ==> slots[k] != log
      {
        if slots[i] == log { return i; }
      }
      return -1;
    }

    /** `MicroProfileOnThreadExit`: the thread's log, if it has one, goes to the head of the list. */
    method OnThreadExit(log: Slot?)
      requires Valid() && (log != null ==> log in Slots() && log != slots[0] && log.active)
      modifies this, Slots()
      ensures Valid() && numLogs == old(numLogs)
      ensures log == null ==> free == old(free)
      ensures log != null ==> free != [] && free[1..] == old(free) && slots[free[0]] == log && Live() == old(Live()) - 1
      ensures forall i :: 0 <= i < numLogs ==> slots[i] == old(slots[i]) && (slots[i] != log ==> unchanged(slots[i]))
    {
      if log != null {
        var logIndex := IndexOf(log);
        assert slots[logIndex] == log && logIndex != 0;
        GiveBack(log, logIndex);
      }
    }

    method GiveBack(log: Slot, logIndex: nat)
      requires Valid() && 0 < logIndex < numLogs && slots[logIndex] == log && log.active
      modifies log, `freeListHead, `free
      ensures Valid() && free == [logIndex] + old(free)
    {
      assert States()[logIndex].active;
      ghost var s := SlotState(0, 0, false, log.gpu, freeListHead);
      Released(States(), freeListHead, free, logIndex, s);
      log.freeListNext := freeListHead;
      log.active := false;
      log.put := 0;
      log.get := 0;
      freeListHead := logIndex;
      free := [logIndex] + free;
      assert States() == old(States())[logIndex := s];
    }
  }

  /** A pool can get full: 31 threads beside the GPU's log. */
  method FillPool() returns (pool: Pool)
    ensures pool.Valid() && pool.Live() == 32 && pool.freeListHead == -1 && pool.numLogs == pool.slots.Length
  {
    pool := new Pool();
    for i := 1 to MAX_THREADS
      invariant pool.Valid() && pool.numLogs == i && pool.free == []
      invariant fresh(pool) && fresh(pool.slots) && fresh(pool.Slots() - {null})
    {
      var log := pool.CreateThreadLog();
    }
  }
}
