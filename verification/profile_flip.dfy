/** The profiler's thread log and the loop of `MicroProfileFlip` that replays it. */
module ProfileFlip {
  import opened ProfileLog
  import opened ProfileReplay
  import opened ProfileFrames

  /** 16 MiB of entries of eight bytes, as the wrapper of the header sets it. */
  const BUFFER_SIZE: nat := 2097152

  function EntriesAt(log: seq<Word>, at: seq<nat>): (r: seq<Entry>)
    requires forall i :: 0 <= i < |at| ==> at[i] < |log|
    ensures |r| == |at|
  {
    if at == [] then [] else EntriesAt(log, at[..|at| - 1]) + [Read(log[at[|at| - 1]])]
  }

  /** `MicroProfileThreadLog`: a ring of log words and the stacks of the replay. */
  class ThreadLog {
    const log: array<Word>
    var put: nat
    var get: nat
    const stack: array<nat>
    const childTicks: array<int>
    var stackPos: nat
    const groupPos: array<nat>
    const groupTicks: array<int>

    ghost predicate Valid()
      reads this, stack, groupPos
    {
      && log.Length == BUFFER_SIZE && put < BUFFER_SIZE && get < BUFFER_SIZE
      && stack.Length == STACK_MAX && childTicks.Length == STACK_MAX && stackPos < STACK_MAX
      && groupPos.Length == MAX_GROUPS && groupTicks.Length == MAX_GROUPS
      && childTicks != groupTicks && stack != groupPos
      && (forall i :: 0 <= i < stackPos ==> stack[i] < BUFFER_SIZE)
      && (forall g :: 0 <= g < MAX_GROUPS ==> groupPos[g] < 256)
    }

    constructor ()
      ensures Valid() && put == get == stackPos == 0 && ReplayStacks() == Fresh()
      ensures fresh(log) && fresh(stack) && fresh(childTicks) && fresh(groupPos) && fresh(groupTicks)
    {
      log := new Word[BUFFER_SIZE](_ => 0);
      put, get, stackPos := 0, 0, 0;
      stack := new nat[STACK_MAX](_ => 0);
      childTicks := new int[STACK_MAX](_ => 0);
      groupPos := new nat[MAX_GROUPS](_ => 0);
      groupTicks := new int[MAX_GROUPS](_ => 0);
      new;
      assert groupPos[..] == Zeros(MAX_GROUPS);
      assert childTicks[..1] == [0];
    }

    /** The stacks as the replay sees them: the open Enter entries are looked up in the ring. */
    ghost function ReplayStacks(): (s: Stacks)
      requires Valid()
      reads this, log, stack, childTicks, groupPos
      ensures WellSized(s)
    {
      Stacks(EntriesAt(log[..], stack[..stackPos]), childTicks[..stackPos + 1], groupPos[..])
    }

    /** The entries put since the ring was last drained. */
    ghost function Pending(): seq<Word>
      requires Valid()
      reads this, log, stack, groupPos
    {
      RingSlice(log[..], get, put)
    }

    /** A word at a place that no open Enter was read from leaves the stacks of the replay alone. */
    lemma {:induction false} PutKeepsStacks(words: seq<Word>, at: seq<nat>, k: nat, w: Word)
      requires k < |words| && k !in at && forall i :: 0 <= i < |at| ==> at[i] < |words|
      ensures EntriesAt(words[k := w], at) == EntriesAt(words, at)
    {
      if at != [] {
        var n := |at| - 1;
        assert at[n] in at && forall i :: 0 <= i < n ==> at[..n][i] in at;
        PutKeepsStacks(words, at[..n], k, w);
      }
    }

    /** `MicroProfileLogPut`: append, or drop the entry when the ring is full. The open Enters stay
        what they are, unless one of them stands where the entry is put. */
    method LogPut(token: nat, tick: int, begin: nat) returns (overflow: bool)
      requires Valid() && begin < 4
      modifies this`put, log
      ensures Valid() && overflow == (NextPos(old(put), BUFFER_SIZE) == get)
      ensures Pending() == if overflow then old(Pending()) else old(Pending()) + [MakeLogIndex(begin, token, tick)]
      ensures put == if overflow then old(put) else NextPos(old(put), BUFFER_SIZE)
      ensures log[..] == if overflow then old(log[..]) else old(log[..])[old(put) := MakeLogIndex(begin, token, tick)]
      ensures overflow || old(put) !in stack[..stackPos] ==> ReplayStacks() == old(ReplayStacks())
    {
      var pos := put;
      var nextPos := NextPos(pos, BUFFER_SIZE);
      if nextPos == get {
        return true;
      }
      PutAppends(log[..], get, pos, MakeLogIndex(begin, token, tick));
      ghost var before := log[..];
      log[pos] := MakeLogIndex(begin, token, tick);
      put := nextPos;
      assert log[..] == before[pos := MakeLogIndex(begin, token, tick)];
      if pos !in stack[..stackPos] {
        PutKeepsStacks(before, stack[..stackPos], pos, MakeLogIndex(begin, token, tick));
      }
      return false;
    }
  }

  /** The per-frame totals: `Frame`, `FrameExclusive` and `FrameGroup`. */
  class FrameTotals {
    const ticks: array<int>
    const excl: array<int>
    const count: array<int>
    const group: array<int>

    ghost predicate Valid()
    {
      && ticks.Length == MAX_TIMERS && excl.Length == MAX_TIMERS && count.Length == MAX_TIMERS
      && group.Length == MAX_GROUPS
      && ticks != excl && ticks != count && excl != count && group != ticks && group != excl && group != count
    }

    constructor ()
      ensures Valid() && Summed() == Zero()
      ensures fresh(ticks) && fresh(excl) && fresh(count) && fresh(group)
    {
      ticks := new int[MAX_TIMERS](_ => 0);
      excl := new int[MAX_TIMERS](_ => 0);
      count := new int[MAX_TIMERS](_ => 0);
      group := new int[MAX_GROUPS](_ => 0);
      new;
      assert ticks[..] == Zeros(MAX_TIMERS) && excl[..] == Zeros(MAX_TIMERS) && count[..] == Zeros(MAX_TIMERS);
      assert group[..] == Zeros(MAX_GROUPS);
    }

    ghost function Summed(): Totals
      requires Valid()
      reads ticks, excl, count, group
    {
      Totals(ticks[..], excl[..], count[..], group[..])
    }
  }

  ghost predicate Apart(log: ThreadLog, frame: FrameTotals, local: array<int>)
  {
    && log.childTicks !in {frame.ticks, frame.excl, frame.count, frame.group, local}
    && log.groupTicks !in {frame.ticks, frame.excl, frame.count, frame.group, local}
    && local !in {frame.ticks, frame.excl, frame.count, frame.group}
  }

  ghost function FrameSoFar(frame: FrameTotals, local: array<int>): (t: Totals)
    requires frame.Valid() && local.Length == MAX_GROUPS
    reads frame.ticks, frame.excl, frame.count, local
    ensures Sized(t)
  {
    Totals(frame.ticks[..], frame.excl[..], frame.count[..], local[..])
  }

  lemma {:induction false} PopLast<T>(s: seq<T>, n: nat)
    requires n < |s|
    ensures s[..n + 1][..n] == s[..n] && s[..n + 1][n] == s[n]
  {
  }

  /** An Enter pushes its index and opens its group. */
  method ReplayEnter(groups: Groups, log: ThreadLog, k: nat)
    requires log.Valid() && k < BUFFER_SIZE && log.stackPos + 1 < STACK_MAX
    requires Known(Read(log.log[k]))
    modifies log`stackPos, log.stack, log.childTicks, log.groupPos
    ensures log.Valid()
    ensures log.ReplayStacks() == old(EnterStacks(log.ReplayStacks(), Read(log.log[k]), groups[Read(log.log[k]).timer]))
    ensures log.stack[..log.stackPos] == old(log.stack[..log.stackPos]) + [k]
  {
    ghost var s, n := log.ReplayStacks(), log.stackPos;
    ghost var at, child := log.stack[..n], log.childTicks[..n + 1];
    var g := groups[LogTimerIndex(log.log[k])];
    log.groupPos[g] := (log.groupPos[g] + 1) % 256;
    log.stack[log.stackPos] := k;
    log.stackPos := log.stackPos + 1;
    log.childTicks[log.stackPos] := 0;
    assert log.stack[..n + 1] == at + [k];
    assert (at + [k])[..n] == at;
    assert log.childTicks[..n + 2] == child + [0];
  }

  /** The stack part of a Leave: pop, and book the ticks on the level around. */
  method PopSpan(groups: Groups, log: ThreadLog, k: nat) returns (ticks: int, childTicks: int, outermost: bool)
    requires log.Valid() && k < BUFFER_SIZE && log.stackPos > 0 && Known(Read(log.log[k]))
    modifies log`stackPos, log.childTicks, log.groupPos
    ensures log.Valid()
    ensures var s := old(log.ReplayStacks()); var e := old(Read(log.log[k])); var g := groups[e.timer];
            && ticks == TickDifference(s.open[|s.open| - 1], e) && childTicks == s.child[|s.open|]
            && outermost == (s.groupPos[g] == 1)
            && log.ReplayStacks() == LeaveStacks(s, ticks, g)
    ensures log.stackPos == old(log.stackPos) - 1
  {
    ghost var s, n := log.ReplayStacks(), log.stackPos - 1;
    PopLast(log.stack[..], n);
    PopLast(log.childTicks[..], n + 1);
    ghost var child := log.childTicks[..n + 1];
    var le := log.log[k];
    var g := groups[LogTimerIndex(le)];
    var start := log.log[log.stack[log.stackPos - 1]];
    LogTickDifferenceIs(start, le);
    ticks := LogTickDifference(start, le);
    childTicks := log.childTicks[log.stackPos];
    log.stackPos := log.stackPos - 1;
    log.childTicks[log.stackPos] := log.childTicks[log.stackPos] + ticks;
    assert log.childTicks[..n + 1] == Bump(child, n, ticks);
    var pos := log.groupPos[g];
    outermost := pos == 1;
    if pos > 0 {
      log.groupPos[g] := pos - 1;
    }
  }

  method Book(a: array<int>, i: nat, d: int)
    requires i < a.Length
    modifies a
    ensures a[..] == Bump(old(a[..]), i, d)
  {
    a[i] := a[i] + d;
  }

  /** The totals part of a Leave. */
  method BookSpan(frame: FrameTotals, local: array<int>, timer: nat, g: nat, ticks: int, childTicks: int, outermost: bool)
    requires frame.Valid() && local.Length == MAX_GROUPS && local !in {frame.ticks, frame.excl, frame.count}
    requires timer < MAX_TIMERS && g < MAX_GROUPS
    modifies frame.ticks, frame.excl, frame.count, local
    ensures FrameSoFar(frame, local)
         == LeaveTotals(old(FrameSoFar(frame, local)), timer, g, ticks, childTicks, outermost)
  {
    Book(frame.ticks, timer, ticks);
    Book(frame.excl, timer, ticks - childTicks);
    Book(frame.count, timer, 1);
    if outermost {
      Book(local, g, ticks);
    }
  }

  /** The places of the open Enters behind one entry more, which stands at `k`. */
  function Pushed(at: seq<nat>, kind: nat, k: nat): seq<nat>
  {
    if kind == ENTER then at + [k]
    else if kind == LEAVE && at != [] then at[..|at| - 1]
    else at
  }

  /** The ring slots of the open Enters behind some entries, which stand from slot `get` on. */
  function OpenSlots(at: seq<nat>, get: nat, entries: seq<Entry>): seq<nat>
  {
    if entries == [] then at
    else
      var n := |entries| - 1;
      Pushed(OpenSlots(at, get, entries[..n]), entries[n].kind, Slot(get + n))
  }

  /** The ring slot of a position in the whole log: the remainder by the size of the ring. */
  function Slot(position: nat): (k: nat)
    ensures k < BUFFER_SIZE
  {
    if position < BUFFER_SIZE then position else Slot(position - BUFFER_SIZE)
  }

  /** The loop body: one entry. Time is kept on the stack and in the frame's arrays; group ticks
      go to a local array first. */
  method ReplayEntry(groups: Groups, log: ThreadLog, frame: FrameTotals, local: array<int>, k: nat)
    requires log.Valid() && frame.Valid() && local.Length == MAX_GROUPS && Apart(log, frame, local)
    requires k < BUFFER_SIZE && Known(Read(log.log[k]))
    requires Read(log.log[k]).kind == ENTER ==> log.stackPos + 1 < STACK_MAX
    modifies log`stackPos, log.stack, log.childTicks, log.groupPos, frame.ticks, frame.excl, frame.count, local
    ensures log.Valid()
    ensures (log.ReplayStacks(), FrameSoFar(frame, local))
         == old(Replayed(groups, log.ReplayStacks(), FrameSoFar(frame, local), Read(log.log[k])))
    ensures log.stack[..log.stackPos] == Pushed(old(log.stack[..log.stackPos]), old(Read(log.log[k]).kind), k)
  {
    var le := log.log[k];
    if LogType(le) == ENTER {
      ReplayEnter(groups, log, k);
    } else if LogType(le) == LEAVE && log.stackPos > 0 {
      ReplayLeave(groups, log, frame, local, k);
    }
  }

  method ReplayLeave(groups: Groups, log: ThreadLog, frame: FrameTotals, local: array<int>, k: nat)
    requires log.Valid() && frame.Valid() && local.Length == MAX_GROUPS && Apart(log, frame, local)
    requires k < BUFFER_SIZE && Known(Read(log.log[k])) && Read(log.log[k]).kind == LEAVE && log.stackPos > 0
    modifies log`stackPos, log.childTicks, log.groupPos, frame.ticks, frame.excl, frame.count, local
    ensures log.Valid() && log.stackPos == old(log.stackPos) - 1
    ensures (log.ReplayStacks(), FrameSoFar(frame, local))
         == old(Replayed(groups, log.ReplayStacks(), FrameSoFar(frame, local), Read(log.log[k])))
  {
    var timer := LogTimerIndex(log.log[k]);
    var ticks, childTicks, outermost := PopSpan(groups, log, k);
    BookSpan(frame, local, timer, groups[timer], ticks, childTicks, outermost);
  }

  function ReadAll(words: seq<Word>): (r: seq<Entry>)
    ensures |r| == |words| && forall i :: 0 <= i < |r| ==> r[i] == Read(words[i])
  {
    if words == [] then [] else ReadAll(words[..|words| - 1]) + [Read(words[|words| - 1])]
  }

  /** The log never has more spans open than the stack can hold: an Enter needs a child slot
      behind its own. */
  ghost predicate StackFits(groups: Groups, s: Stacks, t: Totals, log: seq<Entry>)
    requires WellSized(s) && Sized(t) && AllKnown(log)
  {
    forall i :: 0 <= i <= |log| ==> |ReplayAll(groups, s, t, log[..i]).0.open| < STACK_MAX
  }

  /** The assertion of the original (`nStackPos < MICROPROFILE_STACK_MAX`), in front of every Enter. */
  ghost predicate Asserted(groups: Groups, s: Stacks, t: Totals, log: seq<Entry>)
    requires WellSized(s) && Sized(t) && AllKnown(log)
  {
    forall i :: 0 <= i < |log| && log[i].kind == ENTER ==> |ReplayAll(groups, s, t, log[..i]).0.open| < STACK_MAX
  }

  /** The number of open spans never exceeds `most`. */
  ghost predicate DepthAtMost(groups: Groups, s: Stacks, t: Totals, log: seq<Entry>, most: nat)
    requires WellSized(s) && Sized(t) && AllKnown(log)
  {
    forall i :: 0 <= i <= |log| ==> |ReplayAll(groups, s, t, log[..i]).0.open| <= most
  }

  /** For any log: the assertion holds at every Enter exactly when no more than 32 spans are ever open,
      while the stacks suffice exactly when no more than 31 are. */
  lemma {:induction false} AssertionIsTooWeak(groups: Groups, s: Stacks, t: Totals, log: seq<Entry>)
    requires WellSized(s) && Sized(t) && AllKnown(log) && |s.open| <= STACK_MAX
    ensures Asserted(groups, s, t, log) <==> DepthAtMost(groups, s, t, log, 32)
    ensures StackFits(groups, s, t, log) <==> DepthAtMost(groups, s, t, log, 31)
  {
    if Asserted(groups, s, t, log) {
      forall i | 0 <= i <= |log|
        ensures |ReplayAll(groups, s, t, log[..i]).0.open| <= STACK_MAX
      {
        AssertedDepth(groups, s, t, log, i);
      }
    }
    if DepthAtMost(groups, s, t, log, STACK_MAX) {
      forall i | 0 <= i < |log| && log[i].kind == ENTER
        ensures |ReplayAll(groups, s, t, log[..i]).0.open| < STACK_MAX
      {
        assert log[..i + 1][..i] == log[..i];
        assert |ReplayAll(groups, s, t, log[..i + 1]).0.open| <= STACK_MAX;
      }
    }
  }

  lemma {:induction false} AssertedDepth(groups: Groups, s: Stacks, t: Totals, log: seq<Entry>, n: nat)
    requires WellSized(s) && Sized(t) && AllKnown(log) && |s.open| <= STACK_MAX && n <= |log|
    requires Asserted(groups, s, t, log)
    ensures |ReplayAll(groups, s, t, log[..n]).0.open| <= STACK_MAX
    decreases n
  {
    if n > 0 {
      AssertedDepth(groups, s, t, log, n - 1);
      assert log[..n][..n - 1] == log[..n - 1];
    }
  }

  /** A log that the assertion lets through although the stacks do not suffice: 32 Enters. */
  lemma {:induction false} OneTooDeep(groups: Groups, s: Stacks, t: Totals, log: seq<Entry>)
    requires WellSized(s) && Sized(t) && AllKnown(log) && s.open == [] && |log| == STACK_MAX
    requires forall i :: 0 <= i < |log| ==> log[i].kind == ENTER
    ensures Asserted(groups, s, t, log) && !StackFits(groups, s, t, log)
  {
    forall i | 0 <= i <= |log|
      ensures |ReplayAll(groups, s, t, log[..i]).0.open| == i
    {
      EntersOpen(groups, s, t, log[..i]);
    }
    assert |ReplayAll(groups, s, t, log[..|log|]).0.open| == STACK_MAX;
  }

  lemma {:induction false} EntersOpen(groups: Groups, s: Stacks, t: Totals, log: seq<Entry>)
    requires WellSized(s) && Sized(t) && AllKnown(log) && forall i :: 0 <= i < |log| ==> log[i].kind == ENTER
    ensures |ReplayAll(groups, s, t, log).0.open| == |s.open| + |log|
    decreases |log|
  {
    if log != [] {
      EntersOpen(groups, s, t, log[..|log| - 1]);
    }
  }

  lemma {:induction false} ReplayNext(groups: Groups, s: Stacks, t: Totals, log: seq<Entry>, n: nat)
    requires WellSized(s) && Sized(t) && AllKnown(log) && StackFits(groups, s, t, log) && n < |log|
    ensures var r := ReplayAll(groups, s, t, log[..n]);
            && ReplayAll(groups, s, t, log[..n + 1]) == Replayed(groups, r.0, r.1, log[n])
            && (log[n].kind == ENTER ==> |r.0.open| + 1 < STACK_MAX)
  {
    assert log[..n + 1][..n] == log[..n] && log[..n + 1][n] == log[n];
    assert |ReplayAll(groups, s, t, log[..n + 1]).0.open| < STACK_MAX;
  }

  /** The replay has got from `s` and `t` through the first `n` entries of `entries`. */
  ghost predicate Reached(groups: Groups, log: ThreadLog, frame: FrameTotals, local: array<int>,
                          s: Stacks, t: Totals, at: seq<nat>, get: nat, entries: seq<Entry>, n: nat)
    reads log, log.log, log.stack, log.childTicks, log.groupPos, frame.ticks, frame.excl, frame.count, local
  {
    && log.Valid() && frame.Valid() && local.Length == MAX_GROUPS && Apart(log, frame, local)
    && WellSized(s) && Sized(t) && AllKnown(entries) && n <= |entries|
    && (log.ReplayStacks(), FrameSoFar(frame, local)) == ReplayAll(groups, s, t, entries[..n])
    && log.stack[..log.stackPos] == OpenSlots(at, get, entries[..n])
  }

  /** The words from `start` to `end` are the entries from `n` to `m`. */
  ghost predicate Holds(log: seq<Word>, start: nat, end: nat, entries: seq<Entry>, n: nat, m: nat)
  {
    && start <= end <= |log| && n <= m <= |entries| && m - n == end - start
    && forall k :: start <= k < end ==> entries[n + (k - start)] == Read(log[k])
  }

  /** The slots from `start` to `end` are those of consecutive positions from `from` on. */
  ghost predicate InSlots(start: nat, end: nat, from: nat)
  {
    forall p: nat :: from <= p < from + (end - start) ==> Slot(p) == start + (p - from)
  }

  /** The two stretches of a range lie one behind the other. */
  lemma {:induction false} RangeSlots(start0: nat, end0: nat, start1: nat, end1: nat, get: nat)
    requires start0 <= end0 <= BUFFER_SIZE && start1 <= end1 <= BUFFER_SIZE
    requires start0 < end0 ==> start0 == get
    requires start1 < end1 ==> start0 == get && end0 == BUFFER_SIZE && start1 == 0
    requires get < BUFFER_SIZE && (start1 < end1 ==> end1 <= get)
    ensures InSlots(start0, end0, get) && InSlots(start1, end1, get + (end0 - start0))
  {
    forall p: nat | BUFFER_SIZE <= p < BUFFER_SIZE + BUFFER_SIZE
      ensures Slot(p) == p - BUFFER_SIZE
    {
    }
  }

  lemma {:induction false} NextSlots(at: seq<nat>, get: nat, entries: seq<Entry>, n: nat)
    requires n < |entries|
    ensures OpenSlots(at, get, entries[..n + 1])
         == Pushed(OpenSlots(at, get, entries[..n]), entries[n].kind, Slot(get + n))
  {
    assert entries[..n + 1][..n] == entries[..n];
  }

  /** One turn of the inner loop. */
  method ReplayNextEntry(groups: Groups, log: ThreadLog, frame: FrameTotals, local: array<int>, k: nat,
                         ghost s: Stacks, ghost t: Totals, ghost at: seq<nat>, ghost get: nat, ghost entries: seq<Entry>,
                         ghost n: nat)
    requires Reached(groups, log, frame, local, s, t, at, get, entries, n) && StackFits(groups, s, t, entries)
    requires k < BUFFER_SIZE && n < |entries| && entries[n] == Read(log.log[k]) && Slot(get + n) == k
    modifies log`stackPos, log.stack, log.childTicks, log.groupPos, frame.ticks, frame.excl, frame.count, local
    ensures Reached(groups, log, frame, local, s, t, at, get, entries, n + 1)
  {
    ReplayNext(groups, s, t, entries, n);
    NextSlots(at, get, entries, n);
    ReplayEntry(groups, log, frame, local, k);
  }

  lemma {:induction false} EntryHere(log: seq<Word>, start: nat, end: nat, entries: seq<Entry>, n: nat, m: nat, get: nat,
                                     k: nat, i: nat)
    requires Holds(log, start, end, entries, n, m) && InSlots(start, end, get + n) && start <= k < end && i == n + (k - start)
    ensures i < |entries| && entries[i] == Read(log[k]) && Slot(get + i) == k
  {
  }

  /** The inner loop over one stretch of the ring. */
  method ReplayStretch(groups: Groups, log: ThreadLog, frame: FrameTotals, local: array<int>, start: nat, end: nat,
                       ghost s: Stacks, ghost t: Totals, ghost at: seq<nat>, ghost get: nat, ghost entries: seq<Entry>,
                       ghost n: nat, ghost m: nat)
    requires Reached(groups, log, frame, local, s, t, at, get, entries, n) && StackFits(groups, s, t, entries)
    requires Holds(log.log[..], start, end, entries, n, m) && InSlots(start, end, get + n)
    modifies log`stackPos, log.stack, log.childTicks, log.groupPos, frame.ticks, frame.excl, frame.count, local
    ensures Reached(groups, log, frame, local, s, t, at, get, entries, m)
  {
    ghost var i := n;
    for k := start to end
      invariant i == n + (k - start)
      invariant Reached(groups, log, frame, local, s, t, at, get, entries, i)
    {
      EntryHere(log.log[..], start, end, entries, n, m, get, k, i);
      ReplayNextEntry(groups, log, frame, local, k, s, t, at, get, entries, i);
      i := i + 1;
    }
  }

  /** The frame's totals with its group ticks set aside, as the thread loop keeps them. */
  function WithoutGroups(t: Totals): (r: Totals)
    requires Sized(t)
    ensures Sized(r)
  {
    t.(group := Zeros(MAX_GROUPS))
  }

  /** Adding the local group ticks at the end is the same as adding them one by one. */
  lemma {:induction false} GroupsLast(groups: Groups, s: Stacks, t: Totals, log: seq<Entry>)
    requires WellSized(s) && Sized(t) && AllKnown(log)
    ensures var r := ReplayAll(groups, s, WithoutGroups(t), log);
            ReplayAll(groups, s, t, log) == (r.0, r.1.(group := Plus(t.group, r.1.group)))
  {
    var r := ReplayAll(groups, s, WithoutGroups(t), log);
    var acc := Zero().(group := t.group);
    ReplayShifts(groups, s, acc, WithoutGroups(t), log);
    PlusZeros(t.ticks);
    PlusZeros(t.excl);
    PlusZeros(t.count);
    PlusZeros(t.group);
    PlusZeros(r.1.ticks);
    PlusZeros(r.1.excl);
    PlusZeros(r.1.count);
  }

  lemma {:induction false} PlusZeros(a: seq<int>)
    ensures Plus(Zeros(|a|), a) == a == Plus(a, Zeros(|a|))
  {
  }

  /** Adds `d` to `a`, element by element. */
  method AddTo(a: array<int>, d: array<int>)
    requires a.Length == d.Length && a != d
    modifies a
    ensures a[..] == Plus(old(a[..]), d[..])
  {
    ghost var before := a[..];
    for j := 0 to a.Length
      invariant forall i :: 0 <= i < j ==> a[i] == before[i] + d[i]
      invariant forall i :: j <= i < a.Length ==> a[i] == before[i]
    {
      a[j] := a[j] + d[j];
    }
  }

  /** The two stretches of a slice, one of them perhaps empty. */
  method Stretches(log: array<Word>, put: nat, get: nat, ghost entries: seq<Entry>)
    returns (start0: nat, end0: nat, start1: nat, end1: nat, ghost m: nat)
    requires log.Length == BUFFER_SIZE && put < BUFFER_SIZE && get < BUFFER_SIZE
    requires entries == ReadAll(RingSlice(log[..], get, put))
    ensures Holds(log[..], start0, end0, entries, 0, m) && Holds(log[..], start1, end1, entries, m, |entries|)
    ensures InSlots(start0, end0, get) && InSlots(start1, end1, get + m)
  {
    ghost var words := log[..];
    var range := new nat[2, 2]((i, j) => 0);
    GetRange(put, get, BUFFER_SIZE, range);
    start0, end0, start1, end1 := range[0, 0], range[0, 1], range[1, 0], range[1, 1];
    assert words[start0..end0] + words[start1..end1] == RingSlice(words, get, put);
    m := end0 - start0;
    RangeSlots(start0, end0, start1, end1, get);
    HoldTwo(words, words[start0..end0] + words[start1..end1], start0, end0, start1, end1, m);
    assert log[..] == words;
  }

  lemma {:induction false} HoldTwo(log: seq<Word>, slice: seq<Word>, start0: nat, end0: nat, start1: nat, end1: nat, m: nat)
    requires start0 <= end0 <= |log| && start1 <= end1 <= |log| && m == end0 - start0
    requires slice == log[start0..end0] + log[start1..end1]
    ensures Holds(log, start0, end0, ReadAll(slice), 0, m) && Holds(log, start1, end1, ReadAll(slice), m, |ReadAll(slice)|)
  {
    assert forall k :: start0 <= k < end0 ==> slice[0 + (k - start0)] == log[k];
    assert forall k :: start1 <= k < end1 ==> slice[m + (k - start1)] == log[k];
  }

  /** Both stretches of the ring, in order. */
  method ReplayRange(groups: Groups, log: ThreadLog, frame: FrameTotals, local: array<int>, put: nat, get: nat,
                     ghost s: Stacks, ghost t: Totals, ghost at: seq<nat>, ghost entries: seq<Entry>)
    requires put < BUFFER_SIZE && get < BUFFER_SIZE && log.log.Length == BUFFER_SIZE
    requires entries == ReadAll(RingSlice(log.log[..], get, put))
    requires Reached(groups, log, frame, local, s, t, at, get, entries, 0) && StackFits(groups, s, t, entries)
    modifies log`stackPos, log.stack, log.childTicks, log.groupPos, frame.ticks, frame.excl, frame.count, local
    ensures Reached(groups, log, frame, local, s, t, at, get, entries, |entries|)
  {
    ghost var m: nat;
    var start0, end0, start1, end1;
    start0, end0, start1, end1, m := Stretches(log.log, put, get, entries);
    ReplayStretch(groups, log, frame, local, start0, end0, s, t, at, get, entries, 0, m);
    ReplayStretch(groups, log, frame, local, start1, end1, s, t, at, get, entries, m, |entries|);
  }

  /** The thread loop of `MicroProfileFlip` for one log: the entries between two frame marks, in
      ring order, are replayed on the thread's stacks into the frame's totals. */
  method ReplayThread(groups: Groups, log: ThreadLog, frame: FrameTotals, put: nat, get: nat)
    requires log.Valid() && frame.Valid() && put < BUFFER_SIZE && get < BUFFER_SIZE
    requires log.childTicks !in {frame.ticks, frame.excl, frame.count, frame.group}
    requires log.groupTicks !in {frame.ticks, frame.excl, frame.count, frame.group}
    requires AllKnown(ReadAll(RingSlice(log.log[..], get, put)))
    requires StackFits(groups, log.ReplayStacks(), WithoutGroups(frame.Summed()), ReadAll(RingSlice(log.log[..], get, put)))
    modifies log`stackPos, log.stack, log.childTicks, log.groupPos, log.groupTicks
    modifies frame.ticks, frame.excl, frame.count, frame.group
    ensures log.Valid()
    ensures (log.ReplayStacks(), frame.Summed())
         == old(ReplayAll(groups, log.ReplayStacks(), frame.Summed(), ReadAll(RingSlice(log.log[..], get, put))))
    ensures log.stack[..log.stackPos]
         == OpenSlots(old(log.stack[..log.stackPos]), get, old(ReadAll(RingSlice(log.log[..], get, put))))
  {
    ReplayFrom(groups, log, frame, put, get, log.ReplayStacks(), frame.Summed(), log.stack[..log.stackPos],
               ReadAll(RingSlice(log.log[..], get, put)));
  }

  method ReplayFrom(groups: Groups, log: ThreadLog, frame: FrameTotals, put: nat, get: nat,
                    ghost s: Stacks, ghost t: Totals, ghost at: seq<nat>, ghost entries: seq<Entry>)
    requires log.Valid() && at == log.stack[..log.stackPos]
    requires frame.Valid() && put < BUFFER_SIZE && get < BUFFER_SIZE
    requires log.childTicks !in {frame.ticks, frame.excl, frame.count, frame.group}
    requires log.groupTicks !in {frame.ticks, frame.excl, frame.count, frame.group}
    requires entries == ReadAll(RingSlice(log.log[..], get, put)) && AllKnown(entries)
    requires s == log.ReplayStacks() && t == frame.Summed() && StackFits(groups, s, WithoutGroups(t), entries)
    modifies log`stackPos, log.stack, log.childTicks, log.groupPos, log.groupTicks
    modifies frame.ticks, frame.excl, frame.count, frame.group
    ensures log.Valid() && (log.ReplayStacks(), frame.Summed()) == ReplayAll(groups, s, t, entries)
    ensures log.stack[..log.stackPos] == OpenSlots(at, get, entries)
  {
    var local := new int[MAX_GROUPS](_ => 0);
    assert local[..] == Zeros(MAX_GROUPS);
    assert FrameSoFar(frame, local) == WithoutGroups(frame.Summed());
    assert entries[..0] == [];
    ReplayRange(groups, log, frame, local, put, get, s, WithoutGroups(t), at, entries);
    assert entries[..|entries|] == entries;
    GroupsLast(groups, s, t, entries);
    AddGroups(log, frame, local);
  }

  /** The group ticks of the thread go to the log and to the frame. */
  method AddGroups(log: ThreadLog, frame: FrameTotals, local: array<int>)
    requires log.Valid() && frame.Valid() && local.Length == MAX_GROUPS && Apart(log, frame, local)
    modifies log.groupTicks, frame.group
    ensures log.Valid() && log.ReplayStacks() == old(log.ReplayStacks())
    ensures log.stack[..log.stackPos] == old(log.stack[..log.stackPos])
    ensures frame.Summed() == old(frame.Summed().(group := Plus(frame.group[..], local[..])))
  {
    AddTo(log.groupTicks, local);
    AddTo(frame.group, local);
  }

  /** The accumulation at the end of a flip. */
  method AccumulateFrame(acc: FrameTotals, frame: FrameTotals)
    requires acc.Valid() && frame.Valid()
    requires acc.ticks !in {frame.ticks, frame.excl, frame.count, frame.group}
    requires acc.excl !in {frame.ticks, frame.excl, frame.count, frame.group}
    requires acc.count !in {frame.ticks, frame.excl, frame.count, frame.group}
    requires acc.group !in {frame.ticks, frame.excl, frame.count, frame.group}
    modifies acc.ticks, acc.excl, acc.count, acc.group
    ensures acc.Summed() == Accumulated(old(acc.Summed()), frame.Summed())
  {
    AddTo(acc.ticks, frame.ticks);
    AddTo(acc.count, frame.count);
    AddTo(acc.excl, frame.excl);
    AddTo(acc.group, frame.group);
  }
}
