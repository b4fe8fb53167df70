/** The profiler's log in plain numbers: what a word is, what one span adds, and when. */
module ProfileUnits {
  import opened ProfileLog
  import opened ProfileReplay
  import opened ProfileFrames
  import opened ProfileFlip
  import opened ProfileTimeline
  import opened ProfileSession

  /** A stored word: two bits of kind from bit 62 on, 14 bits of timer index from bit 48 on, and
      the tick below. */
  lemma {:induction false} WordIs(kind: nat, token: nat, tick: int)
    requires kind < 4
    ensures MakeLogIndex(kind, token, tick)
         == kind * 0x4000_0000_0000_0000 + token % 16384 * 0x1_0000_0000_0000 + tick % 0x1_0000_0000_0000
  {
    assert INDEX_RANGE * TICK_RANGE == 0x4000_0000_0000_0000;
    var e := MakeLogIndex(kind, token, tick);
    assert Read(e) == Entry(kind, token % INDEX_RANGE, tick % TICK_RANGE);
    Parts(e);
  }

  lemma {:induction false} Parts(e: Word)
    ensures e == LogType(e) * 0x4000_0000_0000_0000 + LogTimerIndex(e) * 0x1_0000_0000_0000 + LogGetTick(e)
  {
    assert e == e / TICK_RANGE * TICK_RANGE + e % TICK_RANGE;
    var q := e / TICK_RANGE;
    assert q == q / INDEX_RANGE * INDEX_RANGE + q % INDEX_RANGE;
    assert e / (INDEX_RANGE * TICK_RANGE) == q / INDEX_RANGE;
  }

  /** Only the entry of a timer changes. */
  predicate OnlyAt(s: seq<int>, i: nat, n: nat, v: int)
  {
    |s| == n && i < n && s[i] == v && forall k :: 0 <= k < n && k != i ==> s[k] == 0
  }

  /** What one span of a timer leaves behind. */
  ghost predicate AddsOneSpan(groups: Groups, timer: nat, elapsed: int, s: Stacks, t: Totals)
    requires timer < 1024
  {
    && s == Stacks([], [elapsed], Fresh().groupPos)
    && OnlyAt(t.ticks, timer, 1024, elapsed) && OnlyAt(t.excl, timer, 1024, elapsed)
    && OnlyAt(t.count, timer, 1024, 1) && OnlyAt(t.group, groups[timer], 48, elapsed)
  }

  /** One span of a timer, put into the log with kind 1 when it begins and kind 0 when it ends: its
      time is the timer's, inclusive and exclusive, and its group's, whatever the 48-bit clock did. */
  lemma {:induction false} OneSpan(groups: Groups, timer: nat, begun: int, elapsed: int, enter: Entry, leave: Entry)
    requires timer < 1024 && 0 <= elapsed < 0x8000_0000_0000
    requires enter == Read(MakeLogIndex(1, timer, begun)) && leave == Read(MakeLogIndex(0, timer, begun + elapsed))
    ensures AllKnown([enter, leave])
    ensures var (s, t) := ReplayAll(groups, Fresh(), Zero(), [enter, leave]); AddsOneSpan(groups, timer, elapsed, s, t)
  {
    assert enter == Entry(1, timer, begun % TICK_RANGE) && leave == Entry(0, timer, (begun + elapsed) % TICK_RANGE);
    TickDifferenceIsElapsed(enter, leave, begun, elapsed);
    SpanOf(groups, timer, elapsed, enter, leave);
  }

  lemma {:induction false} SpanOf(groups: Groups, timer: nat, elapsed: int, enter: Entry, leave: Entry)
    requires timer < 1024 && enter.kind == 1 && leave.kind == 0 && enter.timer == leave.timer == timer
    requires TickDifference(enter, leave) == elapsed
    ensures AllKnown([enter, leave])
    ensures var (s, t) := ReplayAll(groups, Fresh(), Zero(), [enter, leave]); AddsOneSpan(groups, timer, elapsed, s, t)
  {
    var g := groups[timer];
    TwoEntries(groups, enter, leave);
    var s := EnterStacks(Fresh(), enter, g);
    Entered(s, enter, g);
    LeftAfter(groups, s, enter, leave, g, elapsed);
    Closed(s, enter, leave, g, elapsed);
    TotalsOfOne(timer, g, elapsed);
  }

  lemma {:induction false} TwoEntries(groups: Groups, enter: Entry, leave: Entry)
    requires Known(enter) && Known(leave) && enter.kind == 1
    ensures AllKnown([enter, leave])
    ensures ReplayAll(groups, Fresh(), Zero(), [enter, leave])
         == Replayed(groups, EnterStacks(Fresh(), enter, groups[enter.timer]), Zero(), leave)
  {
    assert ([enter, leave])[..1] == [enter];
    ReplayOne(groups, Fresh(), Zero(), enter);
  }

  lemma {:induction false} Entered(s: Stacks, enter: Entry, g: nat)
    requires g < 48 && s == EnterStacks(Fresh(), enter, g)
    ensures WellSized(s) && s.open == [enter] && s.child == [0, 0] && s.groupPos[g] == 1
  {
  }

  lemma {:induction false} LeftAfter(groups: Groups, s: Stacks, enter: Entry, leave: Entry, g: nat, elapsed: int)
    requires WellSized(s) && g < 48 && s.open == [enter] && s.child == [0, 0] && s.groupPos[g] == 1
    requires Known(leave) && leave.kind == 0 && g == groups[leave.timer] && TickDifference(enter, leave) == elapsed
    ensures Replayed(groups, s, Zero(), leave)
         == (LeaveStacks(s, elapsed, g), LeaveTotals(Zero(), leave.timer, g, elapsed, 0, true))
  {
  }

  lemma {:induction false} BumpOfZeros(n: nat, i: nat, v: int)
    requires i < n
    ensures OnlyAt(Bump(Zeros(n), i, v), i, n, v)
  {
  }

  lemma {:induction false} TotalsOfOne(timer: nat, g: nat, elapsed: int)
    requires timer < 1024 && g < 48
    ensures var t := LeaveTotals(Zero(), timer, g, elapsed, 0, true);
            && OnlyAt(t.ticks, timer, 1024, elapsed) && OnlyAt(t.excl, timer, 1024, elapsed)
            && OnlyAt(t.count, timer, 1024, 1) && OnlyAt(t.group, g, 48, elapsed)
  {
    BumpOfZeros(1024, timer, elapsed);
    BumpOfZeros(1024, timer, 1);
    BumpOfZeros(48, g, elapsed);
  }

  lemma {:induction false} Closed(s: Stacks, enter: Entry, leave: Entry, g: nat, elapsed: int)
    requires g < 48 && s == EnterStacks(Fresh(), enter, g)
    ensures LeaveStacks(s, elapsed, g) == Stacks([], [elapsed], Fresh().groupPos)
  {
    assert s.open[..0] == [] && s.child[..1] == [0];
    assert s.groupPos[g := 0] == Fresh().groupPos;
  }

  /** Entries of kinds 2 and 3, and an end without a beginning, change nothing. */
  lemma {:induction false} OtherEntries(groups: Groups, s: Stacks, t: Totals, e: Entry)
    requires WellSized(s) && Sized(t) && Known(e)
    requires e.kind == 2 || e.kind == 3 || (e.kind == 0 && s.open == [])
    ensures Replayed(groups, s, t, e) == (s, t)
  {
  }

  // ----- when a frame is replayed

  function Flips(ops: seq<Op>): nat
  {
    if ops == [] then 0 else Flips(ops[1..]) + if ops[0].EndFrame? then 1 else 0
  }

  lemma {:induction false} CutsStay(tl: Timeline, ops: seq<Op>)
    requires tl.cuts != []
    ensures var after := After(tl, ops);
            && after.cuts != [] && |after.cuts| == |tl.cuts| + Flips(ops)
            && forall i :: 0 <= i < |tl.cuts| ==> after.cuts[i] == tl.cuts[i]
    decreases |ops|
  {
    if ops != [] {
      var next := Do(tl, ops[0]);
      CutsStay(next, ops[1..]);
      assert forall i :: 0 <= i < |tl.cuts| ==> next.cuts[i] == tl.cuts[i];
    }
  }

  /** What was put up to a flip has been replayed, and nothing that was put later, once there were
      three flips more, whatever was put in between. */
  lemma {:induction false} ReplayedThreeFlipsLater(tl: Timeline, ops: seq<Op>)
    requires tl.cuts != [] && Flips(ops) == 3
    ensures After(Flip(tl), ops).cuts != [] && After(Flip(tl), ops).Drained() == |tl.history|
  {
    CutsStay(Flip(tl), ops);
  }

  /** Between two flips the ring takes 2097151 entries and drops the rest. */
  lemma {:induction false} RingTakes(tl: Timeline, op: Op)
    requires tl.cuts != [] && op.LogEntry?
    ensures var n := |tl.history| - tl.cuts[|tl.cuts| - 1];
            Do(tl, op) == if n == 2097151 then tl
                          else tl.(history := tl.history + [Entry(op.kind, op.token % 16384, op.tick % 0x1_0000_0000_0000)])
  {
  }
}
