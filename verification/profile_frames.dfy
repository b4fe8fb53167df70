/** Frames: the log is cut at frame ends, every frame is replayed on its own and added up. */
module ProfileFrames {
  import opened ProfileLog
  import opened ProfileReplay
  import opened ProfileNesting

  function Zeros(n: nat): (r: seq<nat>)
    ensures |r| == n && forall i :: 0 <= i < n ==> r[i] == 0
  {
    if n == 0 then [] else Zeros(n - 1) + [0]
  }

  /** The stacks of a new thread. */
  function Fresh(): Stacks { Stacks([], [0], Zeros(MAX_GROUPS)) }

  /** The totals at the beginning of a frame. */
  function Zero(): (t: Totals)
    ensures Sized(t)
  {
    Totals(Zeros(MAX_TIMERS), Zeros(MAX_TIMERS), Zeros(MAX_TIMERS), Zeros(MAX_GROUPS))
  }

  function Plus(a: seq<int>, b: seq<int>): (r: seq<int>)
    requires |a| == |b|
    ensures |r| == |a| && forall i :: 0 <= i < |a| ==> r[i] == a[i] + b[i]
  {
    seq(|a|, i requires 0 <= i < |a| => a[i] + b[i])
  }

  /** Accumulated totals with those of a frame added. */
  function Accumulated(acc: Totals, t: Totals): (r: Totals)
    requires Sized(acc) && Sized(t)
    ensures Sized(r)
  {
    Totals(Plus(acc.ticks, t.ticks), Plus(acc.excl, t.excl), Plus(acc.count, t.count), Plus(acc.group, t.group))
  }

  lemma {:induction false} PlusBump(a: seq<int>, b: seq<int>, i: nat, d: int)
    requires |a| == |b| && i < |a|
    ensures Plus(a, Bump(b, i, d)) == Bump(Plus(a, b), i, d)
  {
  }

  lemma {:induction false} StepShifts(groups: Groups, s: Stacks, acc: Totals, t: Totals, e: Entry)
    requires WellSized(s) && Sized(acc) && Sized(t) && Known(e)
    ensures var r := Replayed(groups, s, t, e);
            Replayed(groups, s, Accumulated(acc, t), e) == (r.0, Accumulated(acc, r.1))
  {
    if e.kind == LEAVE && s.open != [] {
      var ticks := TickDifference(s.open[|s.open| - 1], e);
      PlusBump(acc.ticks, t.ticks, e.timer, ticks);
      PlusBump(acc.excl, t.excl, e.timer, ticks - s.child[|s.open|]);
      PlusBump(acc.count, t.count, e.timer, 1);
      PlusBump(acc.group, t.group, groups[e.timer], ticks);
    }
  }

  /** Starting from other totals shifts the totals and changes nothing else. */
  lemma {:induction false} ReplayShifts(groups: Groups, s: Stacks, acc: Totals, t: Totals, log: seq<Entry>)
    requires WellSized(s) && Sized(acc) && Sized(t) && AllKnown(log)
    ensures var r := ReplayAll(groups, s, t, log);
            ReplayAll(groups, s, Accumulated(acc, t), log) == (r.0, Accumulated(acc, r.1))
    decreases |log|
  {
    if log != [] {
      var n := |log| - 1;
      ReplayShifts(groups, s, acc, t, log[..n]);
      var r := ReplayAll(groups, s, t, log[..n]);
      StepShifts(groups, r.0, acc, r.1, log[n]);
    }
  }

  function Joined(frames: seq<seq<Entry>>): seq<Entry>
  {
    if frames == [] then [] else frames[0] + Joined(frames[1..])
  }

  /** Frame by frame: clear the frame's totals, replay its part of the log, accumulate. */
  function RunFrames(groups: Groups, s: Stacks, acc: Totals, frames: seq<seq<Entry>>): (r: (Stacks, Totals))
    requires WellSized(s) && Sized(acc) && forall i :: 0 <= i < |frames| ==> AllKnown(frames[i])
    ensures WellSized(r.0) && Sized(r.1)
    decreases |frames|
  {
    if frames == [] then (s, acc)
    else
      var r := ReplayAll(groups, s, Zero(), frames[0]);
      RunFrames(groups, r.0, Accumulated(acc, r.1), frames[1..])
  }

  lemma {:induction false} AccumulateZero(acc: Totals)
    requires Sized(acc)
    ensures Accumulated(acc, Zero()) == acc
  {
    assert Plus(acc.ticks, Zero().ticks) == acc.ticks;
    assert Plus(acc.excl, Zero().excl) == acc.excl;
    assert Plus(acc.count, Zero().count) == acc.count;
    assert Plus(acc.group, Zero().group) == acc.group;
  }

  /** Where the log is cut into frames makes no difference to what is accumulated. */
  lemma {:induction false} FramesAddUp(groups: Groups, s: Stacks, acc: Totals, frames: seq<seq<Entry>>)
    requires WellSized(s) && Sized(acc) && forall i :: 0 <= i < |frames| ==> AllKnown(frames[i])
    ensures AllKnown(Joined(frames))
    ensures RunFrames(groups, s, acc, frames) == ReplayAll(groups, s, acc, Joined(frames))
    decreases |frames|
  {
    if frames != [] {
      var r := ReplayAll(groups, s, Zero(), frames[0]);
      AccumulateZero(acc);
      ReplayShifts(groups, s, acc, Zero(), frames[0]);
      FramesAddUp(groups, r.0, Accumulated(acc, r.1), frames[1..]);
      ReplayJoin(groups, s, acc, frames[0], Joined(frames[1..]));
    }
  }

  lemma {:induction false} FreshConsistent(groups: Groups)
    ensures Consistent(groups, Fresh())
  {
  }

  /** Main result: any properly nested log of a new thread, cut into frames anywhere, accumulates
      exactly the lengths of its finished spans, for every timer with and without the time spent
      in inner spans, and for every group outside other spans of that group; the stack holds the
      spans that are still open. */
  lemma {:induction false} NestedFrames(groups: Groups, frames: seq<seq<Entry>>) returns (p: Path)
    requires Nested(Joined(frames)) && HighWater(Joined(frames)) < STACK_MAX
    requires forall i :: 0 <= i < |frames| ==> AllKnown(frames[i])
    ensures PathLog(p) == Joined(frames) && Timers(p) == OpenTimers(Joined(frames))
    ensures var (s, t) := RunFrames(groups, Fresh(), Zero(), frames);
            s.open == Enters(p) && AddsPath(groups, Fresh(), p, Zero(), t)
  {
    p := NestedIsPath(Joined(frames));
    FreshConsistent(groups);
    ReplayPath(groups, Fresh(), Zero(), p);
    FramesAddUp(groups, Fresh(), Zero(), frames);
    assert [] + Enters(p) == Enters(p);
  }

  /** Once every span is closed, the exclusive ticks of all timers together are the lengths of
      the outermost spans together: every tick is booked once. */
  lemma {:induction false} ClosedFrames(groups: Groups, frames: seq<seq<Entry>>) returns (f: Spans)
    requires Nested(Joined(frames)) && HighWater(Joined(frames)) < STACK_MAX && OpenTimers(Joined(frames)) == []
    requires forall i :: 0 <= i < |frames| ==> AllKnown(frames[i])
    ensures GoodSpans(f) && Log(f) == Joined(frames)
    ensures Sum(RunFrames(groups, Fresh(), Zero(), frames).1.excl) == OuterLength(f)
  {
    var p := NestedIsPath(Joined(frames));
    f := p.done;
    assert p.Here? && PathLog(p) == Log(f);
    FreshConsistent(groups);
    FramesAddUp(groups, Fresh(), Zero(), frames);
    ReplaySpans(groups, Fresh(), Zero(), f);
    ExclusiveIsConserved(groups, Fresh(), Zero(), Log(f));
    SumOfZeros(MAX_TIMERS);
    SumOfOne(0);
    SumOfOne(OuterLength(f));
  }

  lemma {:induction false} SumOfZeros(n: nat)
    ensures Sum(Zeros(n)) == 0
  {
    if n > 0 {
      SumOfZeros(n - 1);
      assert Zeros(n)[..n - 1] == Zeros(n - 1);
    }
  }

  lemma {:induction false} SumOfOne(x: int)
    ensures Sum([x]) == x
  {
    assert [x][..0] == [];
  }
}
