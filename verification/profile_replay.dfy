/** Replaying a thread's log at a frame end: what each entry does to the stack and the totals. */
module ProfileReplay {
  import opened ProfileLog

  const MAX_TIMERS: nat := 1024
  const MAX_GROUPS: nat := 48
  const STACK_MAX: nat := 32

  /** The group of every timer. */
  type Groups = g: seq<nat> | |g| == MAX_TIMERS && forall i :: 0 <= i < |g| ==> g[i] < MAX_GROUPS
    witness seq(MAX_TIMERS, _ => 0)

  /** What persists between frames: the open Enter entries, the ticks of finished children on
      every level, and how often each group is open (an 8-bit count). */
  datatype Stacks = Stacks(open: seq<Entry>, child: seq<int>, groupPos: seq<nat>)

  /** What a frame adds up, per timer and per group. */
  datatype Totals = Totals(ticks: seq<int>, excl: seq<int>, count: seq<int>, group: seq<int>)

  ghost predicate WellSized(s: Stacks)
  {
    |s.child| == |s.open| + 1 && |s.groupPos| == MAX_GROUPS && forall g :: 0 <= g < MAX_GROUPS ==> s.groupPos[g] < 256
  }

  predicate Sized(t: Totals)
  {
    |t.ticks| == MAX_TIMERS && |t.excl| == MAX_TIMERS && |t.count| == MAX_TIMERS && |t.group| == MAX_GROUPS
  }

  /** Only entries of registered timers get into a log. */
  predicate Known(e: Entry)
  {
    e.timer < MAX_TIMERS
  }

  predicate AllKnown(log: seq<Entry>)
  {
    forall i :: 0 <= i < |log| ==> Known(log[i])
  }

  function Bump(s: seq<int>, i: nat, d: int): (r: seq<int>)
    requires i < |s|
    ensures |r| == |s|
  {
    s[i := s[i] + d]
  }

  function EnterStacks(s: Stacks, e: Entry, g: nat): Stacks
    requires WellSized(s) && g < MAX_GROUPS
  {
    Stacks(s.open + [e], s.child + [0], s.groupPos[g := (s.groupPos[g] + 1) % 256])
  }

  function LeaveStacks(s: Stacks, ticks: int, g: nat): Stacks
    requires WellSized(s) && s.open != [] && g < MAX_GROUPS
  {
    var n := |s.open| - 1;
    Stacks(s.open[..n], Bump(s.child[..n + 1], n, ticks),
           if s.groupPos[g] > 0 then s.groupPos[g := s.groupPos[g] - 1] else s.groupPos)
  }

  function LeaveTotals(t: Totals, timer: nat, g: nat, ticks: int, childTicks: int, outermost: bool): Totals
    requires Sized(t) && timer < MAX_TIMERS && g < MAX_GROUPS
  {
    Totals(Bump(t.ticks, timer, ticks), Bump(t.excl, timer, ticks - childTicks), Bump(t.count, timer, 1),
           if outermost then Bump(t.group, g, ticks) else t.group)
  }

  /** The effect of one entry. A Leave with nothing open is ignored, as are entries of the two
      other kinds. */
  function Replayed(groups: Groups, s: Stacks, t: Totals, e: Entry): (r: (Stacks, Totals))
    requires WellSized(s) && Sized(t) && Known(e)
    ensures WellSized(r.0) && Sized(r.1)
  {
    var timer := e.timer;
    var g := groups[timer];
    if e.kind == ENTER then (EnterStacks(s, e, g), t)
    else if e.kind == LEAVE && s.open != [] then
      var ticks := TickDifference(s.open[|s.open| - 1], e);
      (LeaveStacks(s, ticks, g), LeaveTotals(t, timer, g, ticks, s.child[|s.open|], s.groupPos[g] == 1))
    else (s, t)
  }

  function ReplayAll(groups: Groups, s: Stacks, t: Totals, log: seq<Entry>): (r: (Stacks, Totals))
    requires WellSized(s) && Sized(t) && AllKnown(log)
    ensures WellSized(r.0) && Sized(r.1)
  {
    if log == [] then (s, t)
    else
      var before := ReplayAll(groups, s, t, log[..|log| - 1]);
      Replayed(groups, before.0, before.1, log[|log| - 1])
  }

  lemma {:induction false} ReplayJoin(groups: Groups, s: Stacks, t: Totals, a: seq<Entry>, b: seq<Entry>)
    requires WellSized(s) && Sized(t) && AllKnown(a) && AllKnown(b)
    ensures AllKnown(a + b)
    ensures var mid := ReplayAll(groups, s, t, a);
            ReplayAll(groups, s, t, a + b) == ReplayAll(groups, mid.0, mid.1, b)
    decreases |b|
  {
    if b == [] {
      assert a + b == a;
    } else {
      var b' := b[..|b| - 1];
      assert (a + b)[..|a + b| - 1] == a + b';
      ReplayJoin(groups, s, t, a, b');
    }
  }

  // ----- conservation, for any log whatever

  function Sum(s: seq<int>): int
  {
    if s == [] then 0 else Sum(s[..|s| - 1]) + s[|s| - 1]
  }

  lemma {:induction false} SumBump(s: seq<int>, i: nat, d: int)
    requires i < |s|
    ensures Sum(Bump(s, i, d)) == Sum(s) + d
  {
    var n := |s| - 1;
    if i < n {
      SumBump(s[..n], i, d);
      assert Bump(s, i, d)[..n] == Bump(s[..n], i, d);
    } else {
      assert Bump(s, i, d)[..n] == s[..n];
    }
  }

  /** Every tick is exclusive to one timer: the exclusive ticks of all timers and the child ticks
      on the stack grow by the same amount, whatever the log holds. */
  lemma {:induction false} ExclusiveIsConserved(groups: Groups, s: Stacks, t: Totals, log: seq<Entry>)
    requires WellSized(s) && Sized(t) && AllKnown(log)
    ensures var r := ReplayAll(groups, s, t, log); Sum(r.1.excl) - Sum(r.0.child) == Sum(t.excl) - Sum(s.child)
    decreases |log|
  {
    if log != [] {
      var n := |log| - 1;
      ExclusiveIsConserved(groups, s, t, log[..n]);
      var before := ReplayAll(groups, s, t, log[..n]);
      ExclusiveStep(groups, before.0, before.1, log[n]);
    }
  }

  lemma {:induction false} ExclusiveStep(groups: Groups, s: Stacks, t: Totals, e: Entry)
    requires WellSized(s) && Sized(t) && Known(e)
    ensures var r := Replayed(groups, s, t, e); Sum(r.1.excl) - Sum(r.0.child) == Sum(t.excl) - Sum(s.child)
  {
    if e.kind == ENTER {
      assert (s.child + [0])[..|s.child|] == s.child;
    } else if e.kind == LEAVE && s.open != [] {
      var ticks := TickDifference(s.open[|s.open| - 1], e);
      SumBump(t.excl, e.timer, ticks - s.child[|s.open|]);
      SumBump(s.child[..|s.open|], |s.open| - 1, ticks);
    }
  }

  // ----- nested spans

  /** A run of sibling spans, each with the spans inside it. */
  datatype Spans = Nil | Span(enter: Entry, inner: Spans, leave: Entry, next: Spans)

  ghost predicate GoodSpans(f: Spans)
  {
    f.Span? ==>
      && f.enter.kind == ENTER && f.leave.kind == LEAVE
      && f.enter.timer == f.leave.timer < MAX_TIMERS
      && GoodSpans(f.inner) && GoodSpans(f.next)
  }

  function Log(f: Spans): seq<Entry>
  {
    match f
    case Nil => []
    case Span(enter, inner, leave, next) => [enter] + Log(inner) + [leave] + Log(next)
  }

  function Length(f: Spans): int
    requires f.Span?
  {
    TickDifference(f.enter, f.leave)
  }

  /** The lengths of the outermost spans together. */
  function OuterLength(f: Spans): int
  {
    if f.Nil? then 0 else Length(f) + OuterLength(f.next)
  }

  function OfTimer(f: Spans, timer: nat): bool
    requires f.Span?
  {
    f.enter.timer == timer
  }

  /** The lengths of all spans of a timer, at any depth. */
  function TimerLength(f: Spans, timer: nat): int
  {
    if f.Nil? then 0
    else (if OfTimer(f, timer) then Length(f) else 0) + TimerLength(f.inner, timer) + TimerLength(f.next, timer)
  }

  /** The same without the time spent in the spans directly inside. */
  function OwnLength(f: Spans, timer: nat): int
  {
    if f.Nil? then 0
    else (if OfTimer(f, timer) then Length(f) - OuterLength(f.inner) else 0)
         + OwnLength(f.inner, timer) + OwnLength(f.next, timer)
  }

  function SpanCount(f: Spans, timer: nat): int
  {
    if f.Nil? then 0
    else (if OfTimer(f, timer) then 1 else 0) + SpanCount(f.inner, timer) + SpanCount(f.next, timer)
  }

  /** The lengths of the spans of a group that lie in no other span of that group; `inside` says
      that all of `f` does. */
  function GroupLength(groups: Groups, f: Spans, g: nat, inside: bool): int
  {
    if f.Nil? then 0
    else
      var here := f.enter.timer < MAX_TIMERS && groups[f.enter.timer] == g;
      (if here && !inside then Length(f) else 0)
      + GroupLength(groups, f.inner, g, inside || here) + GroupLength(groups, f.next, g, inside)
  }

  function Depth(f: Spans): nat
  {
    if f.Nil? then 0
    else if Depth(f.inner) + 1 > Depth(f.next) then Depth(f.inner) + 1 else Depth(f.next)
  }

  /** How many of the open spans belong to a group. */
  function OpenOfGroup(groups: Groups, open: seq<Entry>, g: nat): (n: nat)
    requires AllKnown(open)
    ensures n <= |open|
  {
    if open == [] then 0
    else OpenOfGroup(groups, open[..|open| - 1], g)
         + if groups[open[|open| - 1].timer] == g then 1 else 0
  }

  /** The group counters count the open spans. */
  ghost predicate Consistent(groups: Groups, s: Stacks)
  {
    && WellSized(s) && AllKnown(s.open) && |s.open| < STACK_MAX
    && forall g :: 0 <= g < MAX_GROUPS ==> s.groupPos[g] == OpenOfGroup(groups, s.open, g)
  }

  /** What a forest of spans adds to the totals when `s` is open around it. */
  ghost predicate Adds(groups: Groups, s: Stacks, f: Spans, t: Totals, t': Totals)
  {
    && Sized(t) && Sized(t') && |s.groupPos| == MAX_GROUPS
    && (forall i :: 0 <= i < MAX_TIMERS ==> t'.ticks[i] == t.ticks[i] + TimerLength(f, i))
    && (forall i :: 0 <= i < MAX_TIMERS ==> t'.excl[i] == t.excl[i] + OwnLength(f, i))
    && (forall i :: 0 <= i < MAX_TIMERS ==> t'.count[i] == t.count[i] + SpanCount(f, i))
    && (forall g :: 0 <= g < MAX_GROUPS ==> t'.group[g] == t.group[g] + GroupLength(groups, f, g, s.groupPos[g] > 0))
  }

  lemma {:induction false} LogKnown(f: Spans)
    requires GoodSpans(f)
    ensures AllKnown(Log(f))
  {
    if f.Span? {
      LogKnown(f.inner);
      LogKnown(f.next);
    }
  }

  /** The stacks with `d` more ticks booked on the innermost open level. */
  function Booked(s: Stacks, d: int): Stacks
    requires WellSized(s)
  {
    s.(child := Bump(s.child, |s.open|, d))
  }

  lemma {:induction false} ReplayOne(groups: Groups, s: Stacks, t: Totals, e: Entry)
    requires WellSized(s) && Sized(t) && Known(e)
    ensures ReplayAll(groups, s, t, [e]) == Replayed(groups, s, t, e)
  {
    assert [e][..0] == [];
  }

  /** Replaying the log of a forest span by span. */
  lemma {:induction false} ReplayLog(groups: Groups, s: Stacks, t: Totals, f: Spans)
    requires f.Span? && GoodSpans(f) && WellSized(s) && Sized(t)
    requires AllKnown(Log(f.inner)) && AllKnown(Log(f.next)) && AllKnown(Log(f))
    ensures var r1 := Replayed(groups, s, t, f.enter);
            var r2 := ReplayAll(groups, r1.0, r1.1, Log(f.inner));
            var r3 := Replayed(groups, r2.0, r2.1, f.leave);
            ReplayAll(groups, s, t, Log(f)) == ReplayAll(groups, r3.0, r3.1, Log(f.next))
  {
    ReplayOne(groups, s, t, f.enter);
    ReplayJoin(groups, s, t, [f.enter], Log(f.inner));
    var r2 := ReplayAll(groups, s, t, [f.enter] + Log(f.inner));
    ReplayOne(groups, r2.0, r2.1, f.leave);
    ReplayJoin(groups, s, t, [f.enter] + Log(f.inner), [f.leave]);
    ReplayJoin(groups, s, t, [f.enter] + Log(f.inner) + [f.leave], Log(f.next));
  }

  lemma {:induction false} EnterConsistent(groups: Groups, s: Stacks, e: Entry)
    requires Consistent(groups, s) && Known(e) && |s.open| + 1 < STACK_MAX
    ensures Consistent(groups, EnterStacks(s, e, groups[e.timer]))
  {
    var s' := EnterStacks(s, e, groups[e.timer]);
    assert s'.open[..|s.open|] == s.open;
    forall g | 0 <= g < MAX_GROUPS
      ensures s'.groupPos[g] == OpenOfGroup(groups, s'.open, g)
    {
      assert s.groupPos[g] == OpenOfGroup(groups, s.open, g);
    }
  }

  lemma {:induction false} EnterThenLeave(s: Stacks, e: Entry, g: nat, c: int, d: int)
    requires WellSized(s) && g < MAX_GROUPS && s.groupPos[g] < 255
    ensures var s2 := Booked(EnterStacks(s, e, g), c);
            && s2.open[|s.open|] == e && s2.child[|s2.open|] == c && s2.groupPos[g] == s.groupPos[g] + 1
            && LeaveStacks(s2, d, g) == Booked(s, d)
  {
    var s2 := Booked(EnterStacks(s, e, g), c);
    assert s2.open[..|s.open|] == s.open;
    assert s2.child[..|s.open| + 1] == s.child;
    assert s2.groupPos[g := s2.groupPos[g] - 1] == s.groupPos;
  }

  /** The Leave of a span, after the spans inside it, restores the stacks. */
  lemma {:induction false} CloseSpan(groups: Groups, s: Stacks, t: Totals, f: Spans)
    requires f.Span? && GoodSpans(f) && Consistent(groups, s) && Sized(t)
    ensures var g := groups[f.enter.timer];
            var s2 := Booked(EnterStacks(s, f.enter, g), OuterLength(f.inner));
            Replayed(groups, s2, t, f.leave) ==
              (Booked(s, Length(f)),
               LeaveTotals(t, f.enter.timer, g, Length(f), OuterLength(f.inner), s.groupPos[g] == 0))
  {
    var g := groups[f.enter.timer];
    assert s.groupPos[g] == OpenOfGroup(groups, s.open, g) < 255;
    EnterThenLeave(s, f.enter, g, OuterLength(f.inner), Length(f));
  }

  /** The totals of a span, of those inside it and of those behind it make those of the forest. */
  lemma {:induction false} AddsSpan(groups: Groups, s: Stacks, f: Spans, t: Totals, t2: Totals, t3: Totals, t4: Totals)
    requires f.Span? && GoodSpans(f) && Consistent(groups, s)
    requires var g := groups[f.enter.timer];
             && Adds(groups, EnterStacks(s, f.enter, g), f.inner, t, t2)
             && t3 == LeaveTotals(t2, f.enter.timer, g, Length(f), OuterLength(f.inner), s.groupPos[g] == 0)
             && Adds(groups, Booked(s, Length(f)), f.next, t3, t4)
    ensures Adds(groups, s, f, t, t4)
  {
    var g := groups[f.enter.timer];
    assert s.groupPos[g] == OpenOfGroup(groups, s.open, g) < 255;
    forall h | 0 <= h < MAX_GROUPS
      ensures t4.group[h] == t.group[h] + GroupLength(groups, f, h, s.groupPos[h] > 0)
    {
      assert EnterStacks(s, f.enter, g).groupPos[h] > 0 <==> s.groupPos[h] > 0 || h == g;
    }
  }

  lemma {:induction false} BookedConsistent(groups: Groups, s: Stacks, d: int)
    requires Consistent(groups, s)
    ensures Consistent(groups, Booked(s, d))
  {
  }

  lemma {:induction false} BookedTwice(s: Stacks, d: int, d': int, sum: int)
    requires WellSized(s) && sum == d + d'
    ensures Booked(Booked(s, d), d') == Booked(s, sum)
  {
  }

  /** What a replay of a forest has to do. */
  ghost predicate ReplaysWell(groups: Groups, s: Stacks, t: Totals, f: Spans)
  {
    && WellSized(s) && Sized(t) && AllKnown(Log(f))
    && var r := ReplayAll(groups, s, t, Log(f));
       r.0 == Booked(s, OuterLength(f)) && Adds(groups, s, f, t, r.1)
  }

  lemma {:induction false} ReplayUpToNext(groups: Groups, s: Stacks, t: Totals, f: Spans, s1: Stacks, t2: Totals, t3: Totals)
    requires f.Span? && GoodSpans(f) && Sized(t) && Consistent(groups, s)
    requires AllKnown(Log(f)) && AllKnown(Log(f.inner)) && AllKnown(Log(f.next))
    requires s1 == EnterStacks(s, f.enter, groups[f.enter.timer]) && WellSized(s1)
    requires ReplayAll(groups, s1, t, Log(f.inner)) == (Booked(s1, OuterLength(f.inner)), t2)
    requires t3 == LeaveTotals(t2, f.enter.timer, groups[f.enter.timer], Length(f),
                               OuterLength(f.inner), s.groupPos[groups[f.enter.timer]] == 0)
    ensures ReplayAll(groups, s, t, Log(f)) == ReplayAll(groups, Booked(s, Length(f)), t3, Log(f.next))
  {
    CloseSpan(groups, s, t2, f);
    ReplayLog(groups, s, t, f);
    assert Replayed(groups, s, t, f.enter) == (s1, t);
  }

  lemma {:induction false} ReplaySpanAndNext(groups: Groups, s: Stacks, t: Totals, f: Spans, s1: Stacks, t2: Totals, t3: Totals)
    requires f.Span? && GoodSpans(f) && Sized(t) && Consistent(groups, s)
    requires s1 == EnterStacks(s, f.enter, groups[f.enter.timer]) && WellSized(s1)
    requires ReplaysWell(groups, s1, t, f.inner) && t2 == ReplayAll(groups, s1, t, Log(f.inner)).1
    requires t3 == LeaveTotals(t2, f.enter.timer, groups[f.enter.timer], Length(f),
                               OuterLength(f.inner), s.groupPos[groups[f.enter.timer]] == 0)
    requires ReplaysWell(groups, Booked(s, Length(f)), t3, f.next)
    ensures ReplaysWell(groups, s, t, f)
  {
    LogKnown(f);
    ReplayUpToNext(groups, s, t, f, s1, t2, t3);
    var r := ReplayAll(groups, s, t, Log(f));
    BookedTwice(s, Length(f), OuterLength(f.next), OuterLength(f));
    AddsSpan(groups, s, f, t, t2, t3, r.1);
  }

  /** Main result for a forest: replaying its log adds exactly the lengths of its spans, timer by
      timer and group by group, and leaves the stacks as they were but for the outermost lengths,
      booked on the level around them. */
  lemma {:induction false} ReplaySpans(groups: Groups, s: Stacks, t: Totals, f: Spans)
    requires GoodSpans(f) && Sized(t)
    requires Consistent(groups, s) && |s.open| + Depth(f) < STACK_MAX
    ensures ReplaysWell(groups, s, t, f)
    decreases f
  {
    LogKnown(f);
    if f.Nil? {
      assert Bump(s.child, |s.open|, 0) == s.child;
    } else {
      var g := groups[f.enter.timer];
      var s1 := EnterStacks(s, f.enter, g);
      EnterConsistent(groups, s, f.enter);
      ReplaySpans(groups, s1, t, f.inner);
      var t2 := ReplayAll(groups, s1, t, Log(f.inner)).1;
      var t3 := LeaveTotals(t2, f.enter.timer, g, Length(f), OuterLength(f.inner), s.groupPos[g] == 0);
      BookedConsistent(groups, s, Length(f));
      ReplaySpans(groups, Booked(s, Length(f)), t3, f.next);
      ReplaySpanAndNext(groups, s, t, f, s1, t2, t3);
    }
  }
}
