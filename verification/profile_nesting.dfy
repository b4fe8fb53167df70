/** Whole logs of nested spans, some of them still open, replayed frame by frame. */
module ProfileNesting {
  import opened Sequences
  import opened ProfileLog
  import opened ProfileReplay

  // ----- logs with open spans

  /** A log that ends inside some spans: on every level the finished siblings, then the Enter of
      the span that is still open. */
  datatype Path = Here(done: Spans) | Inside(done: Spans, enter: Entry, rest: Path)

  ghost predicate GoodPath(p: Path)
  {
    GoodSpans(p.done) && (p.Inside? ==> p.enter.kind == ENTER && Known(p.enter) && GoodPath(p.rest))
  }

  function PathLog(p: Path): seq<Entry>
  {
    Log(p.done) + if p.Here? then [] else [p.enter] + PathLog(p.rest)
  }

  function Enters(p: Path): seq<Entry>
  {
    if p.Here? then [] else [p.enter] + Enters(p.rest)
  }

  function PathDepth(p: Path): nat
  {
    if p.Here? || Depth(p.done) > PathDepth(p.rest) + 1 then Depth(p.done) else PathDepth(p.rest) + 1
  }

  function PathTimerLength(p: Path, timer: nat): int
  {
    TimerLength(p.done, timer) + if p.Here? then 0 else PathTimerLength(p.rest, timer)
  }

  function PathOwnLength(p: Path, timer: nat): int
  {
    OwnLength(p.done, timer) + if p.Here? then 0 else PathOwnLength(p.rest, timer)
  }

  function PathSpanCount(p: Path, timer: nat): int
  {
    SpanCount(p.done, timer) + if p.Here? then 0 else PathSpanCount(p.rest, timer)
  }

  function PathGroupLength(groups: Groups, p: Path, g: nat, inside: bool): int
  {
    GroupLength(groups, p.done, g, inside)
    + if p.Here? then 0
      else PathGroupLength(groups, p.rest, g, inside || (Known(p.enter) && groups[p.enter.timer] == g))
  }

  ghost predicate AddsPath(groups: Groups, s: Stacks, p: Path, t: Totals, t': Totals)
  {
    && Sized(t) && Sized(t') && |s.groupPos| == MAX_GROUPS
    && (forall i :: 0 <= i < MAX_TIMERS ==> t'.ticks[i] == t.ticks[i] + PathTimerLength(p, i))
    && (forall i :: 0 <= i < MAX_TIMERS ==> t'.excl[i] == t.excl[i] + PathOwnLength(p, i))
    && (forall i :: 0 <= i < MAX_TIMERS ==> t'.count[i] == t.count[i] + PathSpanCount(p, i))
    && (forall g :: 0 <= g < MAX_GROUPS ==> t'.group[g] == t.group[g] + PathGroupLength(groups, p, g, s.groupPos[g] > 0))
  }

  lemma {:induction false} PathKnown(p: Path)
    requires GoodPath(p)
    ensures AllKnown(PathLog(p))
  {
    LogKnown(p.done);
    if p.Inside? {
      PathKnown(p.rest);
    }
  }

  lemma {:induction false} AddsInside(groups: Groups, s: Stacks, p: Path, t: Totals, t1: Totals, s2: Stacks, t2: Totals)
    requires p.Inside? && GoodPath(p) && Consistent(groups, s)
    requires Adds(groups, s, p.done, t, t1)
    requires OpensGroup(s, s2, groups[p.enter.timer])
    requires AddsPath(groups, s2, p.rest, t1, t2)
    ensures AddsPath(groups, s, p, t, t2)
  {
  }

  /** The same groups are open, and `g`. */
  ghost predicate OpensGroup(s: Stacks, s2: Stacks, g: nat)
  {
    && |s.groupPos| == |s2.groupPos| == MAX_GROUPS
    && forall h :: 0 <= h < MAX_GROUPS ==> (s2.groupPos[h] > 0 <==> s.groupPos[h] > 0 || h == g)
  }

  lemma {:induction false} EnterOpensGroup(groups: Groups, s: Stacks, d: int, e: Entry)
    requires Consistent(groups, s) && Known(e)
    ensures OpensGroup(s, EnterStacks(Booked(s, d), e, groups[e.timer]), groups[e.timer])
  {
    var g := groups[e.timer];
    assert s.groupPos[g] == OpenOfGroup(groups, s.open, g) < 255;
  }

  lemma {:induction false} ReplayInside(groups: Groups, s: Stacks, t: Totals, p: Path, s1: Stacks, t1: Totals, s2: Stacks)
    requires p.Inside? && GoodPath(p) && WellSized(s) && Sized(t)
    requires AllKnown(Log(p.done)) && AllKnown(PathLog(p.rest)) && AllKnown(PathLog(p))
    requires ReplayAll(groups, s, t, Log(p.done)) == (s1, t1)
    requires s2 == EnterStacks(s1, p.enter, groups[p.enter.timer])
    ensures WellSized(s2) && ReplayAll(groups, s, t, PathLog(p)) == ReplayAll(groups, s2, t1, PathLog(p.rest))
  {
    ReplayOne(groups, s1, t1, p.enter);
    ReplayJoin(groups, s1, t1, [p.enter], PathLog(p.rest));
    ReplayJoin(groups, s, t, Log(p.done), [p.enter] + PathLog(p.rest));
  }

  ghost predicate ReplaysPath(groups: Groups, s: Stacks, t: Totals, p: Path)
  {
    && WellSized(s) && Sized(t) && AllKnown(PathLog(p))
    && var r := ReplayAll(groups, s, t, PathLog(p));
       Consistent(groups, r.0) && r.0.open == s.open + Enters(p) && AddsPath(groups, s, p, t, r.1)
  }

  lemma {:induction false} ReplaysInside(groups: Groups, s: Stacks, t: Totals, p: Path, s1: Stacks, t1: Totals, s2: Stacks)
    requires p.Inside? && GoodPath(p) && Consistent(groups, s) && Sized(t)
    requires AllKnown(Log(p.done)) && ReplayAll(groups, s, t, Log(p.done)) == (s1, t1)
    requires s1.open == s.open && WellSized(s1) && Adds(groups, s, p.done, t, t1)
    requires s2 == EnterStacks(s1, p.enter, groups[p.enter.timer]) && OpensGroup(s, s2, groups[p.enter.timer])
    requires ReplaysPath(groups, s2, t1, p.rest)
    ensures ReplaysPath(groups, s, t, p)
  {
    PathKnown(p);
    var t2 := ReplayAll(groups, s2, t1, PathLog(p.rest)).1;
    AddsInside(groups, s, p, t, t1, s2, t2);
    ReplayInside(groups, s, t, p, s1, t1, s2);
    Regroup(s.open, [p.enter], Enters(p.rest));
  }

  /** Replaying a log that ends inside open spans adds the lengths of all finished spans, counted
      for a group only outside the open spans of that group too, and leaves exactly the open
      spans on the stack. */
  lemma {:induction false} ReplayPath(groups: Groups, s: Stacks, t: Totals, p: Path)
    requires GoodPath(p) && Sized(t) && Consistent(groups, s) && |s.open| + PathDepth(p) < STACK_MAX
    ensures ReplaysPath(groups, s, t, p)
    decreases p
  {
    PathKnown(p);
    LogKnown(p.done);
    ReplaySpans(groups, s, t, p.done);
    BookedConsistent(groups, s, OuterLength(p.done));
    var (s1, t1) := ReplayAll(groups, s, t, Log(p.done));
    if p.Here? {
      assert PathLog(p) == Log(p.done) && s.open + [] == s.open;
      AddsHere(groups, s, p, t, t1);
    } else {
      var s2 := EnterStacks(s1, p.enter, groups[p.enter.timer]);
      EnterConsistent(groups, s1, p.enter);
      ReplayPath(groups, s2, t1, p.rest);
      EnterOpensGroup(groups, s, OuterLength(p.done), p.enter);
      ReplaysInside(groups, s, t, p, s1, t1, s2);
    }
  }

  lemma {:induction false} AddsHere(groups: Groups, s: Stacks, p: Path, t: Totals, t': Totals)
    requires p.Here? && Adds(groups, s, p.done, t, t')
    ensures AddsPath(groups, s, p, t, t')
  {
  }

  // ----- every properly nested log is of that form

  /** The timers that are open behind a log. */
  function OpenTimers(log: seq<Entry>): seq<nat>
  {
    if log == [] then []
    else
      var e, before := log[|log| - 1], OpenTimers(log[..|log| - 1]);
      if e.kind == ENTER then before + [e.timer]
      else if before != [] then before[..|before| - 1]
      else before
  }

  /** Properly nested: only Enters and Leaves, and every Leave is for the innermost open timer. */
  ghost predicate Nested(log: seq<Entry>)
  {
    log != [] ==>
      var e, n := log[|log| - 1], |log| - 1;
      var open := OpenTimers(log[..n]);
      && Nested(log[..n]) && Known(e)
      && (e.kind == ENTER || (e.kind == LEAVE && open != [] && open[|open| - 1] == e.timer))
  }

  /** The largest number of timers that were open at once. */
  function HighWater(log: seq<Entry>): nat
  {
    if log == [] then 0
    else
      var before, now := HighWater(log[..|log| - 1]), |OpenTimers(log)|;
      if now > before then now else before
  }

  function Timers(p: Path): seq<nat>
  {
    if p.Here? then [] else [p.enter.timer] + Timers(p.rest)
  }

  function Behind(f: Spans, last: Spans): Spans
  {
    if f.Nil? then last else f.(next := Behind(f.next, last))
  }

  lemma {:induction false} BehindIs(f: Spans, last: Spans)
    requires GoodSpans(f) && GoodSpans(last)
    ensures GoodSpans(Behind(f, last)) && Log(Behind(f, last)) == Log(f) + Log(last)
    ensures Depth(Behind(f, last)) == if Depth(f) > Depth(last) then Depth(f) else Depth(last)
  {
    if f.Span? {
      BehindIs(f.next, last);
      var head := [f.enter] + Log(f.inner) + [f.leave];
      assert head + (Log(f.next) + Log(last)) == head + Log(f.next) + Log(last);
    } else {
      assert [] + Log(last) == Log(last);
    }
  }

  function Deepened(p: Path, e: Entry): Path
  {
    if p.Here? then Inside(p.done, e, Here(Nil)) else p.(rest := Deepened(p.rest, e))
  }

  lemma {:induction false} DeepenedIs(p: Path, e: Entry)
    requires GoodPath(p) && e.kind == ENTER && Known(e)
    ensures var q := Deepened(p, e);
            && GoodPath(q) && PathLog(q) == PathLog(p) + [e] && Timers(q) == Timers(p) + [e.timer]
            && PathDepth(q) == if PathDepth(p) > |Timers(p)| + 1 then PathDepth(p) else |Timers(p)| + 1
  {
    if p.Inside? {
      DeepenedIs(p.rest, e);
      assert Log(p.done) + ([p.enter] + (PathLog(p.rest) + [e])) == Log(p.done) + ([p.enter] + PathLog(p.rest)) + [e];
    } else {
      assert Log(p.done) + ([e] + []) == Log(p.done) + [] + [e];
    }
  }

  function Closed(p: Path, e: Entry): Path
    requires p.Inside?
  {
    if p.rest.Here? then Here(Behind(p.done, Span(p.enter, p.rest.done, e, Nil)))
    else p.(rest := Closed(p.rest, e))
  }

  lemma {:induction false} ClosedIs(p: Path, e: Entry)
    requires p.Inside? && GoodPath(p) && e.kind == LEAVE && Timers(p)[|Timers(p)| - 1] == e.timer
    ensures var q := Closed(p, e);
            && GoodPath(q) && PathLog(q) == PathLog(p) + [e] && Timers(q) == Timers(p)[..|Timers(p)| - 1]
            && PathDepth(q) == PathDepth(p)
  {
    if p.rest.Here? {
      var last := Span(p.enter, p.rest.done, e, Nil);
      BehindIs(p.done, last);
      LogOfOne(p.enter, p.rest.done, e);
      assert PathLog(p.rest) == Log(p.rest.done);
      assert Log(p.done) + ([p.enter] + Log(p.rest.done) + [e]) == Log(p.done) + ([p.enter] + Log(p.rest.done)) + [e];
    } else {
      ClosedIs(p.rest, e);
      assert Log(p.done) + ([p.enter] + (PathLog(p.rest) + [e])) == Log(p.done) + ([p.enter] + PathLog(p.rest)) + [e];
    }
  }

  lemma {:induction false} LogOfOne(enter: Entry, inner: Spans, leave: Entry)
    ensures Log(Span(enter, inner, leave, Nil)) == [enter] + Log(inner) + [leave]
  {
    assert [enter] + Log(inner) + [leave] + [] == [enter] + Log(inner) + [leave];
  }

  lemma {:induction false} NestedIsPath(log: seq<Entry>) returns (p: Path)
    requires Nested(log)
    ensures GoodPath(p) && PathLog(p) == log && Timers(p) == OpenTimers(log) && PathDepth(p) == HighWater(log)
    ensures |OpenTimers(log)| <= HighWater(log)
    decreases |log|
  {
    if log == [] {
      p := Here(Nil);
    } else {
      var n := |log| - 1;
      var e := log[n];
      var q := NestedIsPath(log[..n]);
      assert log == log[..n] + [e];
      if e.kind == ENTER {
        DeepenedIs(q, e);
        p := Deepened(q, e);
      } else {
        ClosedIs(q, e);
        p := Closed(q, e);
      }
    }
  }
}
