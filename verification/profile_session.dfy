/** A thread's log over any run of puts and flips. */
module ProfileSession {
  import opened ProfileLog
  import opened ProfileReplay
  import opened ProfileNesting
  import opened ProfileFrames
  import opened ProfileFlip
  import opened ProfileTimeline

  const FRAME_HISTORY: nat := 512

  /** What a thread and the frame loop do to a log. */
  datatype Op = LogEntry(token: nat, tick: int, kind: nat) | EndFrame

  function EntryOf(op: Op): Entry
    requires op.LogEntry?
  {
    Entry(op.kind, op.token % INDEX_RANGE, op.tick % TICK_RANGE)
  }

  /** As many entries since the last flip as the ring can tell apart. */
  predicate Full(tl: Timeline)
    requires tl.cuts != []
  {
    |tl.history| - tl.cuts[|tl.cuts| - 1] == BUFFER_SIZE - 1
  }

  /** An entry is stored unless the ring is full. */
  function Do(tl: Timeline, op: Op): (tl': Timeline)
    requires tl.cuts != []
    ensures tl'.cuts != []
  {
    match op
    case LogEntry(_, _, _) => if Full(tl) then tl else Put(tl, EntryOf(op))
    case EndFrame => Flip(tl)
  }

  /** Entries of registered timers only; none is put where another is still needed; and the frame that
      is replayed is nowhere too deep. */
  ghost predicate Allowed(tl: Timeline, op: Op)
    requires tl.Ok()
  {
    match op
    case LogEntry(_, _, kind) =>
      kind < 4 && Known(EntryOf(op)) && (Full(tl) || Spares(tl, EntryOf(op)))
    case EndFrame =>
      FlipOk(tl);
      DepthFits(tl.history[..Flip(tl).Drained()], tl.Drained())
  }

  lemma {:induction false} DoOk(tl: Timeline, op: Op)
    requires tl.Ok() && Allowed(tl, op)
    ensures Do(tl, op).Ok()
  {
    if op.EndFrame? {
      FlipOk(tl);
    }
  }

  /** The place of a frame's mark in the history of frames. */
  function MarkAt(k: int): (i: nat)
    requires k + FRAME_HISTORY >= 0
    ensures i < FRAME_HISTORY
  {
    if k < 0 then k + FRAME_HISTORY else if k < FRAME_HISTORY then k else MarkAt(k - FRAME_HISTORY)
  }

  /** The steps of the frame positions, which the original takes modulo the length of the history. */
  function NextMark(i: nat): (j: nat)
    requires i < FRAME_HISTORY
    ensures j == (i + 1) % FRAME_HISTORY < FRAME_HISTORY
  {
    if i + 1 == FRAME_HISTORY then 0 else i + 1
  }

  function CurrentMark(i: nat): (j: nat)
    requires i < FRAME_HISTORY
    ensures j == (i + FRAME_HISTORY - FRAME_DELAY - 1) % FRAME_HISTORY < FRAME_HISTORY
  {
    if i > FRAME_DELAY then i - FRAME_DELAY - 1 else i + FRAME_HISTORY - FRAME_DELAY - 1
  }

  lemma {:induction false} MarkSteps(f: nat)
    ensures MarkAt(f + 1) == NextMark(MarkAt(f))
    ensures CurrentMark(MarkAt(f)) == MarkAt(f - FRAME_DELAY - 1) && NextMark(CurrentMark(MarkAt(f))) == MarkAt(f - FRAME_DELAY)
    decreases f
  {
    if f >= FRAME_HISTORY {
      MarkSteps(f - FRAME_HISTORY);
    }
  }

  lemma {:induction false} MarkDiffers(k: int, f: nat)
    requires f - FRAME_DELAY - 1 <= k < f
    ensures MarkAt(k) != MarkAt(f)
    decreases f
  {
    if k >= FRAME_HISTORY {
      MarkDiffers(k - FRAME_HISTORY, f - FRAME_HISTORY);
    }
  }

  /** The put position runs into the get position just when the ring is full. */
  lemma {:induction false} PutMeetsGet(tl: Timeline)
    requires tl.Ok()
    ensures NextPos(Slot(|tl.history|), BUFFER_SIZE) == Slot(tl.cuts[|tl.cuts| - 1]) <==> Full(tl)
  {
    var c, h := tl.cuts[|tl.cuts| - 1], |tl.history|;
    SlotNext(h);
    if h + 1 < c + BUFFER_SIZE {
      SlotsDiffer(c, h + 1);
    } else {
      assert Slot(c + BUFFER_SIZE) == Slot(c);
    }
  }

  // ----- what the fields say about the timeline

  /** The ring holds all that is still needed. */
  ghost predicate RingAgrees(put: nat, get: nat, words: seq<Word>, tl: Timeline)
  {
    && |words| == BUFFER_SIZE && tl.Ok()
    && put == Slot(|tl.history|) && get == Slot(tl.cuts[|tl.cuts| - 1]) && InRing(words, tl)
  }

  /** Stacks and totals are those of the frames replayed so far. */
  ghost predicate ReplayAgrees(groups: Groups, slots: seq<nat>, stacks: Stacks, acc: Totals, tl: Timeline)
  {
    && tl.Ok() && slots == Slots(OpenAt(tl.history[..tl.Drained()]))
    && (stacks, acc) == RunFrames(groups, Fresh(), Zero(), tl.Frames())
  }

  /** The marks of the frames that a flip still looks at. */
  ghost predicate MarksAgree(framePut: nat, marks: seq<nat>, tl: Timeline)
  {
    && |marks| == FRAME_HISTORY && tl.Ok() && framePut == MarkAt(tl.Flips())
    && forall k :: tl.Flips() - FRAME_DELAY - 1 <= k <= tl.Flips() ==> marks[MarkAt(k)] == Slot(tl.Cut(k))
  }

  /** The values of a profiler's fields. */
  datatype Values = Values(put: nat, get: nat, words: seq<Word>, slots: seq<nat>, stacks: Stacks, acc: Totals,
                           framePut: nat, marks: seq<nat>)

  ghost predicate Agrees(groups: Groups, v: Values, tl: Timeline)
  {
    && RingAgrees(v.put, v.get, v.words, tl) && MarksAgree(v.framePut, v.marks, tl)
    && ReplayAgrees(groups, v.slots, v.stacks, v.acc, tl)
  }

  lemma {:induction false} StartAgrees(groups: Groups, words: seq<Word>, marks: seq<nat>)
    requires |words| == BUFFER_SIZE && |marks| == FRAME_HISTORY && forall i :: 0 <= i < FRAME_HISTORY ==> marks[i] == 0
    ensures Agrees(groups, Values(0, 0, words, [], Fresh(), Zero(), 0, marks), EMPTY)
  {
  }

  lemma {:induction false} RingAfterPut(put: nat, get: nat, words: seq<Word>, tl: Timeline, op: Op, w: Word)
    requires RingAgrees(put, get, words, tl) && op.LogEntry? && Allowed(tl, op) && !Full(tl) && Read(w) == EntryOf(op)
    ensures RingAgrees(NextPos(put, BUFFER_SIZE), get, words[put := w], Do(tl, op))
  {
    DoOk(tl, op);
    StoredRing(put, get, words, tl, EntryOf(op), w, Put(tl, EntryOf(op)));
  }

  lemma {:induction false} StoredRing(put: nat, get: nat, words: seq<Word>, tl: Timeline, e: Entry, w: Word, tl': Timeline)
    requires RingAgrees(put, get, words, tl) && Spares(tl, e) && Read(w) == e && tl' == Put(tl, e) && tl'.Ok()
    ensures RingAgrees(NextPos(put, BUFFER_SIZE), get, words[put := w], tl')
  {
    PutKeepsExactly(words, tl.history, tl.Drained(), w);
    SlotNext(|tl.history|);
  }

  lemma {:induction false} ReplayAfterPut(groups: Groups, slots: seq<nat>, stacks: Stacks, acc: Totals, tl: Timeline, e: Entry)
    requires ReplayAgrees(groups, slots, stacks, acc, tl) && Put(tl, e).Ok()
    ensures ReplayAgrees(groups, slots, stacks, acc, Put(tl, e))
  {
    FramesAfterPut(tl, e);
    assert Put(tl, e).history[..tl.Drained()] == tl.history[..tl.Drained()];
  }

  /** Storing `w` at the put position leaves the open Enters what they are. */
  predicate StacksStay(v: Values, w: Word)
  {
    && |v.words| == BUFFER_SIZE && v.put < BUFFER_SIZE && (forall i :: 0 <= i < |v.slots| ==> v.slots[i] < BUFFER_SIZE)
    && EntriesAt(v.words[v.put := w], v.slots) == EntriesAt(v.words, v.slots)
  }

  lemma {:induction false} CanPut(groups: Groups, v: Values, tl: Timeline, op: Op)
    requires Agrees(groups, v, tl) && op.LogEntry? && Allowed(tl, op)
    ensures NextPos(v.put, BUFFER_SIZE) == v.get <==> Full(tl)
    ensures Full(tl) || StacksStay(v, MakeLogIndex(op.kind, op.token, op.tick))
  {
    PutMeetsGet(tl);
    if !Full(tl) {
      var w := MakeLogIndex(op.kind, op.token, op.tick);
      RingAfterPut(v.put, v.get, v.words, tl, op, w);
      DoOk(tl, op);
      WriteKeeps(v.words, tl.history, tl.Drained(), w);
      OpenStay(v.words, v.words[v.put := w], tl.history, tl.Drained(), OpenAt(tl.history[..tl.Drained()]));
    }
  }

  /** A put, stored or dropped. */
  lemma {:induction false} AfterPut(groups: Groups, v: Values, tl: Timeline, op: Op, w: Word, tl': Timeline, v': Values)
    requires Agrees(groups, v, tl) && op.LogEntry? && Allowed(tl, op) && Read(w) == EntryOf(op) && tl' == Do(tl, op)
    requires v' == if Full(tl) then v else v.(put := NextPos(v.put, BUFFER_SIZE), words := v.words[v.put := w])
    ensures Agrees(groups, v', tl')
  {
    if !Full(tl) {
      RingAfterPut(v.put, v.get, v.words, tl, op, w);
      MarksStay(v.framePut, v.marks, tl, tl');
      ReplayAfterPut(groups, v.slots, v.stacks, v.acc, tl, EntryOf(op));
    }
  }

  lemma {:induction false} MarksStay(framePut: nat, marks: seq<nat>, tl: Timeline, tl': Timeline)
    requires MarksAgree(framePut, marks, tl) && tl'.Ok() && tl'.cuts == tl.cuts
    ensures MarksAgree(framePut, marks, tl')
  {
    assert forall k :: k < |tl.cuts| ==> tl'.Cut(k) == tl.Cut(k);
  }

  lemma {:induction false} RingAfterFlip(put: nat, get: nat, words: seq<Word>, tl: Timeline)
    requires RingAgrees(put, get, words, tl)
    ensures RingAgrees(put, put, words, Flip(tl))
  {
    FlipOk(tl);
    OldestGrows(tl, tl.Drained(), Flip(tl).Drained());
  }

  lemma {:induction false} MarksAfterFlip(framePut: nat, marks: seq<nat>, tl: Timeline, put: nat)
    requires MarksAgree(framePut, marks, tl) && put == Slot(|tl.history|)
    requires framePut < FRAME_HISTORY
    ensures var next := NextMark(framePut);
            MarksAgree(next, marks[next := put], Flip(tl))
  {
    FlipOk(tl);
    var next, f := NextMark(framePut), tl.Flips();
    MarkSteps(f);
    forall k | f - FRAME_DELAY <= k <= f
      ensures MarkAt(k) != next && Flip(tl).Cut(k) == tl.Cut(k)
    {
      MarkDiffers(k, f + 1);
    }
  }

  /** The frame that a flip replays, looked up through its marks. */
  lemma {:induction false} FlipLooksUp(put: nat, words: seq<Word>, framePut: nat, marks: seq<nat>, tl: Timeline,
                                       current: nat, next: nat)
    requires RingAgrees(put, put, words, Flip(tl)) && MarksAgree(framePut, marks, Flip(tl)) && tl.Ok() && InRing(words, tl)
    requires framePut < FRAME_HISTORY && current == CurrentMark(framePut) && next == NextMark(current)
    ensures marks[current] == Slot(tl.Drained()) && marks[next] == Slot(Flip(tl).Drained())
    ensures tl.Drained() <= Flip(tl).Drained() <= |tl.history|
    ensures ReadAll(RingSlice(words, marks[current], marks[next])) == tl.history[tl.Drained()..Flip(tl).Drained()]
  {
    FlipOk(tl);
    MarkSteps(Flip(tl).Flips());
    SliceIs(words, tl.history, tl.Drained(), tl.Drained(), Flip(tl).Drained());
  }

  lemma {:induction false} ReplayAfterFlip(groups: Groups, slots: seq<nat>, stacks: Stacks, acc: Totals, tl: Timeline,
                                           slice: seq<Entry>)
    requires ReplayAgrees(groups, slots, stacks, acc, tl) && Flip(tl).Ok() && tl.Drained() <= Flip(tl).Drained()
    requires slice == tl.history[tl.Drained()..Flip(tl).Drained()] && Sized(acc) && WellSized(stacks)
    ensures AllKnown(slice)
    ensures var r := ReplayAll(groups, stacks, Zero(), slice);
            ReplayAgrees(groups, OpenSlots(slots, Slot(tl.Drained()), slice), r.0, Accumulated(acc, r.1), Flip(tl))
  {
    var past := tl.history[..tl.Drained()];
    assert past + slice == tl.history[..Flip(tl).Drained()];
    OpenSlotsAre(past, slice);
    FramesAfterFlip(tl);
    RunFramesAppend(groups, Fresh(), Zero(), tl.Frames(), slice);
  }

  lemma {:induction false} FlipFits(groups: Groups, slots: seq<nat>, stacks: Stacks, acc: Totals, tl: Timeline,
                                    slice: seq<Entry>, t: Totals)
    requires ReplayAgrees(groups, slots, stacks, acc, tl) && Allowed(tl, EndFrame) && tl.Drained() <= Flip(tl).Drained()
    requires slice == tl.history[tl.Drained()..Flip(tl).Drained()] && Sized(t)
    ensures WellSized(stacks) && AllKnown(slice) && StackFits(groups, stacks, t, slice)
  {
    var past := tl.history[..tl.Drained()];
    assert past + slice == tl.history[..Flip(tl).Drained()];
    StacksAre(groups, tl);
    StackFitsHere(groups, past, slice, t);
  }

  /** The values behind a flip's marking. */
  function Marked(v: Values): Values
    requires |v.marks| == FRAME_HISTORY && v.framePut < FRAME_HISTORY
  {
    var next := NextMark(v.framePut);
    v.(framePut := next, marks := v.marks[next := v.put], get := v.put)
  }

  /** The values behind the replay of a slice that begins at slot `get`. */
  function Drained(groups: Groups, v: Values, get: nat, slice: seq<Entry>): Values
    requires WellSized(v.stacks) && Sized(v.acc) && AllKnown(slice)
  {
    var r := ReplayAll(groups, v.stacks, Zero(), slice);
    v.(slots := OpenSlots(v.slots, get, slice), stacks := r.0, acc := Accumulated(v.acc, r.1))
  }

  /** The slice between two marks, which can be replayed. */
  ghost predicate Found(groups: Groups, m: Values, current: nat, next: nat, slice: seq<Entry>)
  {
    && |m.marks| == FRAME_HISTORY && |m.words| == BUFFER_SIZE && current < FRAME_HISTORY && next < FRAME_HISTORY
    && m.marks[current] < BUFFER_SIZE && m.marks[next] < BUFFER_SIZE
    && slice == ReadAll(RingSlice(m.words, m.marks[current], m.marks[next]))
    && WellSized(m.stacks) && AllKnown(slice) && StackFits(groups, m.stacks, WithoutGroups(Zero()), slice)
  }

  /** After the marking, the frame to be replayed is found and fits. */
  lemma {:induction false} FlipStarts(groups: Groups, v: Values, tl: Timeline) returns (slice: seq<Entry>)
    requires Agrees(groups, v, tl) && Allowed(tl, EndFrame)
    ensures tl.Drained() <= Flip(tl).Drained() <= |tl.history| && slice == tl.history[tl.Drained()..Flip(tl).Drained()]
    ensures |v.marks| == FRAME_HISTORY && v.framePut < FRAME_HISTORY
    ensures var m := Marked(v);
            var current := CurrentMark(m.framePut);
            Found(groups, m, current, NextMark(current), slice) && m.marks[current] == Slot(tl.Drained())
  {
    var m := Marked(v);
    var current := CurrentMark(m.framePut);
    FlipOk(tl);
    RingAfterFlip(v.put, v.get, v.words, tl);
    MarksAfterFlip(v.framePut, v.marks, tl, v.put);
    FlipLooksUp(v.put, v.words, m.framePut, m.marks, tl, current, NextMark(current));
    slice := tl.history[tl.Drained()..Flip(tl).Drained()];
    FlipFits(groups, v.slots, v.stacks, v.acc, tl, slice, WithoutGroups(Zero()));
  }

  lemma {:induction false} AfterFlip(groups: Groups, v: Values, tl: Timeline, slice: seq<Entry>, v': Values)
    requires Agrees(groups, v, tl) && Sized(v.acc) && WellSized(v.stacks) && AllKnown(slice)
    requires tl.Drained() <= Flip(tl).Drained() <= |tl.history| && slice == tl.history[tl.Drained()..Flip(tl).Drained()]
    requires |v.marks| == FRAME_HISTORY && v.framePut < FRAME_HISTORY
    requires v' == Drained(groups, Marked(v), Slot(tl.Drained()), slice)
    ensures Agrees(groups, v', Flip(tl))
  {
    RingAfterFlip(v.put, v.get, v.words, tl);
    MarksAfterFlip(v.framePut, v.marks, tl, v.put);
    ReplayAfterFlip(groups, v.slots, v.stacks, v.acc, tl, slice);
    var m := Marked(v);
    assert RingAgrees(v'.put, v'.get, v'.words, Flip(tl)) && MarksAgree(m.framePut, m.marks, Flip(tl));
    assert m.slots == v.slots && m.stacks == v.stacks && m.acc == v.acc;
  }

  /** One thread's log, the totals of the frame and those accumulated, and the marks of the frames. */
  class Profiler {
    const groups: Groups
    const log: ThreadLog
    const frame: FrameTotals
    const acc: FrameTotals
    const marks: array<nat>
    var framePut: nat
    ghost var timeline: Timeline

    ghost predicate Separate()
    {
      && frame.Valid() && acc.Valid() && marks.Length == FRAME_HISTORY
      && log.childTicks !in {frame.ticks, frame.excl, frame.count, frame.group}
      && log.childTicks !in {acc.ticks, acc.excl, acc.count, acc.group}
      && log.groupTicks !in {frame.ticks, frame.excl, frame.count, frame.group}
      && log.groupTicks !in {acc.ticks, acc.excl, acc.count, acc.group}
      && acc.ticks !in {frame.ticks, frame.excl, frame.count, frame.group}
      && acc.excl !in {frame.ticks, frame.excl, frame.count, frame.group}
      && acc.count !in {frame.ticks, frame.excl, frame.count, frame.group}
      && acc.group !in {frame.ticks, frame.excl, frame.count, frame.group}
      && marks != log.stack && marks != log.groupPos
    }

    ghost predicate Valid()
      reads this, log, log.log, log.stack, log.childTicks, log.groupPos, marks
      reads acc.ticks, acc.excl, acc.count, acc.group
    {
      Separate() && log.Valid() && Agrees(groups, View(), timeline)
    }

    ghost function View(): Values
      requires Separate() && log.Valid()
      reads `framePut, log, log.log, log.stack, log.childTicks, log.groupPos, marks
      reads acc.ticks, acc.excl, acc.count, acc.group
    {
      Values(log.put, log.get, log.log[..], log.stack[..log.stackPos], log.ReplayStacks(), acc.Summed(), framePut, marks[..])
    }

    constructor (groups: Groups)
      ensures Valid() && timeline == EMPTY && this.groups == groups
      ensures fresh(log) && fresh(log.log) && fresh(log.stack) && fresh(log.childTicks) && fresh(log.groupPos)
      ensures fresh(log.groupTicks) && fresh(marks)
      ensures fresh(frame.ticks) && fresh(frame.excl) && fresh(frame.count) && fresh(frame.group)
      ensures fresh(acc.ticks) && fresh(acc.excl) && fresh(acc.count) && fresh(acc.group)
    {
      this.groups := groups;
      var l := new ThreadLog();
      var f := new FrameTotals();
      var a := new FrameTotals();
      log, frame, acc := l, f, a;
      marks := new nat[FRAME_HISTORY](_ => 0);
      framePut := 0;
      timeline := EMPTY;
      new;
      StartAgrees(groups, log.log[..], marks[..]);
      assert log.stack[..0] == [];
      assert View() == Values(0, 0, log.log[..], [], Fresh(), Zero(), 0, marks[..]);
    }

    /** The put itself, on the fields. */
    method Store(op: Op, ghost v: Values, ghost w: Word) returns (overflow: bool)
      requires Separate() && log.Valid() && v == View() && op.LogEntry? && op.kind < 4
      requires NextPos(v.put, BUFFER_SIZE) == v.get || StacksStay(v, w)
      requires w == MakeLogIndex(op.kind, op.token, op.tick)
      modifies log`put, log.log
      ensures log.Valid() && overflow == (NextPos(v.put, BUFFER_SIZE) == v.get)
      ensures View() == if overflow then v else v.(put := NextPos(v.put, BUFFER_SIZE), words := v.words[v.put := w])
    {
      overflow := log.LogPut(op.token, op.tick, op.kind);
    }

    /** A thread puts an entry. */
    method PutEntry(op: Op) returns (overflow: bool)
      requires Valid() && op.LogEntry? && Allowed(timeline, op)
      modifies this`timeline, log`put, log.log
      ensures Valid() && timeline == Do(old(timeline), op) && overflow == Full(old(timeline))
    {
      ghost var tl, v, w := timeline, View(), MakeLogIndex(op.kind, op.token, op.tick);
      CanPut(groups, v, tl, op);
      overflow := Store(op, v, w);
      Advance(Do(tl, op));
      AfterPut(groups, v, tl, op, w, timeline, View());
    }

    /** The first half of `MicroProfileFlip`: the frame's mark, and the ring counts as drained. */
    method Mark() returns (current: nat, next: nat)
      requires Separate() && log.Valid() && framePut < FRAME_HISTORY
      modifies `framePut, marks, log`get
      ensures log.Valid() && View() == Marked(old(View()))
      ensures framePut < FRAME_HISTORY && current == CurrentMark(framePut) && next == NextMark(current)
    {
      framePut := (framePut + 1) % FRAME_HISTORY;
      current := (framePut + FRAME_HISTORY - FRAME_DELAY - 1) % FRAME_HISTORY;
      next := (current + 1) % FRAME_HISTORY;
      ghost var before := marks[..];
      marks[framePut] := log.put;
      assert marks[..] == before[framePut := log.put];
      log.get := log.put;
    }

    method ClearFrame()
      requires Separate()
      modifies frame.ticks, frame.excl, frame.count, frame.group
      ensures frame.Summed() == Zero()
    {
      Clear(frame.ticks);
      Clear(frame.excl);
      Clear(frame.count);
      Clear(frame.group);
    }

    /** The second half: the frame between two marks is replayed and accumulated. */
    method Drain(current: nat, next: nat, ghost v: Values, ghost slice: seq<Entry>)
      requires Separate() && log.Valid() && View() == v
      requires Found(groups, v, current, next, slice)
      modifies log`stackPos, log.stack, log.childTicks, log.groupPos, log.groupTicks
      modifies frame.ticks, frame.excl, frame.count, frame.group, acc.ticks, acc.excl, acc.count, acc.group
      ensures log.Valid() && View() == Drained(groups, v, v.marks[current], slice)
    {
      ClearFrame();
      ReplayMarked(current, next, v, slice);
      AddFrame();
    }

    method ReplayMarked(current: nat, next: nat, ghost v: Values, ghost slice: seq<Entry>)
      requires Separate() && log.Valid() && View() == v && frame.Summed() == Zero()
      requires Found(groups, v, current, next, slice)
      modifies log`stackPos, log.stack, log.childTicks, log.groupPos, log.groupTicks
      modifies frame.ticks, frame.excl, frame.count, frame.group
      ensures log.Valid() && frame.Summed() == ReplayAll(groups, v.stacks, Zero(), slice).1
      ensures View() == v.(slots := OpenSlots(v.slots, v.marks[current], slice),
                           stacks := ReplayAll(groups, v.stacks, Zero(), slice).0)
    {
      ReplayThread(groups, log, frame, marks[next], marks[current]);
    }

    method AddFrame()
      requires Separate() && log.Valid()
      modifies acc.ticks, acc.excl, acc.count, acc.group
      ensures log.Valid() && View() == old(View().(acc := Accumulated(acc.Summed(), frame.Summed())))
    {
      AccumulateFrame(acc, frame);
    }

    /** `MicroProfileFlip` for one log. */
    method EndOfFrame()
      requires Valid() && Allowed(timeline, EndFrame)
      modifies this`timeline, `framePut, marks
      modifies log`get, log`stackPos, log.stack, log.childTicks, log.groupPos, log.groupTicks
      modifies frame.ticks, frame.excl, frame.count, frame.group, acc.ticks, acc.excl, acc.count, acc.group
      ensures Valid() && timeline == Flip(old(timeline))
    {
      ghost var tl, v := timeline, View();
      ghost var slice := FlipStarts(groups, v, tl);
      ghost var v' := Turn(v, slice);
      Advance(Flip(tl));
      AfterFlip(groups, v, tl, slice, v');
    }

    /** Only the record of the timeline changes. */
    ghost method Advance(tl: Timeline)
      requires Separate() && log.Valid()
      modifies `timeline
      ensures log.Valid() && timeline == tl && View() == old(View())
    {
      timeline := tl;
    }

    method Apply(op: Op)
      requires Valid() && Allowed(timeline, op)
      modifies this`timeline, `framePut, marks, log.log
      modifies log`put, log`get, log`stackPos, log.stack, log.childTicks, log.groupPos, log.groupTicks
      modifies frame.ticks, frame.excl, frame.count, frame.group, acc.ticks, acc.excl, acc.count, acc.group
      ensures Valid() && timeline == Do(old(timeline), op)
    {
      match op
      case LogEntry(_, _, _) => var overflow := PutEntry(op);
      case EndFrame => EndOfFrame();
    }

    method Turn(ghost v: Values, ghost slice: seq<Entry>) returns (ghost v': Values)
      requires Separate() && log.Valid() && View() == v && framePut < FRAME_HISTORY && |v.marks| == FRAME_HISTORY
      requires var m := Marked(v);
               var current := CurrentMark(m.framePut);
               Found(groups, m, current, NextMark(current), slice)
      modifies `framePut, marks
      modifies log`get, log`stackPos, log.stack, log.childTicks, log.groupPos, log.groupTicks
      modifies frame.ticks, frame.excl, frame.count, frame.group, acc.ticks, acc.excl, acc.count, acc.group
      ensures log.Valid() && v' == View()
      ensures var m := Marked(v); v' == Drained(groups, m, m.marks[CurrentMark(m.framePut)], slice)
    {
      var current, next := Mark();
      Drain(current, next, View(), slice);
      v' := View();
    }
  }

  method Clear(a: array<int>)
    modifies a
    ensures a[..] == Zeros(a.Length)
  {
    for i := 0 to a.Length
      invariant forall k :: 0 <= k < i ==> a[k] == 0
    {
      a[i] := 0;
    }
  }

  // ----- runs

  ghost predicate RunAllowed(tl: Timeline, ops: seq<Op>)
    requires tl.Ok()
    decreases |ops|
  {
    ops != [] ==> Allowed(tl, ops[0]) && (DoOk(tl, ops[0]); RunAllowed(Do(tl, ops[0]), ops[1..]))
  }

  function After(tl: Timeline, ops: seq<Op>): Timeline
    requires tl.cuts != []
    decreases |ops|
  {
    if ops == [] then tl else After(Do(tl, ops[0]), ops[1..])
  }

  /** Main result, for any run of puts and flips: as long as no entry is put where one is still
      needed, stacks and accumulated totals are those of the frames, each of them the entries that
      were put between two flips. */
  method Run(groups: Groups, ops: seq<Op>) returns (p: Profiler)
    requires RunAllowed(EMPTY, ops)
    ensures p.Valid() && p.groups == groups && p.timeline == After(EMPTY, ops) && p.timeline.Ok()
    ensures fresh(p.log) && fresh(p.log.log)
    ensures (p.log.ReplayStacks(), p.acc.Summed()) == RunFrames(groups, Fresh(), Zero(), p.timeline.Frames())
  {
    p := new Profiler(groups);
    assert ops[0..] == ops;
    for i := 0 to |ops|
      invariant p.Valid() && RunAllowed(p.timeline, ops[i..]) && After(p.timeline, ops[i..]) == After(EMPTY, ops)
    {
      assert ops[i..][0] == ops[i] && ops[i..][1..] == ops[i + 1..];
      p.Apply(ops[i]);
    }
  }

  /** A properly nested log that was put entry by entry and flipped in whatever places: what is
      accumulated are the lengths of its finished spans. */
  lemma {:induction false} NestedRun(groups: Groups, tl: Timeline) returns (p: Path)
    requires tl.Ok() && Nested(tl.history[..tl.Drained()]) && HighWater(tl.history[..tl.Drained()]) < STACK_MAX
    ensures PathLog(p) == tl.history[..tl.Drained()]
    ensures var (s, t) := RunFrames(groups, Fresh(), Zero(), tl.Frames());
            s.open == Enters(p) && AddsPath(groups, Fresh(), p, Zero(), t)
  {
    var frames := tl.Frames();
    FramesJoin(tl, |tl.cuts| - 1);
    assert Joined(frames) == tl.history[..tl.Drained()];
    p := NestedFrames(groups, frames);
  }

  lemma {:induction false} OpenCount(log: seq<Entry>)
    requires Nested(log)
    ensures |OpenAt(log)| == |OpenTimers(log)| <= HighWater(log)
    decreases |log|
  {
    if log != [] {
      OpenCount(log[..|log| - 1]);
    }
  }

  lemma {:induction false} NestedPrefix(log: seq<Entry>, n: nat)
    requires Nested(log) && n <= |log|
    ensures Nested(log[..n]) && HighWater(log[..n]) <= HighWater(log)
    decreases |log|
  {
    if n < |log| {
      NestedPrefix(log[..|log| - 1], n);
      assert log[..|log| - 1][..n] == log[..n];
    } else {
      assert log[..n] == log;
    }
  }

  /** A nested log that is nowhere deeper than 31 spans can be flipped anywhere. */
  lemma {:induction false} NestedFits(tl: Timeline)
    requires tl.Ok() && Nested(tl.history) && HighWater(tl.history) < STACK_MAX
    ensures Allowed(tl, EndFrame)
  {
    FlipOk(tl);
    var log := tl.history[..Flip(tl).Drained()];
    forall n | tl.Drained() <= n <= |log|
      ensures |OpenAt(log[..n])| < STACK_MAX
    {
      assert log[..n] == tl.history[..n];
      NestedPrefix(tl.history, n);
      OpenCount(tl.history[..n]);
    }
  }

  // ----- what the test for a full ring does not see

  predicate Loggable(op: Op)
  {
    op.LogEntry? ==> op.kind < 4 && Known(EntryOf(op))
  }

  predicate AllLoggable(ops: seq<Op>)
  {
    forall i :: 0 <= i < |ops| ==> Loggable(ops[i])
  }

  lemma {:induction false} AnyDoOk(tl: Timeline, op: Op)
    requires tl.Ok() && Loggable(op)
    ensures Do(tl, op).Ok()
  {
    if op.EndFrame? {
      FlipOk(tl);
    }
  }

  /** The ring behind one more put or flip. */
  function Written(words: seq<Word>, tl: Timeline, op: Op): (words': seq<Word>)
    requires |words| == BUFFER_SIZE && tl.cuts != [] && Loggable(op)
    ensures |words'| == BUFFER_SIZE
  {
    if op.EndFrame? || Full(tl) then words
    else words[Slot(|tl.history|) := MakeLogIndex(op.kind, op.token, op.tick)]
  }

  /** After every put and flip the ring holds all that is still needed. */
  ghost predicate AlwaysInRing(words: seq<Word>, tl: Timeline, ops: seq<Op>)
    requires |words| == BUFFER_SIZE && tl.Ok() && AllLoggable(ops)
    decreases |ops|
  {
    InRing(words, tl) &&
    (ops != [] ==> (AnyDoOk(tl, ops[0]); AlwaysInRing(Written(words, tl, ops[0]), Do(tl, ops[0]), ops[1..])))
  }

  /** Every put that the test for a full ring lets through spares what is still needed. */
  ghost predicate AllSpare(tl: Timeline, ops: seq<Op>)
    requires tl.Ok() && AllLoggable(ops)
    decreases |ops|
  {
    ops != [] ==>
      && (ops[0].LogEntry? && !Full(tl) ==> Spares(tl, EntryOf(ops[0])))
      && (AnyDoOk(tl, ops[0]); AllSpare(Do(tl, ops[0]), ops[1..]))
  }

  /** For any run: the ring holds what is needed all the time exactly when every put spares it. */
  lemma {:induction false} RunKeepsExactly(words: seq<Word>, tl: Timeline, ops: seq<Op>)
    requires |words| == BUFFER_SIZE && tl.Ok() && AllLoggable(ops) && InRing(words, tl)
    ensures AlwaysInRing(words, tl, ops) <==> AllSpare(tl, ops)
    decreases |ops|
  {
    if ops != [] {
      var op, tl', words' := ops[0], Do(tl, ops[0]), Written(words, tl, ops[0]);
      AnyDoOk(tl, op);
      KeptByOne(words, tl, op);
      if InRing(words', tl') {
        RunKeepsExactly(words', tl', ops[1..]);
      }
    }
  }

  lemma {:induction false} KeptByOne(words: seq<Word>, tl: Timeline, op: Op)
    requires |words| == BUFFER_SIZE && tl.Ok() && Do(tl, op).Ok() && Loggable(op) && InRing(words, tl)
    ensures InRing(Written(words, tl, op), Do(tl, op)) <==> (op.LogEntry? && !Full(tl) ==> Spares(tl, EntryOf(op)))
  {
    if op.EndFrame? {
      FlipOk(tl);
      OldestGrows(tl, tl.Drained(), Flip(tl).Drained());
    } else if !Full(tl) {
      PutKeepsExactly(words, tl.history, tl.Drained(), MakeLogIndex(op.kind, op.token, op.tick));
    }
  }

  // ----- a run that overwrites what is needed

  function Repeated(op: Op, n: nat): seq<Op>
  {
    seq(n, _ => op)
  }

  /** Fill the ring, flip, and put one entry more. */
  function FillAndFlip(op: Op): seq<Op>
  {
    Repeated(op, BUFFER_SIZE - 1) + ([EndFrame] + [op])
  }

  lemma {:induction false} RunAppend(tl: Timeline, a: seq<Op>, b: seq<Op>)
    requires tl.Ok() && RunAllowed(tl, a) && After(tl, a).Ok() && RunAllowed(After(tl, a), b)
    ensures RunAllowed(tl, a + b) && After(tl, a + b) == After(After(tl, a), b)
    decreases |a|
  {
    if a == [] {
      assert a + b == b;
    } else {
      DoOk(tl, a[0]);
      assert (a + b)[0] == a[0] && (a + b)[1..] == a[1..] + b;
      RunAppend(Do(tl, a[0]), a[1..], b);
    }
  }

  /** Filling an empty ring. */
  lemma {:induction false} FillRun(op: Op, tl: Timeline, n: nat)
    requires Loggable(op) && op.LogEntry? && tl.Ok() && tl.cuts == [0] && |tl.history| + n < BUFFER_SIZE
    ensures RunAllowed(tl, Repeated(op, n)) && After(tl, Repeated(op, n)).Ok()
    ensures After(tl, Repeated(op, n)) == tl.(history := tl.history + seq(n, _ => EntryOf(op)))
    decreases n
  {
    var e := EntryOf(op);
    if n == 0 {
      assert tl.history + seq(0, _ => e) == tl.history;
    } else {
      assert Repeated(op, n)[1..] == Repeated(op, n - 1);
      DoOk(tl, op);
      FillRun(op, Put(tl, e), n - 1);
      OneOfMany(tl.history, e, n, seq(n - 1, _ => e), seq(n, _ => e));
    }
  }

  lemma {:induction false} OneOfMany(h: seq<Entry>, e: Entry, n: nat, fewer: seq<Entry>, all: seq<Entry>)
    requires |all| == n == |fewer| + 1 && (forall i :: 0 <= i < n ==> all[i] == e) && (forall i :: 0 <= i < n - 1 ==> fewer[i] == e)
    ensures h + [e] + fewer == h + all
  {
    assert all == [e] + fewer;
  }

  lemma {:induction false} FlipAndPut(full: Timeline, op: Op, e: Entry)
    requires full.Ok() && full.cuts == [0] && |full.history| == BUFFER_SIZE - 1
    requires Loggable(op) && op.LogEntry? && e == EntryOf(op)
    ensures var tl := Put(Flip(full), e);
            && tl.Ok() && !Full(tl) && tl.Drained() == 0 == Oldest(tl) && |tl.history| == BUFFER_SIZE
            && Slot(|tl.history|) == Slot(0) == 0
            && RunAllowed(full, [EndFrame] + [op]) && After(full, [EndFrame] + [op]) == tl
  {
    FlipOk(full);
    var flipped := Flip(full);
    assert full.history[..0] == [] && flipped.history[..0] == [] && Put(flipped, e).history[..0] == [];
    assert DepthFits([], 0);
    DoOk(full, EndFrame);
    assert Oldest(flipped) == 0;
    DoOk(flipped, op);
    TwoOps(full, EndFrame, op);
  }

  lemma {:induction false} OneOp(tl: Timeline, op: Op)
    requires tl.Ok() && Allowed(tl, op) && Do(tl, op).Ok()
    ensures RunAllowed(tl, [op]) && After(tl, [op]) == Do(tl, op)
  {
    assert [op][1..] == [];
    assert RunAllowed(Do(tl, op), []);
  }

  lemma {:induction false} TwoOps(tl: Timeline, a: Op, b: Op)
    requires tl.Ok() && Allowed(tl, a) && Do(tl, a).Ok() && Allowed(Do(tl, a), b) && Do(Do(tl, a), b).Ok()
    ensures RunAllowed(tl, [a] + [b]) && After(tl, [a] + [b]) == Do(Do(tl, a), b)
  {
    assert ([a] + [b])[1..] == [b];
    OneOp(Do(tl, a), b);
  }

  /** It is a run whose puts all spare what is needed; then the first entry is still to be replayed, and
      its slot is the next. */
  lemma {:induction false} LapIsNear(op: Op)
    requires Loggable(op) && op.LogEntry?
    ensures RunAllowed(EMPTY, FillAndFlip(op))
    ensures var tl := After(EMPTY, FillAndFlip(op));
            && tl.Ok() && !Full(tl) && tl.Drained() == 0 == Oldest(tl) && |tl.history| == BUFFER_SIZE
            && tl.history[0] == EntryOf(op) && Slot(|tl.history|) == Slot(0) == 0
  {
    var n, e := BUFFER_SIZE - 1, EntryOf(op);
    FillRun(op, EMPTY, n);
    var full := After(EMPTY, Repeated(op, n));
    assert full.history == seq(n, _ => e);
    FlipAndPut(full, op, e);
    RunAppend(EMPTY, Repeated(op, n), [EndFrame] + [op]);
  }

  /** The test for a full ring does not see to it that nothing needed is overwritten: a flip counts
      the ring as drained at once, and replays only three flips later. On a profiler that has come there
      by puts and a flip, the next put is accepted and overwrites the first entry, which is still to
      be replayed. */
  method LapIsNotNoticed(groups: Groups, op: Op, another: Op) returns (p: Profiler, overflow: bool)
    requires Loggable(op) && Loggable(another) && op.LogEntry? && another.LogEntry? && EntryOf(op) != EntryOf(another)
    ensures p.timeline == After(EMPTY, FillAndFlip(op)) && p.timeline.Ok() && p.timeline.Drained() == 0
    ensures |p.timeline.history| == BUFFER_SIZE && p.timeline.history[0] == EntryOf(op)
    ensures !overflow && p.log.log.Length == BUFFER_SIZE && Read(p.log.log[0]) == EntryOf(another)
    ensures Put(p.timeline, EntryOf(another)).Ok() && !InRing(p.log.log[..], Put(p.timeline, EntryOf(another)))
  {
    LapIsNear(op);
    ghost var tl := After(EMPTY, FillAndFlip(op));
    p := Run(groups, FillAndFlip(op));
    assert p.timeline == tl;
    overflow := Overwrite(p, another);
  }

  method Overwrite(p: Profiler, op: Op) returns (overflow: bool)
    requires p.Valid() && Loggable(op) && op.LogEntry? && !Full(p.timeline) && |p.timeline.history| == BUFFER_SIZE
    requires p.timeline.Drained() == 0 == Oldest(p.timeline) && EntryOf(op) != p.timeline.history[0]
    modifies p.log`put, p.log.log
    ensures p.log.Valid() && !overflow && Read(p.log.log[0]) == EntryOf(op)
    ensures Put(p.timeline, EntryOf(op)).Ok() && !InRing(p.log.log[..], Put(p.timeline, EntryOf(op)))
  {
    ghost var tl, words, w := p.timeline, p.log.log[..], MakeLogIndex(op.kind, op.token, op.tick);
    PutMeetsGet(tl);
    AnyDoOk(tl, op);
    PutKeepsExactly(words, tl.history, 0, w);
    SlotBefore(BUFFER_SIZE);
    overflow := p.log.LogPut(op.token, op.tick, op.kind);
    assert p.log.log[..] == words[0 := w];
  }
}
