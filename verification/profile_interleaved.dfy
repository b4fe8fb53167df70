/** One log under a thread that puts entries and a flip that replays them at the same time, and under
    threads that follow each other. A put is three steps, a flip one to mark the frame, one for every
    entry that it replays, and one to accumulate; the steps of the two mix in any way. */
module ProfileInterleaved {
  import opened ProfileLog
  import opened ProfileReplay
  import opened ProfileFrames
  import opened ProfileFlip
  import opened ProfileTimeline
  import opened ProfileSession

  /** Where the putting thread stands in `MicroProfileLogPut`. */
  datatype Putting =
    | NoPut
    | Tested(op: Op)       // the ring was not full
    | Stored(op: Op)       // the word is in the ring, but not published

  datatype Flipping =
    | NoFlip
    | Replaying(k: nat, end: nat)    // the next slot to replay, and the one to stop at

  /** The fields of the log and of the frame loop that concern it. `alive` says whether a thread owns
      the log. */
  datatype Machine = Machine(
    put: nat, get: nat, words: seq<Word>, slots: seq<nat>, child: seq<int>, groupPos: seq<nat>,
    frame: Totals, acc: Totals, framePut: nat, marks: seq<nat>,
    alive: bool, putting: Putting, flipping: Flipping)

  datatype Step =
    | Test(op: Op)
    | Store
    | Publish
    | Mark
    | ReplayOne
    | EndFlip
    | Exit         // `MicroProfileOnThreadExit`
    | Begin        // a thread is given the log again

  /** What the steps so far amount to: what the present owner has published and where the flips cut
      it, how much of it is replayed, and the totals when the owner took over. */
  datatype Past = Past(tl: Timeline, pos: nat, base: Totals)

  function Start(): Machine
  {
    Machine(0, 0, Zeros(BUFFER_SIZE), [], [0], Zeros(MAX_GROUPS), Zero(), Zero(), 0, Zeros(FRAME_HISTORY), true, NoPut, NoFlip)
  }

  const BEGINNING: Past := Past(EMPTY, 0, Zero())

  /** What types and sizes demand. */
  ghost predicate Sane(m: Machine)
  {
    && |m.words| == BUFFER_SIZE && |m.marks| == FRAME_HISTORY && m.put < BUFFER_SIZE && m.framePut < FRAME_HISTORY
    && (forall i :: 0 <= i < |m.slots| ==> m.slots[i] < BUFFER_SIZE)
    && |m.child| == |m.slots| + 1 && |m.groupPos| == MAX_GROUPS && Sized(m.frame) && Sized(m.acc)
    && (forall g :: 0 <= g < MAX_GROUPS ==> m.groupPos[g] < 256)
    && (m.flipping.Replaying? ==> m.flipping.k < BUFFER_SIZE && m.flipping.end < BUFFER_SIZE)
    && (m.putting.NoPut? || (m.putting.op.LogEntry? && m.putting.op.kind < 4))
  }

  /** The stacks as the replay sees them at this moment. */
  ghost function StacksOf(m: Machine): (s: Stacks)
    requires Sane(m)
    ensures WellSized(s)
  {
    Stacks(EntriesAt(m.words, m.slots), m.child, m.groupPos)
  }

  // ----- the steps

  ghost predicate Enabled(m: Machine, step: Step)
    requires Sane(m)
  {
    match step
    case Test(op) => m.alive && m.putting.NoPut? && op.LogEntry? && op.kind < 4
    case Store => m.putting.Tested?
    case Publish => m.putting.Stored?
    case Mark => m.flipping.NoFlip?
    case ReplayOne =>
      m.flipping.Replaying? && m.flipping.k != m.flipping.end &&
      var e := Read(m.words[m.flipping.k]);
      Known(e) && (e.kind == ENTER ==> |m.slots| + 1 < STACK_MAX)
    case EndFlip => m.flipping.Replaying? && m.flipping.k == m.flipping.end
    case Exit => m.alive && m.putting.NoPut? && m.flipping.NoFlip?
    case Begin => !m.alive && m.flipping.NoFlip?
  }

  function WordOf(op: Op): Word
    requires op.LogEntry? && op.kind < 4
  {
    MakeLogIndex(op.kind, op.token, op.tick)
  }

  function Marking(m: Machine): Machine
    requires |m.marks| == FRAME_HISTORY && m.framePut < FRAME_HISTORY
  {
    var next := NextMark(m.framePut);
    var marks := m.marks[next := m.put];
    var current := CurrentMark(next);
    m.(framePut := next, marks := marks, get := m.put, frame := Zero(),
       flipping := Replaying(marks[current], marks[NextMark(current)]))
  }

  /** The loop body of the flip, on what the ring holds at this moment. */
  ghost function ReplayingOne(groups: Groups, m: Machine): Machine
    requires Sane(m) && Enabled(m, ReplayOne)
  {
    var k, e := m.flipping.k, Read(m.words[m.flipping.k]);
    var r := Replayed(groups, StacksOf(m), m.frame, e);
    m.(slots := Pushed(m.slots, e.kind, k), child := r.0.child, groupPos := r.0.groupPos, frame := r.1,
       flipping := Replaying(NextPos(k, BUFFER_SIZE), m.flipping.end))
  }

  ghost function Do(groups: Groups, m: Machine, step: Step): Machine
    requires Sane(m) && Enabled(m, step)
  {
    match step
    case Test(op) => if NextPos(m.put, BUFFER_SIZE) == m.get then m else m.(putting := Tested(op))
    case Store => m.(words := m.words[m.put := WordOf(m.putting.op)], putting := Stored(m.putting.op))
    case Publish => m.(put := NextPos(m.put, BUFFER_SIZE), putting := NoPut)
    case Mark => Marking(m)
    case ReplayOne => ReplayingOne(groups, m)
    case EndFlip => m.(acc := Accumulated(m.acc, m.frame), flipping := NoFlip)
    case Exit => m.(put := 0, get := 0, marks := Zeros(FRAME_HISTORY), groupPos := Zeros(MAX_GROUPS), alive := false)
    case Begin =>
      m.(put := 0, get := 0, words := Zeros(BUFFER_SIZE), slots := [], child := [0], groupPos := Zeros(MAX_GROUPS), alive := true)
  }

  /** What a step adds to the past: a put when it is published, a flip when it marks the frame. */
  function DoPast(m: Machine, past: Past, step: Step): (past': Past)
    requires past.tl.cuts != [] && (step.Publish? ==> m.putting.Stored? && m.putting.op.LogEntry?)
    ensures past'.tl.cuts != []
  {
    match step
    case Publish => past.(tl := Put(past.tl, EntryOf(m.putting.op)))
    case Mark => past.(tl := Flip(past.tl))
    case ReplayOne => past.(pos := past.pos + 1)
    case Exit => Past(Timeline([], seq(|past.tl.cuts|, _ => 0)), 0, m.acc)
    case _ => past
  }

  /** Entries of registered timers, stored only where no other is still needed. */
  ghost predicate Allowed(m: Machine, past: Past, step: Step)
    requires Sane(m) && Enabled(m, step) && past.pos <= |past.tl.history|
  {
    match step
    case Test(op) => Known(EntryOf(op))
    case Store => SparesFrom(past.tl.history, past.pos, EntryOf(m.putting.op))
    case _ => true
  }

  // ----- the invariant

  ghost predicate RingPart(m: Machine, past: Past)
    requires Sane(m)
  {
    && past.tl.Ok() && past.pos <= |past.tl.history| && m.put == Slot(|past.tl.history|)
    && m.get == Slot(past.tl.cuts[|past.tl.cuts| - 1]) && MarksAgree(m.framePut, m.marks, past.tl)
    && RingFrom(m.words, past.tl.history, past.pos)
  }

  /** The put under way was let through by the test, and its word is in the ring once it is stored. */
  ghost predicate PutPart(m: Machine, past: Past)
    requires Sane(m) && past.tl.cuts != []
  {
    && (!m.alive ==> m.putting.NoPut? && past.tl.history == [])
    && (!m.putting.NoPut? ==> Known(EntryOf(m.putting.op)) && !Full(past.tl))
    && (m.putting.Stored? ==> Read(m.words[m.put]) == EntryOf(m.putting.op))
  }

  /** The stacks are those behind the entries replayed so far. */
  ghost predicate StackPart(groups: Groups, m: Machine, past: Past)
    requires Sane(m) && past.tl.Ok() && past.pos <= |past.tl.history|
  {
    m.alive ==>
      && m.slots == Slots(OpenAt(past.tl.history[..past.pos]))
      && StacksOf(m) == ReplayAll(groups, Fresh(), Zero(), past.tl.history[..past.pos]).0
  }

  /** Between flips all frames are accumulated; during one, its part that is replayed is in the frame's
      totals. */
  ghost predicate FlipPart(groups: Groups, m: Machine, past: Past)
    requires Sane(m) && past.tl.Ok() && past.pos <= |past.tl.history|
  {
    match m.flipping
    case NoFlip => Between(groups, m.acc, past.tl, past.pos, past.base)
    case Replaying(k, end) =>
      During(groups, m.acc, m.frame, past.tl, past.pos, past.base) && k == Slot(past.pos) && end == Slot(past.tl.Drained())
  }

  ghost predicate Between(groups: Groups, acc: Totals, tl: Timeline, pos: nat, base: Totals)
    requires tl.Ok()
  {
    Sized(base) && pos == tl.Drained() && acc == RunFrames(groups, Fresh(), base, tl.Frames()).1
  }

  /** Where the frame at hand begins. */
  function FrameStart(tl: Timeline): nat
    requires tl.cuts != []
  {
    tl.Cut(tl.Flips() - FRAME_DELAY - 1)
  }

  ghost predicate During(groups: Groups, acc: Totals, frame: Totals, tl: Timeline, pos: nat, base: Totals)
    requires tl.Ok() && pos <= |tl.history|
  {
    && Sized(base) && tl.Flips() > 0 && FrameStart(tl) <= pos <= tl.Drained()
    && frame == FrameUpTo(groups, tl.history, FrameStart(tl), pos)
    && acc == RunFrames(groups, Fresh(), base, tl.FramesUpTo(tl.Flips() - 1)).1
  }

  /** The totals of a frame from entry `a` up to `pos`. */
  ghost function FrameUpTo(groups: Groups, history: seq<Entry>, a: nat, pos: nat): (t: Totals)
    requires a <= pos <= |history| && AllKnown(history)
    ensures Sized(t)
  {
    ReplayAll(groups, ReplayAll(groups, Fresh(), Zero(), history[..a]).0, Zero(), history[a..pos]).1
  }

  ghost predicate Inv(groups: Groups, m: Machine, past: Past)
  {
    && Sane(m) && RingPart(m, past) && PutPart(m, past) && StackPart(groups, m, past) && FlipPart(groups, m, past)
  }

  lemma {:induction false} StartInv(groups: Groups)
    ensures Inv(groups, Start(), BEGINNING)
  {
  }

  // ----- steps of the putting thread

  lemma {:induction false} TestInv(groups: Groups, m: Machine, past: Past, op: Op)
    requires Inv(groups, m, past) && Enabled(m, Test(op)) && Allowed(m, past, Test(op))
    ensures Inv(groups, Do(groups, m, Test(op)), past)
  {
    PutMeetsGet(past.tl);
  }

  lemma {:induction false} StoreInv(groups: Groups, m: Machine, past: Past)
    requires Inv(groups, m, past) && Enabled(m, Store) && Allowed(m, past, Store)
    ensures Inv(groups, Do(groups, m, Store), past)
  {
    var w, h := WordOf(m.putting.op), past.tl.history;
    WriteKeeps(m.words, h, past.pos, w);
    OpenStay(m.words, m.words[m.put := w], h, past.pos, OpenAt(h[..past.pos]));
  }

  lemma {:induction false} PublishInv(groups: Groups, m: Machine, past: Past)
    requires Inv(groups, m, past) && Enabled(m, Publish)
    ensures Inv(groups, Do(groups, m, Publish), DoPast(m, past, Publish))
  {
    var m', past', e := Do(groups, m, Publish), DoPast(m, past, Publish), EntryOf(m.putting.op);
    PublishRing(m, past, m', past', e);
    PublishStack(groups, m, past, m', past', e);
    if m.flipping.NoFlip? {
      BetweenStays(groups, m.acc, past.tl, e, past.pos, past.base);
    } else {
      DuringStays(groups, m.acc, m.frame, past.tl, e, past.pos, past.base);
    }
  }

  lemma {:induction false} PublishStack(groups: Groups, m: Machine, past: Past, m': Machine, past': Past, e: Entry)
    requires Sane(m) && Sane(m') && past.tl.Ok() && past'.tl.Ok() && past.pos <= |past.tl.history| && StackPart(groups, m, past)
    requires past' == past.(tl := Put(past.tl, e)) && m'.alive == m.alive
    requires m'.words == m.words && m'.slots == m.slots && m'.child == m.child && m'.groupPos == m.groupPos
    ensures StackPart(groups, m', past')
  {
    assert past'.tl.history[..past.pos] == past.tl.history[..past.pos];
  }

  lemma {:induction false} PutOk(tl: Timeline, e: Entry)
    requires tl.Ok() && Known(e) && !Full(tl)
    ensures Put(tl, e).Ok()
  {
  }

  lemma {:induction false} PublishRing(m: Machine, past: Past, m': Machine, past': Past, e: Entry)
    requires Sane(m) && RingPart(m, past) && m.put == Slot(|past.tl.history|) && Read(m.words[m.put]) == e && Known(e)
    requires !Full(past.tl) && past' == past.(tl := Put(past.tl, e)) && m' == m.(put := NextPos(m.put, BUFFER_SIZE), putting := NoPut)
    ensures Sane(m') && RingPart(m', past')
  {
    PutOk(past.tl, e);
    PublishKeeps(m.words, past.tl.history, past.pos, e);
    SlotNext(|past.tl.history|);
    MarksStay(m.framePut, m.marks, past.tl, past'.tl);
  }

  lemma {:induction false} BetweenStays(groups: Groups, acc: Totals, tl: Timeline, e: Entry, pos: nat, base: Totals)
    requires tl.Ok() && Put(tl, e).Ok() && Between(groups, acc, tl, pos, base)
    ensures Between(groups, acc, Put(tl, e), pos, base)
  {
    FramesAfterPut(tl, e);
  }

  lemma {:induction false} DuringStays(groups: Groups, acc: Totals, frame: Totals, tl: Timeline, e: Entry, pos: nat, base: Totals)
    requires tl.Ok() && Put(tl, e).Ok() && pos <= |tl.history| && During(groups, acc, frame, tl, pos, base)
    ensures During(groups, acc, frame, Put(tl, e), pos, base)
  {
    PutSame(tl, e);
    FramesStay(tl, Put(tl, e), tl.Flips() - 1);
    FrameStays(groups, tl.history, e, FrameStart(tl), pos);
  }

  lemma {:induction false} PutSame(tl: Timeline, e: Entry)
    requires tl.cuts != []
    ensures Put(tl, e).Flips() == tl.Flips() && FrameStart(Put(tl, e)) == FrameStart(tl) && Put(tl, e).Drained() == tl.Drained()
  {
  }

  lemma {:induction false} FrameStays(groups: Groups, history: seq<Entry>, e: Entry, a: nat, pos: nat)
    requires a <= pos <= |history| && AllKnown(history + [e]) && AllKnown(history)
    ensures FrameUpTo(groups, history + [e], a, pos) == FrameUpTo(groups, history, a, pos)
  {
    assert (history + [e])[..a] == history[..a] && (history + [e])[a..pos] == history[a..pos];
  }

  /** Without a flip in between, the three steps are what one call of `LogPut` does. */
  lemma {:induction false} PutInOneGo(groups: Groups, m: Machine, op: Op)
    requires Sane(m) && Enabled(m, Test(op))
    ensures var m1 := Do(groups, m, Test(op));
            if NextPos(m.put, BUFFER_SIZE) == m.get then m1 == m
            else
              && Sane(m1) && Enabled(m1, Store) && Sane(Do(groups, m1, Store)) && Enabled(Do(groups, m1, Store), Publish)
              && Do(groups, Do(groups, m1, Store), Publish)
                 == m.(put := NextPos(m.put, BUFFER_SIZE), words := m.words[m.put := WordOf(op)])
  {
  }

  // ----- steps of the flip

  lemma {:induction false} MarkInv(groups: Groups, m: Machine, past: Past)
    requires Inv(groups, m, past) && Enabled(m, Mark)
    ensures Inv(groups, Do(groups, m, Mark), DoPast(m, past, Mark))
  {
    FlipOk(past.tl);
    MarksAfterFlip(m.framePut, m.marks, past.tl, m.put);
    FrameBegins(groups, m.acc, past.tl, past.pos, past.base);
    MarkedSlots(NextMark(m.framePut), m.marks[NextMark(m.framePut) := m.put], Flip(past.tl));
  }

  /** The marks between which a flip replays. */
  lemma {:induction false} MarkedSlots(framePut: nat, marks: seq<nat>, tl: Timeline)
    requires framePut < FRAME_HISTORY && MarksAgree(framePut, marks, tl) && tl.Flips() > 0
    ensures var current := CurrentMark(framePut);
            marks[current] == Slot(FrameStart(tl)) && marks[NextMark(current)] == Slot(tl.Drained())
  {
    MarkSteps(tl.Flips());
  }

  /** A frame begins with nothing replayed. */
  lemma {:induction false} FrameBegins(groups: Groups, acc: Totals, tl: Timeline, pos: nat, base: Totals)
    requires tl.Ok() && Flip(tl).Ok() && pos <= |tl.history| && Between(groups, acc, tl, pos, base)
    ensures FrameStart(Flip(tl)) == pos && During(groups, acc, Zero(), Flip(tl), pos, base)
  {
    FlipOk(tl);
    FramesStay(tl, Flip(tl), |tl.cuts| - 1);
    assert tl.history[pos..pos] == [];
  }

  lemma {:induction false} ReplayOneInv(groups: Groups, m: Machine, past: Past)
    requires Inv(groups, m, past) && Enabled(m, ReplayOne)
    ensures Inv(groups, Do(groups, m, ReplayOne), DoPast(m, past, ReplayOne))
  {
    ReplayingOneInv(groups, m, past);
    ReplayOneIs(groups, m, past);
  }

  lemma {:induction false} ReplayOneIs(groups: Groups, m: Machine, past: Past)
    requires Sane(m) && Enabled(m, ReplayOne) && past.tl.cuts != []
    ensures Do(groups, m, ReplayOne) == ReplayingOne(groups, m) && DoPast(m, past, ReplayOne) == past.(pos := past.pos + 1)
  {
  }

  lemma {:induction false} ReplayingOneInv(groups: Groups, m: Machine, past: Past)
    requires Inv(groups, m, past) && Enabled(m, ReplayOne)
    ensures Inv(groups, ReplayingOne(groups, m), past.(pos := past.pos + 1))
  {
    NotDone(m, past);
    ReplayOneStack(groups, m, past);
    RingMoves(m, past, ReplayingOne(groups, m));
    ReplayOneFlip(groups, m, past);
  }

  lemma {:induction false} ReplayOneStack(groups: Groups, m: Machine, past: Past)
    requires Sane(m) && Enabled(m, ReplayOne) && m.alive && past.tl.Ok() && past.pos < |past.tl.history|
    requires StackPart(groups, m, past)
    requires m.flipping.k == Slot(past.pos) && Read(m.words[m.flipping.k]) == past.tl.history[past.pos]
    ensures Sane(ReplayingOne(groups, m)) && StackPart(groups, ReplayingOne(groups, m), past.(pos := past.pos + 1))
  {
    StackGrows(groups, m.words, m.slots, m.child, m.groupPos, m.frame, past.tl.history, past.pos);
  }

  lemma {:induction false} ReplayOneFlip(groups: Groups, m: Machine, past: Past)
    requires Sane(m) && Enabled(m, ReplayOne) && m.alive && past.tl.Ok() && past.pos < past.tl.Drained() <= |past.tl.history|
    requires StackPart(groups, m, past) && FlipPart(groups, m, past) && Sane(ReplayingOne(groups, m))
    requires Read(m.words[m.flipping.k]) == past.tl.history[past.pos]
    ensures FlipPart(groups, ReplayingOne(groups, m), past.(pos := past.pos + 1))
  {
    SlotNext(past.pos);
    FrameGrows(groups, past.tl.history, FrameStart(past.tl), past.pos);
  }

  /** Up to the end slot there is something left to replay, and it is in the ring. */
  lemma {:induction false} NotDone(m: Machine, past: Past)
    requires Sane(m) && RingPart(m, past) && Enabled(m, ReplayOne) && past.tl.Flips() > 0 && past.pos <= past.tl.Drained()
    requires m.flipping.k == Slot(past.pos) && m.flipping.end == Slot(past.tl.Drained())
    ensures past.pos < past.tl.Drained() <= |past.tl.history|
    ensures Read(m.words[m.flipping.k]) == past.tl.history[past.pos]
  {
    FlipGap(past.tl);
  }

  lemma {:induction false} RingMoves(m: Machine, past: Past, m': Machine)
    requires Sane(m) && Sane(m') && RingPart(m, past) && PutPart(m, past) && past.pos < |past.tl.history|
    requires m'.put == m.put && m'.get == m.get && m'.words == m.words && m'.framePut == m.framePut && m'.marks == m.marks
    requires m'.alive == m.alive && m'.putting == m.putting
    ensures RingPart(m', past.(pos := past.pos + 1)) && PutPart(m', past.(pos := past.pos + 1))
  {
    OldestMoves(past.tl.history, past.pos);
  }

  /** The totals of the stacks do not matter to the stacks. */
  lemma {:induction false} StepStacks(groups: Groups, s: Stacks, t: Totals, t': Totals, e: Entry)
    requires WellSized(s) && Sized(t) && Sized(t') && Known(e)
    ensures Replayed(groups, s, t, e).0 == Replayed(groups, s, t', e).0
  {
  }

  lemma {:induction false} NextStacks(groups: Groups, history: seq<Entry>, pos: nat, t: Totals)
    requires pos < |history| && AllKnown(history) && Sized(t)
    ensures var s := ReplayAll(groups, Fresh(), Zero(), history[..pos]).0;
            ReplayAll(groups, Fresh(), Zero(), history[..pos + 1]).0 == Replayed(groups, s, t, history[pos]).0
  {
    var r := ReplayAll(groups, Fresh(), Zero(), history[..pos]);
    assert history[..pos + 1][..pos] == history[..pos] && history[..pos + 1][pos] == history[pos];
    StepStacks(groups, r.0, r.1, t, history[pos]);
  }

  /** One entry more on the stacks: the slot is pushed or popped as the entry is. */
  lemma {:induction false} StackGrows(groups: Groups, words: seq<Word>, slots: seq<nat>, child: seq<int>,
                                      groupPos: seq<nat>, t: Totals,
                   history: seq<Entry>, pos: nat)
    requires |words| == BUFFER_SIZE && pos < |history| && AllKnown(history) && Sized(t)
    requires slots == Slots(OpenAt(history[..pos])) && history[pos] == Read(words[Slot(pos)])
    requires Stacks(EntriesAt(words, slots), child, groupPos) == ReplayAll(groups, Fresh(), Zero(), history[..pos]).0
    ensures var e, slots' := history[pos], Pushed(slots, history[pos].kind, Slot(pos));
            var s := Replayed(groups, Stacks(EntriesAt(words, slots), child, groupPos), t, e).0;
            && slots' == Slots(OpenAt(history[..pos + 1])) && WellSized(s) && |s.open| == |slots'|
            && Stacks(EntriesAt(words, slots'), s.child, s.groupPos) == ReplayAll(groups, Fresh(), Zero(), history[..pos + 1]).0
  {
    assert history[..pos + 1][..pos] == history[..pos] && history[..pos + 1][pos] == history[pos];
    PushedSlots(OpenAt(history[..pos]), history[pos].kind, pos);
    OpenPushed(words, slots, history[pos], Slot(pos));
    NextStacks(groups, history, pos, t);
  }

  lemma {:induction false} OpenPushed(words: seq<Word>, slots: seq<nat>, e: Entry, k: nat)
    requires k < |words| && e == Read(words[k]) && forall i :: 0 <= i < |slots| ==> slots[i] < |words|
    ensures var slots', open := Pushed(slots, e.kind, k), EntriesAt(words, slots);
            && (forall i :: 0 <= i < |slots'| ==> slots'[i] < |words|)
            && EntriesAt(words, slots') == if e.kind == ENTER then open + [e]
                                           else if e.kind == LEAVE && open != [] then open[..|open| - 1]
                                           else open
  {
    if e.kind == ENTER {
      OneMoreAt(words, slots, k, e);
    } else if e.kind == LEAVE && slots != [] {
      OneLessAt(words, slots);
    }
  }

  lemma {:induction false} OneMoreAt(words: seq<Word>, slots: seq<nat>, k: nat, e: Entry)
    requires k < |words| && e == Read(words[k]) && forall i :: 0 <= i < |slots| ==> slots[i] < |words|
    ensures EntriesAt(words, slots + [k]) == EntriesAt(words, slots) + [e]
  {
    assert (slots + [k])[..|slots|] == slots;
  }

  lemma {:induction false} OneLessAt(words: seq<Word>, slots: seq<nat>)
    requires slots != [] && forall i :: 0 <= i < |slots| ==> slots[i] < |words|
    ensures EntriesAt(words, slots[..|slots| - 1]) == EntriesAt(words, slots)[..|slots| - 1]
  {
  }

  /** Stacks behind a part of the log, taken up where another part ended. */
  lemma {:induction false} StacksJoin(groups: Groups, history: seq<Entry>, a: nat, pos: nat)
    requires a <= pos <= |history| && AllKnown(history)
    ensures ReplayAll(groups, ReplayAll(groups, Fresh(), Zero(), history[..a]).0, Zero(), history[a..pos]).0
         == ReplayAll(groups, Fresh(), Zero(), history[..pos]).0
  {
    var before := ReplayAll(groups, Fresh(), Zero(), history[..a]);
    assert history[..a] + history[a..pos] == history[..pos];
    ReplayJoin(groups, Fresh(), Zero(), history[..a], history[a..pos]);
    SameStacks(groups, before.0, before.1, Zero(), history[a..pos]);
  }

  /** One entry more in the frame's totals. */
  lemma {:induction false} FrameGrows(groups: Groups, history: seq<Entry>, a: nat, pos: nat)
    requires a <= pos < |history| && AllKnown(history)
    ensures FrameUpTo(groups, history, a, pos + 1)
         == Replayed(groups, ReplayAll(groups, Fresh(), Zero(), history[..pos]).0, FrameUpTo(groups, history, a, pos), history[pos]).1
  {
    StacksJoin(groups, history, a, pos);
    SliceGrows(history, a, pos);
  }

  lemma {:induction false} SliceGrows(history: seq<Entry>, a: nat, pos: nat)
    requires a <= pos < |history|
    ensures var slice := history[a..pos + 1];
            |slice| > 0 && slice[..|slice| - 1] == history[a..pos] && slice[|slice| - 1] == history[pos]
  {
  }

  lemma {:induction false} EndFlipInv(groups: Groups, m: Machine, past: Past)
    requires Inv(groups, m, past) && Enabled(m, EndFlip)
    ensures Inv(groups, Do(groups, m, EndFlip), past)
  {
    var tl, b := past.tl, past.tl.Drained();
    FlipGap(tl);
    if past.pos < b {
      SlotsDiffer(past.pos, b);
    }
    FrameEnds(groups, tl, past.base);
  }

  /** Two marks are less than a ring apart. */
  lemma {:induction false} FlipGap(tl: Timeline)
    requires tl.Ok() && tl.Flips() > 0
    ensures FrameStart(tl) <= tl.Drained() < FrameStart(tl) + BUFFER_SIZE && tl.Drained() <= |tl.history|
  {
  }

  /** The last frame is the slice between its marks. */
  lemma {:induction false} FrameEnds(groups: Groups, tl: Timeline, base: Totals)
    requires tl.Ok() && tl.Flips() > 0 && Sized(base) && FrameStart(tl) <= tl.Drained() <= |tl.history|
    ensures Accumulated(RunFrames(groups, Fresh(), base, tl.FramesUpTo(tl.Flips() - 1)).1,
                        FrameUpTo(groups, tl.history, FrameStart(tl), tl.Drained()))
         == RunFrames(groups, Fresh(), base, tl.Frames()).1
  {
    FrameEndsAt(groups, tl, base, tl.Flips() - 1, FrameStart(tl), tl.Drained());
  }

  lemma {:induction false} FrameEndsAt(groups: Groups, tl: Timeline, base: Totals, before: nat, a: nat, b: nat)
    requires tl.Ok() && before == tl.Flips() - 1 && Sized(base) && a == FrameStart(tl) && b == tl.Drained() && a <= b <= |tl.history|
    ensures Accumulated(RunFrames(groups, Fresh(), base, tl.FramesUpTo(before)).1, FrameUpTo(groups, tl.history, a, b))
         == RunFrames(groups, Fresh(), base, tl.Frames()).1
  {
    var s := ReplayAll(groups, Fresh(), Zero(), tl.history[..a]).0;
    StacksUpTo(groups, tl, before, base);
    StartsWith(tl, tl.Flips(), before, a, b);
    LastFrame(groups, tl.FramesUpTo(before), tl.history[a..b], base, s);
  }

  /** The last frame, and where it begins. */
  lemma {:induction false} StartsWith(tl: Timeline, f: nat, before: nat, a: nat, b: nat)
    requires tl.Ok() && f == tl.Flips() > 0 && before == f - 1 && a == FrameStart(tl) && b == tl.Drained()
    ensures tl.Cut(before - FRAME_DELAY) == a <= b <= |tl.history|
    ensures tl.Frames() == tl.FramesUpTo(before) + [tl.history[a..b]]
  {
    assert tl.Slice(f) == tl.history[a..b];
  }

  lemma {:induction false} LastFrame(groups: Groups, frames: seq<seq<Entry>>, slice: seq<Entry>, base: Totals, s: Stacks)
    requires Sized(base) && WellSized(s) && AllKnown(slice) && forall i :: 0 <= i < |frames| ==> AllKnown(frames[i])
    requires RunFrames(groups, Fresh(), base, frames).0 == s
    ensures RunFrames(groups, Fresh(), base, frames + [slice]).1
         == Accumulated(RunFrames(groups, Fresh(), base, frames).1, ReplayAll(groups, s, Zero(), slice).1)
  {
    RunFramesAppend(groups, Fresh(), base, frames, slice);
  }

  lemma {:induction false} StacksUpTo(groups: Groups, tl: Timeline, f: nat, base: Totals)
    requires tl.Ok() && f < |tl.cuts| && Sized(base)
    ensures RunFrames(groups, Fresh(), base, tl.FramesUpTo(f)).0
         == ReplayAll(groups, Fresh(), Zero(), tl.history[..tl.Cut(f - FRAME_DELAY)]).0
  {
    FramesAddUp(groups, Fresh(), base, tl.FramesUpTo(f));
    FramesJoin(tl, f);
    SameStacks(groups, Fresh(), base, Zero(), tl.history[..tl.Cut(f - FRAME_DELAY)]);
  }

  // ----- one thread after the other

  lemma {:induction false} ExitInv(groups: Groups, m: Machine, past: Past)
    requires Inv(groups, m, past) && Enabled(m, Exit)
    ensures Inv(groups, Do(groups, m, Exit), DoPast(m, past, Exit))
  {
    var past' := DoPast(m, past, Exit);
    NothingPut(groups, m.acc, |past.tl.cuts|);
    NoMarks(m.framePut, past.tl, past'.tl);
    ExitRing(m, Do(groups, m, Exit), past');
  }

  lemma {:induction false} ExitRing(m: Machine, m': Machine, past': Past)
    requires Sane(m) && m' == m.(put := 0, get := 0, marks := Zeros(FRAME_HISTORY), groupPos := Zeros(MAX_GROUPS), alive := false)
    requires past'.tl.Ok() && past'.tl.history == [] && past'.pos == 0 && past'.tl.cuts[|past'.tl.cuts| - 1] == 0
    requires MarksAgree(m.framePut, Zeros(FRAME_HISTORY), past'.tl)
    ensures Sane(m') && RingPart(m', past')
  {
  }

  /** With all marks cleared the log has been empty at every flip. */
  lemma {:induction false} NoMarks(framePut: nat, tl: Timeline, tl': Timeline)
    requires tl.Ok() && tl'.Ok() && framePut == MarkAt(tl.Flips())
    requires tl' == Timeline([], seq(|tl.cuts|, _ => 0))
    ensures MarksAgree(framePut, Zeros(FRAME_HISTORY), tl')
  {
    assert tl'.Flips() == tl.Flips();
  }

  /** Nothing that was not put is accumulated. */
  lemma {:induction false} NothingPut(groups: Groups, acc: Totals, flips: nat)
    requires Sized(acc) && flips > 0
    ensures var tl := Timeline([], seq(flips, _ => 0)); tl.Ok() && Between(groups, acc, tl, 0, acc)
  {
    var tl := Timeline([], seq(flips, _ => 0));
    assert tl.Ok();
    EmptyFrames(tl, |tl.cuts| - 1);
    RunEmpty(groups, Fresh(), acc, tl.Frames());
  }

  lemma {:induction false} EmptyFrames(tl: Timeline, f: nat)
    requires tl.Ok() && tl.history == [] && f < |tl.cuts|
    ensures forall i :: 0 <= i < f ==> tl.FramesUpTo(f)[i] == []
    decreases f
  {
    if f > 0 {
      EmptyFrames(tl, f - 1);
      assert tl.Slice(f) == [];
    }
  }

  lemma {:induction false} RunEmpty(groups: Groups, s: Stacks, acc: Totals, frames: seq<seq<Entry>>)
    requires WellSized(s) && Sized(acc) && forall i :: 0 <= i < |frames| ==> frames[i] == []
    ensures RunFrames(groups, s, acc, frames) == (s, acc)
    decreases |frames|
  {
    if frames != [] {
      AccumulateZero(acc);
      RunEmpty(groups, s, acc, frames[1..]);
    }
  }

  lemma {:induction false} BeginInv(groups: Groups, m: Machine, past: Past)
    requires Inv(groups, m, past) && Enabled(m, Begin)
    ensures Inv(groups, Do(groups, m, Begin), past)
  {
  }

  // ----- runs

  lemma {:induction false} StepInv(groups: Groups, m: Machine, past: Past, step: Step)
    requires Inv(groups, m, past) && Enabled(m, step) && Allowed(m, past, step)
    ensures Inv(groups, Do(groups, m, step), DoPast(m, past, step))
  {
    match step
    case Test(op) => TestInv(groups, m, past, op);
    case Store => StoreInv(groups, m, past);
    case Publish => PublishInv(groups, m, past);
    case Mark => MarkInv(groups, m, past);
    case ReplayOne => ReplayOneInv(groups, m, past);
    case EndFlip => EndFlipInv(groups, m, past);
    case Exit => ExitInv(groups, m, past);
    case Begin => BeginInv(groups, m, past);
  }

  ghost predicate IsRun(groups: Groups, m: Machine, past: Past, steps: seq<Step>)
    requires past.tl.cuts != []
    decreases |steps|
  {
    steps != [] ==>
      && Sane(m) && past.pos <= |past.tl.history| && Enabled(m, steps[0]) && Allowed(m, past, steps[0])
      && IsRun(groups, Do(groups, m, steps[0]), DoPast(m, past, steps[0]), steps[1..])
  }

  ghost function After(groups: Groups, m: Machine, past: Past, steps: seq<Step>): (Machine, Past)
    requires past.tl.cuts != [] && IsRun(groups, m, past, steps)
    decreases |steps|
  {
    if steps == [] then (m, past) else After(groups, Do(groups, m, steps[0]), DoPast(m, past, steps[0]), steps[1..])
  }

  lemma {:induction false} RunInv(groups: Groups, m: Machine, past: Past, steps: seq<Step>)
    requires Inv(groups, m, past) && IsRun(groups, m, past, steps)
    ensures var (m', past') := After(groups, m, past, steps); Inv(groups, m', past')
    decreases |steps|
  {
    if steps != [] {
      StepInv(groups, m, past, steps[0]);
      RunInv(groups, Do(groups, m, steps[0]), DoPast(m, past, steps[0]), steps[1..]);
    }
  }

  /** A run that goes on where another ended. */
  lemma {:induction false} RunJoin(groups: Groups, m: Machine, past: Past, a: seq<Step>, b: seq<Step>)
    requires past.tl.cuts != [] && IsRun(groups, m, past, a) && After(groups, m, past, a).1.tl.cuts != []
    requires IsRun(groups, After(groups, m, past, a).0, After(groups, m, past, a).1, b)
    ensures IsRun(groups, m, past, a + b)
    ensures After(groups, m, past, a + b) == After(groups, After(groups, m, past, a).0, After(groups, m, past, a).1, b)
    decreases |a|
  {
    if a == [] {
      assert a + b == b;
    } else {
      RunJoin(groups, Do(groups, m, a[0]), DoPast(m, past, a[0]), a[1..], b);
      FirstOfJoin(a, b);
      RunCons(groups, m, past, a[0], a[1..] + b);
    }
  }

  lemma {:induction false} FirstOfJoin(a: seq<Step>, b: seq<Step>)
    requires a != []
    ensures a + b == [a[0]] + (a[1..] + b)
  {
  }

  lemma {:induction false} RunCons(groups: Groups, m: Machine, past: Past, step: Step, rest: seq<Step>)
    requires past.tl.cuts != [] && Sane(m) && past.pos <= |past.tl.history| && Enabled(m, step) && Allowed(m, past, step)
    requires IsRun(groups, Do(groups, m, step), DoPast(m, past, step), rest)
    ensures IsRun(groups, m, past, [step] + rest)
    ensures After(groups, m, past, [step] + rest) == After(groups, Do(groups, m, step), DoPast(m, past, step), rest)
  {
    assert ([step] + rest)[1..] == rest;
  }

  /** Main result, for every interleaving of the steps of puts and flips, and for any number of threads
      that own the log one after the other: between two flips, stacks and accumulated totals are those
      of the frames of the present owner, on top of what was accumulated when it took over. */
  lemma {:induction false} InterleavedRun(groups: Groups, steps: seq<Step>)
    requires IsRun(groups, Start(), BEGINNING, steps)
    ensures var (m, past) := After(groups, Start(), BEGINNING, steps);
            && Inv(groups, m, past)
            && (m.flipping.NoFlip? ==> m.acc == RunFrames(groups, Fresh(), past.base, past.tl.Frames()).1)
            && (m.flipping.NoFlip? && m.alive ==> StacksOf(m) == RunFrames(groups, Fresh(), past.base, past.tl.Frames()).0)
  {
    StartInv(groups);
    RunInv(groups, Start(), BEGINNING, steps);
    var (m, past) := After(groups, Start(), BEGINNING, steps);
    if m.flipping.NoFlip? {
      Settled(groups, m, past);
    }
  }

  /** Between flips the stacks are those behind the frames. */
  lemma {:induction false} Settled(groups: Groups, m: Machine, past: Past)
    requires Inv(groups, m, past) && m.flipping.NoFlip?
    ensures m.alive ==> StacksOf(m) == RunFrames(groups, Fresh(), past.base, past.tl.Frames()).0
  {
    StacksUpTo(groups, past.tl, |past.tl.cuts| - 1, past.base);
  }

  // ----- the steps are there

  /** In every reachable state somebody can go on: a flip when none is under way, the owner with a put,
      and without an owner a new one. */
  lemma {:induction false} SomeoneCanGoOn(groups: Groups, steps: seq<Step>, op: Op)
    requires IsRun(groups, Start(), BEGINNING, steps) && op.LogEntry? && op.kind < 4
    ensures var m := After(groups, Start(), BEGINNING, steps).0;
            && Sane(m)
            && (m.flipping.NoFlip? ==> Enabled(m, Mark))
            && (m.flipping.Replaying? && m.flipping.k == m.flipping.end ==> Enabled(m, EndFlip))
            && (m.alive ==> Enabled(m, match m.putting case NoPut => Test(op) case Tested(_) => Store case Stored(_) => Publish))
            && (!m.alive && m.flipping.NoFlip? ==> Enabled(m, Begin))
  {
    StartInv(groups);
    RunInv(groups, Start(), BEGINNING, steps);
  }

  /** A new owner's first put goes through, to the first slot of an empty ring. */
  lemma {:induction false} NewOwnerPuts(groups: Groups, m: Machine, past: Past, op: Op)
    requires Inv(groups, m, past) && Enabled(m, Begin) && op.LogEntry? && op.kind < 4
    ensures var m1 := Do(groups, m, Begin);
            && Sane(m1) && Enabled(m1, Test(op))
            && var m2 := Do(groups, m1, Test(op));
            && Sane(m2) && Enabled(m2, Store)
            && var m3 := Do(groups, m2, Store);
            && Sane(m3) && Enabled(m3, Publish)
            && var m4 := Do(groups, m3, Publish);
               m4.alive && m4.put == 1 && m4.get == 0 && m4.words[0] == WordOf(op) && m4.slots == [] && m4.putting.NoPut?
  {
  }
}
