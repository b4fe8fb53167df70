/** What a thread has put into its log and where the flips cut it, and how much of it the ring must
    still hold. */
module ProfileTimeline {
  import opened ProfileLog
  import opened ProfileReplay
  import opened ProfileNesting
  import opened ProfileFrames
  import opened ProfileFlip

  /** A flip replays the frame that ended this many flips ago. */
  const FRAME_DELAY: nat := 3

  /** All entries that were stored, and how many there were at each flip, from the start on. */
  datatype Timeline = Timeline(history: seq<Entry>, cuts: seq<nat>)
  {
    ghost predicate Ok()
    {
      && cuts != [] && cuts[0] == 0 && cuts[|cuts| - 1] <= |history|
      && |history| - cuts[|cuts| - 1] < BUFFER_SIZE
      && (forall i, j :: 0 <= i <= j < |cuts| ==> cuts[i] <= cuts[j])
      && (forall i :: 0 <= i < |cuts| - 1 ==> cuts[i + 1] - cuts[i] < BUFFER_SIZE)
      && AllKnown(history)
    }

    function Flips(): int { |cuts| - 1 }

    /** Before the first flip the log is empty. */
    function Cut(k: int): nat
      requires k < |cuts|
    {
      if k < 0 then 0 else cuts[k]
    }

    /** How many entries have been replayed. */
    function Drained(): nat
      requires cuts != []
    {
      Cut(Flips() - FRAME_DELAY)
    }

    /** What flip `i` replays. */
    ghost function Slice(i: nat): seq<Entry>
      requires Ok() && 1 <= i < |cuts|
    {
      history[Cut(i - FRAME_DELAY - 1)..Cut(i - FRAME_DELAY)]
    }

    ghost function FramesUpTo(f: nat): (r: seq<seq<Entry>>)
      requires Ok() && f < |cuts|
      ensures |r| == f && forall i :: 0 <= i < f ==> AllKnown(r[i])
    {
      if f == 0 then [] else FramesUpTo(f - 1) + [Slice(f)]
    }

    /** All frames replayed so far. */
    ghost function Frames(): (r: seq<seq<Entry>>)
      requires Ok()
      ensures forall i :: 0 <= i < |r| ==> AllKnown(r[i])
    {
      FramesUpTo(|cuts| - 1)
    }
  }

  const EMPTY: Timeline := Timeline([], [0])

  // ----- open Enters

  /** The positions of the Enters that are open behind a log. */
  function OpenAt(log: seq<Entry>): (at: seq<nat>)
    ensures forall i :: 0 <= i < |at| ==> at[i] < |log|
    ensures forall i, j :: 0 <= i < j < |at| ==> at[i] < at[j]
  {
    if log == [] then []
    else
      var n := |log| - 1;
      Pushed(OpenAt(log[..n]), log[n].kind, n)
  }

  /** They are what the replay has on its stack. */
  lemma {:induction false} OpenIs(groups: Groups, t: Totals, log: seq<Entry>)
    requires Sized(t) && AllKnown(log)
    ensures var open := ReplayAll(groups, Fresh(), t, log).0.open;
            |open| == |OpenAt(log)| && forall i :: 0 <= i < |open| ==> open[i] == log[OpenAt(log)[i]]
    decreases |log|
  {
    if log != [] {
      var n := |log| - 1;
      OpenIs(groups, t, log[..n]);
      var before := ReplayAll(groups, Fresh(), t, log[..n]);
      OpenStep(groups, before.0, before.1, log, OpenAt(log[..n]));
    }
  }

  lemma {:induction false} OpenStep(groups: Groups, s: Stacks, t: Totals, log: seq<Entry>, at: seq<nat>)
    requires WellSized(s) && Sized(t) && log != [] && Known(log[|log| - 1])
    requires |s.open| == |at| && forall i :: 0 <= i < |at| ==> at[i] < |log| - 1 && s.open[i] == log[..|log| - 1][at[i]]
    ensures var n := |log| - 1;
            var open, at' := Replayed(groups, s, t, log[n]).0.open, Pushed(at, log[n].kind, n);
            |open| == |at'| && forall i :: 0 <= i < |at'| ==> at'[i] < |log| && open[i] == log[at'[i]]
  {
  }

  /** What is open behind more of the log was open before or came since. */
  lemma {:induction false} OpenSince(a: seq<Entry>, b: seq<Entry>)
    ensures forall i :: 0 <= i < |OpenAt(a + b)| ==> OpenAt(a + b)[i] >= |a| || OpenAt(a + b)[i] in OpenAt(a)
    decreases |b|
  {
    if b == [] {
      assert a + b == a;
    } else {
      var n := |b| - 1;
      assert (a + b)[..|a + b| - 1] == a + b[..n];
      OpenSince(a, b[..n]);
    }
  }

  function Slots(at: seq<nat>): (r: seq<nat>)
    ensures |r| == |at| && forall i :: 0 <= i < |at| ==> r[i] == Slot(at[i])
  {
    seq(|at|, i requires 0 <= i < |at| => Slot(at[i]))
  }

  lemma {:induction false} SlotOfSum(p: nat, n: nat)
    ensures Slot(Slot(p) + n) == Slot(p + n)
    decreases p
  {
    if p >= BUFFER_SIZE {
      SlotOfSum(p - BUFFER_SIZE, n);
    }
  }

  /** The stack of ring slots is the stack of positions. */
  lemma {:induction false} OpenSlotsAre(past: seq<Entry>, entries: seq<Entry>)
    ensures OpenSlots(Slots(OpenAt(past)), Slot(|past|), entries) == Slots(OpenAt(past + entries))
    decreases |entries|
  {
    if entries == [] {
      assert past + entries == past;
    } else {
      var n := |entries| - 1;
      assert (past + entries)[..|past + entries| - 1] == past + entries[..n];
      OpenSlotsAre(past, entries[..n]);
      SlotOfSum(|past|, n);
      PushedSlots(OpenAt(past + entries[..n]), entries[n].kind, |past| + n);
    }
  }

  lemma {:induction false} PushedSlots(at: seq<nat>, kind: nat, p: nat)
    ensures Pushed(Slots(at), kind, Slot(p)) == Slots(Pushed(at, kind, p))
  {
  }

  // ----- the ring

  /** The oldest entry that is still needed when the first `pos` are replayed: the outermost open Enter,
      or else the first that is not replayed yet. */
  ghost function OldestFrom(history: seq<Entry>, pos: nat): (p: nat)
    requires pos <= |history|
    ensures p <= pos
  {
    var open := OpenAt(history[..pos]);
    if open == [] then pos else open[0]
  }

  ghost function Oldest(tl: Timeline): (p: nat)
    requires tl.Ok()
    ensures p <= tl.Drained() <= |tl.history|
  {
    OldestFrom(tl.history, tl.Drained())
  }

  /** All that is still needed is in the ring. */
  ghost predicate RingFrom(words: seq<Word>, history: seq<Entry>, pos: nat)
    requires pos <= |history| && |words| == BUFFER_SIZE
  {
    forall p: nat :: OldestFrom(history, pos) <= p < |history| ==> Read(words[Slot(p)]) == history[p]
  }

  ghost predicate InRing(words: seq<Word>, tl: Timeline)
    requires tl.Ok() && |words| == BUFFER_SIZE
  {
    RingFrom(words, tl.history, tl.Drained())
  }

  /** Positions less than a ring apart, from a slot on. */
  lemma {:induction false} SlotBehind(a: nat, n: nat)
    requires n < BUFFER_SIZE
    ensures Slot(a + n) == if Slot(a) + n < BUFFER_SIZE then Slot(a) + n else Slot(a) + n - BUFFER_SIZE
  {
    SlotOfSum(a, n);
  }

  lemma {:induction false} SlotsDiffer(p: nat, q: nat)
    requires p < q < p + BUFFER_SIZE
    ensures Slot(p) != Slot(q)
  {
    SlotBehind(p, q - p);
  }

  lemma {:induction false} SlotNext(p: nat)
    ensures Slot(p + 1) == NextPos(Slot(p), BUFFER_SIZE)
  {
    SlotBehind(p, 1);
  }

  /** A slice of the ring, slot by slot. */
  lemma {:induction false} RingSliceAt(words: seq<Word>, a: nat, b: nat, n: nat, i: nat, at: nat)
    requires |words| == BUFFER_SIZE && n < BUFFER_SIZE && i < n && b == a + n && at == a + i
    ensures var r := RingSlice(words, Slot(a), Slot(b)); |r| == n && r[i] == words[Slot(at)]
  {
    SlotBehind(a, n);
    SlotBehind(a, i);
    var r := RingSlice(words, Slot(a), Slot(b));
    if Slot(a) + i < BUFFER_SIZE {
      assert r[i] == words[Slot(a) + i];
    } else {
      assert r[i] == words[Slot(a) + i - BUFFER_SIZE];
    }
  }

  lemma {:induction false} RingSliceEmpty(words: seq<Word>, a: nat)
    requires |words| == BUFFER_SIZE
    ensures RingSlice(words, Slot(a), Slot(a)) == []
  {
  }

  /** The slice between two marks holds what was put between them. */
  lemma {:induction false} SliceIs(words: seq<Word>, history: seq<Entry>, pos: nat, a: nat, b: nat)
    requires pos <= |history| && |words| == BUFFER_SIZE && RingFrom(words, history, pos)
    requires pos <= a <= b <= |history| && b - a < BUFFER_SIZE
    ensures ReadAll(RingSlice(words, Slot(a), Slot(b))) == history[a..b]
  {
    var n := b - a;
    var r := RingSlice(words, Slot(a), Slot(b));
    if n == 0 {
      RingSliceEmpty(words, a);
    } else {
      RingSliceAt(words, a, b, n, 0, a);
      forall i | 0 <= i < n
        ensures Read(r[i]) == history[a..b][i]
      {
        RingSliceAt(words, a, b, n, i, a + i);
      }
    }
  }

  /** One entry more. */
  function Put(tl: Timeline, e: Entry): Timeline { tl.(history := tl.history + [e]) }

  /** The slot behind the newest entry is not needed any more, or the entry put there is the one that
      it held. */
  ghost predicate SparesFrom(history: seq<Entry>, pos: nat, e: Entry)
    requires pos <= |history|
  {
    |history| - OldestFrom(history, pos) < BUFFER_SIZE || e == history[|history| - BUFFER_SIZE]
  }

  ghost predicate Spares(tl: Timeline, e: Entry)
    requires tl.Ok()
  {
    SparesFrom(tl.history, tl.Drained(), e)
  }

  /** Positions in the same slot are a ring or more apart. */
  lemma {:induction false} SlotReused(p: nat, h: nat)
    requires p < h && Slot(p) == Slot(h)
    ensures p + BUFFER_SIZE <= h
  {
    if h < p + BUFFER_SIZE {
      SlotsDiffer(p, h);
    }
  }

  lemma {:induction false} SlotBefore(h: nat)
    requires h >= BUFFER_SIZE
    ensures Slot(h - BUFFER_SIZE) == Slot(h)
  {
  }

  /** What is needed does not depend on what was put last. */
  lemma {:induction false} OldestStays(history: seq<Entry>, pos: nat, e: Entry)
    requires pos <= |history|
    ensures OldestFrom(history + [e], pos) == OldestFrom(history, pos)
  {
    assert (history + [e])[..pos] == history[..pos];
  }

  /** Writing an entry behind the newest, before it counts as put. */
  lemma {:induction false} WriteKeeps(words: seq<Word>, history: seq<Entry>, pos: nat, w: Word)
    requires pos <= |history| && |words| == BUFFER_SIZE && RingFrom(words, history, pos) && SparesFrom(history, pos, Read(w))
    ensures RingFrom(words[Slot(|history|) := w], history, pos)
  {
    var h := |history|;
    forall p: nat | OldestFrom(history, pos) <= p < h
      ensures Read(words[Slot(h) := w][Slot(p)]) == history[p]
    {
      if Slot(p) == Slot(h) {
        SlotReused(p, h);
        SlotBefore(h);
        assert Read(words[Slot(h - BUFFER_SIZE)]) == history[h - BUFFER_SIZE];
      }
    }
  }

  /** An entry that was written counts as put. */
  lemma {:induction false} PublishKeeps(words: seq<Word>, history: seq<Entry>, pos: nat, e: Entry)
    requires pos <= |history| && |words| == BUFFER_SIZE && RingFrom(words, history, pos)
    requires Read(words[Slot(|history|)]) == e
    ensures RingFrom(words, history + [e], pos)
  {
    OldestStays(history, pos, e);
    assert forall p: nat :: p < |history| ==> (history + [e])[p] == history[p];
  }

  /** A put keeps all that is needed in the ring exactly when it spares it. */
  lemma {:induction false} PutKeepsExactly(words: seq<Word>, history: seq<Entry>, pos: nat, w: Word)
    requires pos <= |history| && |words| == BUFFER_SIZE && RingFrom(words, history, pos)
    ensures RingFrom(words[Slot(|history|) := w], history + [Read(w)], pos) <==> SparesFrom(history, pos, Read(w))
  {
    var h, e, words' := |history|, Read(w), words[Slot(|history|) := w];
    OldestStays(history, pos, e);
    if SparesFrom(history, pos, e) {
      WriteKeeps(words, history, pos, w);
      PublishKeeps(words', history, pos, e);
    } else {
      SlotBefore(h);
      assert (history + [e])[h - BUFFER_SIZE] == history[h - BUFFER_SIZE];
    }
  }

  lemma {:induction false} SameEntries(words: seq<Word>, words': seq<Word>, slots: seq<nat>)
    requires |words| == |words'| && forall i :: 0 <= i < |slots| ==> slots[i] < |words|
    requires forall i :: 0 <= i < |slots| ==> Read(words'[slots[i]]) == Read(words[slots[i]])
    ensures EntriesAt(words', slots) == EntriesAt(words, slots)
    decreases |slots|
  {
    if slots != [] {
      SameEntries(words, words', slots[..|slots| - 1]);
    }
  }

  /** A ring that changes only where nothing is needed leaves the stacks of the replay alone. */
  lemma {:induction false} OpenStay(words: seq<Word>, words': seq<Word>, history: seq<Entry>, pos: nat, at: seq<nat>)
    requires pos <= |history| && |words| == |words'| == BUFFER_SIZE && at == OpenAt(history[..pos])
    requires RingFrom(words, history, pos) && RingFrom(words', history, pos)
    ensures EntriesAt(words', Slots(at)) == EntriesAt(words, Slots(at))
  {
    forall i | 0 <= i < |at|
      ensures Read(words'[Slot(at[i])]) == Read(words[Slot(at[i])])
    {
      var p := at[i];
      assert OldestFrom(history, pos) <= p < |history|;
    }
    SameEntries(words, words', Slots(at));
  }

  /** What is needed behind one more entry of the replay was needed before. */
  lemma {:induction false} OldestMoves(history: seq<Entry>, pos: nat)
    requires pos < |history|
    ensures OldestFrom(history, pos) <= OldestFrom(history, pos + 1)
  {
    assert history[..pos + 1][..pos] == history[..pos];
  }

  /** One flip more. */
  function Flip(tl: Timeline): Timeline { tl.(cuts := tl.cuts + [|tl.history|]) }

  lemma {:induction false} FlipOk(tl: Timeline)
    requires tl.Ok()
    ensures Flip(tl).Ok()
    ensures Flip(tl).Cut(tl.Flips() - FRAME_DELAY) == tl.Drained()
    ensures tl.Drained() <= Flip(tl).Drained() <= |tl.history| && Flip(tl).Drained() - tl.Drained() < BUFFER_SIZE
  {
    assert forall i :: 0 <= i < |tl.cuts| ==> Flip(tl).cuts[i] == tl.cuts[i];
  }

  /** What is needed behind a flip was needed before, or has not been replayed yet. */
  lemma {:induction false} OldestGrows(tl: Timeline, a: nat, b: nat)
    requires tl.Ok() && Flip(tl).Ok() && a == tl.Drained() <= b == Flip(tl).Drained()
    ensures Oldest(tl) <= Oldest(Flip(tl))
  {
    var old_, since := tl.history[..a], tl.history[a..b];
    assert old_ + since == tl.history[..b];
    OpenSince(old_, since);
  }

  // ----- frames

  lemma {:induction false} RunFramesAppend(groups: Groups, s: Stacks, acc: Totals, frames: seq<seq<Entry>>, f: seq<Entry>)
    requires WellSized(s) && Sized(acc) && AllKnown(f) && forall i :: 0 <= i < |frames| ==> AllKnown(frames[i])
    ensures var r := RunFrames(groups, s, acc, frames);
            var last := ReplayAll(groups, r.0, Zero(), f);
            RunFrames(groups, s, acc, frames + [f]) == (last.0, Accumulated(r.1, last.1))
    decreases |frames|
  {
    if frames == [] {
      assert frames + [f] == [f] && [f][1..] == [];
    } else {
      var r := ReplayAll(groups, s, Zero(), frames[0]);
      assert (frames + [f])[0] == frames[0] && (frames + [f])[1..] == frames[1..] + [f];
      RunFramesAppend(groups, r.0, Accumulated(acc, r.1), frames[1..], f);
    }
  }

  lemma {:induction false} JoinedAppend(frames: seq<seq<Entry>>, f: seq<Entry>)
    ensures Joined(frames + [f]) == Joined(frames) + f
    decreases |frames|
  {
    if frames == [] {
      assert frames + [f] == [f] && [f][1..] == [] && f + [] == f;
    } else {
      assert (frames + [f])[0] == frames[0] && (frames + [f])[1..] == frames[1..] + [f];
      JoinedAppend(frames[1..], f);
      assert frames[0] + (Joined(frames[1..]) + f) == frames[0] + Joined(frames[1..]) + f;
    }
  }

  /** The replayed frames are the beginning of the log. */
  lemma {:induction false} FramesJoin(tl: Timeline, f: nat)
    requires tl.Ok() && f < |tl.cuts|
    ensures Joined(tl.FramesUpTo(f)) == tl.history[..tl.Cut(f - FRAME_DELAY)]
    decreases f
  {
    if f > 0 {
      FramesJoin(tl, f - 1);
      JoinedAppend(tl.FramesUpTo(f - 1), tl.Slice(f));
      var a, b := tl.Cut(f - FRAME_DELAY - 1), tl.Cut(f - FRAME_DELAY);
      assert tl.history[..a] + tl.history[a..b] == tl.history[..b];
    }
  }

  /** Frames stay what they are when the log and the flips go on. */
  lemma {:induction false} FramesStay(tl: Timeline, tl': Timeline, f: nat)
    requires tl.Ok() && tl'.Ok() && tl.history <= tl'.history && tl.cuts <= tl'.cuts && f < |tl.cuts|
    ensures tl'.FramesUpTo(f) == tl.FramesUpTo(f)
    decreases f
  {
    if f > 0 {
      FramesStay(tl, tl', f - 1);
      CutStays(tl, tl', f - FRAME_DELAY - 1);
      CutStays(tl, tl', f - FRAME_DELAY);
      PartStays(tl.history, tl'.history, tl.Cut(f - FRAME_DELAY - 1), tl.Cut(f - FRAME_DELAY));
    }
  }

  lemma {:induction false} CutStays(tl: Timeline, tl': Timeline, k: int)
    requires tl.cuts <= tl'.cuts && k < |tl.cuts|
    ensures tl'.Cut(k) == tl.Cut(k)
  {
  }

  lemma {:induction false} PartStays(h: seq<Entry>, h': seq<Entry>, a: nat, b: nat)
    requires h <= h' && a <= b <= |h|
    ensures h'[a..b] == h[a..b]
  {
  }

  lemma {:induction false} FramesAfterFlip(tl: Timeline)
    requires tl.Ok() && Flip(tl).Ok()
    ensures Flip(tl).Frames() == tl.Frames() + [tl.history[tl.Drained()..Flip(tl).Drained()]]
  {
    FramesStay(tl, Flip(tl), |tl.cuts| - 1);
  }

  lemma {:induction false} FramesAfterPut(tl: Timeline, e: Entry)
    requires tl.Ok() && Put(tl, e).Ok()
    ensures Put(tl, e).Frames() == tl.Frames()
  {
    FramesStay(tl, Put(tl, e), |tl.cuts| - 1);
  }

  /** The stacks behind the replayed frames are those of the whole log so far. */
  lemma {:induction false} StacksAre(groups: Groups, tl: Timeline)
    requires tl.Ok()
    ensures RunFrames(groups, Fresh(), Zero(), tl.Frames()) == ReplayAll(groups, Fresh(), Zero(), tl.history[..tl.Drained()])
  {
    FramesAddUp(groups, Fresh(), Zero(), tl.Frames());
    FramesJoin(tl, |tl.cuts| - 1);
  }

  /** A log that is nowhere too deep. */
  ghost predicate DepthFits(log: seq<Entry>, from: nat)
  {
    forall n :: from <= n <= |log| ==> |OpenAt(log[..n])| < STACK_MAX
  }

  lemma {:induction false} StackFitsHere(groups: Groups, past: seq<Entry>, slice: seq<Entry>, t: Totals)
    requires AllKnown(past) && AllKnown(slice) && Sized(t) && DepthFits(past + slice, |past|)
    ensures StackFits(groups, ReplayAll(groups, Fresh(), Zero(), past).0, t, slice)
  {
    var s := ReplayAll(groups, Fresh(), Zero(), past).0;
    forall i | 0 <= i <= |slice|
      ensures |ReplayAll(groups, s, t, slice[..i]).0.open| < STACK_MAX
    {
      var log := past + slice[..i];
      assert (past + slice)[..|past| + i] == log;
      ReplayJoin(groups, Fresh(), Zero(), past, slice[..i]);
      OpenIs(groups, Zero(), log);
      SameStacks(groups, s, ReplayAll(groups, Fresh(), Zero(), past).1, t, slice[..i]);
    }
  }

  /** The stacks do not depend on the totals. */
  lemma {:induction false} SameStacks(groups: Groups, s: Stacks, t: Totals, t': Totals, log: seq<Entry>)
    requires WellSized(s) && Sized(t) && Sized(t') && AllKnown(log)
    ensures ReplayAll(groups, s, t, log).0 == ReplayAll(groups, s, t', log).0
    decreases |log|
  {
    if log != [] {
      SameStacks(groups, s, t, t', log[..|log| - 1]);
    }
  }
}
