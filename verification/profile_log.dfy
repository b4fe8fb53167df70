/** Log entries of the profiler and the ring they are kept in. */
module ProfileLog {

  const TICK_RANGE: nat := 0x1_0000_0000_0000      // ticks are kept modulo 2^48
  const HALF_RANGE: nat := 0x8000_0000_0000
  const INDEX_RANGE: nat := 0x4000                 // 14 bits of timer index
  const LEAVE: nat := 0
  const ENTER: nat := 1
  const META: nat := 2
  const GPU_EXTRA: nat := 3
  const WORD: nat := 0x1_0000_0000_0000_0000

  /** A log entry, read. */
  datatype Entry = Entry(kind: nat, timer: nat, tick: nat)

  /** A log entry as it is stored: two bits of kind, 14 of timer index, 48 of tick. */
  type Word = e: nat | e < WORD witness 0

  function LogType(e: Word): nat { e / (INDEX_RANGE * TICK_RANGE) }

  function LogTimerIndex(e: Word): nat { e / TICK_RANGE % INDEX_RANGE }

  function LogGetTick(e: Word): nat { e % TICK_RANGE }

  function Read(e: Word): (r: Entry)
    ensures r.kind < 4 && r.timer < INDEX_RANGE && r.tick < TICK_RANGE
  {
    Entry(LogType(e), LogTimerIndex(e), LogGetTick(e))
  }

  /** `MicroProfileMakeLogIndex`: packing, with the two assertions the original makes. */
  function MakeLogIndex(begin: nat, token: nat, tick: int): (e: Word)
    requires begin < 4
    ensures Read(e) == Entry(begin, token % INDEX_RANGE, tick % TICK_RANGE)
  {
    var index, low := token % INDEX_RANGE, tick % TICK_RANGE;
    var e := begin * (INDEX_RANGE * TICK_RANGE) + index * TICK_RANGE + low;
    assert e / TICK_RANGE == begin * INDEX_RANGE + index;
    e
  }

  /** A 64-bit word read as a signed number. */
  function AsSigned(w: int): int
    requires 0 <= w < WORD
  {
    if w < WORD / 2 then w else w - WORD
  }

  /** `MicroProfileLogTickDifference`: shift both words left by 16 bits, subtract with
      wrap-around, and shift the signed result back. */
  function LogTickDifference(start: Word, end: Word): int
  {
    AsSigned((end * 0x10000 % WORD - start * 0x10000 % WORD) % WORD) / 0x10000
  }

  /** The difference of two ticks, taken round the 48-bit circle the short way. */
  function TickDifference(start: Entry, end: Entry): int
  {
    var d := end.tick as int - start.tick as int;
    if d >= HALF_RANGE then d - TICK_RANGE else if d + HALF_RANGE < 0 then d + TICK_RANGE else d
  }

  lemma {:induction false} LogTickDifferenceIs(start: Word, end: Word)
    ensures LogTickDifference(start, end) == TickDifference(Read(start), Read(end))
  {
    Shifted(start);
    Shifted(end);
    var d: int := LogGetTick(end) - LogGetTick(start);
    assert WORD == TICK_RANGE * 0x10000;
    assert (d * 0x10000) % WORD == if d >= 0 then d * 0x10000 else (d + TICK_RANGE) * 0x10000;
  }

  lemma {:induction false} Shifted(e: Word)
    ensures e * 0x10000 % WORD == LogGetTick(e) * 0x10000
  {
    assert WORD == TICK_RANGE * 0x10000;
    var q := e / TICK_RANGE;
    assert e == q * TICK_RANGE + LogGetTick(e);
    assert e * 0x10000 == q * WORD + LogGetTick(e) * 0x10000;
  }

  /** The difference is the time that passed between the two stamps, even when the 48-bit
      stamp wrapped in between, as long as less than half the range passed. */
  lemma {:induction false} TickDifferenceIsElapsed(start: Entry, end: Entry, begun: int, elapsed: int)
    requires start.tick == begun % TICK_RANGE && end.tick == (begun + elapsed) % TICK_RANGE
    requires 0 <= elapsed + HALF_RANGE < TICK_RANGE
    ensures TickDifference(start, end) == elapsed
  {
    var k := begun / TICK_RANGE;
    var m := (begun + elapsed) / TICK_RANGE;
    assert end.tick as int - start.tick as int == elapsed - (m - k) * TICK_RANGE;
    assert -1 <= m - k <= 1;
  }

  // ----- the ring

  /** The entries from index `get` up to index `put` of a ring. */
  function RingSlice<T>(log: seq<T>, get: nat, put: nat): seq<T>
    requires get < |log| && put < |log|
  {
    if put > get then log[get..put]
    else if put != get then log[get..] + log[..put]
    else []
  }

  /** `MicroProfileGetRange`: the one or two stretches of the log array that make up a slice. */
  method GetRange(put: nat, get: nat, size: nat, range: array2<nat>)
    requires put < size && get < size && range.Length0 == 2 && range.Length1 == 2
    requires range[0, 0] == range[0, 1] == range[1, 0] == range[1, 1] == 0
    modifies range
    ensures range[0, 0] <= range[0, 1] <= size && range[1, 0] <= range[1, 1] <= size
    ensures range[0, 0] < range[0, 1] ==> range[0, 0] == get
    ensures range[1, 0] < range[1, 1] ==> range[0, 0] == get && range[0, 1] == size && range[1, 0] == 0 && range[1, 1] <= get
    ensures forall log: seq<Word> :: |log| == size ==>
      log[range[0, 0]..range[0, 1]] + log[range[1, 0]..range[1, 1]] == RingSlice(log, get, put)
  {
    if put > get {
      range[0, 0] := get;
      range[0, 1] := put;
      range[1, 0], range[1, 1] := 0, 0;
    } else if put != get {
      var countEnd := size - get;
      range[0, 0] := get;
      range[0, 1] := get + countEnd;
      range[1, 0] := 0;
      range[1, 1] := put;
    }
  }

  /** The position behind `pos`. */
  function NextPos(pos: nat, size: nat): (n: nat)
    requires pos < size
    ensures n == (pos + 1) % size < size
  {
    if pos + 1 == size then 0 else pos + 1
  }

  /** A put writes behind the newest entry and leaves the slice up to it alone. */
  lemma {:induction false} PutAppends<T>(log: seq<T>, get: nat, put: nat, e: T)
    requires get < |log| && put < |log| && NextPos(put, |log|) != get
    ensures RingSlice(log[put := e], get, NextPos(put, |log|)) == RingSlice(log, get, put) + [e]
  {
    if put < get {
      PutWrapped(log, get, put, e);
    } else {
      PutStraight(log, get, put, e);
    }
  }

  lemma {:induction false} PutStraight<T>(log: seq<T>, get: nat, put: nat, e: T)
    requires get <= put < |log|
    ensures log[put := e][get..put + 1] == log[get..put] + [e]
    ensures put + 1 == |log| ==> log[put := e][get..] == log[get..put] + [e]
  {
  }

  lemma {:induction false} PutWrapped<T>(log: seq<T>, get: nat, put: nat, e: T)
    requires put + 1 < get < |log|
    ensures log[put := e][get..] + log[put := e][..put + 1] == log[get..] + log[..put] + [e]
  {
    assert log[put := e][..put + 1] == log[..put] + [e];
    assert log[put := e][get..] == log[get..];
    assert log[get..] + (log[..put] + [e]) == log[get..] + log[..put] + [e];
  }
}
