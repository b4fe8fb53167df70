/** GC-ADPCM decoding: a clamped second-order filter over nibbles. */
module Adpcm {
  import opened Sequences

  const FRAME_LEN: nat := 8
  const SAMPLES_PER_FRAME: nat := 14

  type U8 = b: nat | b < 256 witness 0
  type S16 = x: int | -32768 <= x <= 32767 witness 0

  /** Eight pairs of filter coefficients. */
  type Coefficients = c: seq<S16> | |c| == 16 witness seq(16, _ => 0)

  /** The last two samples, the last one first. */
  datatype State = State(yn1: S16, yn2: S16)

  function SignedNibble(n: nat): (v: int)
    requires n < 16
    ensures -8 <= v <= 7
  {
    if n < 8 then n else n - 16
  }

  function Scale(header: U8): nat
  {
    Pow2(header % 16)
  }

  function Pow2(n: nat): (p: nat)
    ensures p >= 1
  {
    if n == 0 then 1 else 2 * Pow2(n - 1)
  }

  function Clamp(v: int): S16
  {
    if v < -32768 then -32768 else if v > 32767 then 32767 else v
  }

  /** The filter's sum before it is shifted back by 11 bits. */
  function FilterSum(xn: int, c1: int, c2: int, st: State): int
  {
    xn * 2048 + 0x400 + c1 * st.yn1 + c2 * st.yn2
  }

  function Filtered(xn: int, c1: int, c2: int, st: State): S16
  {
    Clamp(FilterSum(xn, c1, c2, st) / 2048)
  }

  function Coef1(coeff: Coefficients, header: U8): S16 { coeff[header / 16 % 8 * 2] }

  function Coef2(coeff: Coefficients, header: U8): S16 { coeff[header / 16 % 8 * 2 + 1] }

  // ----- the recurrence

  /** Where the frame of sample `k` begins: every 14 samples take 8 bytes. */
  function Offset(k: nat): nat
  {
    if k < SAMPLES_PER_FRAME then 0 else FRAME_LEN + Offset(k - SAMPLES_PER_FRAME)
  }

  /** The sample's place in its frame. */
  function Place(k: nat): (j: nat)
    ensures j < SAMPLES_PER_FRAME && j % 2 == k % 2
  {
    if k < SAMPLES_PER_FRAME then k else Place(k - SAMPLES_PER_FRAME)
  }

  /** In closed form: whole frames in front, and the place is the remainder. */
  lemma {:induction false} PlaceIsRemainder(k: nat, frames: nat, rest: nat)
    requires k == frames * SAMPLES_PER_FRAME + rest && rest < SAMPLES_PER_FRAME
    ensures Offset(k) == frames * FRAME_LEN && Place(k) == rest
  {
    if frames > 0 {
      PlaceIsRemainder(k - SAMPLES_PER_FRAME, frames - 1, rest);
    }
  }

  /** The bytes up to and including that of the last of `n` samples: a frame's header, then two
      samples a byte. */
  function BytesFor(n: nat): nat
  {
    if n == 0 then 0 else Offset(n - 1) + 2 + Place(n - 1) / 2
  }

  function HeaderOf(data: seq<U8>, k: nat): U8
    requires BytesFor(k + 1) <= |data|
  {
    data[Offset(k)]
  }

  /** The nibble of sample `k`: the high one of its byte for even places in the frame. */
  function NibbleOf(data: seq<U8>, k: nat): (n: nat)
    requires BytesFor(k + 1) <= |data|
    ensures n < 16
  {
    var b := data[Offset(k) + 1 + Place(k) / 2];
    if Place(k) % 2 == 0 then b / 16 else b % 16
  }

  /** Sample `k`, given the state in front of it. */
  function SampleOf(data: seq<U8>, coeff: Coefficients, k: nat, st: State): S16
    requires BytesFor(k + 1) <= |data|
  {
    var h := HeaderOf(data, k);
    Filtered(SignedNibble(NibbleOf(data, k)) * Scale(h), Coef1(coeff, h), Coef2(coeff, h), st)
  }

  /** The first `n` samples of the clamped recurrence. */
  function Samples(data: seq<U8>, coeff: Coefficients, st: State, n: nat): (r: seq<S16>)
    requires n == 0 || BytesFor(n) <= |data|
    ensures |r| == n
  {
    if n == 0 then []
    else
      BytesMonotone(n - 1);
      var before := Samples(data, coeff, st, n - 1);
      before + [SampleOf(data, coeff, n - 1, StateAfter(st, before))]
  }

  /** The state behind some samples. */
  function StateAfter(st: State, samples: seq<S16>): State
  {
    var n := |samples|;
    State(if n > 0 then samples[n - 1] else st.yn1, if n > 1 then samples[n - 2] else if n == 1 then st.yn1 else st.yn2)
  }

  lemma {:induction false} NextPlace(k: nat)
    ensures Place(k) < 13 ==> Offset(k + 1) == Offset(k) && Place(k + 1) == Place(k) + 1
    ensures Place(k) == 13 ==> Offset(k + 1) == Offset(k) + FRAME_LEN && Place(k + 1) == 0
  {
    if k >= SAMPLES_PER_FRAME {
      NextPlace(k - SAMPLES_PER_FRAME);
    }
  }

  lemma {:induction false} BytesMonotone(n: nat)
    ensures BytesFor(n) <= BytesFor(n + 1)
  {
    if n > 0 {
      NextPlace(n - 1);
    }
  }

  function RoundedUp(n: nat): nat
  {
    if n % 2 == 0 then n else n + 1
  }

  /** An odd count is rounded up without reading further. */
  lemma {:induction false} RoundedUpBytes(n: nat)
    ensures BytesFor(RoundedUp(n)) == BytesFor(n)
  {
    if n % 2 == 1 {
      NextPlace(n - 1);
    }
  }

  lemma {:induction false} BytesUpTo(k: nat, n: nat)
    requires k <= n
    ensures BytesFor(k) <= BytesFor(n)
    decreases n - k
  {
    if k < n {
      BytesMonotone(k);
      BytesUpTo(k + 1, n);
    }
  }

  // ----- the decoder

  /** The buffer's first `n` frames carry the first `n` samples, on both channels, and `now` is the
      state behind them. */
  ghost predicate DecodedTo(ret: array<(S16, S16)>, data: seq<U8>, coeff: Coefficients, st: State, n: nat, now: State)
    reads ret
  {
    && n <= ret.Length && (n > 0 ==> BytesFor(n) <= |data|)
    && now == StateAfter(st, Samples(data, coeff, st, n))
    && forall k :: 0 <= k < n ==> ret[k] == (Samples(data, coeff, st, n)[k], Samples(data, coeff, st, n)[k])
  }

  /** One sample more. */
  method DecodeInto(ret: array<(S16, S16)>, data: seq<U8>, coeff: Coefficients, ghost st: State, n: nat,
                    nibble: nat, header: U8, yn1: S16, yn2: S16) returns (val: S16)
    requires DecodedTo(ret, data, coeff, st, n, State(yn1, yn2)) && n < ret.Length && BytesFor(n + 1) <= |data|
    requires nibble == NibbleOf(data, n) && header == HeaderOf(data, n)
    modifies ret
    ensures DecodedTo(ret, data, coeff, st, n + 1, State(val, yn1))
  {
    var xn := SignedNibble(nibble) * Scale(header);
    val := Clamp((xn * 2048 + 0x400 + Coef1(coeff, header) * yn1 + Coef2(coeff, header) * yn2) / 2048);
    ret[n] := (val, val);
    assert Samples(data, coeff, st, n + 1) == Samples(data, coeff, st, n) + [val];
  }

  /** How many samples are decoded behind a number of frames. */
  function FrameEnd(frames: nat, length: nat): nat
  {
    if frames * SAMPLES_PER_FRAME <= length then frames * SAMPLES_PER_FRAME else length
  }

  /** The number of frames, rounded up, covers every sample and starts none past the last. */
  lemma {:induction false} FrameCount(sampleCount: nat, numFrames: nat, half: nat)
    requires numFrames == (sampleCount + (SAMPLES_PER_FRAME - 1)) / SAMPLES_PER_FRAME
    requires half == (sampleCount + 1) / 2
    ensures RoundedUp(sampleCount) == 2 * half && sampleCount <= 2 * half <= sampleCount + 1
    ensures FrameEnd(numFrames, 2 * half) == 2 * half
    ensures numFrames > 0 ==> (numFrames - 1) * SAMPLES_PER_FRAME < sampleCount
  {
    ghost var sum := sampleCount + 13;
    assert sum == numFrames * 14 + sum % 14;
    assert numFrames * 14 >= sampleCount && 7 * numFrames >= half;
  }

  /** Two samples more still fit, since both counts are even. */
  lemma {:induction false} Room(framei: nat, h: nat, outputi: nat, sampleCount: nat, half: nat)
    requires outputi == framei * SAMPLES_PER_FRAME + 2 * h < sampleCount <= 2 * half
    ensures outputi + 2 <= 2 * half
  {
    var pairs := framei * 7 + h;
    assert outputi == 2 * pairs;
    assert pairs < half;
  }

  lemma {:induction false} FrameIsDone(framei: nat, h: nat, outputi: nat, sampleCount: nat, half: nat)
    requires outputi == framei * SAMPLES_PER_FRAME + 2 * h <= 2 * half <= sampleCount + 1
    requires h == 7 || (h < 7 && outputi >= sampleCount)
    ensures outputi == FrameEnd(framei + 1, 2 * half)
  {
    var pairs := framei * 7 + h;
    assert outputi == 2 * pairs;
    assert h < 7 ==> pairs == half;
  }

  /** `DecodeADPCM`: the samples of the clamped recurrence on both channels, an even number of
      them, and the state behind the last one. Only the bytes of these samples are read. */
  method DecodeADPCM(data: seq<U8>, sampleCount: nat, coeff: Coefficients, state: State)
    returns (ret: array<(S16, S16)>, state': State)
    requires BytesFor(sampleCount) <= |data|
    ensures fresh(ret) && ret.Length == sampleCount + sampleCount % 2
    ensures DecodedTo(ret, data, coeff, state, ret.Length, state')
    ensures BytesFor(ret.Length) <= |data| && AllFormula(data, coeff, state, Samples(data, coeff, state, ret.Length))
    ensures forall k :: 0 <= k < ret.Length ==> ret[k].0 == ret[k].1 == Samples(data, coeff, state, ret.Length)[k]
    ensures state' == if ret.Length == 0 then state else State(ret[ret.Length - 1].0, ret[ret.Length - 2].0)
  {
    RoundedUpBytes(sampleCount);
    ret := new (S16, S16)[RoundedUp(sampleCount)](_ => (0, 0));
    var yn1: S16, yn2: S16 := state.yn1, state.yn2;
    var numFrames := (sampleCount + (SAMPLES_PER_FRAME - 1)) / SAMPLES_PER_FRAME;
    ghost var half := (sampleCount + 1) / 2;
    FrameCount(sampleCount, numFrames, half);
    ghost var done := 0;
    for framei := 0 to numFrames
      invariant done == FrameEnd(framei, 2 * half)
      invariant DecodedTo(ret, data, coeff, state, done, State(yn1, yn2))
    {
      yn1, yn2, done := DecodeFrame(ret, data, sampleCount, coeff, state, framei, yn1, yn2, half);
    }
    state' := State(yn1, yn2);
    SamplesAreFormula(data, coeff, state, ret.Length);
  }

  const POWERS: seq<nat> := [1, 2, 4, 8, 16, 32, 64, 128, 256, 512, 1024, 2048, 4096, 8192, 16384, 32768]

  /** Sample `k` is the clamped filter of the nibble at its place, with the scale and the coefficients
      that its frame's header selects, and of the two samples in front. */
  predicate IsFormula(data: seq<U8>, coeff: Coefficients, st: State, samples: seq<S16>, k: nat)
    requires k < |samples| && 8 * (k / 14) + 1 + k % 14 / 2 < |data|
  {
    var h, b := data[8 * (k / 14)], data[8 * (k / 14) + 1 + k % 14 / 2];
    var y1 := if k > 0 then samples[k - 1] else st.yn1;
    var y2 := if k > 1 then samples[k - 2] else if k == 1 then st.yn1 else st.yn2;
    samples[k] == Formula(coeff, h, if k % 2 == 0 then b / 16 else b % 16, y1, y2)
  }

  function Formula(coeff: Coefficients, h: U8, nibble: nat, y1: S16, y2: S16): S16
    requires nibble < 16
  {
    var x := (if nibble < 8 then nibble else nibble - 16) * POWERS[h % 16];
    var v := (2048 * x + 1024 + coeff[2 * (h / 16 % 8)] * y1 + coeff[2 * (h / 16 % 8) + 1] * y2) / 2048;
    if v < -32768 then -32768 else if v > 32767 then 32767 else v
  }

  lemma {:induction false} FilterIsFormula(coeff: Coefficients, h: U8, nibble: nat, st: State)
    requires nibble < 16
    ensures Filtered(SignedNibble(nibble) * Scale(h), Coef1(coeff, h), Coef2(coeff, h), st) == Formula(coeff, h, nibble, st.yn1, st.yn2)
  {
    PowersAre(h % 16);
  }

  lemma {:induction false} PowersAre(n: nat)
    requires n < 16
    ensures Pow2(n) == POWERS[n]
  {
    if n > 0 {
      PowersAre(n - 1);
    }
  }

  lemma {:induction false} SamplesPrefix(data: seq<U8>, coeff: Coefficients, st: State, k: nat, n: nat)
    requires k <= n && BytesFor(n) <= |data|
    ensures BytesFor(k) <= |data| && Samples(data, coeff, st, n)[..k] == Samples(data, coeff, st, k)
    decreases n - k
  {
    if k < n {
      BytesMonotone(n - 1);
      SamplesPrefix(data, coeff, st, k, n - 1);
      assert Samples(data, coeff, st, n)[..n - 1] == Samples(data, coeff, st, n - 1);
    } else {
      assert Samples(data, coeff, st, n)[..n] == Samples(data, coeff, st, n);
    }
  }

  lemma {:induction false} SampleFormula(data: seq<U8>, coeff: Coefficients, st: State, n: nat, k: nat)
    requires k < n && BytesFor(n) <= |data|
    ensures 8 * (k / 14) + 1 + k % 14 / 2 < |data| && IsFormula(data, coeff, st, Samples(data, coeff, st, n), k)
  {
    var all, m := Samples(data, coeff, st, n), k + 1;
    SamplesPrefix(data, coeff, st, k, n);
    SamplesPrefix(data, coeff, st, m, n);
    SamplesStep(data, coeff, st, k, m);
    assert all[k] == all[..m][k];
    FramesInFront(k / 14, k % 14, k);
    Parity(k);
    FormulaFits(data, coeff, st, all, k, StateAfter(st, all[..k]));
  }

  predicate AllFormula(data: seq<U8>, coeff: Coefficients, st: State, samples: seq<S16>)
  {
    forall k :: 0 <= k < |samples| ==> 8 * (k / 14) + 1 + k % 14 / 2 < |data| && IsFormula(data, coeff, st, samples, k)
  }

  /** The samples that are decoded, spelled out. */
  lemma {:induction false} SamplesAreFormula(data: seq<U8>, coeff: Coefficients, st: State, n: nat)
    requires BytesFor(n) <= |data|
    ensures AllFormula(data, coeff, st, Samples(data, coeff, st, n))
  {
    forall k | 0 <= k < n
      ensures 8 * (k / 14) + 1 + k % 14 / 2 < |data| && IsFormula(data, coeff, st, Samples(data, coeff, st, n), k)
    {
      SampleFormula(data, coeff, st, n, k);
    }
  }

  lemma {:induction false} Parity(k: nat)
    ensures k % 14 % 2 == k % 2
  {
  }

  lemma {:induction false} FormulaFits(data: seq<U8>, coeff: Coefficients, st: State, all: seq<S16>, k: nat, before: State)
    requires k < |all| && BytesFor(k + 1) <= |data| && Offset(k) == 8 * (k / 14) && Place(k) == k % 14 && k % 14 % 2 == k % 2
    requires 8 * (k / 14) + 1 + k % 14 / 2 < |data|
    requires before == StateAfter(st, all[..k]) && all[k] == SampleOf(data, coeff, k, before)
    ensures IsFormula(data, coeff, st, all, k)
  {
    FilterIsFormula(coeff, HeaderOf(data, k), NibbleOf(data, k), before);
  }

  /** The inner loop: the samples of one frame, two a byte. */
  method DecodeFrame(ret: array<(S16, S16)>, data: seq<U8>, sampleCount: nat, coeff: Coefficients,
                     ghost state: State, framei: nat, y1: S16, y2: S16, ghost half: nat)
    returns (yn1: S16, yn2: S16, ghost done: nat)
    requires framei * SAMPLES_PER_FRAME < sampleCount <= ret.Length == 2 * half <= sampleCount + 1
    requires BytesFor(ret.Length) <= |data|
    requires DecodedTo(ret, data, coeff, state, framei * SAMPLES_PER_FRAME, State(y1, y2))
    modifies ret
    ensures done == FrameEnd(framei + 1, 2 * half)
    ensures DecodedTo(ret, data, coeff, state, done, State(yn1, yn2))
  {
    yn1, yn2 := y1, y2;
    var outputi := framei * SAMPLES_PER_FRAME;
    var datai := framei * FRAME_LEN + 1;
    Room(framei, 0, outputi, sampleCount, half);
    HeaderInData(data, framei, outputi, ret.Length);
    var header := data[framei * FRAME_LEN];
    var i := 0;
    ghost var h := 0;
    while i < SAMPLES_PER_FRAME && outputi < sampleCount
      invariant i == 2 * h && h <= 7 && outputi == framei * SAMPLES_PER_FRAME + 2 * h <= ret.Length
      invariant datai == framei * FRAME_LEN + 1 + h
      invariant DecodedTo(ret, data, coeff, state, outputi, State(yn1, yn2))
    {
      Room(framei, h, outputi, sampleCount, half);
      yn1, yn2 := DecodeByte(ret, data, coeff, state, framei, h, outputi, datai, header, yn1, yn2);
      outputi := outputi + 2;
      datai := datai + 1;
      i := i + 2;
      h := h + 1;
    }
    FrameIsDone(framei, h, outputi, sampleCount, half);
    done := outputi;
  }

  /** The byte at `datai`, which is the one at place `h` of the frame. */
  method DecodeByte(ret: array<(S16, S16)>, data: seq<U8>, coeff: Coefficients, ghost state: State, ghost framei: nat,
                    ghost h: nat, outputi: nat, datai: nat, header: U8, yn1: S16, yn2: S16) returns (y1: S16, y2: S16)
    requires h <= 6 && outputi == framei * SAMPLES_PER_FRAME + 2 * h && datai == framei * FRAME_LEN + 1 + h
    requires outputi + 2 <= ret.Length && BytesFor(ret.Length) <= |data|
    requires framei * FRAME_LEN < |data| && header == data[framei * FRAME_LEN]
    requires DecodedTo(ret, data, coeff, state, outputi, State(yn1, yn2))
    modifies ret
    ensures DecodedTo(ret, data, coeff, state, outputi + 2, State(y1, y2))
  {
    PlaceInFrame(data, framei, h, outputi, ret.Length);
    y1, y2 := DecodePair(ret, data, coeff, state, outputi, data[datai], header, yn1, yn2);
  }

  lemma {:induction false} HeaderInData(data: seq<U8>, framei: nat, k: nat, length: nat)
    requires k == framei * SAMPLES_PER_FRAME && k + 2 <= length && BytesFor(length) <= |data|
    ensures framei * FRAME_LEN < |data|
  {
    PlaceInFrame(data, framei, 0, k, length);
  }

  /** The two samples of one byte. */
  method DecodePair(ret: array<(S16, S16)>, data: seq<U8>, coeff: Coefficients, ghost state: State, n: nat,
                    b: U8, header: U8, yn1: S16, yn2: S16) returns (y1: S16, y2: S16)
    requires DecodedTo(ret, data, coeff, state, n, State(yn1, yn2)) && n + 2 <= ret.Length && IsPair(data, n, b, header)
    modifies ret
    ensures DecodedTo(ret, data, coeff, state, n + 2, State(y1, y2))
  {
    y2 := DecodeInto(ret, data, coeff, state, n, b / 16, header, yn1, yn2);
    y1 := DecodeInto(ret, data, coeff, state, n + 1, b % 16, header, y2, yn1);
  }

  /** Samples `n` and `n + 1` share the byte `b` of a frame with this header. */
  predicate IsPair(data: seq<U8>, n: nat, b: U8, header: U8)
  {
    && BytesFor(n + 1) <= |data| && BytesFor(n + 1 + 1) <= |data|
    && HeaderOf(data, n) == header == HeaderOf(data, n + 1)
    && NibbleOf(data, n) == b / 16 && NibbleOf(data, n + 1) == b % 16
  }

  /** Where the two samples at place `2h` of a frame are found. */
  lemma {:induction false} PlaceInFrame(data: seq<U8>, framei: nat, h: nat, k: nat, length: nat)
    requires h <= 6 && k == framei * SAMPLES_PER_FRAME + 2 * h && k + 2 <= length && BytesFor(length) <= |data|
    ensures framei * FRAME_LEN + 1 + h < |data|
    ensures IsPair(data, k, data[framei * FRAME_LEN + 1 + h], data[framei * FRAME_LEN])
  {
    PlaceOf(data, framei, 2 * h, h, k, length);
    PlaceOf(data, framei, 2 * h + 1, h, k + 1, length);
  }

  /** The byte and the nibble of the sample at place `r`. */
  lemma {:induction false} PlaceOf(data: seq<U8>, framei: nat, r: nat, h: nat, k: nat, length: nat)
    requires h <= 6 && (r == 2 * h || r == 2 * h + 1) && k == framei * SAMPLES_PER_FRAME + r
    requires k + 1 <= length && BytesFor(length) <= |data|
    ensures BytesFor(k + 1) <= |data| && framei * FRAME_LEN + 1 + h < |data|
    ensures HeaderOf(data, k) == data[framei * FRAME_LEN]
    ensures var b := data[framei * FRAME_LEN + 1 + h]; NibbleOf(data, k) == if r == 2 * h then b / 16 else b % 16
  {
    FramesInFront(framei, r, k);
    BytesUpTo(k + 1, length);
    assert Place(k) / 2 == h;
  }

  /** Whole frames in front move a sample by their bytes. */
  lemma {:induction false} FramesInFront(frames: nat, k: nat, n: nat)
    requires n == frames * SAMPLES_PER_FRAME + k
    ensures Offset(n) == frames * FRAME_LEN + Offset(k) && Place(n) == Place(k)
  {
    if frames > 0 {
      FramesInFront(frames - 1, k, n - SAMPLES_PER_FRAME);
    }
  }

  // ----- chaining

  lemma {:induction false} StateChains(st: State, a: seq<S16>, b: seq<S16>)
    ensures StateAfter(st, a + b) == StateAfter(StateAfter(st, a), b)
  {
  }

  lemma {:induction false} SamplesStep(data: seq<U8>, coeff: Coefficients, st: State, n: nat, m: nat)
    requires BytesFor(n) <= |data| && m == n + 1 && BytesFor(m) <= |data|
    ensures var before := Samples(data, coeff, st, n);
            Samples(data, coeff, st, m) == before + [SampleOf(data, coeff, n, StateAfter(st, before))]
  {
  }

  /** The same nibble, header and state give the same sample. */
  lemma {:induction false} SampleShifts(data: seq<U8>, coeff: Coefficients, frames: nat, k: nat, n: nat, st: State)
    requires n == frames * SAMPLES_PER_FRAME + k
    requires frames * FRAME_LEN <= |data| && BytesFor(n + 1) <= |data|
    ensures BytesFor(k + 1) <= |data[frames * FRAME_LEN..]|
    ensures SampleOf(data, coeff, n, st) == SampleOf(data[frames * FRAME_LEN..], coeff, k, st)
  {
    FramesInFront(frames, k, n);
  }

  /** Decoding in two calls, the second from the following frame on with the carried state, gives
      the same samples and the same last state as decoding in one, provided the first call ends
      with a frame. */
  lemma {:induction false} DecodingChains(data: seq<U8>, coeff: Coefficients, st: State, frames: nat, m: nat, n: nat, sum: nat)
    requires m == frames * SAMPLES_PER_FRAME && sum == m + n
    requires frames * FRAME_LEN <= |data| && BytesFor(sum) <= |data|
    ensures BytesFor(m) <= |data| && BytesFor(n) <= |data[frames * FRAME_LEN..]|
    ensures var first := Samples(data, coeff, st, m);
            var second := Samples(data[frames * FRAME_LEN..], coeff, StateAfter(st, first), n);
            && Samples(data, coeff, st, sum) == first + second
            && StateAfter(st, Samples(data, coeff, st, sum)) == StateAfter(StateAfter(st, first), second)
  {
    BytesUpTo(m, sum);
    var rest, first := data[frames * FRAME_LEN..], Samples(data, coeff, st, m);
    SamplesChain(data, rest, coeff, st, frames, m, n, sum, first, StateAfter(st, first));
    StateChains(st, first, Samples(rest, coeff, StateAfter(st, first), n));
  }

  lemma {:induction false} SamplesChain(data: seq<U8>, rest: seq<U8>, coeff: Coefficients, st: State, frames: nat,
                                        m: nat, n: nat, sum: nat, first: seq<S16>, carried: State)
    requires m == frames * SAMPLES_PER_FRAME && sum == m + n
    requires frames * FRAME_LEN <= |data| && rest == data[frames * FRAME_LEN..]
    requires BytesFor(m) <= |data| && BytesFor(sum) <= |data|
    requires first == Samples(data, coeff, st, m) && carried == StateAfter(st, first)
    ensures BytesFor(n) <= |rest| && Samples(data, coeff, st, sum) == first + Samples(rest, coeff, carried, n)
    decreases n
  {
    if n == 0 {
      assert first + [] == first;
    } else {
      var k, before := n - 1, sum - 1;
      BytesMonotone(before);
      SamplesChain(data, rest, coeff, st, frames, m, k, before, first, carried);
      var second := Samples(rest, coeff, carried, k);
      StateChains(st, first, second);
      SampleShifts(data, coeff, frames, k, before, StateAfter(carried, second));
      SamplesStep(data, coeff, st, before, sum);
      SamplesStep(rest, coeff, carried, k, n);
      Regroup(first, second, [SampleOf(rest, coeff, k, StateAfter(carried, second))]);
    }
  }

  // ----- 32-bit arithmetic

  predicate FitsInt32(x: int) { -0x8000_0000 <= x < 0x8000_0000 }

  /** Every intermediate value of the filter, in the order of evaluation. */
  predicate AllFit(nibble: int, scale: int, c1: int, c2: int, st: State)
  {
    var xn := nibble * scale;
    && FitsInt32(xn) && FitsInt32(xn * 2048) && FitsInt32(xn * 2048 + 0x400)
    && FitsInt32(c1 * st.yn1) && FitsInt32(c2 * st.yn2)
    && FitsInt32(xn * 2048 + 0x400 + c1 * st.yn1)
    && FitsInt32(xn * 2048 + 0x400 + c1 * st.yn1 + c2 * st.yn2)
  }

  /** The least and the greatest contribution of a coefficient. */
  function Least(c: int): int { if c >= 0 then c * -32768 else c * 32767 }

  function Greatest(c: int): int { if c >= 0 then c * 32767 else c * -32768 }

  lemma {:induction false} Extremes(c: int, y: int)
    requires -32768 <= c <= 32767 && -32768 <= y <= 32767
    ensures Least(c) <= c * y <= Greatest(c) && Least(c) <= 0 <= Greatest(c)
    ensures FitsInt32(c * y)
  {
    if c >= 0 {
      Scaled(c, -32768, y);
      Scaled(c, y, 32767);
    } else {
      Scaled(-c, -32768, y);
      Scaled(-c, y, 32767);
      assert -c * y == -(c * y);
    }
  }

  lemma {:induction false} Scaled(d: nat, low: int, high: int)
    requires low <= high
    ensures d * low <= d * high
  {
    assert d * (high - low) >= 0;
  }

  lemma {:induction false} ScaleBounds(header: U8)
    ensures 1 <= Scale(header) <= 32768 && (header % 16 == 15 ==> Scale(header) == 32768)
  {
    var n := header % 16;
    assert Pow2(1) == 2 && Pow2(2) == 4 && Pow2(3) == 8 && Pow2(4) == 16 && Pow2(5) == 32 && Pow2(6) == 64
        && Pow2(7) == 128 && Pow2(8) == 256 && Pow2(9) == 512 && Pow2(10) == 1024 && Pow2(11) == 2048
        && Pow2(12) == 4096 && Pow2(13) == 8192 && Pow2(14) == 16384 && Pow2(15) == 32768;
  }

  lemma {:induction false} ScaledNibble(nibble: nat, header: U8)
    requires nibble < 16
    ensures var xn := SignedNibble(nibble) * Scale(header); -8 * 32768 <= xn <= 7 * 32768
  {
    ScaleBounds(header);
    ProductBounds(SignedNibble(nibble), Scale(header));
  }

  lemma {:induction false} ProductBounds(v: int, s: int)
    requires -8 <= v <= 7 && 0 <= s <= 32768
    ensures -8 * 32768 <= v * s <= 7 * 32768
  {
    assert (7 - v) * s >= 0 && (v + 8) * s >= 0;
    assert v * s <= 7 * s && -8 * s <= v * s;
  }

  /** The coefficient pairs whose least sum stays within 32 bits. */
  predicate SafePair(c1: int, c2: int)
  {
    -8 * 32768 * 2048 + 0x400 + Least(c1) + Least(c2) >= -0x8000_0000
  }

  /** No intermediate value leaves 32 bits, whatever the nibble, the scale and the fed-back
      samples, just when the coefficient pair is safe. */
  lemma {:induction false} FilterFitsExactly(c1: S16, c2: S16)
    ensures SafePair(c1, c2) <==>
      forall nibble: nat, header: U8, st: State :: nibble < 16 ==> AllFit(SignedNibble(nibble), Scale(header), c1, c2, st)
  {
    if SafePair(c1, c2) {
      forall nibble: nat, header: U8, st: State | nibble < 16
        ensures AllFit(SignedNibble(nibble), Scale(header), c1, c2, st)
      {
        ScaledNibble(nibble, header);
        Extremes(c1, st.yn1);
        Extremes(c2, st.yn2);
        GreatestFits(c1, c2);
      }
    } else {
      var low := State(if c1 >= 0 then -32768 else 32767, if c2 >= 0 then -32768 else 32767);
      var header: U8 := 15;
      ScaleBounds(header);
      assert SignedNibble(8) == -8;
      assert !AllFit(SignedNibble(8), Scale(header), c1, c2, low);
    }
  }

  lemma {:induction false} GreatestFits(c1: S16, c2: S16)
    requires SafePair(c1, c2)
    ensures 7 * 32768 * 2048 + 0x400 + Greatest(c1) + Greatest(c2) < 0x8000_0000
  {
  }

  function Abs(x: int): nat { if x >= 0 then x else -x }

  /** Coefficients of at most 24 together, in their fixed-point form with 11 fraction bits, are
      safe; and for coefficients that are not negative the bound is exact. */
  lemma {:induction false} SmallCoefficientsAreSafe(c1: S16, c2: S16)
    ensures Abs(c1) + Abs(c2) <= 49152 ==> SafePair(c1, c2)
    ensures c1 >= 0 && c2 >= 0 ==> (SafePair(c1, c2) <==> c1 + c2 <= 49152)
  {
  }
}
