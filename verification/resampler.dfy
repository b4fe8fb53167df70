/** The sink's resampler: linear interpolation with a fixed-point phase over a source that is
    read in batches. */
module Resampler {
  import opened Arithmetic

  const NATIVE_SAMPLE_RATE: nat := 32728
  const SOURCE_BATCH_FRAMES: nat := 1024
  const U32: nat := 0x1_0000_0000

  /** A stereo frame. */
  type Frame = (int, int)

  predicate IsS16(x: int) { -32768 <= x <= 32767 }

  predicate IsFrame(f: Frame) { IsS16(f.0) && IsS16(f.1) }

  function Channel(f: Frame, c: nat): int { if c == 0 then f.0 else f.1 }

  /** C's division by a positive number: toward zero. */
  function TruncDiv(a: int, b: nat): int
    requires b > 0
  {
    if a >= 0 then a / b else -((-a) / b)
  }

  /** C's conversion to a 16-bit integer. */
  function ToS16(x: int): int
  {
    var w := x % 65536;
    if w < 32768 then w else w - 65536
  }

  function Interpolated(current: int, next: int, phase: nat, rate: nat): int
    requires rate > 0
  {
    ToS16(current + TruncDiv((next - current) * phase, rate))
  }

  // ----- the closed form

  /** The index of the source frame in front of output frame `k`. */
  function Base(k: nat, rate: nat): nat
    requires rate > 0
  {
    k * NATIVE_SAMPLE_RATE / rate
  }

  function Phase(k: nat, rate: nat): (p: nat)
    requires rate > 0
    ensures p < rate
  {
    k * NATIVE_SAMPLE_RATE % rate
  }

  function Sampled(src: nat -> Frame, base: nat, phase: nat, rate: nat, c: nat): int
    requires rate > 0
  {
    Interpolated(Channel(src(base), c), Channel(src(base + 1), c), phase, rate)
  }

  function ClosedForm(src: nat -> Frame, k: nat, rate: nat, c: nat): int
    requires rate > 0
  {
    Sampled(src, Base(k, rate), Phase(k, rate), rate, c)
  }

  // ----- the run in 32 bits

  /** The phase after the addition in 32 bits. */
  function Added(phase: nat): nat
  {
    (phase + NATIVE_SAMPLE_RATE) % U32
  }

  /** The rate taken off the phase as long as it can be: how often, and what is left. */
  function Reduced(w: nat, rate: nat): (r: (nat, nat))
    requires rate > 0
    ensures r.1 < rate
    decreases w
  {
    if w < rate then (0, w) else var (n, left) := Reduced(w - rate, rate); (n + 1, left)
  }

  lemma {:induction false} ReducedIs(w: nat, rate: nat)
    requires rate > 0
    ensures Reduced(w, rate) == (w / rate, w % rate)
    decreases w
  {
    var (n, left) := Reduced(w, rate);
    if w >= rate {
      ReducedIs(w - rate, rate);
      StepSource(w, rate, n - 1, left + rate);
    }
    assert w == n * rate + left;
    DivMod(w, rate, n, left);
  }

  /** The source frames passed and the phase in front of output frame `k`, counted from the very
      first one, when the addition to the phase wraps around. */
  function Place(k: nat, rate: nat): (r: (nat, nat))
    requires rate > 0
    ensures r.1 < rate
  {
    if k == 0 then (0, 0) else NextPlace(Place(k - 1, rate), rate)
  }

  function NextPlace(place: (nat, nat), rate: nat): (r: (nat, nat))
    requires rate > 0
    ensures r.1 < rate
  {
    var (frames, left) := Reduced(Added(place.1), rate);
    (place.0 + frames, left)
  }

  lemma {:induction false} PlaceBehind(k: nat, rate: nat)
    requires rate > 0
    ensures Place(k + 1, rate) == NextPlace(Place(k, rate), rate)
  {
  }

  function Output(src: nat -> Frame, k: nat, rate: nat, c: nat): int
    requires rate > 0
  {
    Sampled(src, Place(k, rate).0, Place(k, rate).1, rate, c)
  }

  lemma {:induction false} MulSplit(a: nat, e: nat, d: nat, b: nat)
    requires b == a + 1 + e
    ensures b * d == a * d + d + e * d
  {
  }

  lemma {:induction false} MulOrder(a: nat, b: nat, d: nat)
    ensures a < b ==> a * d + d <= b * d
  {
    if a < b {
      MulSplit(a, b - a - 1, d, b);
    }
  }

  /** The position `x` of the output, in units of 1/rate of a source frame, is `base` frames and
      `phase` units. */
  ghost predicate Stands(x: nat, rate: nat, base: nat, phase: nat)
  {
    x == base * rate + phase
  }

  lemma {:induction false} StepPhase(k: nat, rate: nat, x: nat)
    requires rate > 0 && x == (k + 1) * NATIVE_SAMPLE_RATE
    ensures Stands(x, rate, Base(k, rate), Phase(k, rate) + NATIVE_SAMPLE_RATE)
  {
    var before := k * NATIVE_SAMPLE_RATE;
    assert before == (before / rate) * rate + before % rate;
  }

  lemma {:induction false} PhaseIs(x: nat, rate: nat, base: nat, phase: nat, k: nat)
    requires Stands(x, rate, base, phase) && phase < rate && x == k * NATIVE_SAMPLE_RATE
    ensures base == Base(k, rate) && phase == Phase(k, rate)
  {
    DivMod(x, rate, base, phase);
  }

  lemma {:induction false} StepSource(x: nat, rate: nat, base: nat, phase: nat)
    requires Stands(x, rate, base, phase) && phase >= rate
    ensures Stands(x, rate, base + 1, phase - rate)
  {
    assert (base + 1) * rate == base * rate + rate;
  }

  lemma {:induction false} QuotientAtMost(x: nat, r: nat, a: nat)
    requires r > 0 && x <= a * r
    ensures x / r <= a
  {
    assert x == (x / r) * r + x % r;
    MulOrder(a, x / r, r);
  }

  lemma {:induction false} MulQuotient(a: nat, p: nat, r: nat)
    requires p < r
    ensures 0 <= a * p / r <= a
  {
    assert a * p <= a * r;
    QuotientAtMost(a * p, r, a);
  }

  /** The interpolated sample lies between its two source samples, so converting it to 16 bits
      loses nothing. */
  lemma {:induction false} InterpolatedBetween(current: int, next: int, phase: nat, rate: nat)
    requires IsS16(current) && IsS16(next) && phase < rate
    ensures var exact := current + TruncDiv((next - current) * phase, rate);
            && Interpolated(current, next, phase, rate) == exact
            && (if current <= next then current <= exact <= next else next <= exact <= current)
  {
    if current <= next {
      MulQuotient(next - current, phase, rate);
    } else {
      MulQuotient(current - next, phase, rate);
      assert (next - current) * phase == -((current - next) * phase);
    }
  }

  // ----- the sink

  /** Frame `j` of a buffer in which the channels are interleaved. */
  function FrameAt(samples: seq<int>, j: nat): Frame
    requires 2 * j + 1 < |samples|
  {
    (samples[2 * j], samples[2 * j + 1])
  }

  /** The samples of consecutive frames from `first` on, the channels interleaved. */
  ghost predicate Interleaved(samples: seq<int>, src: nat -> Frame, first: nat)
  {
    forall j :: 0 <= j < |samples| / 2 ==> FrameAt(samples, j) == src(first + j)
  }

  lemma {:induction false} InterleavedGrows(samples: seq<int>, src: nat -> Frame, first: nat, n: nat)
    requires |samples| == 2 * n + 2 && Interleaved(samples[..2 * n], src, first)
    requires FrameAt(samples, n) == src(first + n)
    ensures Interleaved(samples, src, first)
  {
    forall j | 0 <= j <= n
      ensures FrameAt(samples, j) == src(first + j)
    {
      assert j < n ==> FrameAt(samples, j) == FrameAt(samples[..2 * n], j);
    }
  }

  /** The samples of consecutive output frames from frame `k` on. */
  ghost predicate Outputs(samples: seq<int>, src: nat -> Frame, k: nat, rate: nat)
    requires rate > 0
  {
    forall j :: 0 <= j < |samples| / 2 ==> FrameAt(samples, j) == (Output(src, k + j, rate, 0), Output(src, k + j, rate, 1))
  }

  class Sink {
    /** The source, frame by frame; the callback delivers it in batches. */
    const src: nat -> Frame
    const outputRate: nat
    const source: array<int>
    var current: Frame
    var next: Frame
    var sourceOffset: nat
    var phase: nat
    var resamplerReady: bool
    /** How many source frames the callback has delivered. */
    var delivered: nat
    /** How many output frames were produced. */
    ghost var produced: nat

    /** How many source frames were taken out of the batches. */
    ghost function Taken(): int
      reads `delivered, `sourceOffset
    {
      delivered - SOURCE_BATCH_FRAMES + sourceOffset
    }

    ghost predicate SourceValid()
      reads `delivered, `sourceOffset, source
    {
      && source.Length == 2 * SOURCE_BATCH_FRAMES && sourceOffset <= SOURCE_BATCH_FRAMES
      && (delivered == 0 ==> sourceOffset == SOURCE_BATCH_FRAMES)
      && (delivered > 0 ==> delivered >= SOURCE_BATCH_FRAMES)
      && (delivered > 0 ==> Interleaved(source[..], src, delivered - SOURCE_BATCH_FRAMES))
    }

    ghost predicate Fixed()
    {
      0 < outputRate < U32 && forall i: nat :: IsFrame(src(i))
    }

    /** The next output lies behind source frame `base`. */
    ghost predicate ReadyAt(base: nat)
      reads this
    {
      Taken() == base + 2 && current == src(base) && next == src(base + 1)
    }

    /** Behind `produced` frames the resampler stands where the run says. */
    ghost predicate Valid()
      reads this, source
    {
      && SourceValid() && Fixed()
      && if !resamplerReady then produced == 0 && phase == 0 && Taken() == 0
         else
           phase == Place(produced, outputRate).1 && ReadyAt(Place(produced, outputRate).0)
    }

    constructor (src: nat -> Frame, outputRate: nat)
      requires 0 < outputRate < U32
      requires forall i: nat :: IsFrame(src(i))
      ensures Valid() && produced == 0 && this.src == src && this.outputRate == outputRate && fresh(source)
    {
      this.src := src;
      this.outputRate := outputRate;
      source := new int[2 * SOURCE_BATCH_FRAMES](_ => 0);
      current, next := (0, 0), (0, 0);
      sourceOffset := SOURCE_BATCH_FRAMES;
      phase, resamplerReady, delivered, produced := 0, false, 0, 0;
    }

    /** The client's callback fills the batch. */
    method Callback()
      requires source.Length == 2 * SOURCE_BATCH_FRAMES
      modifies source, `delivered
      ensures delivered == old(delivered) + SOURCE_BATCH_FRAMES
      ensures Interleaved(source[..], src, old(delivered))
    {
      for i := 0 to SOURCE_BATCH_FRAMES
        invariant delivered == old(delivered)
        invariant Interleaved(source[..2 * i], src, delivered)
      {
        ghost var before := source[..2 * i];
        source[2 * i] := src(delivered + i).0;
        source[2 * i + 1] := src(delivered + i).1;
        ghost var now := source[..2 * (i + 1)];
        assert now[..2 * i] == before;
        InterleavedGrows(now, src, delivered, i);
      }
      assert source[..2 * SOURCE_BATCH_FRAMES] == source[..];
      delivered := delivered + SOURCE_BATCH_FRAMES;
    }

    /** `ReadSourceFrame`: the next frame of the source, whatever the batch. */
    method ReadSourceFrame(ghost at: nat) returns (frame: Frame)
      requires SourceValid() && Taken() == at
      modifies source, `delivered, `sourceOffset
      ensures SourceValid() && frame == src(at) && Taken() == at + 1
    {
      if sourceOffset == SOURCE_BATCH_FRAMES {
        Callback();
        sourceOffset := 0;
      }
      frame := (source[sourceOffset * 2], source[sourceOffset * 2 + 1]);
      assert frame == FrameAt(source[..], sourceOffset);
      sourceOffset := sourceOffset + 1;
    }

    /** The end of the loop body of `Fill`: the phase moves on, and with it the source. */
    method Advance()
      requires Valid() && resamplerReady
      modifies this, source
      ensures Valid() && resamplerReady && produced == old(produced) + 1
    {
      ghost var place := Place(produced, outputRate);
      PlaceBehind(produced, outputRate);
      phase := (phase + NATIVE_SAMPLE_RATE) % U32;
      produced := produced + 1;
      CatchUp(place);
      assert Place(produced, outputRate) == NextPlace(place, outputRate);
    }

    /** The inner `while` loop. */
    method CatchUp(ghost place: (nat, nat))
      requires SourceValid() && outputRate > 0 && ReadyAt(place.0) && phase == Added(place.1)
      modifies source, `phase, `current, `next, `delivered, `sourceOffset
      ensures var next := NextPlace(place, outputRate);
              SourceValid() && ReadyAt(next.0) && phase == next.1
    {
      ghost var last := NextPlace(place, outputRate);
      ghost var base: nat := place.0;
      while phase >= outputRate
        invariant SourceValid() && ReadyAt(base)
        invariant last == (base + Reduced(phase, outputRate).0, Reduced(phase, outputRate).1)
        decreases phase
      {
        Shift(base);
        base := base + 1;
      }
    }

    /** One source frame further. */
    method Shift(ghost base: nat)
      requires SourceValid() && ReadyAt(base) && phase >= outputRate > 0
      modifies source, `phase, `current, `next, `delivered, `sourceOffset
      ensures SourceValid() && ReadyAt(base + 1) && phase == old(phase) - outputRate
    {
      phase := phase - outputRate;
      current := next;
      next := ReadSourceFrame(base + 2);
    }

    /** `Fill`: the next `frames` output frames. They depend only on their position in the whole
        output, so neither the size of the calls nor the batches of the source show in them. */
    method Fill(output: array<int>, frames: nat)
      requires Valid() && output.Length >= 2 * frames && output != source
      modifies this, source, output
      ensures Valid() && produced == old(produced) + frames
      ensures Outputs(output[..2 * frames], src, old(produced), outputRate)
      ensures forall i :: 2 * frames <= i < output.Length ==> output[i] == old(output[i])
      ensures Spelled(output[..2 * frames], src, old(produced), outputRate)
    {
      if !resamplerReady {
        Prime();
      }
      for frame := 0 to frames
        invariant Valid() && resamplerReady && produced == old(produced) + frame
        invariant Outputs(output[..2 * frame], src, old(produced), outputRate)
        invariant forall i :: 2 * frame <= i < output.Length ==> output[i] == old(output[i])
      {
        ghost var before := output[..2 * frame];
        FillFrame(output, frame);
        ghost var now := output[..2 * (frame + 1)];
        assert now[..2 * frame] == before;
        OutputsGrow(now, src, old(produced), outputRate, frame, produced);
        Advance();
      }
      OutputsSpelled(output[..2 * frames], src, old(produced), outputRate);
    }

    method Prime()
      requires Valid() && !resamplerReady
      modifies this, source
      ensures Valid() && resamplerReady && produced == old(produced)
    {
      resamplerReady := true;
      current := ReadSourceFrame(0);
      next := ReadSourceFrame(1);
      assert Place(produced, outputRate) == (0, 0) && ReadyAt(0);
    }

    /** The inner loop: both channels of one frame. */
    method FillFrame(output: array<int>, frame: nat)
      requires Valid() && resamplerReady && 2 * frame + 2 <= output.Length && output != source
      modifies output
      ensures output[2 * frame] == Output(src, produced, outputRate, 0)
      ensures output[2 * frame + 1] == Output(src, produced, outputRate, 1)
      ensures forall i :: 0 <= i < output.Length && i != 2 * frame && i != 2 * frame + 1 ==> output[i] == old(output[i])
    {
      for channel := 0 to 2
        invariant forall c :: 0 <= c < channel ==> output[2 * frame + c] == Output(src, produced, outputRate, c)
        invariant forall i :: 0 <= i < output.Length && i != 2 * frame && i != 2 * frame + 1 ==> output[i] == old(output[i])
      {
        ghost var exact := Interpolated(Channel(current, channel), Channel(next, channel), phase, outputRate);
        assert exact == Output(src, produced, outputRate, channel);
        var delta := Channel(next, channel) - Channel(current, channel);
        output[frame * 2 + channel] := ToS16(Channel(current, channel) + TruncDiv(delta * phase, outputRate));
        assert output[2 * frame + channel] == exact;
      }
    }
  }

  // ----- the output, spelled out

  /** The sample at `phase` between two samples of the source, rounded toward the first. */
  function Mixed(a: int, b: int, phase: nat, rate: nat): int
    requires rate > 0
  {
    if b >= a then a + (b - a) * phase / rate else a - (a - b) * phase / rate
  }

  /** The samples of both channels for frame `at`: at position at * 32728 / rate of the source. */
  function Left(src: nat -> Frame, at: nat, rate: nat): int
    requires rate > 0
  {
    var base := at * 32728 / rate;
    Mixed(src(base).0, src(base + 1).0, at * 32728 % rate, rate)
  }

  function Right(src: nat -> Frame, at: nat, rate: nat): int
    requires rate > 0
  {
    var base := at * 32728 / rate;
    Mixed(src(base).1, src(base + 1).1, at * 32728 % rate, rate)
  }

  /** The even samples are the left channel's, the odd ones the right one's, at every rate that never
      wraps around; at the source's own rate they are the source. */
  ghost predicate Spelled(samples: seq<int>, src: nat -> Frame, k: nat, rate: nat)
    requires rate > 0
  {
    && (rate - Gcd(32728, rate) + 32728 < 0x1_0000_0000 ==>
          forall j :: 0 <= j < |samples| / 2 ==> samples[2 * j] == Left(src, k + j, rate) && samples[2 * j + 1] == Right(src, k + j, rate))
    && (rate == 32728 ==> forall j :: 0 <= j < |samples| / 2 ==> samples[2 * j] == src(k + j).0 && samples[2 * j + 1] == src(k + j).1)
  }

  lemma {:induction false} MixedIs(a: int, b: int, phase: nat, rate: nat)
    requires IsS16(a) && IsS16(b) && phase < rate
    ensures Interpolated(a, b, phase, rate) == Mixed(a, b, phase, rate)
    ensures if a <= b then a <= Mixed(a, b, phase, rate) <= b else b <= Mixed(a, b, phase, rate) <= a
    ensures phase == 0 ==> Mixed(a, b, phase, rate) == a
  {
    InterpolatedBetween(a, b, phase, rate);
    assert (b - a) * phase == -((a - b) * phase);
    MulQuotient(if b >= a then b - a else a - b, phase, rate);
  }

  lemma {:induction false} OutputsSpelled(samples: seq<int>, src: nat -> Frame, k: nat, rate: nat)
    requires 0 < rate < U32 && (forall i: nat :: IsFrame(src(i))) && Outputs(samples, src, k, rate)
    ensures Spelled(samples, src, k, rate)
  {
    forall j | 0 <= j < |samples| / 2
      ensures rate - Gcd(32728, rate) + 32728 < 0x1_0000_0000 ==>
                samples[2 * j] == Left(src, k + j, rate) && samples[2 * j + 1] == Right(src, k + j, rate)
      ensures rate == 32728 ==> samples[2 * j] == src(k + j).0 && samples[2 * j + 1] == src(k + j).1
    {
      assert FrameAt(samples, j) == (samples[2 * j], samples[2 * j + 1]);
      if rate - Gcd(32728, rate) + 32728 < 0x1_0000_0000 {
        OneSpelled(src, k + j, rate);
      }
      if rate == 32728 {
        SameRate(src, k + j);
      }
    }
  }

  lemma {:induction false} OneSpelled(src: nat -> Frame, at: nat, rate: nat)
    requires 0 < rate < U32 && (forall i: nat :: IsFrame(src(i))) && rate - Gcd(32728, rate) + 32728 < 0x1_0000_0000
    ensures Output(src, at, rate, 0) == Left(src, at, rate) && Output(src, at, rate, 1) == Right(src, at, rate)
  {
    OutputIsClosedForm(src, at, rate, 0);
    OutputIsClosedForm(src, at, rate, 1);
    var base, phase := Base(at, rate), Phase(at, rate);
    MixedIs(src(base).0, src(base + 1).0, phase, rate);
    MixedIs(src(base).1, src(base + 1).1, phase, rate);
  }

  /** At the source's own rate every frame is the source's. */
  lemma {:induction false} SameRate(src: nat -> Frame, at: nat)
    requires forall i: nat :: IsFrame(src(i))
    ensures Output(src, at, 32728, 0) == src(at).0 && Output(src, at, 32728, 1) == src(at).1
  {
    assert Gcd(32728, 32728) == Gcd(32728, 0) == 32728;
    OneSpelled(src, at, 32728);
    DivMod(at * 32728, 32728, at, 0);
    MixedIs(src(at).0, src(at + 1).0, 0, 32728);
    MixedIs(src(at).1, src(at + 1).1, 0, 32728);
  }

  /** Each channel's sample lies between the two of its own channel in the source, and is the first of
      them where the positions meet. */
  lemma {:induction false} BetweenItsOwn(src: nat -> Frame, at: nat, rate: nat, base: nat)
    requires rate > 0 && (forall i: nat :: IsFrame(src(i))) && base == at * 32728 / rate
    ensures var a, b, m := src(base).0, src(base + 1).0, Left(src, at, rate); if a <= b then a <= m <= b else b <= m <= a
    ensures var a, b, m := src(base).1, src(base + 1).1, Right(src, at, rate); if a <= b then a <= m <= b else b <= m <= a
    ensures at * 32728 % rate == 0 ==> Left(src, at, rate) == src(base).0 && Right(src, at, rate) == src(base).1
  {
    MixedIs(src(base).0, src(base + 1).0, at * 32728 % rate, rate);
    MixedIs(src(base).1, src(base + 1).1, at * 32728 % rate, rate);
  }

  /** The step from frame `k` in 32 bits takes the source frames and leaves the phase of the closed
      form exactly when the addition does not wrap around. */
  lemma {:induction false} StepIsExact(k: nat, rate: nat, sum: nat, w: nat)
    requires 0 < rate < U32 && sum == Phase(k, rate) + NATIVE_SAMPLE_RATE && w == sum % U32
    ensures w % rate == Phase(k + 1, rate) && Base(k, rate) + w / rate == Base(k + 1, rate) <==> sum < U32
  {
    var x, base := (k + 1) * NATIVE_SAMPLE_RATE, Base(k, rate);
    StepPhase(k, rate, x);
    if sum < U32 {
      var q, r := Quotients(x, rate, base, sum);
      PhaseIs(x, rate, base + q, r, k + 1);
    } else {
      assert w == sum - U32 < NATIVE_SAMPLE_RATE < rate;
      DivMod(w, rate, 0, w);
      NextBase(x, rate, base, sum);
    }
  }

  lemma {:induction false} Quotients(x: nat, rate: nat, base: nat, sum: nat) returns (q: nat, r: nat)
    requires rate > 0 && Stands(x, rate, base, sum)
    ensures q == sum / rate && r == sum % rate < rate && Stands(x, rate, base + q, r)
  {
    q, r := sum / rate, sum % rate;
    assert sum == q * rate + r;
    assert (base + q) * rate == base * rate + q * rate;
  }

  lemma {:induction false} NextBase(x: nat, rate: nat, base: nat, sum: nat)
    requires rate > 0 && Stands(x, rate, base, sum) && sum >= rate
    ensures x / rate > base
  {
    var q := x / rate;
    assert x == q * rate + x % rate;
    assert (base + 1) * rate == base * rate + rate;
    MulOrder(q, base + 1, rate);
  }

  /** One more step of the run from where the closed form says. */
  lemma {:induction false} StepFromExact(k: nat, rate: nat, sum: nat)
    requires 0 < rate < U32 && Place(k, rate) == (Base(k, rate), Phase(k, rate))
    requires sum == Phase(k, rate) + NATIVE_SAMPLE_RATE
    ensures Place(k + 1, rate) == (Base(k + 1, rate), Phase(k + 1, rate)) <==> sum < U32
  {
    var w := Added(Phase(k, rate));
    ReducedIs(w, rate);
    StepIsExact(k, rate, sum, w);
  }

  /** The first `n` steps follow the closed form exactly when none of their additions wraps around. */
  lemma {:induction false} RunIsExact(n: nat, rate: nat)
    requires 0 < rate < U32
    ensures (forall k :: 0 <= k <= n ==> Place(k, rate) == (Base(k, rate), Phase(k, rate)))
       <==> (forall k :: 0 <= k < n ==> Phase(k, rate) + 32728 < 0x1_0000_0000)
  {
    if n == 0 {
      DivMod(0, rate, 0, 0);
    } else {
      RunIsExact(n - 1, rate);
      if Place(n - 1, rate) == (Base(n - 1, rate), Phase(n - 1, rate)) {
        StepFromExact(n - 1, rate, Phase(n - 1, rate) + NATIVE_SAMPLE_RATE);
      }
    }
  }

  // ----- which rates never wrap around

  function Gcd(a: nat, b: nat): nat
    decreases b
  {
    if b == 0 then a else Gcd(b, a % b)
  }

  /** The greatest common divisor divides both numbers and is a combination of them. */
  lemma {:induction false} GcdIs(a: nat, b: nat) returns (p: nat, q: nat, x: int, y: int)
    requires a > 0 || b > 0
    ensures var g := Gcd(a, b); g > 0 && a == g * p && b == g * q && x * a + y * b == g
    decreases b
  {
    if b == 0 {
      p, q, x, y := 1, 0, 1, 0;
    } else {
      var p', q', x', y' := GcdIs(b, a % b);
      var g, d := Gcd(a, b), a / b;
      p, q, x, y := d * p' + q', p', y', x' - d * y';
      assert a == d * b + a % b;
      Distributes(g, d, p', q');
      Combines(a, b, d, a % b, x', y');
    }
  }

  lemma {:induction false} Distributes(g: int, d: int, p: int, q: int)
    ensures g * (d * p + q) == d * (g * p) + g * q
  {
    assert g * (d * p + q) == g * (d * p) + g * q;
    assert g * (d * p) == d * (g * p);
  }

  lemma {:induction false} Combines(a: int, b: int, d: int, r: int, x: int, y: int)
    requires a == d * b + r
    ensures y * a + (x - d * y) * b == x * b + y * r
  {
    assert y * (d * b + r) == y * (d * b) + y * r;
    assert (x - d * y) * b == x * b - (d * y) * b;
    assert (d * y) * b == y * (d * b);
  }

  /** No phase exceeds the rate less its common divisor with 32728. */
  lemma {:induction false} PhaseAtMost(k: nat, rate: nat)
    requires rate > 0
    ensures Phase(k, rate) <= rate - Gcd(NATIVE_SAMPLE_RATE, rate)
  {
    var p, q, x, y := GcdIs(NATIVE_SAMPLE_RATE, rate);
    var g, base, phase := Gcd(NATIVE_SAMPLE_RATE, rate), Base(k, rate), Phase(k, rate);
    var m := k * p - base * q;
    assert k * NATIVE_SAMPLE_RATE == base * rate + phase;
    Multiples(k, g, p, base, q);
    assert phase == g * m && phase < g * q;
    FactorOrder(g, m, q);
  }

  lemma {:induction false} Multiples(k: nat, g: nat, p: nat, base: nat, q: nat)
    ensures k * (g * p) - base * (g * q) == g * (k * p - base * q)
  {
    assert k * (g * p) == g * (k * p) && base * (g * q) == g * (base * q);
  }

  lemma {:induction false} FactorOrder(g: nat, m: int, q: int)
    requires g > 0 && g * m < g * q
    ensures g * m <= g * q - g
  {
    assert g * (q - m) == g * q - g * m;
    NotNegative(q - m - 1, g, g - 1);
    assert (q - m - 1) * g == g * (q - m) - g;
  }

  lemma {:induction false} NotNegative(m: int, d: nat, r: nat)
    requires r < d && m * d + r >= 0
    ensures m >= 0 && m * d >= 0
  {
    if m < 0 {
      Negative(m, d);
    }
  }

  lemma {:induction false} Negative(m: int, d: nat)
    requires m < 0
    ensures m * d <= 0 - d
  {
    assert (-1 - m) * d >= 0;
    assert (-1 - m) * d == 0 - d - m * d;
  }

  /** and some phase reaches that bound. */
  lemma {:induction false} PhaseReaches(rate: nat) returns (k: nat)
    requires rate > 0
    ensures Phase(k, rate) == rate - Gcd(NATIVE_SAMPLE_RATE, rate)
  {
    var p, q, x, y := GcdIs(NATIVE_SAMPLE_RATE, rate);
    var g := Gcd(NATIVE_SAMPLE_RATE, rate);
    k := (-x) % rate;
    var t := (-x) / rate;
    assert -x == t * rate + k;
    var m := y - t * NATIVE_SAMPLE_RATE - 1;
    assert k * NATIVE_SAMPLE_RATE == -(x * NATIVE_SAMPLE_RATE) - t * rate * NATIVE_SAMPLE_RATE;
    assert k * NATIVE_SAMPLE_RATE == m * rate + (rate - g) by {
      assert m * rate == y * rate - t * NATIVE_SAMPLE_RATE * rate - rate;
      assert t * rate * NATIVE_SAMPLE_RATE == t * NATIVE_SAMPLE_RATE * rate;
    }
    assert 0 <= rate - g < rate by {
      FactorOrder(g, 0, q);
    }
    NotNegative(m, rate, rate - g);
    DivMod(k * NATIVE_SAMPLE_RATE, rate, m, rate - g);
  }

  /** The 32-bit run follows the closed form for ever exactly for the rates that, less their common
      divisor with 32728, leave room for one more step. */
  lemma {:induction false} RateIsExact(rate: nat)
    requires 0 < rate < U32
    ensures (forall k: nat :: Place(k, rate) == (Base(k, rate), Phase(k, rate)))
       <==> rate - Gcd(32728, rate) + 32728 < 0x1_0000_0000
  {
    var last := PhaseReaches(rate);
    RunIsExact(last + 1, rate);
    forall k: nat
      ensures rate - Gcd(NATIVE_SAMPLE_RATE, rate) + NATIVE_SAMPLE_RATE < U32 ==>
                Place(k, rate) == (Base(k, rate), Phase(k, rate))
    {
      RunIsExact(k, rate);
      forall i | 0 <= i < k
        ensures Phase(i, rate) <= rate - Gcd(NATIVE_SAMPLE_RATE, rate)
      {
        PhaseAtMost(i, rate);
      }
    }
  }

  /** At such a rate every output is the closed form's, however long the run. */
  lemma {:induction false} OutputIsClosedForm(src: nat -> Frame, k: nat, rate: nat, c: nat)
    requires 0 < rate < U32 && rate - Gcd(NATIVE_SAMPLE_RATE, rate) + NATIVE_SAMPLE_RATE < U32
    ensures Output(src, k, rate, c) == ClosedForm(src, k, rate, c)
  {
    RateIsExact(rate);
    assert Place(k, rate) == (Base(k, rate), Phase(k, rate));
  }

  /** A rate at which it does not: with 2^32 - 1 the phase wraps around behind output frame 131232. */
  lemma {:induction false} PhaseWraps()
    ensures var k, rate := 131232, 0xFFFF_FFFF;
            && (forall i :: 0 <= i <= k ==> Place(i, rate) == (Base(i, rate), Phase(i, rate)))
            && Place(k + 1, rate) != (Base(k + 1, rate), Phase(k + 1, rate))
  {
    var k, rate := 131232, 0xFFFF_FFFF;
    DivMod(k * NATIVE_SAMPLE_RATE, rate, 0, k * NATIVE_SAMPLE_RATE);
    forall i | 0 <= i < k
      ensures Phase(i, rate) + NATIVE_SAMPLE_RATE < U32
    {
      DivMod(i * NATIVE_SAMPLE_RATE, rate, 0, i * NATIVE_SAMPLE_RATE);
    }
    RunIsExact(k, rate);
    assert Phase(k, rate) + NATIVE_SAMPLE_RATE >= U32;
    RunIsExact(k + 1, rate);
  }

  lemma {:induction false} OutputsGrow(samples: seq<int>, src: nat -> Frame, k: nat, rate: nat, frame: nat, at: nat)
    requires rate > 0 && |samples| == 2 * frame + 2 && Outputs(samples[..2 * frame], src, k, rate)
    requires at == k + frame && FrameAt(samples, frame) == (Output(src, at, rate, 0), Output(src, at, rate, 1))
    ensures Outputs(samples, src, k, rate)
  {
    forall j | 0 <= j <= frame
      ensures FrameAt(samples, j) == (Output(src, k + j, rate, 0), Output(src, k + j, rate, 1))
    {
      assert j < frame ==> FrameAt(samples, j) == FrameAt(samples[..2 * frame], j);
    }
  }
}
