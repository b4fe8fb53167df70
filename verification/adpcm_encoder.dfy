/** What an encoder makes of samples is what the decoder gives back. */
module AdpcmEncoder {
  import opened Sequences
  import opened Adpcm

  predicate AreNibbles(nibbles: seq<nat>) { forall i :: 0 <= i < |nibbles| ==> nibbles[i] < 16 }

  /** A frame: its header, then two nibbles a byte, the first one high. */
  function FrameBytes(header: U8, n: seq<nat>): (r: seq<U8>)
    requires |n| == 14 && AreNibbles(n)
    ensures |r| == 8
  {
    [header] + seq(7, i requires 0 <= i < 7 => n[2 * i] * 16 + n[2 * i + 1])
  }

  function Packed(headers: seq<U8>, nibbles: seq<nat>): (r: seq<U8>)
    requires |nibbles| == 14 * |headers| && AreNibbles(nibbles)
    ensures |r| == 8 * |headers|
  {
    if headers == [] then [] else FrameBytes(headers[0], nibbles[..14]) + Packed(headers[1..], nibbles[14..])
  }

  /** The byte of a sample in its frame. */
  lemma {:induction false} FrameByte(header: U8, n: seq<nat>, r: nat)
    requires |n| == 14 && AreNibbles(n) && r < 14
    ensures var b := FrameBytes(header, n)[1 + r / 2]; n[r] == if r % 2 == 0 then b / 16 else b % 16
  {
    var i := r / 2;
    assert r == 2 * i + r % 2;
    assert FrameBytes(header, n)[1 + i] == n[2 * i] * 16 + n[2 * i + 1];
  }

  lemma {:induction false} PackedAt(headers: seq<U8>, nibbles: seq<nat>, f: nat, r: nat)
    requires |nibbles| == 14 * |headers| && AreNibbles(nibbles) && f < |headers| && r < 14
    ensures var data := Packed(headers, nibbles);
            && data[8 * f] == headers[f]
            && nibbles[14 * f + r] == if r % 2 == 0 then data[8 * f + 1 + r / 2] / 16 else data[8 * f + 1 + r / 2] % 16
    decreases f
  {
    var first, rest := FrameBytes(headers[0], nibbles[..14]), Packed(headers[1..], nibbles[14..]);
    if f == 0 {
      FrameByte(headers[0], nibbles[..14], r);
      assert (first + rest)[1 + r / 2] == first[1 + r / 2];
    } else {
      PackedAt(headers[1..], nibbles[14..], f - 1, r);
      assert (first + rest)[8 * f] == rest[8 * (f - 1)];
      assert (first + rest)[8 * f + 1 + r / 2] == rest[8 * (f - 1) + 1 + r / 2];
      assert nibbles[14..][14 * (f - 1) + r] == nibbles[14 * f + r];
    }
  }

  /** The prediction of the filter and the residual, scaled: the sample that an encoder stands for. */
  function Sample(coeff: Coefficients, header: U8, nibble: nat, y1: S16, y2: S16): S16
    requires nibble < 16
  {
    var residual: int := if nibble >= 8 then nibble - 16 else nibble;
    var predicted := y1 * coeff[header / 16 % 8 * 2] + y2 * coeff[header / 16 % 8 * 2 + 1];
    Clamped((predicted + residual * (POWERS[header % 16] * 2048) + 1024) / 2048)
  }

  function Clamped(v: int): S16
  {
    if v > 32767 then 32767 else if v >= -32768 then v else -32768
  }

  lemma {:induction false} Reordered(c1: int, c2: int, y1: int, y2: int, r: int, p: int)
    ensures y1 * c1 + y2 * c2 + r * (p * 2048) + 1024 == 2048 * (r * p) + 1024 + c1 * y1 + c2 * y2
  {
    assert r * (p * 2048) == 2048 * (r * p);
  }

  lemma {:induction false} SampleIsFormula(coeff: Coefficients, header: U8, nibble: nat, y1: S16, y2: S16)
    requires nibble < 16
    ensures Sample(coeff, header, nibble, y1, y2) == Formula(coeff, header, nibble, y1, y2)
  {
    var j := header / 16 % 8;
    Reordered(coeff[2 * j], coeff[2 * j + 1], y1, y2, if nibble < 8 then nibble else nibble - 16, POWERS[header % 16]);
  }

  function Before(samples: seq<S16>, st: State, k: nat): (S16, S16)
    requires k <= |samples|
  {
    (if k > 0 then samples[k - 1] else st.yn1, if k > 1 then samples[k - 2] else if k == 1 then st.yn1 else st.yn2)
  }

  /** Each sample is the one that its nibble stands for, behind the two in front of it. */
  predicate Encodes(samples: seq<S16>, headers: seq<U8>, nibbles: seq<nat>, coeff: Coefficients, st: State)
    requires |samples| == |nibbles| == 14 * |headers| && AreNibbles(nibbles)
  {
    forall k :: 0 <= k < |samples| ==> k / 14 < |headers| && IsSample(samples, headers[k / 14], nibbles[k], coeff, st, k)
  }

  predicate IsSample(samples: seq<S16>, header: U8, nibble: nat, coeff: Coefficients, st: State, k: nat)
    requires k < |samples| && nibble < 16
  {
    samples[k] == Sample(coeff, header, nibble, Before(samples, st, k).0, Before(samples, st, k).1)
  }

  lemma {:induction false} FrameOf(k: nat, frames: nat)
    requires k < 14 * frames
    ensures k / 14 < frames && k == 14 * (k / 14) + k % 14
  {
  }

  lemma {:induction false} EnoughBytes(frames: nat)
    ensures BytesFor(14 * frames) <= 8 * frames
  {
    if frames > 0 {
      PlaceIsRemainder(14 * frames - 1, frames - 1, 13);
    }
  }

  /** Every series of samples whose residuals are nibbles is decoded back from the packed nibbles, the
      clamping included. */
  lemma {:induction false} EncodedIsDecoded(samples: seq<S16>, headers: seq<U8>, nibbles: seq<nat>, coeff: Coefficients,
                                            st: State)
    requires |samples| == |nibbles| == 14 * |headers| && AreNibbles(nibbles) && Encodes(samples, headers, nibbles, coeff, st)
    ensures BytesFor(|samples|) <= 8 * |headers| && Samples(Packed(headers, nibbles), coeff, st, |samples|) == samples
  {
    EnoughBytes(|headers|);
    var decoded := Samples(Packed(headers, nibbles), coeff, st, |samples|);
    FirstAgree(samples, headers, nibbles, coeff, st, decoded, |samples|);
    assert decoded[..|samples|] == decoded && samples[..|samples|] == samples;
  }

  lemma {:induction false} FirstAgree(samples: seq<S16>, headers: seq<U8>, nibbles: seq<nat>, coeff: Coefficients, st: State,
                                      decoded: seq<S16>, n: nat)
    requires |samples| == |nibbles| == 14 * |headers| && AreNibbles(nibbles) && Encodes(samples, headers, nibbles, coeff, st)
    requires BytesFor(|samples|) <= 8 * |headers| && n <= |samples|
    requires decoded == Samples(Packed(headers, nibbles), coeff, st, |samples|)
    ensures decoded[..n] == samples[..n]
    decreases n
  {
    if n > 0 {
      var k := n - 1;
      FirstAgree(samples, headers, nibbles, coeff, st, decoded, k);
      NextAgrees(samples, headers, nibbles, coeff, st, decoded, k);
      PrefixGrows(decoded, samples, k);
    }
  }

  lemma {:induction false} PrefixGrows(a: seq<S16>, b: seq<S16>, k: nat)
    requires k < |a| && k < |b| && a[..k] == b[..k] && a[k] == b[k]
    ensures a[..k + 1] == b[..k + 1]
  {
    assert a[..k + 1] == a[..k] + [a[k]] && b[..k + 1] == b[..k] + [b[k]];
  }

  /** What is decoded from packed nibbles, sample by sample. */
  lemma {:induction false} PackedFormula(headers: seq<U8>, nibbles: seq<nat>, coeff: Coefficients, st: State,
                                         decoded: seq<S16>, k: nat)
    requires |nibbles| == 14 * |headers| && AreNibbles(nibbles) && k < |nibbles| && BytesFor(|nibbles|) <= 8 * |headers|
    requires decoded == Samples(Packed(headers, nibbles), coeff, st, |nibbles|)
    ensures k / 14 < |headers|
    ensures decoded[k] == Formula(coeff, headers[k / 14], nibbles[k], Before(decoded, st, k).0, Before(decoded, st, k).1)
  {
    FrameOf(k, |headers|);
    PackedAt(headers, nibbles, k / 14, k % 14);
    Parity(k);
    SampleFormula(Packed(headers, nibbles), coeff, st, |nibbles|, k);
  }

  lemma {:induction false} SameBefore(a: seq<S16>, b: seq<S16>, st: State, k: nat)
    requires k <= |a| && k <= |b| && a[..k] == b[..k]
    ensures Before(a, st, k) == Before(b, st, k)
  {
    assert k > 0 ==> a[k - 1] == a[..k][k - 1] == b[k - 1];
    assert k > 1 ==> a[k - 2] == a[..k][k - 2] == b[k - 2];
  }

  lemma {:induction false} NextAgrees(samples: seq<S16>, headers: seq<U8>, nibbles: seq<nat>, coeff: Coefficients, st: State,
                   decoded: seq<S16>, k: nat)
    requires |samples| == |nibbles| == 14 * |headers| && AreNibbles(nibbles) && Encodes(samples, headers, nibbles, coeff, st)
    requires BytesFor(|samples|) <= 8 * |headers| && k < |samples|
    requires decoded == Samples(Packed(headers, nibbles), coeff, st, |samples|) && decoded[..k] == samples[..k]
    ensures decoded[k] == samples[k]
  {
    PackedFormula(headers, nibbles, coeff, st, decoded, k);
    SameBefore(decoded, samples, st, k);
    SampleIsFormula(coeff, headers[k / 14], nibbles[k], Before(samples, st, k).0, Before(samples, st, k).1);
  }

  lemma {:induction false} ZeroNibble(coeff: Coefficients, header: U8, y1: S16, y2: S16)
    ensures var j := header / 16 % 8 * 2;
            && (coeff[j] == 2048 && coeff[j + 1] == 0 ==> Sample(coeff, header, 0, y1, y2) == y1)
            && (coeff[j] == 0 && coeff[j + 1] == 2048 ==> Sample(coeff, header, 0, y1, y2) == y2)
  {
    assert 0 * (POWERS[header % 16] * 2048) == 0;
  }

  function Zeros(n: nat): (r: seq<nat>)
    ensures |r| == n && AreNibbles(r) && forall i :: 0 <= i < n ==> r[i] == 0
  {
    seq(n, _ => 0)
  }

  function Held(y: S16, n: nat): (r: seq<S16>)
    ensures |r| == n && forall i :: 0 <= i < n ==> r[i] == y
  {
    seq(n, _ => y)
  }

  function InTurn(y1: S16, y2: S16, n: nat): (r: seq<S16>)
    ensures |r| == n && forall i :: 0 <= i < n ==> r[i] == if i % 2 == 0 then y2 else y1
  {
    seq(n, i => if i % 2 == 0 then y2 else y1)
  }

  /** Zero nibbles, with the first coefficient one and the second zero, hold the last sample. */
  lemma {:induction false} LastIsHeld(headers: seq<U8>, coeff: Coefficients, st: State, n: nat)
    requires n == 14 * |headers|
    requires forall i :: 0 <= i < |headers| ==> coeff[headers[i] / 16 % 8 * 2] == 2048 && coeff[headers[i] / 16 % 8 * 2 + 1] == 0
    ensures BytesFor(n) <= 8 * |headers| && Samples(Packed(headers, Zeros(n)), coeff, st, n) == Held(st.yn1, n)
  {
    var y := Held(st.yn1, n);
    forall k: nat | k < n
      ensures k / 14 < |headers| && IsSample(y, headers[k / 14], 0, coeff, st, k)
    {
      FrameOf(k, |headers|);
      ZeroNibble(coeff, headers[k / 14], Before(y, st, k).0, Before(y, st, k).1);
    }
    EncodedIsDecoded(y, headers, Zeros(n), coeff, st);
  }

  /** With the coefficients the other way round they repeat the last two samples in turn. */
  lemma {:induction false} LastTwoRepeat(headers: seq<U8>, coeff: Coefficients, st: State, n: nat)
    requires n == 14 * |headers|
    requires forall i :: 0 <= i < |headers| ==> coeff[headers[i] / 16 % 8 * 2] == 0 && coeff[headers[i] / 16 % 8 * 2 + 1] == 2048
    ensures BytesFor(n) <= 8 * |headers| && Samples(Packed(headers, Zeros(n)), coeff, st, n) == InTurn(st.yn1, st.yn2, n)
  {
    var y := InTurn(st.yn1, st.yn2, n);
    forall k: nat | k < n
      ensures k / 14 < |headers| && IsSample(y, headers[k / 14], 0, coeff, st, k)
    {
      FrameOf(k, |headers|);
      ZeroNibble(coeff, headers[k / 14], Before(y, st, k).0, Before(y, st, k).1);
    }
    EncodedIsDecoded(y, headers, Zeros(n), coeff, st);
  }
}
