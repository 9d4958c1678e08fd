/**
 The ADPCM decoder (src/audio_core/codec.cpp): frames of 8 bytes hold a header and 14
 four-bit samples; a second-order filter with saturation carries its last two outputs on.
 */
module Adpcm {
  import opened Numbers

  const FRAME_LEN := 8
  const SAMPLES_PER_FRAME := 14

  /** Eight coefficient pairs. */
  type Coefficients = c: seq<Sample16> | |c| == 16 witness seq(16, _ => 0)

  /** The last two outputs. */
  datatype History = History(yn1: Sample16, yn2: Sample16)

  function SignedNibble(n: nat): int requires n < 16 { if n < 8 then n else n - 16 }

  function Pow2(n: nat): nat { if n == 0 then 1 else 2 * Pow2(n - 1) }

  /** The filter sum, with 11 fractional bits. */
  function FilterSum(nibble: int, shift: nat, c1: int, c2: int, h: History): int {
    nibble * Pow2(shift) * 0x800 + 0x400 + c1 * h.yn1 + c2 * h.yn2
  }

  /** One sample: the sum in 32 bits, shifted right by 11, saturated. */
  function Filter(nibble: int, shift: nat, c1: int, c2: int, h: History): Sample16 {
    Clamp16(Wrap32(FilterSum(nibble, shift, c1, c2, h)) / 0x800)
  }

  function Push(h: History, y: Sample16): History { History(y, h.yn1) }

  // ----- when 32 bits are enough ------------------------------------------------

  /** The least and the greatest value of c * y over all samples y. */
  function Low(c: int): int { if c >= 0 then c * -0x8000 else c * 0x7FFF }
  function High(c: int): int { if c >= 0 then c * 0x7FFF else c * -0x8000 }

  predicate Fits32(x: int) { -TWO_31 <= x < TWO_31 }

  /** The condition on a coefficient pair under which no filter sum overflows.  It bounds the sum from
      below; that bounds it from above as well. */
  predicate SafePair(c1: int, c2: int) {
    -TWO_31 <= -8 * 0x8000 * 0x800 + 0x400 + Low(c1) + Low(c2)
  }

  lemma Pow2Bounds(n: nat)
    requires n < 16
    ensures 1 <= Pow2(n) <= 0x8000
  {
    Pow2Of15();
    Pow2Monotone(n, 15);
  }

  lemma Pow2Monotone(m: nat, n: nat)
    requires m <= n
    ensures 1 <= Pow2(m) <= Pow2(n)
    decreases n
  {
    if m < n { Pow2Monotone(m, n - 1); } else if n > 0 { Pow2Monotone(m - 1, n - 1); }
  }

  lemma ProductRange(c: int, y: Sample16)
    ensures Low(c) <= c * y <= High(c)
  {
    if c >= 0 {
      MulLe(-0x8000, y, c);
      MulLe(y, 0x7FFF, c);
    } else {
      MulLe(-0x8000, y, -c);
      MulLe(y, 0x7FFF, -c);
      assert y * -c == -(c * y);
    }
  }

  lemma ExcitationRange(nibble: int, shift: nat)
    requires -8 <= nibble < 8 && shift < 16
    ensures -8 * 0x8000 * 0x800 <= nibble * Pow2(shift) * 0x800 <= 7 * 0x8000 * 0x800
  {
    Pow2Bounds(shift);
    var s := Pow2(shift);
    MulLe(-8, nibble, s);
    MulLe(nibble, 7, s);
  }

  lemma Pow2Of15()
    ensures Pow2(15) == 0x8000
  {
    assert Pow2(4) == 16;
    assert Pow2(8) == 256;
    assert Pow2(12) == 0x1000;
  }

  lemma SafeIsEnough(c1: int, c2: int, nibble: int, shift: nat, h: History)
    requires SafePair(c1, c2) && -8 <= nibble < 8 && shift < 16
    ensures Fits32(FilterSum(nibble, shift, c1, c2, h))
  {
    ExcitationRange(nibble, shift);
    ProductRange(c1, h.yn1);
    ProductRange(c2, h.yn2);
  }

  /** An input on which an unsafe pair overflows. */
  lemma UnsafeOverflows(c1: int, c2: int) returns (nibble: int, h: History)
    requires !SafePair(c1, c2)
    ensures -8 <= nibble < 8 && !Fits32(FilterSum(nibble, 15, c1, c2, h))
  {
    Pow2Of15();
    nibble, h := -8, History(if c1 >= 0 then -0x8000 else 0x7FFF, if c2 >= 0 then -0x8000 else 0x7FFF);
  }

  /** A coefficient pair is safe exactly when the filter sum fits in 32 bits for every nibble, scale and history. */
  lemma SafeExactly(c1: int, c2: int)
    ensures SafePair(c1, c2) <==>
            forall nibble: int, shift: nat, h: History :: -8 <= nibble < 8 && shift < 16 ==> Fits32(FilterSum(nibble, shift, c1, c2, h))
  {
    hide FilterSum, SafePair;
    if SafePair(c1, c2) {
      forall nibble: int, shift: nat, h: History | -8 <= nibble < 8 && shift < 16
        ensures Fits32(FilterSum(nibble, shift, c1, c2, h))
      {
        SafeIsEnough(c1, c2, nibble, shift, h);
      }
    } else {
      var nibble, h := UnsafeOverflows(c1, c2);
    }
  }

  function Abs(x: int): nat { if x < 0 then -x else x }

  /** A simple sufficient bound. */
  lemma SmallCoefficientsAreSafe(c1: int, c2: int)
    requires Abs(c1) + Abs(c2) <= 49152
    ensures SafePair(c1, c2)
  {}

  /** With safe coefficients the decoder computes the filter over the integers. */
  lemma SafeFilterIsExact(nibble: int, shift: nat, c1: int, c2: int, h: History)
    requires -8 <= nibble < 8 && shift < 16 && SafePair(c1, c2)
    ensures Filter(nibble, shift, c1, c2, h) == Clamp16(FilterSum(nibble, shift, c1, c2, h) / 0x800)
  {
    SafeIsEnough(c1, c2, nibble, shift, h);
  }

  // ----- decoding ----------------------------------------------------------------

  /** Where the nibble of sample t is. */
  function FrameOf(t: nat): nat { t / SAMPLES_PER_FRAME }
  function ByteOf(t: nat): nat { FrameOf(t) * FRAME_LEN + 1 + t % SAMPLES_PER_FRAME / 2 }

  /** The data reach as far as the first n samples. */
  predicate Enough(data: seq<Byte>, n: nat) { n > 0 ==> ByteOf(n - 1) < |data| }

  lemma EnoughForLess(data: seq<Byte>, m: nat, n: nat)
    requires Enough(data, n) && m <= n
    ensures Enough(data, m)
  {
    if 0 < m < n { ByteOfMonotone(m - 1, n - 1); }
  }

  lemma ByteOfMonotone(s: nat, t: nat)
    requires s <= t
    ensures FrameOf(s) <= FrameOf(t) && ByteOf(s) <= ByteOf(t)
  {
    var f, g := FrameOf(s), FrameOf(t);
    assert s == f * 14 + s % 14 && t == g * 14 + t % 14;
    if f == g { assert s % 14 <= t % 14; }
  }

  /** The sample t, given the two outputs before it. */
  function DecodeSample(data: seq<Byte>, coeff: Coefficients, h: History, t: nat): Sample16
    requires ByteOf(t) < |data|
  {
    var header, byte := data[FrameOf(t) * FRAME_LEN], data[ByteOf(t)];
    var nibble := if t % 2 == 0 then byte / 16 else byte % 16;
    var pair := header / 16 % 8;
    Filter(SignedNibble(nibble), header % 16, coeff[pair * 2], coeff[pair * 2 + 1], h)
  }

  /** The first n samples and the history after them, one sample at a time. */
  function Decode(data: seq<Byte>, coeff: Coefficients, h: History, n: nat): (r: (seq<Sample16>, History))
    requires Enough(data, n)
    ensures |r.0| == n
    decreases n
  {
    if n == 0 then ([], h)
    else
      EnoughForLess(data, n - 1, n);
      var (out, h1) := Decode(data, coeff, h, n - 1);
      var y := DecodeSample(data, coeff, h1, n - 1);
      (out + [y], Push(h1, y))
  }

  // ----- the recurrence ----------------------------------------------------------

  /** The output i places after the first; the two before it are the filter's state. */
  function Output(out: seq<Sample16>, yn1: Sample16, yn2: Sample16, i: int): Sample16
    requires -2 <= i < |out|
  {
    if i == -1 then yn1 else if i == -2 then yn2 else out[i]
  }

  /** The second-order filter of sample t over the outputs themselves, with the nibble, the scale and the
      coefficients read off the data: rounded to nearest, with 11 fractional bits. */
  ghost predicate Recurs(data: seq<Byte>, coeff: Coefficients, yn1: Sample16, yn2: Sample16, out: seq<Sample16>, t: nat)
    requires t < |out| && ByteOf(t) < |data|
  {
    var header := data[t / 14 * 8];
    var byte := data[t / 14 * 8 + 1 + t % 14 / 2];
    var nibble := if t % 2 == 0 then byte / 16 else byte % 16;
    var x := (if nibble < 8 then nibble else nibble - 16) * Pow2(header % 16);
    var c1, c2 := coeff[header / 16 % 8 * 2], coeff[header / 16 % 8 * 2 + 1];
    var sum := x * 2048 + 1024 + c1 * Output(out, yn1, yn2, t - 1) + c2 * Output(out, yn1, yn2, t - 2);
    && out[t] == Clamp16(Wrap32(sum) / 2048)
    && (SafePair(c1, c2) ==> out[t] == Clamp16(sum / 2048))
  }

  lemma SampleRecurs(data: seq<Byte>, coeff: Coefficients, yn1: Sample16, yn2: Sample16, out: seq<Sample16>, t: nat)
    requires t < |out| && ByteOf(t) < |data|
    requires out[t] == DecodeSample(data, coeff, History(Output(out, yn1, yn2, t - 1), Output(out, yn1, yn2, t - 2)), t)
    ensures Recurs(data, coeff, yn1, yn2, out, t)
  {
    hide Wrap32, Clamp16, SafePair, Pow2, Output;
    var header, byte := data[FrameOf(t) * FRAME_LEN], data[ByteOf(t)];
    var nibble := if t % 2 == 0 then byte / 16 else byte % 16;
    var c1, c2 := coeff[header / 16 % 8 * 2], coeff[header / 16 % 8 * 2 + 1];
    var h := History(Output(out, yn1, yn2, t - 1), Output(out, yn1, yn2, t - 2));
    if SafePair(c1, c2) { SafeFilterIsExact(SignedNibble(nibble), header % 16, c1, c2, h); }
  }

  lemma RecursInPrefix(data: seq<Byte>, coeff: Coefficients, yn1: Sample16, yn2: Sample16, out: seq<Sample16>, y: Sample16, t: nat)
    requires t < |out| && ByteOf(t) < |data|
    ensures Recurs(data, coeff, yn1, yn2, out + [y], t) == Recurs(data, coeff, yn1, yn2, out, t)
  {
    hide Wrap32, Clamp16, SafePair, Pow2;
    assert Output(out + [y], yn1, yn2, t - 1) == Output(out, yn1, yn2, t - 1);
    assert Output(out + [y], yn1, yn2, t - 2) == Output(out, yn1, yn2, t - 2);
  }

  /** Every decoded sample obeys the recurrence, and the state left behind is the last two outputs. */
  lemma {:induction false} DecodeRecurs(data: seq<Byte>, coeff: Coefficients, h: History, n: nat)
    requires Enough(data, n)
    ensures var (out, h1) := Decode(data, coeff, h, n);
            && (forall t :: 0 <= t < n ==> ByteOf(t) < |data| && Recurs(data, coeff, h.yn1, h.yn2, out, t))
            && h1.yn1 == Output(out, h.yn1, h.yn2, n - 1) && h1.yn2 == Output(out, h.yn1, h.yn2, n - 2)
    decreases n
  {
    hide Recurs, DecodeSample, ByteOf;
    if n > 0 {
      EnoughForLess(data, n - 1, n);
      DecodeRecurs(data, coeff, h, n - 1);
      var (out0, h0) := Decode(data, coeff, h, n - 1);
      var y := DecodeSample(data, coeff, h0, n - 1);
      var out := out0 + [y];
      forall t | 0 <= t < n ensures ByteOf(t) < |data| && Recurs(data, coeff, h.yn1, h.yn2, out, t) {
        if t < n - 1 {
          RecursInPrefix(data, coeff, h.yn1, h.yn2, out0, y, t);
        } else {
          assert Output(out, h.yn1, h.yn2, n - 2) == h0.yn1 && Output(out, h.yn1, h.yn2, n - 3) == h0.yn2;
          SampleRecurs(data, coeff, h.yn1, h.yn2, out, t);
        }
      }
    }
  }

  function RoundUpToEven(n: nat): nat { if n % 2 == 0 then n else n + 1 }

  class AdpcmState {
    var yn1: Sample16
    var yn2: Sample16

    ghost function Abs(): History reads this { History(yn1, yn2) }
  }

  /** Decoded so far: h and ret stand where the sample-by-sample reference stands after done samples. */
  ghost predicate DecodedTo(data: seq<Byte>, coeff: Coefficients, h0: History, done: nat, h: History, ret: seq<(Sample16, Sample16)>) {
    && Enough(data, done) && done <= |ret|
    && var (out, h1) := Decode(data, coeff, h0, done);
       h == h1 && forall i :: 0 <= i < done ==> ret[i] == (out[i], out[i])
  }

  /** One more sample. */
  lemma DecodedNext(data: seq<Byte>, coeff: Coefficients, h0: History, done: nat, h: History,
                    ret: seq<(Sample16, Sample16)>, y: Sample16, ret': seq<(Sample16, Sample16)>)
    requires DecodedTo(data, coeff, h0, done, h, ret) && done < |ret| && ByteOf(done) < |data|
    requires y == DecodeSample(data, coeff, h, done) && ret' == ret[done := (y, y)]
    ensures DecodedTo(data, coeff, h0, done + 1, Push(h, y), ret')
  {}

  lemma PlaceOf(frame: nat, i: nat, t: nat)
    requires i < SAMPLES_PER_FRAME && t == frame * SAMPLES_PER_FRAME + i
    ensures FrameOf(t) == frame && ByteOf(t) == frame * FRAME_LEN + 1 + i / 2 && t % 2 == i % 2
  {
    DivMod(t, SAMPLES_PER_FRAME, frame, i);
    EvenPlus(frame * 7, i);
  }

  /** The filter settings in the header of a frame. */
  datatype Settings = Settings(shift: nat, c1: Sample16, c2: Sample16)

  function SettingsOf(header: Byte, coeff: Coefficients): Settings {
    var pair := header / 16 % 8;
    Settings(header % 16, coeff[pair * 2], coeff[pair * 2 + 1])
  }

  lemma SampleInFrame(data: seq<Byte>, coeff: Coefficients, h: History, frame: nat, i: nat, t: nat, datai: nat, size: nat)
    requires i < SAMPLES_PER_FRAME && t == frame * SAMPLES_PER_FRAME + i && datai == frame * FRAME_LEN + 1 + i / 2
    requires Enough(data, size) && t < size
    ensures ByteOf(t) == datai < |data|
    ensures var s := SettingsOf(data[frame * FRAME_LEN], coeff);
            DecodeSample(data, coeff, h, t) ==
            Filter(SignedNibble(if i % 2 == 0 then data[datai] / 16 else data[datai] % 16), s.shift, s.c1, s.c2, h)
  {
    hide Filter;
    PlaceOf(frame, i, t);
    EnoughForLess(data, t + 1, size);
  }

  /** The body of the inner loop: one byte, two samples. */
  method DecodeByte(data: seq<Byte>, coeff: Coefficients, s: Settings, frame: nat, i: nat, outputi: nat, datai: nat, h: History,
                    ret: array<(Sample16, Sample16)>, ghost h0: History) returns (h': History)
    requires i + 1 < SAMPLES_PER_FRAME && i % 2 == 0 && outputi + 2 <= ret.Length && Enough(data, ret.Length)
    requires outputi == frame * SAMPLES_PER_FRAME + i && datai == frame * FRAME_LEN + 1 + i / 2 < |data|
    requires s == SettingsOf(data[frame * FRAME_LEN], coeff)
    requires DecodedTo(data, coeff, h0, outputi, h, ret[..])
    modifies ret
    ensures DecodedTo(data, coeff, h0, outputi + 2, h', ret[..])
  {
    hide DecodedTo, Filter, DecodeSample, SettingsOf, Enough;
    ghost var size := ret.Length;
    ghost var r0 := ret[..];
    SampleInFrame(data, coeff, h, frame, i, outputi, datai, size);
    var y := Filter(SignedNibble(data[datai] / 16), s.shift, s.c1, s.c2, h);
    ret[outputi] := (y, y);
    ghost var r1 := ret[..];
    DecodedNext(data, coeff, h0, outputi, h, r0, y, r1);
    h' := Push(h, y);
    SampleInFrame(data, coeff, h', frame, i + 1, outputi + 1, datai, size);
    y := Filter(SignedNibble(data[datai] % 16), s.shift, s.c1, s.c2, h');
    ret[outputi + 1] := (y, y);
    ghost var r2 := ret[..];
    DecodedNext(data, coeff, h0, outputi + 1, h', r1, y, r2);
    h' := Push(h', y);
    assert outputi + 1 + 1 == outputi + 2;
  }

  lemma EvenStep(t: nat, count: nat)
    requires t % 2 == 0 && t < count
    ensures (t + 2) % 2 == 0 && t + 2 <= RoundUpToEven(count)
    ensures t + 2 >= count ==> t + 2 == RoundUpToEven(count)
  {}

  /** The inner loop: up to seven bytes of one frame, two samples each. */
  method DecodeFrame(data: seq<Byte>, count: nat, coeff: Coefficients, frame: nat, h: History,
                     ret: array<(Sample16, Sample16)>, ghost h0: History) returns (h': History, ghost done: nat)
    requires ret.Length == RoundUpToEven(count) && Enough(data, ret.Length) && frame * SAMPLES_PER_FRAME < count
    requires DecodedTo(data, coeff, h0, frame * SAMPLES_PER_FRAME, h, ret[..])
    modifies ret
    ensures DecodedTo(data, coeff, h0, done, h', ret[..])
    ensures done == if count <= (frame + 1) * SAMPLES_PER_FRAME then ret.Length else (frame + 1) * SAMPLES_PER_FRAME
  {
    hide DecodedTo, Enough, ByteOf, SettingsOf, RoundUpToEven, DecodeSample, Filter;
    var outputi, datai, i := frame * SAMPLES_PER_FRAME, frame * FRAME_LEN + 1, 0;
    ghost var base, byte := outputi, datai;
    RoundsAtTheEnd(frame, outputi, 0);
    assert (frame + 1) * SAMPLES_PER_FRAME == base + SAMPLES_PER_FRAME;
    EvenStep(outputi, count);
    SampleInFrame(data, coeff, h, frame, 0, outputi, datai, ret.Length);
    var settings := SettingsOf(data[frame * FRAME_LEN], coeff);
    h' := h;
    while i < SAMPLES_PER_FRAME && outputi < count
      invariant 0 <= i <= SAMPLES_PER_FRAME && i % 2 == 0 && outputi % 2 == 0
      invariant outputi == base + i <= ret.Length && datai == byte + i / 2
      invariant outputi >= count ==> outputi == ret.Length
      invariant DecodedTo(data, coeff, h0, outputi, h', ret[..])
    {
      EvenStep(outputi, count);
      SampleInFrame(data, coeff, h', frame, i, outputi, datai, ret.Length);
      h' := DecodeByte(data, coeff, settings, frame, i, outputi, datai, h', ret, h0);
      outputi := outputi + 2;
      datai := datai + 1;
      i := i + 2;
    }
    done := outputi;
  }

  /** ret holds out in both channels, every sample of it obeys the recurrence, and the last two outputs are
      the new state. */
  ghost predicate Filtered(data: seq<Byte>, coeff: Coefficients, yn1: Sample16, yn2: Sample16, out: seq<Sample16>,
                           ret: seq<(Sample16, Sample16)>, new1: Sample16, new2: Sample16) {
    && |ret| == |out| && (forall t :: 0 <= t < |out| ==> ret[t] == (out[t], out[t]))
    && (forall t :: 0 <= t < |out| ==> ByteOf(t) < |data| && Recurs(data, coeff, yn1, yn2, out, t))
    && new1 == Output(out, yn1, yn2, |out| - 1) && new2 == Output(out, yn1, yn2, |out| - 2)
  }

  lemma DecodedIsFiltered(data: seq<Byte>, coeff: Coefficients, h0: History, size: nat, h: History, ret: seq<(Sample16, Sample16)>)
    requires DecodedTo(data, coeff, h0, size, h, ret) && |ret| == size
    ensures Enough(data, size)
    ensures var (out, h1) := Decode(data, coeff, h0, size);
            h == h1 && forall i :: 0 <= i < |out| ==> ret[i] == (out[i], out[i])
    ensures exists out: seq<Sample16> :: Filtered(data, coeff, h0.yn1, h0.yn2, out, ret, h.yn1, h.yn2)
  {
    hide Recurs, ByteOf;
    DecodeRecurs(data, coeff, h0, size);
    var out := Decode(data, coeff, h0, size).0;
    assert Filtered(data, coeff, h0.yn1, h0.yn2, out, ret, h.yn1, h.yn2);
  }

  lemma NothingDecoded(data: seq<Byte>, coeff: Coefficients, h: History, ret: seq<(Sample16, Sample16)>)
    ensures DecodedTo(data, coeff, h, 0, h, ret)
  {}

  /** DecodeADPCM.  Samples are decoded in pairs, so an odd count decodes one more; each output sample
      fills both channels. */
  method DecodeADPCM(data: seq<Byte>, count: nat, coeff: Coefficients, state: AdpcmState)
      returns (ret: array<(Sample16, Sample16)>)
    requires Enough(data, RoundUpToEven(count))
    modifies state
    ensures ret.Length == RoundUpToEven(count)
    ensures var (out, h) := Decode(data, coeff, old(state.Abs()), RoundUpToEven(count));
            state.Abs() == h && forall i :: 0 <= i < |out| ==> ret[i] == (out[i], out[i])
    ensures exists out: seq<Sample16> :: Filtered(data, coeff, old(state.yn1), old(state.yn2), out, ret[..], state.yn1, state.yn2)
  {
    hide DecodedTo, Decode, Filtered, Enough;
    var size := if count % 2 == 0 then count else count + 1;
    ret := new (Sample16, Sample16)[size](_ => (0, 0));
    var h := History(state.yn1, state.yn2);
    ghost var h0 := h;
    ghost var done := 0;
    NothingDecoded(data, coeff, h0, ret[..]);
    var frames := (count + (SAMPLES_PER_FRAME - 1)) / SAMPLES_PER_FRAME;
    for frame := 0 to frames
      invariant frame < frames ==> done == frame * SAMPLES_PER_FRAME
      invariant frame == frames ==> done == size
      invariant DecodedTo(data, coeff, h0, done, h, ret[..])
    {
      h, done := DecodeFrame(data, count, coeff, frame, h, ret, h0);
    }
    state.yn1, state.yn2 := h.yn1, h.yn2;
    DecodedIsFiltered(data, coeff, h0, size, h, ret[..]);
  }

  lemma ShiftedPlace(frames: nat, s: nat, t: nat)
    requires t == frames * SAMPLES_PER_FRAME + s
    ensures FrameOf(t) == frames + FrameOf(s) && ByteOf(t) == frames * FRAME_LEN + ByteOf(s) && t % 2 == s % 2
  {
    var f, i := FrameOf(s), s % 14;
    assert t == (frames + f) * 14 + i;
    PlaceOf(frames + f, i, t);
    PlaceOf(f, i, s);
  }

  /** A sample of the data after some frames is a later sample of the whole. */
  lemma ShiftedSample(data: seq<Byte>, coeff: Coefficients, h: History, frames: nat, rest: seq<Byte>, s: nat, t: nat)
    requires t == frames * SAMPLES_PER_FRAME + s && ByteOf(t) < |data|
    requires frames * FRAME_LEN <= |data| && rest == data[frames * FRAME_LEN..]
    ensures ByteOf(s) < |rest| && DecodeSample(rest, coeff, h, s) == DecodeSample(data, coeff, h, t)
  {
    hide Filter;
    ShiftedPlace(frames, s, t);
    var a, b := FrameOf(s) * FRAME_LEN, ByteOf(s);
    assert FrameOf(t) * FRAME_LEN == frames * FRAME_LEN + a;
    assert rest[a] == data[frames * FRAME_LEN + a] && rest[b] == data[frames * FRAME_LEN + b];
  }

  /** Decoding composes at frame boundaries: n1 + n samples are n1 samples, then n samples from the byte
      where the next frame starts, with the history carried over. */
  lemma {:induction false} DecodingComposes(data: seq<Byte>, coeff: Coefficients, h: History, frames: nat, n1: nat,
                                            rest: seq<Byte>, n: nat, t: nat)
    requires n1 == frames * SAMPLES_PER_FRAME && t == n1 + n && Enough(data, t)
    requires frames * FRAME_LEN <= |data| && rest == data[frames * FRAME_LEN..]
    ensures Enough(data, n1) && Enough(rest, n)
    ensures var (out1, h1) := Decode(data, coeff, h, n1);
            var (out2, h2) := Decode(rest, coeff, h1, n);
            Decode(data, coeff, h, t) == (out1 + out2, h2)
    decreases n
  {
    hide DecodeSample, ByteOf;
    EnoughForLess(data, n1, t);
    var (out1, h1) := Decode(data, coeff, h, n1);
    if n == 0 {
      assert out1 + [] == out1;
    } else {
      EnoughForLess(data, t - 1, t);
      DecodingComposes(data, coeff, h, frames, n1, rest, n - 1, t - 1);
      var (out2, h2) := Decode(rest, coeff, h1, n - 1);
      ShiftedSample(data, coeff, h2, frames, rest, n - 1, t - 1);
      var y := DecodeSample(data, coeff, h2, t - 1);
      assert out1 + (out2 + [y]) == out1 + out2 + [y];
    }
  }

  /** Frames hold an even number of samples, so only the last count is rounded. */
  lemma RoundsAtTheEnd(frames: nat, n1: nat, n2: nat)
    requires n1 == frames * SAMPLES_PER_FRAME
    ensures n1 % 2 == 0 && RoundUpToEven(n1) == n1 && RoundUpToEven(n1 + n2) == n1 + RoundUpToEven(n2)
  {
    var half := frames * 7;
    assert n1 == 2 * half;
    EvenPlus(half, n2);
    EvenPlus(half, 0);
  }

  lemma EvenPlus(half: nat, n: nat)
    ensures (2 * half + n) % 2 == n % 2
  {}

  /** Splitting a buffer after whole frames and decoding it in two calls gives what one call gives: the
      outputs follow on, the count being rounded up to even only at the end. */
  lemma SplitBuffers(data: seq<Byte>, coeff: Coefficients, h: History, frames: nat, n1: nat, rest: seq<Byte>, n2: nat)
    requires n1 == frames * SAMPLES_PER_FRAME && Enough(data, RoundUpToEven(n1 + n2))
    requires frames * FRAME_LEN <= |data| && rest == data[frames * FRAME_LEN..]
    ensures RoundUpToEven(n1) == n1 && Enough(data, n1) && Enough(rest, RoundUpToEven(n2))
    ensures var (out1, h1) := Decode(data, coeff, h, n1);
            var (out2, h2) := Decode(rest, coeff, h1, RoundUpToEven(n2));
            Decode(data, coeff, h, RoundUpToEven(n1 + n2)) == (out1 + out2, h2)
  {
    hide Decode, Enough, RoundUpToEven;
    RoundsAtTheEnd(frames, n1, n2);
    DecodingComposes(data, coeff, h, frames, n1, rest, RoundUpToEven(n2), RoundUpToEven(n1 + n2));
  }
}
