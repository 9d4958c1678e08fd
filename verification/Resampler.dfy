/**
 The fixed-point streaming resampler (src/audio_core/interpolate.cpp).  Positions have
 24 fractional bits; the step size, a truncated product of the float rate, is a parameter.
 */
module Resampler {
  const SCALE := 0x100_0000

  /** Integer and fractional part of a position. */
  function Whole(p: nat): nat { p / SCALE }
  function Fraction(p: nat): nat { p % SCALE }

  /** The position after n steps. */
  function At(p: nat, step: nat, n: nat): (r: nat)
    ensures p <= r
  {
    if n == 0 then p else At(p, step, n - 1) + step
  }

  lemma {:induction false} AtIsLinear(p: nat, step: nat, n: nat)
    ensures At(p, step, n) == p + n * step
  {
    if n > 0 {
      AtIsLinear(p, step, n - 1);
      assert n * step == (n - 1) * step + step;
    }
  }

  lemma {:induction false} AtCompose(p: nat, step: nat, m: nat, n: nat)
    ensures At(At(p, step, m), step, n) == At(p, step, m + n)
  {
    if n > 0 { AtCompose(p, step, m, n - 1); }
  }

  lemma {:induction false} AtShift(p: nat, step: nat, n: nat, d: nat)
    ensures At(p + d, step, n) == At(p, step, n) + d
  {
    if n > 0 { AtShift(p, step, n - 1, d); }
  }

  lemma ShiftPosition(c: nat, p: nat)
    ensures Whole(c * SCALE + p) == c + Whole(p) && Fraction(c * SCALE + p) == Fraction(p)
  {}

  type SampleFn<!T> = (nat, T, T, T) -> T

  /** The output sample at a position of a stream: a function of three adjacent samples. */
  function SampleAt<T>(fn: SampleFn<T>, x: seq<T>, p: nat): T
    requires Whole(p) + 2 < |x|
  {
    fn(Fraction(p), x[Whole(p)], x[Whole(p) + 1], x[Whole(p) + 2])
  }

  /** The stream reaches far enough for the n samples from p on. */
  predicate Reaches(size: nat, p: nat, step: nat, n: nat) {
    n > 0 ==> Whole(At(p, step, n - 1)) + 2 < size
  }

  /** The samples at n positions from p on, step apart. */
  function Samples<T>(fn: SampleFn<T>, x: seq<T>, p: nat, step: nat, n: nat): (r: seq<T>)
    requires Reaches(|x|, p, step, n)
    ensures |r| == n
    decreases n
  {
    if n == 0 then [] else Samples(fn, x, p, step, n - 1) + [SampleAt(fn, x, At(p, step, n - 1))]
  }

  /** The i-th sample is computed from the three stream samples around position p + i * step and the fraction of
      that position, with 24 fractional bits. */
  lemma {:induction false} SamplesAre<T>(fn: SampleFn<T>, x: seq<T>, p: nat, step: nat, n: nat, i: nat)
    requires Reaches(|x|, p, step, n) && i < n
    ensures var at := p + i * step;
            var k := at / 0x100_0000;
            k + 2 < |x| && Samples(fn, x, p, step, n)[i] == fn(at % 0x100_0000, x[k], x[k + 1], x[k + 2])
    decreases n
  {
    AtIsLinear(p, step, n - 1);
    if i < n - 1 { SamplesAre(fn, x, p, step, n - 1, i); }
  }

  /** How many samples can be emitted from position p over a stream of the given size into the given room. */
  function Count(size: nat, p: nat, step: nat, room: nat): (n: nat)
    ensures n <= room
    decreases room
  {
    if room == 0 || Whole(p) + 2 >= size then 0 else 1 + Count(size, p + step, step, room - 1)
  }

  /** So many are inside the stream; the next one is not, or there is no room for it. */
  lemma {:induction false} CountIsExact(size: nat, p: nat, step: nat, room: nat)
    ensures Reaches(size, p, step, Count(size, p, step, room))
    ensures Count(size, p, step, room) < room ==> !Reaches(size, p, step, Count(size, p, step, room) + 1)
    decreases room
  {
    var n := Count(size, p, step, room);
    if n > 0 {
      CountIsExact(size, p + step, step, room - 1);
      AtCompose(p, step, 1, n - 1);
      if n > 1 { AtCompose(p, step, 1, n - 2); }
      assert At(p, step, 1) == p + step;
    }
  }

  /** The interpolation state with its input buffer. */
  datatype Converter<T> = Converter(xn2: T, xn1: T, fposition: nat, input: seq<T>)

  function Stream<T>(c: Converter<T>): seq<T> { [c.xn2, c.xn1] + c.input }

  /** Where the history ends up: at the last sample emitted, or at the end when input ran out. */
  function Consumed(size: nat, p: nat, step: nat, room: nat): (i: nat)
    requires size >= 2
    ensures i + 2 <= size && i * SCALE <= At(p, step, Count(size, p, step, room))
  {
    CountIsExact(size, p, step, room);
    var n := Count(size, p, step, room);
    if n < room then size - 2 else if n == 0 then 0 else Whole(At(p, step, n - 1))
  }

  /** One call with the given room in the output frame. */
  function Convert<T>(fn: SampleFn<T>, c: Converter<T>, step: nat, room: nat): (Converter<T>, seq<T>) {
    if c.input == [] then (c, [])
    else
      var x := Stream(c);
      var n := Count(|x|, c.fposition, step, room);
      var i := Consumed(|x|, c.fposition, step, room);
      CountIsExact(|x|, c.fposition, step, room);
      (Converter(x[i], x[i + 1], At(c.fposition, step, n) - i * SCALE, x[i + 2..]),
       Samples(fn, x, c.fposition, step, n))
  }

  class State<T> {
    var xn1: T
    var xn2: T
    var fposition: nat
    var input: seq<T>

    ghost function Abs(): Converter<T> reads this { Converter(xn2, xn1, fposition, input) }

    constructor (xn2: T, xn1: T)
      ensures Abs() == Converter(xn2, xn1, 0, [])
    {
      this.xn2, this.xn1, fposition, input := xn2, xn1, 0, [];
    }

    /** StepOverSamples: fills output from index outputi on. */
    method StepOverSamples(step: nat, output: array<T>, outputi: nat, fn: SampleFn<T>) returns (next: nat)
      requires outputi <= output.Length
      modifies this, output
      ensures Abs() == Convert(fn, old(Abs()), step, output.Length - outputi).0
      ensures var out := Convert(fn, old(Abs()), step, output.Length - outputi).1;
              next == outputi + |out| <= output.Length && output[..] == Overwrite(old(output[..]), outputi, out)
    {
      hide Count, Samples, At, Whole;
      if input == [] {
        assert output[..] == Overwrite(output[..], outputi, []);
        return outputi;
      }
      var x := [xn2, xn1] + input;
      var p, inputi;
      next, p, inputi := Fill(x, fposition, step, output, outputi, fn);
      xn2, xn1 := x[inputi], x[inputi + 1];
      fposition := p - inputi * SCALE;
      input := x[inputi + 2..];
    }
  }

  /** s with the samples out written at index from. */
  function Overwrite<T>(s: seq<T>, from: nat, out: seq<T>): seq<T>
    requires from + |out| <= |s|
  {
    s[..from] + out + s[from + |out|..]
  }

  lemma OverwriteNext<T>(s: seq<T>, from: nat, out: seq<T>, next: nat, y: T)
    requires next == from + |out| < |s|
    ensures Overwrite(s, from, out)[next := y] == Overwrite(s, from, out + [y])
  {}

  /** The loop of StepOverSamples; it stops when the frame is full or the input is used up. */
  method Fill<T>(x: seq<T>, p0: nat, step: nat, output: array<T>, outputi: nat, fn: SampleFn<T>)
      returns (next: nat, p: nat, inputi: nat)
    requires |x| >= 2 && outputi <= output.Length
    modifies output
    ensures var n := Count(|x|, p0, step, output.Length - outputi);
            && next == outputi + n && p == At(p0, step, n)
            && inputi == Consumed(|x|, p0, step, output.Length - outputi)
            && Reaches(|x|, p0, step, n) && output[..] == Overwrite(old(output[..]), outputi, Samples(fn, x, p0, step, n))
  {
    hide Overwrite, At, Whole, Fraction;
    next, p, inputi := outputi, p0, 0;
    ghost var was, room := output[..], output.Length - outputi;
    ghost var n := 0;
    AtStart(p0, step);
    CountIsExact(|x|, p0, step, room);
    assert was == Overwrite(was, outputi, []) by { OverwriteNothing(was, outputi); }
    while next < output.Length
      invariant outputi <= next <= output.Length && n == next - outputi && p == At(p0, step, n)
      invariant Count(|x|, p0, step, room) == n + Count(|x|, p, step, room - n)
      invariant inputi == if n == 0 then 0 else Whole(At(p0, step, n - 1))
      invariant Reaches(|x|, p0, step, n)
      invariant output[..] == Overwrite(was, outputi, Samples(fn, x, p0, step, n))
    {
      inputi := Whole(p);
      if inputi + 2 >= |x| {
        inputi := |x| - 2;
        break;
      }
      ghost var before := output[..];
      output[next] := fn(Fraction(p), x[inputi], x[inputi + 1], x[inputi + 2]);
      assert output[..] == before[next := SampleAt(fn, x, p)];
      OverwriteNext(was, outputi, Samples(fn, x, p0, step, n), next, SampleAt(fn, x, p));
      AtNext(p0, step, n);
      next := next + 1;
      n := n + 1;
      p := p + step;
    }
  }

  lemma AtStart(p: nat, step: nat)
    ensures At(p, step, 0) == p
  {}

  lemma AtNext(p: nat, step: nat, n: nat)
    ensures At(p, step, n + 1) == At(p, step, n) + step
  {}

  lemma OverwriteNothing<T>(s: seq<T>, from: nat)
    requires from <= |s|
    ensures Overwrite(s, from, []) == s
  {}

  // ----- any schedule -----------------------------------------------------------

  /** Input arrives, or a call is made with some room left in its output frame. */
  datatype Event<T> = Feed(samples: seq<T>) | Call(room: nat)

  function PlayOne<T>(fn: SampleFn<T>, c: Converter<T>, step: nat, e: Event<T>): (Converter<T>, seq<T>) {
    match e
    case Feed(samples) => (c.(input := c.input + samples), [])
    case Call(room) => Convert(fn, c, step, room)
  }

  /** A whole schedule: the final state and everything emitted. */
  function Play<T>(fn: SampleFn<T>, c: Converter<T>, step: nat, events: seq<Event<T>>): (Converter<T>, seq<T>)
    decreases |events|
  {
    if events == [] then (c, [])
    else
      var (c1, out1) := Play(fn, c, step, events[..|events| - 1]);
      var (c2, out2) := PlayOne(fn, c1, step, events[|events| - 1]);
      (c2, out1 + out2)
  }

  function Fed<T>(events: seq<Event<T>>): seq<T>
    decreases |events|
  {
    if events == [] then []
    else
      var e := events[|events| - 1];
      Fed(events[..|events| - 1]) + if e.Feed? then e.samples else []
  }

  /** Over the whole stream x, from position p: out are the first samples of the one-shot formula, in
      order and without gap or repeat, and c holds the unconsumed suffix of x with the exact position. */
  ghost predicate InStep<T>(fn: SampleFn<T>, x: seq<T>, p: nat, step: nat, out: seq<T>, c: Converter<T>, i: nat) {
    && Reaches(|x|, p, step, |out|) && out == Samples(fn, x, p, step, |out|)
    && i + 2 <= |x| && Stream(c) == x[i..]
    && At(p, step, |out|) == i * SCALE + c.fposition
  }

  lemma {:induction false} ReachesLess(size: nat, p: nat, step: nat, m: nat, n: nat)
    requires Reaches(size, p, step, n) && m <= n
    ensures Reaches(size, p, step, m)
    decreases n
  {
    if m < n {
      assert n > 1 ==> Whole(At(p, step, n - 2)) <= Whole(At(p, step, n - 1));
      ReachesLess(size, p, step, m, n - 1);
    }
  }

  /** Samples do not change when the stream grows. */
  lemma {:induction false} SamplesExtend<T>(fn: SampleFn<T>, x: seq<T>, y: seq<T>, p: nat, step: nat, n: nat)
    requires Reaches(|x|, p, step, n)
    ensures Reaches(|x + y|, p, step, n) && Samples(fn, x + y, p, step, n) == Samples(fn, x, p, step, n)
    decreases n
  {
    if n > 0 {
      ReachesLess(|x|, p, step, n - 1, n);
      SamplesExtend(fn, x, y, p, step, n - 1);
    }
  }

  /** A position of a suffix is a position of the whole. */
  lemma SampleOfSuffix<T>(fn: SampleFn<T>, x: seq<T>, i: nat, r: nat, whole: nat)
    requires i <= |x| && Whole(r) + 2 < |x| - i && whole == i * SCALE + r
    ensures Whole(whole) + 2 < |x| && SampleAt(fn, x[i..], r) == SampleAt(fn, x, whole)
  {
    ShiftPosition(i, r);
  }

  /** Samples taken from a suffix at the carried-over position continue the samples of the whole. */
  lemma {:induction false} SamplesContinue<T>(fn: SampleFn<T>, x: seq<T>, p: nat, step: nat, m: nat, i: nat, q: nat, n: nat, t: nat)
    requires i <= |x| && At(p, step, m) == i * SCALE + q && t == m + n
    requires Reaches(|x|, p, step, m) && Reaches(|x| - i, q, step, n)
    ensures Reaches(|x|, p, step, t)
    ensures Samples(fn, x, p, step, m) + Samples(fn, x[i..], q, step, n) == Samples(fn, x, p, step, t)
    decreases n
  {
    hide At, Whole, SampleAt;
    if n > 0 {
      ReachesLess(|x| - i, q, step, n - 1, n);
      SamplesContinue(fn, x, p, step, m, i, q, n - 1, t - 1);
      var r, whole := At(q, step, n - 1), At(p, step, t - 1);
      PositionContinues(p, step, m, i, q, n - 1);
      assert m + (n - 1) == t - 1;
      SampleOfSuffix(fn, x, i, r, whole);
      var a, b, y := Samples(fn, x, p, step, m), Samples(fn, x[i..], q, step, n - 1), SampleAt(fn, x, whole);
      assert a + (b + [y]) == (a + b) + [y];
    }
  }

  lemma PositionContinues(p: nat, step: nat, m: nat, i: nat, q: nat, n: nat)
    requires At(p, step, m) == i * SCALE + q
    ensures At(p, step, m + n) == i * SCALE + At(q, step, n)
  {
    AtCompose(p, step, m, n);
    AtShift(q, step, n, i * SCALE);
  }

  lemma FeedKeepsStep<T>(fn: SampleFn<T>, x: seq<T>, p: nat, step: nat, out: seq<T>, c: Converter<T>, i: nat, y: seq<T>)
    requires InStep(fn, x, p, step, out, c, i)
    ensures InStep(fn, x + y, p, step, out, c.(input := c.input + y), i)
  {
    SamplesExtend(fn, x, y, p, step, |out|);
    assert (x + y)[i..] == x[i..] + y;
    assert [c.xn2, c.xn1] + (c.input + y) == Stream(c) + y;
  }

  /** Without input a call does nothing, and nothing could be emitted. */
  lemma NothingToEmit<T>(fn: SampleFn<T>, x: seq<T>, p: nat, step: nat, out: seq<T>, c: Converter<T>, i: nat)
    requires InStep(fn, x, p, step, out, c, i) && c.input == []
    ensures !Reaches(|x|, p, step, |out| + 1)
  {
    hide At;
    assert |Stream(c)| == 2;
    ShiftPosition(i, c.fposition);
  }

  /** A call on input emits the next samples, and all the input allows unless the room runs out first. */
  lemma InputEmits<T>(fn: SampleFn<T>, x: seq<T>, p: nat, step: nat, out: seq<T>, c: Converter<T>, i: nat, room: nat,
                      c': Converter<T>, more: seq<T>) returns (i': nat)
    requires InStep(fn, x, p, step, out, c, i) && c.input != [] && (c', more) == Convert(fn, c, step, room)
    ensures InStep(fn, x, p, step, out + more, c', i')
    ensures |more| < room ==> !Reaches(|x|, p, step, |out + more| + 1)
  {
    hide At, Whole, SampleAt, Samples;
    var q, y := c.fposition, x[i..];
    CountIsExact(|y|, q, step, room);
    var n, k, t := Count(|y|, q, step, room), Consumed(|y|, q, step, room), |out + more|;
    assert Stream(c) == y && t == |out| + n;
    SamplesContinue(fn, x, p, step, |out|, i, q, n, t);
    PositionContinues(p, step, |out|, i, q, n);
    i' := i + k;
    ShiftPosition(i, At(q, step, n));
    StreamAfter(y, k, c');
    assert y[k..] == x[i'..];
    assert i' * SCALE == i * SCALE + k * SCALE;
  }

  lemma CallKeepsStep<T>(fn: SampleFn<T>, x: seq<T>, p: nat, step: nat, out: seq<T>, c: Converter<T>, i: nat, room: nat)
      returns (i': nat)
    requires InStep(fn, x, p, step, out, c, i)
    ensures var (c', more) := Convert(fn, c, step, room);
            && InStep(fn, x, p, step, out + more, c', i')
            && (|more| < room ==> !Reaches(|x|, p, step, |out + more| + 1))
  {
    hide InStep, At, Reaches;
    if c.input == [] {
      i' := i;
      assert out + [] == out;
      NothingToEmit(fn, x, p, step, out, c, i);
    } else {
      var (c', more) := Convert(fn, c, step, room);
      i' := InputEmits(fn, x, p, step, out, c, i, room, c', more);
    }
  }

  lemma StreamAfter<T>(y: seq<T>, k: nat, c: Converter<T>)
    requires k + 2 <= |y| && c.xn2 == y[k] && c.xn1 == y[k + 1] && c.input == y[k + 2..]
    ensures Stream(c) == y[k..]
  {}

  /** Whatever the schedule: in step with the one-shot formula over history and all input. */
  lemma {:induction false} PlayInStep<T>(fn: SampleFn<T>, c: Converter<T>, step: nat, events: seq<Event<T>>) returns (i: nat)
    ensures var (c', out) := Play(fn, c, step, events);
            InStep(fn, Stream(c) + Fed(events), c.fposition, step, out, c', i)
    decreases |events|
  {
    hide Convert, SampleAt;
    if events == [] {
      i := 0;
      assert Stream(c) + [] == Stream(c) && Stream(c)[0..] == Stream(c);
    } else {
      var before, e := events[..|events| - 1], events[|events| - 1];
      i := PlayInStep(fn, c, step, before);
      var (c1, out1) := Play(fn, c, step, before);
      var x := Stream(c) + Fed(before);
      match e
      case Feed(samples) =>
        FeedKeepsStep(fn, x, c.fposition, step, out1, c1, i, samples);
        assert x + samples == Stream(c) + Fed(events) && out1 + [] == out1;
      case Call(room) =>
        i := CallKeepsStep(fn, x, c.fposition, step, out1, c1, i, room);
        assert x + [] == x && Stream(c) + Fed(events) == x;
    }
  }

  /** The schedule ends with a call that had room to spare. */
  ghost predicate Drained<T>(fn: SampleFn<T>, c: Converter<T>, step: nat, events: seq<Event<T>>) {
    && events != [] && events[|events| - 1].Call?
    && var (c1, _) := Play(fn, c, step, events[..|events| - 1]);
       |Convert(fn, c1, step, events[|events| - 1].room).1| < events[|events| - 1].room
  }

  lemma DrainedEmitsAll<T>(fn: SampleFn<T>, c: Converter<T>, step: nat, events: seq<Event<T>>)
    requires Drained(fn, c, step, events)
    ensures !Reaches(|Stream(c) + Fed(events)|, c.fposition, step, |Play(fn, c, step, events).1| + 1)
  {
    hide Convert, SampleAt;
    var before, room := events[..|events| - 1], events[|events| - 1].room;
    var i := PlayInStep(fn, c, step, before);
    var (c1, out1) := Play(fn, c, step, before);
    var x := Stream(c) + Fed(before);
    assert Stream(c) + Fed(events) == x;
    i := CallKeepsStep(fn, x, c.fposition, step, out1, c1, i, room);
  }

  /** Schedule independence: however input is split into feeds and output into frames, the same input
      gives the same output. */
  lemma ScheduleIndependent<T>(fn: SampleFn<T>, c: Converter<T>, step: nat, events: seq<Event<T>>, events': seq<Event<T>>)
    requires Fed(events) == Fed(events') && Drained(fn, c, step, events) && Drained(fn, c, step, events')
    ensures Play(fn, c, step, events).1 == Play(fn, c, step, events').1
  {
    hide Convert, SampleAt, Play, Drained, At;
    var i := PlayInStep(fn, c, step, events);
    var i' := PlayInStep(fn, c, step, events');
    DrainedEmitsAll(fn, c, step, events);
    DrainedEmitsAll(fn, c, step, events');
    var size := |Stream(c) + Fed(events)|;
    var m, n := |Play(fn, c, step, events).1|, |Play(fn, c, step, events').1|;
    if m < n { ReachesLess(size, c.fposition, step, m + 1, n); }
    if n < m { ReachesLess(size, c.fposition, step, n + 1, m); }
  }

  /** Every position the loop forms stays below the end of the stream by at most a step, so it fits in
      64 bits whenever that bound does. */
  lemma PositionsStayBounded(size: nat, p: nat, step: nat, n: nat)
    requires n > 0 && Reaches(size, p, step, n)
    ensures At(p, step, n) < (size - 2) * SCALE + step
  {}
}
