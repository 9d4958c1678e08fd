/**
 The two sample functions of the resampler (src/audio_core/interpolate.cpp): hold, and linear
 interpolation, the latter with the original's unsigned 64-bit arithmetic and 16-bit cast.
 */
module Interpolation {
  import opened Numbers
  import opened Resampler

  datatype Stereo = Stereo(left: Sample16, right: Sample16)

  /** The cast of an unsigned 64-bit value to a signed 16-bit one. */
  function ToSigned16(x: nat): Sample16 {
    var r := x % TWO_16;
    if r < 0x8000 then r else r - TWO_16
  }

  /** x0 + fraction * delta / 2^24, every operation unsigned and modulo 2^64, cast to 16 bits. */
  function LinearChannel(fraction: nat, x0: Sample16, x1: Sample16): Sample16 {
    var delta := Clamp16(x1 - x0) % TWO_64;
    var quotient := fraction * delta % TWO_64 / SCALE;
    ToSigned16((x0 % TWO_64 + quotient) % TWO_64)
  }

  function None(fraction: nat, x0: Stereo, x1: Stereo, x2: Stereo): Stereo { x0 }

  function Linear(fraction: nat, x0: Stereo, x1: Stereo, x2: Stereo): Stereo {
    Stereo(LinearChannel(fraction, x0.left, x1.left), LinearChannel(fraction, x0.right, x1.right))
  }

  lemma ProductBounds(f: nat, d: int, m: int)
    requires f < SCALE && -0x8000 <= d < 0x8000 && m == f * d
    ensures if d >= 0 then 0 <= m <= (SCALE - 1) * d else (SCALE - 1) * d <= m <= 0
  {
    if d >= 0 {
      MulLe(0, f, d);
      MulLe(f, SCALE - 1, d);
    } else {
      MulLe(0, f, -d);
      MulLe(f, SCALE - 1, -d);
      assert f * -d == -m;
    }
  }

  lemma Distribute(f: int, d: int, m: int)
    requires m == f * d
    ensures f * (d + TWO_64) == m + f * TWO_64
  {}

  lemma WrapProduct(f: nat, m: int)
    requires -TWO_64 <= m < TWO_64
    ensures (m + f * TWO_64) % TWO_64 == if m < 0 then m + TWO_64 else m
  {
    if m < 0 { DivMod(m + f * TWO_64, TWO_64, f - 1, m + TWO_64); } else { DivMod(m + f * TWO_64, TWO_64, f, m); }
  }

  /** Wrapping a product modulo 2^64 before an unsigned division adds 2^40 to the floor of the quotient
      when the product is negative. */
  lemma WrappedQuotient(f: nat, d: int, m: int)
    requires f < SCALE && -0x8000 <= d < 0x8000 && m == f * d
    ensures f * (d % TWO_64) % TWO_64 / SCALE == m / SCALE + if m < 0 then 0x100_0000_0000 else 0
  {
    ProductBounds(f, d, m);
    var w := d % TWO_64;
    if d >= 0 {
      DivMod(d, TWO_64, 0, d);
      DivMod(m, TWO_64, 0, m);
    } else {
      DivMod(d, TWO_64, -1, d + TWO_64);
      Distribute(f, d, m);
      WrapProduct(f, m);
      WrappedNegative(m);
    }
  }

  lemma WrappedNegative(m: int)
    ensures (m + TWO_64) / SCALE == m / SCALE + 0x100_0000_0000
  {
    DivMod(m + TWO_64, SCALE, m / SCALE + 0x100_0000_0000, m % SCALE);
  }

  /** Adding a multiple of 2^16 or of 2^64 does not show in 16 bits. */
  lemma CastDropsHighBits(x: int, q: int, high: int)
    requires -0x8000 <= x + q < 0x8000 && (high == 0 || high == 0x100_0000_0000) && q + high >= 0
    ensures ToSigned16((x % TWO_64 + (q + high)) % TWO_64) == x + q
  {
    var total := x % TWO_64 + (q + high);
    var s := total % TWO_64;
    var wraps := x / TWO_64 + total / TWO_64;
    assert s == x + q + high - wraps * TWO_64;
    var c := high / TWO_16 - wraps * 0x1_0000_0000_0000;
    assert s == x + q + c * TWO_16;
    SameLow16(s, x + q, c);
    assert (x + q) % TWO_16 == if x + q >= 0 then x + q else x + q + TWO_16;
  }

  lemma SameLow16(s: int, y: int, c: int)
    requires s == y + c * TWO_16
    ensures s % TWO_16 == y % TWO_16
  {}

  /** One channel of linear interpolation: the floor of the exact value, with the difference saturated,
      never outside the two samples it lies between and so never wrapped around. */
  lemma LinearChannelIsExact(fraction: nat, x0: Sample16, x1: Sample16)
    requires fraction < SCALE
    ensures LinearChannel(fraction, x0, x1) == x0 + fraction * Clamp16(x1 - x0) / SCALE
    ensures if x0 <= x1 then x0 <= LinearChannel(fraction, x0, x1) <= x1
            else x1 <= LinearChannel(fraction, x0, x1) <= x0
  {
    var d := Clamp16(x1 - x0);
    var m := fraction * d;
    ProductBounds(fraction, d, m);
    WrappedQuotient(fraction, d, m);
    var q := m / SCALE;
    assert d >= 0 ==> 0 <= q <= d;
    assert d < 0 ==> d <= q <= 0;
    CastDropsHighBits(x0, q, if m < 0 then 0x100_0000_0000 else 0);
  }

  ghost predicate Between(a: int, x: int, b: int) { a <= x <= b || b <= x <= a }

  /** Every sample the resampler emits with linear interpolation lies between the two stream samples
      around its position, in both channels. */
  lemma EmittedBetweenNeighbours(x: seq<Stereo>, p: nat)
    requires Whole(p) + 2 < |x|
    ensures var y, a, b := SampleAt(Linear, x, p), x[Whole(p)], x[Whole(p) + 1];
            Between(a.left, y.left, b.left) && Between(a.right, y.right, b.right)
  {
    var a, b := x[Whole(p)], x[Whole(p) + 1];
    LinearChannelIsExact(Fraction(p), a.left, b.left);
    LinearChannelIsExact(Fraction(p), a.right, b.right);
  }

  /** What is emitted at a position p of the stream, in fixed point with 24 fractional bits: linear
      interpolation gives the sample before p and the fraction of p times the saturated difference to the
      one after it, rounded down, in each channel; without interpolation the sample before p. */
  lemma EmittedExactly(x: seq<Stereo>, p: nat)
    requires p / 0x100_0000 + 2 < |x|
    ensures var a, b, f := x[p / 0x100_0000], x[p / 0x100_0000 + 1], p % 0x100_0000;
            && SampleAt(None, x, p) == a
            && SampleAt(Linear, x, p).left == a.left + f * Clamp16(b.left - a.left) / 0x100_0000
            && SampleAt(Linear, x, p).right == a.right + f * Clamp16(b.right - a.right) / 0x100_0000
  {
    hide LinearChannel;
    var a, b := x[Whole(p)], x[Whole(p) + 1];
    LinearChannelIsExact(Fraction(p), a.left, b.left);
    LinearChannelIsExact(Fraction(p), a.right, b.right);
  }
}
