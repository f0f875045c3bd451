/** The keyword-spotting frontend from samples to feature bytes: no stage raises a fault
    on S16 audio, for all tables of the promised size. */
module Frontend {
  import opened Common
  import opened Arithmetic
  import opened Rounding
  import opened ComplexNumbers
  import opened Transforms
  import opened Dft
  import opened Fft
  import opened LogStage

  const WINDOW_SAMPLES: nat := 16000
  const FRAME_COUNT: nat := 49
  const FRAME_HOP: nat := 320
  const BINS: nat := 257
  const BANDS: nat := 40
  const COEFFICIENTS: nat := 10
  const DIVISOR: int := 9809687
  const BIAS: int := 83

  // ---------------------------------------------------------------- The magnitude

  lemma Expand(r: int)
    ensures (r + 1) * (r + 1) == r * r + 2 * r + 1
    ensures (2 * r) * (2 * r) == 4 * (r * r)
    ensures (2 * r + 1) * (2 * r + 1) == 4 * (r * r) + 4 * r + 1
    ensures (2 * r - 1) * (2 * r - 1) == 4 * (r * r) - 4 * r + 1
  {
    assert (2 * r) * (2 * r) == 4 * (r * r);
  }

  /** The integer square root. */
  function FloorSqrt(n: nat): (r: nat)
    ensures r * r <= n < (r + 1) * (r + 1)
  {
    if n == 0 then 0
    else
      var quarter := FloorSqrt(n / 4);
      var half := 2 * quarter;
      Expand(quarter);
      Expand(half);
      Expand(half + 1);
      if (half + 1) * (half + 1) <= n then half + 1 else half
  }

  /** Compares the distances of the two neighbouring squares, ties to even. */
  function NearestSqrt(n: nat): nat {
    var root := FloorSqrt(n);
    var lower, upper := n - root * root, (root + 1) * (root + 1) - n;
    if upper < lower || (upper == lower && root % 2 == 1) then root + 1 else root
  }

  /** The squares around the result, without ties. */
  lemma NearestSquares(n: nat)
    ensures var r := NearestSqrt(n); n <= r * r + r && (r == 0 || r * r - r < n)
  {
    hide FloorSqrt;
    Expand(FloorSqrt(n));
  }

  lemma SquaresDetermine(n: int, q: nat, r: nat)
    requires n <= q * q + q && (q == 0 || q * q - q < n)
    requires n <= r * r + r && (r == 0 || r * r - r < n)
    ensures q == r
  {
    if q < r {
      StepUp(q, r);
    } else if r < q {
      StepUp(r, q);
    }
  }

  lemma StepUp(q: nat, r: nat)
    requires q < r
    ensures q * q + q <= r * r - r
  {
    MulMonotone(q + 1, r, r - 1);
    MulMonotone(q, r - 1, q + 1);
    Distribute(r, 1, r);
    Distribute(q, 1, q);
  }

  /** The nearest square has the nearest root, and a tie cannot occur: `r` is the result
      exactly if the root lies strictly between `r - 1/2` and `r + 1/2`. */
  lemma NearestSqrtIff(n: nat, r: nat)
    ensures r == NearestSqrt(n) <==>
      4 * n < (2 * r + 1) * (2 * r + 1) && (r == 0 || (2 * r - 1) * (2 * r - 1) < 4 * n)
  {
    hide NearestSqrt;
    NearestSquares(n);
    Expand(r);
    if n <= r * r + r && (r == 0 || r * r - r < n) {
      SquaresDetermine(n, r, NearestSqrt(n));
    }
  }

  lemma NearestSqrtBound(n: nat, bound: nat)
    requires n <= bound * bound
    ensures NearestSqrt(n) <= bound
  {
    hide NearestSqrt;
    NearestSquares(n);
    if NearestSqrt(n) > bound {
      StepUp(bound, NearestSqrt(n));
    }
  }

  /** `nearest_isqrt` */
  function NearestIsqrt(value: int): Option<nat> {
    if value < 0 || value >= 0x1_0000_0000_0000_0000 then None else Some(NearestSqrt(value))
  }

  function Power(z: Complex): nat {
    assert z.re * z.re >= 0 && z.im * z.im >= 0;
    z.re * z.re + z.im * z.im
  }

  lemma MagnitudeBound(z: Complex, bound: int)
    requires Within(z, bound) && bound <= 0x8000_0000
    ensures NearestIsqrt(Power(z)) == Some(NearestSqrt(Power(z))) && NearestSqrt(Power(z)) <= bound
  {
    SquareMonotone(bound, 0x8000_0000);
    NearestSqrtBound(Power(z), bound);
  }

  // ---------------------------------------------------------------- Weighted sums

  function Sum(a: seq<int>): int { if a == [] then 0 else Sum(a[..|a| - 1]) + a[|a| - 1] }

  function Dot(a: seq<int>, b: seq<int>): int
    requires |a| == |b|
  {
    if a == [] then 0 else Dot(a[..|a| - 1], b[..|b| - 1]) + a[|a| - 1] * b[|b| - 1]
  }

  lemma {:induction false} DotNext(a: seq<int>, b: seq<int>, n: nat)
    requires n < |a| == |b|
    ensures Dot(a[..n + 1], b[..n + 1]) == Dot(a[..n], b[..n]) + a[n] * b[n]
  {
    assert a[..n + 1][..n] == a[..n] && b[..n + 1][..n] == b[..n];
  }

  /** Nonnegative weights: at most the largest value times the sum of the weights. */
  lemma {:induction false} DotBound(a: seq<int>, weights: seq<int>, bound: int)
    requires |a| == |weights| && bound >= 0
    requires forall k :: 0 <= k < |a| ==> 0 <= a[k] <= bound && 0 <= weights[k]
    ensures 0 <= Dot(a, weights) <= bound * Sum(weights)
    decreases |a|
  {
    if a == [] {
    } else {
      var n := |a| - 1;
      DotBound(a[..n], weights[..n], bound);
      MulNonNegative(a[n], weights[n]);
      MulMonotone(a[n], bound, weights[n]);
      assert bound * Sum(weights) == bound * Sum(weights[..n]) + bound * weights[n];
    }
  }

  lemma ProductBound(x: int, y: int, a: int, b: int)
    requires -a <= x <= a && -b <= y <= b
    ensures -(a * b) <= x * y <= a * b
  {
    var m, n := Abs(x), Abs(y);
    MulMonotone(m, a, n);
    MulMonotone(n, b, a);
    SignedProduct(x, y);
  }

  lemma SignedProduct(x: int, y: int)
    ensures -(Abs(x) * Abs(y)) <= x * y <= Abs(x) * Abs(y)
  {
    MulNonNegative(Abs(x), Abs(y));
  }

  lemma {:induction false} DotWithin(a: seq<int>, b: seq<int>, x: int, y: int)
    requires |a| == |b| && x >= 0 && y >= 0
    requires forall k :: 0 <= k < |a| ==> -x <= a[k] <= x && -y <= b[k] <= y
    ensures -(|a| * (x * y)) <= Dot(a, b) <= |a| * (x * y)
    decreases |a|
  {
    if a == [] {
    } else {
      var n := |a| - 1;
      DotWithin(a[..n], b[..n], x, y);
      ProductBound(a[n], b[n], x, y);
      Distribute(n, 1, x * y);
    }
  }

  // ---------------------------------------------------------------- The tables

  datatype Tables = Tables(
    hann: seq<int>, twiddle: seq<Complex>, mel: seq<int>, dct: seq<int>, log: seq<int>, ln2: int)
  {
    predicate Sized() {
      && |hann| == FRAME_SAMPLES && |twiddle| == POINTS / 2 && |mel| == BANDS * BINS
      && |dct| == COEFFICIENTS * BANDS && |log| == 1025
    }

    function MelRow(band: nat): (row: seq<int>)
      requires Sized() && band < BANDS
      ensures |row| == BINS
    {
      mel[band * BINS..band * BINS + BINS]
    }

    function DctRow(j: nat): (row: seq<int>)
      requires Sized() && j < COEFFICIENTS
      ensures |row| == BANDS
    {
      dct[j * BANDS..j * BANDS + BANDS]
    }

    /** What the ROM generator promises: a window within 0 .. 1, twiddles of modulus at most
        2^30 + 1, nonnegative triangles that sum to at most 15 units, cosines of at most a
        quarter, and a nondecreasing log table. */
    ghost predicate Promised() {
      && Sized()
      && (forall k :: 0 <= k < |hann| ==> 0 <= hann[k] <= UNIT)
      && AllWithin(twiddle, UNIT + 1)
      && (forall k :: 0 <= k < |mel| ==> 0 <= mel[k])
      && (forall band :: 0 <= band < BANDS ==> Sum(MelRow(band)) <= 15 * UNIT)
      && (forall k :: 0 <= k < |dct| ==> -0x1000_0000 <= dct[k] <= 0x1000_0000)
      && LogTable(log, ln2)
    }
  }

  predicate S16(samples: seq<int>) { forall k :: 0 <= k < |samples| ==> -0x8000 <= samples[k] <= 0x7FFF }

  // ---------------------------------------------------------------- The stages, specified

  function Magnitudes(z: seq<Complex>): (m: seq<int>)
    requires |z| >= BINS
    ensures |m| == BINS
  {
    seq(BINS, k requires 0 <= k < BINS => NearestSqrt(Power(z[k])))
  }

  ghost function Spectrum(frame: seq<int>, t: Tables): (z: seq<Complex>)
    requires t.Sized() && |frame| == FRAME_SAMPLES
    ensures |z| == POINTS
  {
    Points();
    Transform(Padded(Windowed(frame, t.hann)), t.twiddle, 9)
  }

  ghost function Mels(frame: seq<int>, t: Tables): (mels: seq<int>)
    requires t.Sized() && |frame| == FRAME_SAMPLES
    ensures |mels| == BANDS
  {
    seq(BANDS, band requires 0 <= band < BANDS => RneShift(Dot(Magnitudes(Spectrum(frame, t)), t.MelRow(band)), 32))
  }

  ghost function Logs(mels: seq<int>, peak: int, t: Tables): (logs: seq<int>)
    requires |mels| == BANDS && LogTable(t.log, t.ln2)
    requires forall band :: 0 <= band < BANDS ==> InDomain(mels[band], peak)
    ensures |logs| == BANDS
  {
    seq(BANDS, band requires 0 <= band < BANDS => LogValue(mels[band], peak, t.log, t.ln2))
  }

  function Coefficient(logs: seq<int>, t: Tables, j: nat): int
    requires t.Sized() && |logs| == BANDS && j < COEFFICIENTS
  {
    RneShift(Dot(logs, t.DctRow(j)), 30)
  }

  /** `_trunc_div`: toward zero. */
  function TruncDiv(n: int, d: int): int
    requires d > 0
  {
    if n >= 0 then n / d else -((-n) / d)
  }

  /** The feature byte of a coefficient: quantised, low eight bits. */
  function FeatureByte(coefficient: int): (b: int)
    ensures 0 <= b < 256
  {
    TruncDiv(coefficient + BIAS * DIVISOR, DIVISOR) % 256
  }

  function Peak(samples: seq<int>): int {
    if samples == [] then 1 else Max(Peak(samples[..|samples| - 1]), samples[|samples| - 1])
  }

  lemma {:induction false} PeakRange(samples: seq<int>)
    requires S16(samples)
    ensures 1 <= Peak(samples) <= 0x7FFF && forall k :: 0 <= k < |samples| ==> samples[k] <= Peak(samples)
    decreases |samples|
  {
    if samples == [] {
    } else {
      PeakRange(samples[..|samples| - 1]);
    }
  }

  function FrameAt(samples: seq<int>, row: nat): (frame: seq<int>)
    requires |samples| == WINDOW_SAMPLES && row < FRAME_COUNT
    ensures |frame| == FRAME_SAMPLES && (S16(samples) ==> S16(frame))
  {
    samples[FRAME_HOP * row..FRAME_HOP * row + FRAME_SAMPLES]
  }

  ghost function FrameFeatures(frame: seq<int>, peak: int, t: Tables): (features: seq<int>)
    requires t.Promised() && |frame| == FRAME_SAMPLES && S16(frame) && 1 <= peak <= 0x7FFF
    ensures |features| == COEFFICIENTS
  {
    MelsInRange(frame, t);
    seq(COEFFICIENTS, j requires 0 <= j < COEFFICIENTS => FeatureByte(Coefficient(Logs(Mels(frame, t), peak, t), t, j)))
  }

  /** The features of the first `rows` frames. */
  ghost function Features(samples: seq<int>, t: Tables, rows: nat): (features: seq<int>)
    requires t.Promised() && |samples| == WINDOW_SAMPLES && S16(samples) && rows <= FRAME_COUNT
    ensures |features| == COEFFICIENTS * rows
  {
    PeakRange(samples);
    if rows == 0 then []
    else Features(samples, t, rows - 1) + FrameFeatures(FrameAt(samples, rows - 1), Peak(samples), t)
  }

  // ---------------------------------------------------------------- The ranges

  lemma HalvesWithin(x: seq<Complex>, bound: int)
    requires AllWithin(x, bound)
    ensures AllWithin(Evens(x), bound) && AllWithin(Odds(x), bound)
  {
    hide Within;
  }

  lemma {:induction false} TransformWithin(x: seq<Complex>, w: Table, level: nat, bound: int)
    requires |x| == Pow2(level) && AllWithin(x, bound) && AllWithin(w, UNIT + 1)
    requires level <= 9 && 0 <= bound <= UNIT
    ensures AllWithin(Transform(x, w, level), bound + 2 * level)
    decreases level
  {
    hide AllWithin, Combine, Evens, Odds, Transform, Pow2;
    TransformSplits(x, w, level);
    if level == 0 {
    } else {
      var a, b := Transform(Evens(x), w, level - 1), Transform(Odds(x), w, level - 1);
      HalvesWithin(x, bound);
      TransformWithin(Evens(x), w, level - 1, bound);
      TransformWithin(Odds(x), w, level - 1, bound);
      CombineWithin(a, b, w, bound + 2 * (level - 1));
    }
  }

  lemma SpectrumWithin(frame: seq<int>, t: Tables)
    requires t.Promised() && |frame| == FRAME_SAMPLES && S16(frame)
    ensures AllWithin(Spectrum(frame, t), UNIT + 18)
  {
    hide Within, Transform, RneShift, Pow2;
    var windowed := Windowed(frame, t.hann);
    forall k | 0 <= k < |windowed|
      ensures -UNIT <= windowed[k] <= UNIT
    {
      WindowedBound(frame[k], t.hann[k]);
    }
    Points();
    PaddedWithin(windowed);
    TransformWithin(Padded(windowed), t.twiddle, 9, UNIT);
  }

  /** The magnitudes of a spectrum within 2^30 + 18 reduce to words that the range checks
      let pass. */
  lemma MelInRange(z: seq<Complex>, t: Tables, band: nat)
    requires t.Promised() && |z| == POINTS && AllWithin(z, UNIT + 18) && band < BANDS
    ensures 0 <= Dot(Magnitudes(z), t.MelRow(band)) < 0x1_0000_0000_0000_0000
    ensures 0 <= RneShift(Dot(Magnitudes(z), t.MelRow(band)), 32) <= 0xFFFF_FFFF
  {
    hide Within, RneShift, NearestSqrt;
    var m, row := Magnitudes(z), t.MelRow(band);
    forall k | 0 <= k < BINS
      ensures 0 <= m[k] <= UNIT + 18 && 0 <= row[k]
    {
      MagnitudeBound(z[k], UNIT + 18);
    }
    DotBound(m, row, UNIT + 18);
    MulMonotone(Sum(row), 15 * UNIT, UNIT + 18);
    Pow2Literals();
    RneMonotone(0, Dot(m, row), 32);
    RneExact(0, 32);
    RneMonotone(Dot(m, row), 0xFFFF_FFFF * 0x1_0000_0000, 32);
    RneExact(0xFFFF_FFFF, 32);
  }

  lemma MelsInRange(frame: seq<int>, t: Tables)
    requires t.Promised() && |frame| == FRAME_SAMPLES && S16(frame)
    ensures forall band :: 0 <= band < BANDS ==> 0 <= Mels(frame, t)[band] <= 0xFFFF_FFFF
  {
    hide Spectrum, RneShift, Dot, Magnitudes, Within;
    SpectrumWithin(frame, t);
    forall band: nat | band < BANDS
      ensures 0 <= Mels(frame, t)[band] <= 0xFFFF_FFFF
    {
      MelInRange(Spectrum(frame, t), t, band);
    }
  }

  /** The logarithms stay so small that no reduction leaves the signed 64-bit range. */
  lemma ReductionInRange(mels: seq<int>, peak: int, t: Tables, j: nat)
    requires t.Promised() && |mels| == BANDS && j < COEFFICIENTS
    requires forall band :: 0 <= band < BANDS ==> InDomain(mels[band], peak)
    ensures -0x8000_0000_0000_0000 <= Dot(Logs(mels, peak, t), t.DctRow(j)) < 0x8000_0000_0000_0000
  {
    hide LogValue, Dot;
    var logs, row := Logs(mels, peak, t), t.DctRow(j);
    forall k | 0 <= k < BANDS
      ensures -0x1D00_0000 <= logs[k] <= 0x1D00_0000
    {
      LogRange(mels[k], peak, t.log, t.ln2);
    }
    DotWithin(logs, row, 0x1D00_0000, 0x1000_0000);
  }

  // ---------------------------------------------------------------- What the features are

  /** The values, each times the weight at its place from `start` on. */
  function WeightedSum(values: seq<int>, weights: seq<int>, start: nat, n: nat): int
    requires n <= |values| && start + n <= |weights|
  {
    if n == 0 then 0 else WeightedSum(values, weights, start, n - 1) + values[n - 1] * weights[start + n - 1]
  }

  /** 480 samples under the window, each rounded. */
  ghost predicate WindowedBy(samples: seq<int>, hann: seq<int>, start: nat, windowed: seq<int>)
    requires start + 480 <= |samples| && |hann| == 480
  {
    |windowed| == 480 && forall n :: 0 <= n < 480 ==> NearestEven(samples[start + n] * hann[n], 0x8000, windowed[n])
  }

  /** `m` is the nearest integer to the modulus of `z`. */
  predicate IsModulus(z: Complex, m: int) {
    var power := z.re * z.re + z.im * z.im;
    m >= 0 && 4 * power < (2 * m + 1) * (2 * m + 1) && (m == 0 || (2 * m - 1) * (2 * m - 1) < 4 * power)
  }

  /** The moduli of the first 257 bins. */
  ghost predicate AreModuli(z: seq<Complex>, moduli: seq<int>) {
    |moduli| == 257 <= |z| && forall k :: 0 <= k < 257 ==> IsModulus(z[k], moduli[k])
  }

  /** 40 weighted sums of the moduli, in units of 2^-32, each rounded. */
  ghost predicate AreBands(moduli: seq<int>, mel: seq<int>, mels: seq<int>)
    requires |moduli| == 257 && |mel| == 40 * 257
  {
    && |mels| == 40
    && forall b :: 0 <= b < 40 ==> NearestEven(WeightedSum(moduli, mel, 257 * b, 257), 0x1_0000_0000, mels[b])
  }

  /** The logarithms of the bands over 16 times the peak, plus a millionth. */
  ghost predicate AreLogs(mels: seq<int>, peak: int, log: seq<int>, ln2: int, logs: seq<int>)
    requires |mels| == 40 && |log| == 1025
  {
    && |logs| == 40
    && forall b :: 0 <= b < 40 ==> IsLog(1_000_000 * mels[b] + 16 * peak, 16_000_000 * peak, log, ln2, logs[b])
  }

  /** `q` is `n / d` without its fraction. */
  predicate Truncates(n: int, d: int, q: int) { if n >= 0 then q * d <= n < q * d + d else q * d - d < n <= q * d }

  /** The low byte of the coefficient in units of the quantiser, 83 added, truncated. */
  ghost predicate IsQuantized(coefficient: int, b: int) {
    exists q: int :: Truncates(coefficient + 814_204_021, 9_809_687, q) && b == q % 256
  }

  /** A cosine sum in units of 2^-30, rounded and quantised. */
  ghost predicate IsFeature(logs: seq<int>, dct: seq<int>, j: nat, b: int)
    requires |logs| == 40 && |dct| == 400 && j < 10
  {
    exists coefficient: int ::
      NearestEven(WeightedSum(logs, dct, 40 * j, 40), 0x4000_0000, coefficient) && IsQuantized(coefficient, b)
  }

  /** The ten bytes of the frame that begins at `start`: window, discrete Fourier transform,
      moduli, bands, logarithms, cosine sums. */
  ghost predicate RowBy(
    samples: seq<int>, t: Tables, start: nat, peak: int, bytes: seq<int>,
    windowed: seq<int>, z: seq<Complex>, moduli: seq<int>, mels: seq<int>, logs: seq<int>)
    requires t.Sized() && start + 480 <= |samples| && |bytes| == 10
  {
    && WindowedBy(samples, t.hann, start, windowed) && IsSpectrum(windowed, t.twiddle, z)
    && AreModuli(z, moduli) && AreBands(moduli, t.mel, mels) && AreLogs(mels, peak, t.log, t.ln2, logs)
    && forall j :: 0 <= j < 10 ==> IsFeature(logs, t.dct, j, bytes[j])
  }

  ghost predicate IsRow(samples: seq<int>, t: Tables, start: nat, peak: int, bytes: seq<int>)
    requires t.Sized() && start + 480 <= |samples| && |bytes| == 10
  {
    exists windowed, z, moduli, mels, logs :: RowBy(samples, t, start, peak, bytes, windowed, z, moduli, mels, logs)
  }

  /** The largest sample, but at least one. */
  ghost predicate IsPeak(samples: seq<int>, peak: int) {
    peak >= 1 && (forall k :: 0 <= k < |samples| ==> samples[k] <= peak) && (peak == 1 || peak in samples)
  }

  /** 49 frames, 320 samples apart, ten bytes each. */
  ghost predicate AreFeatures(samples: seq<int>, t: Tables, features: seq<int>)
    requires t.Sized() && |samples| == 16000
  {
    && |features| == 490
    && exists peak :: IsPeak(samples, peak) && AllRows(samples, t, peak, features)
  }

  ghost predicate AllRows(samples: seq<int>, t: Tables, peak: int, features: seq<int>)
    requires t.Sized() && |samples| == 16000 && |features| == 490
  {
    forall row: nat :: row < 49 ==> IsRow(samples, t, 320 * row, peak, features[10 * row..10 * row + 10])
  }

  lemma {:induction false} DotIsWeightedSum(values: seq<int>, weights: seq<int>, start: nat, n: nat)
    requires n <= |values| && start + n <= |weights|
    ensures Dot(values[..n], weights[start..start + n]) == WeightedSum(values, weights, start, n)
    decreases n
  {
    if n == 0 {
    } else {
      DotIsWeightedSum(values, weights, start, n - 1);
      assert values[..n][..n - 1] == values[..n - 1];
      assert weights[start..start + n][..n - 1] == weights[start..start + (n - 1)];
    }
  }

  lemma {:induction false} PeakMeaning(samples: seq<int>)
    ensures IsPeak(samples, Peak(samples))
    decreases |samples|
  {
    if samples == [] {
    } else {
      PeakMeaning(samples[..|samples| - 1]);
    }
  }

  lemma WindowMeaning(samples: seq<int>, t: Tables, row: nat)
    requires t.Sized() && |samples| == WINDOW_SAMPLES && row < FRAME_COUNT
    ensures WindowedBy(samples, t.hann, 320 * row, Windowed(FrameAt(samples, row), t.hann))
  {
    hide RneShift, NearestEven;
    Pow2Literals();
    var frame := FrameAt(samples, row);
    forall n | 0 <= n < 480
      ensures NearestEven(samples[320 * row + n] * t.hann[n], 0x8000, Windowed(frame, t.hann)[n])
    {
      RneNearest(frame[n] * t.hann[n], 15);
    }
  }

  lemma SpectrumMeaning(frame: seq<int>, t: Tables)
    requires t.Promised() && |frame| == FRAME_SAMPLES && S16(frame) && RootsOfUnity(t.twiddle)
    ensures IsSpectrum(Windowed(frame, t.hann), t.twiddle, Spectrum(frame, t))
  {
    hide Within, Transform, RneShift, Pow2, IsSpectrum, Multiplies, Pads, InUnit, LogTable, Sum;
    var windowed := Windowed(frame, t.hann);
    forall k | 0 <= k < |windowed|
      ensures -UNIT <= windowed[k] <= UNIT
    {
      WindowedBound(frame[k], t.hann[k]);
    }
    Points();
    PaddedSamples(windowed);
    TransformIsSpectrum(Padded(windowed), windowed, t.twiddle);
  }

  lemma ModuliMeaning(z: seq<Complex>)
    requires |z| >= BINS
    ensures AreModuli(z, Magnitudes(z))
  {
    hide NearestSqrt;
    forall k | 0 <= k < 257
      ensures IsModulus(z[k], Magnitudes(z)[k])
    {
      NearestSqrtIff(Power(z[k]), NearestSqrt(Power(z[k])));
    }
  }

  lemma BandsMeaning(frame: seq<int>, t: Tables)
    requires t.Sized() && |frame| == FRAME_SAMPLES
    ensures AreBands(Magnitudes(Spectrum(frame, t)), t.mel, Mels(frame, t))
  {
    hide RneShift, NearestEven, Magnitudes, Spectrum, Dot, WeightedSum;
    Pow2Literals();
    var moduli := Magnitudes(Spectrum(frame, t));
    forall b: nat | b < 40
      ensures NearestEven(WeightedSum(moduli, t.mel, 257 * b, 257), 0x1_0000_0000, Mels(frame, t)[b])
    {
      DotIsWeightedSum(moduli, t.mel, 257 * b, 257);
      assert moduli[..257] == moduli;
      RneNearest(Dot(moduli, t.MelRow(b)), 32);
    }
  }

  lemma LogsMeaning(mels: seq<int>, peak: int, t: Tables)
    requires |mels| == BANDS && LogTable(t.log, t.ln2)
    requires forall band :: 0 <= band < BANDS ==> InDomain(mels[band], peak)
    ensures AreLogs(mels, peak, t.log, t.ln2, Logs(mels, peak, t))
  {
    hide LogValue, IsLog;
    forall b | 0 <= b < 40
      ensures IsLog(1_000_000 * mels[b] + 16 * peak, 16_000_000 * peak, t.log, t.ln2, Logs(mels, peak, t)[b])
    {
      LogMeaning(mels[b], peak, t.log, t.ln2);
    }
  }

  lemma QuantizedMeaning(coefficient: int)
    ensures IsQuantized(coefficient, FeatureByte(coefficient))
  {
    var n := coefficient + 814_204_021;
    var q := TruncDiv(n, DIVISOR);
    DivModFacts(if n >= 0 then n else -n, DIVISOR);
    assert Truncates(n, 9_809_687, q);
  }

  lemma FeatureMeaning(logs: seq<int>, t: Tables, j: nat)
    requires t.Sized() && |logs| == BANDS && j < COEFFICIENTS
    ensures IsFeature(logs, t.dct, j, FeatureByte(Coefficient(logs, t, j)))
  {
    hide RneShift, NearestEven, Dot, WeightedSum, IsQuantized, FeatureByte;
    Pow2Literals();
    DotIsWeightedSum(logs, t.dct, 40 * j, 40);
    assert logs[..40] == logs;
    RneNearest(Dot(logs, t.DctRow(j)), 30);
    QuantizedMeaning(Coefficient(logs, t, j));
    assert NearestEven(WeightedSum(logs, t.dct, 40 * j, 40), 0x4000_0000, Coefficient(logs, t, j))
      && IsQuantized(Coefficient(logs, t, j), FeatureByte(Coefficient(logs, t, j)));
  }

  lemma RowMeaning(samples: seq<int>, t: Tables, row: nat)
    requires t.Promised() && |samples| == WINDOW_SAMPLES && S16(samples) && row < FRAME_COUNT && RootsOfUnity(t.twiddle)
    requires 1 <= Peak(samples) <= 0x7FFF
    ensures IsRow(samples, t, 320 * row, Peak(samples), FrameFeatures(FrameAt(samples, row), Peak(samples), t))
  {
    hide WindowedBy, IsSpectrum, AreModuli, AreBands, AreLogs, IsFeature, Spectrum, Mels, Logs, Magnitudes, Windowed,
      RootsOfUnity, FeatureByte, Coefficient, Peak, LogTable, AllWithin, Sum, FrameAt, InDomain, S16;
    var frame := FrameAt(samples, row);
    var peak := Peak(samples);
    var z, mels := Spectrum(frame, t), Mels(frame, t);
    WindowMeaning(samples, t, row);
    SpectrumMeaning(frame, t);
    ModuliMeaning(z);
    BandsMeaning(frame, t);
    MelsInRange(frame, t);
    assert forall band :: 0 <= band < BANDS ==> InDomain(mels[band], peak) by { MelsInDomain(mels, peak); }
    LogsMeaning(mels, peak, t);
    var logs := Logs(mels, peak, t);
    var bytes := FrameFeatures(frame, peak, t);
    forall j: nat | j < 10
      ensures IsFeature(logs, t.dct, j, bytes[j])
    {
      FeatureMeaning(logs, t, j);
    }
    assert RowBy(samples, t, 320 * row, peak, bytes, Windowed(frame, t.hann), z, Magnitudes(z), mels, logs);
  }

  lemma MelsInDomain(mels: seq<int>, peak: int)
    requires |mels| == BANDS && 1 <= peak <= 0x7FFF && forall b :: 0 <= b < BANDS ==> 0 <= mels[b] <= 0xFFFF_FFFF
    ensures forall b :: 0 <= b < BANDS ==> InDomain(mels[b], peak)
  {
  }

  lemma {:induction false} FeaturesAt(samples: seq<int>, t: Tables, rows: nat, row: nat)
    requires t.Promised() && |samples| == WINDOW_SAMPLES && S16(samples) && row < rows <= FRAME_COUNT
    requires 1 <= Peak(samples) <= 0x7FFF
    ensures Features(samples, t, rows)[10 * row..10 * row + 10]
      == FrameFeatures(FrameAt(samples, row), Peak(samples), t)
    decreases rows
  {
    hide FrameFeatures, LogTable, AllWithin, Sum;
    var last := FrameFeatures(FrameAt(samples, rows - 1), Peak(samples), t);
    var before := Features(samples, t, rows - 1);
    assert Features(samples, t, rows) == before + last;
    if row < rows - 1 {
      FeaturesAt(samples, t, rows - 1, row);
      assert (before + last)[10 * row..10 * row + 10] == before[10 * row..10 * row + 10];
    }
  }

  /** The features specified above are what they are meant to be. */
  lemma FeaturesMeaning(samples: seq<int>, t: Tables)
    requires t.Promised() && RootsOfUnity(t.twiddle) && |samples| == WINDOW_SAMPLES && S16(samples)
    ensures AreFeatures(samples, t, Features(samples, t, FRAME_COUNT))
  {
    hide FrameFeatures, LogTable, AllWithin, Sum, RootsOfUnity, IsRow, IsPeak, Features;
    PeakRange(samples);
    PeakMeaning(samples);
    var features := Features(samples, t, FRAME_COUNT);
    forall row: nat | row < 49
      ensures IsRow(samples, t, 320 * row, Peak(samples), features[10 * row..10 * row + 10])
    {
      FeaturesAt(samples, t, FRAME_COUNT, row);
      RowMeaning(samples, t, row);
    }
    assert AllRows(samples, t, Peak(samples), features);
  }

  // ---------------------------------------------------------------- The stages as written

  /** `rne_uq32` */
  function RneUq32(value: int): Option<int> {
    if value < 0 || value >= 0x1_0000_0000_0000_0000 then None else Some(RneShift(value, 32))
  }

  /** A sum of products, accumulated from the left. */
  method Reduce(a: seq<int>, b: seq<int>) returns (total: int)
    requires |a| == |b|
    ensures total == Dot(a, b)
  {
    total := 0;
    for k := 0 to |a|
      invariant total == Dot(a[..k], b[..k])
    {
      DotNext(a, b, k);
      total := total + a[k] * b[k];
    }
    assert a[..|a|] == a && b[..|a|] == b;
  }

  method MagnitudeRow(re: array<int>, im: array<int>) returns (r: Option<seq<int>>)
    requires re.Length == im.Length == POINTS
    ensures r.Some? ==> |r.value| == BINS
    ensures AllWithin(Zipped(re[..], im[..]), UNIT + 18) ==> r == Some(Magnitudes(Zipped(re[..], im[..])))
  {
    hide Within, NearestSqrt;
    ghost var z := Zipped(re[..], im[..]);
    var row: seq<int> := [];
    for k := 0 to BINS
      invariant row == Magnitudes(z)[..k]
    {
      assert z[k] == Complex(re[k], im[k]);
      var root := NearestIsqrt(re[k] * re[k] + im[k] * im[k]);
      if root.None? {
        if AllWithin(z, UNIT + 18) {
          MagnitudeBound(z[k], UNIT + 18);
          assert false;
        }
        return None;
      }
      row := row + [root.value];
    }
    assert Magnitudes(z)[..BINS] == Magnitudes(z);
    r := Some(row);
  }

  /** Window, transform, magnitudes and mel bands of one frame. */
  method MelFrame(frame: seq<int>, t: Tables, re: array<int>, im: array<int>) returns (r: Option<seq<int>>)
    requires re != im && re.Length == im.Length == POINTS && t.Sized() && |frame| == FRAME_SAMPLES
    modifies re, im
    ensures r.Some? ==> |r.value| == BANDS
    ensures t.Promised() && S16(frame) ==> r == Some(Mels(frame, t))
  {
    hide Within, RneShift, Dot, Transform, LogTable;
    var fault := FrameSpectrum(frame, t.hann, t.twiddle, re, im);
    if fault {
      return None;
    }
    var magnitudes := MagnitudeRow(re, im);
    if magnitudes.None? {
      return None;
    }
    var mels: seq<int> := [];
    for band := 0 to BANDS
      invariant |mels| == band
      invariant t.Promised() && S16(frame) ==> mels == Mels(frame, t)[..band]
    {
      var total := Reduce(magnitudes.value, t.MelRow(band));
      var value := RneUq32(total);
      if t.Promised() && S16(frame) {
        SpectrumWithin(frame, t);
        MelInRange(Spectrum(frame, t), t, band);
      }
      if value.None? {
        return None;
      }
      mels := mels + [value.value];
    }
    assert t.Promised() && S16(frame) ==> Mels(frame, t)[..BANDS] == Mels(frame, t);
    r := Some(mels);
  }

  method LogRow(mels: seq<int>, peak: int, t: Tables) returns (r: Option<seq<int>>)
    requires t.Sized() && |mels| == BANDS
    ensures r.Some? ==> |r.value| == BANDS
    ensures LogTable(t.log, t.ln2) && (forall k :: 0 <= k < BANDS ==> InDomain(mels[k], peak)) ==>
      r == Some(Logs(mels, peak, t))
  {
    hide LogValue, LogTable;
    ghost var tame := LogTable(t.log, t.ln2) && forall k :: 0 <= k < BANDS ==> InDomain(mels[k], peak);
    var logs: seq<int> := [];
    for band := 0 to BANDS
      invariant |logs| == band
      invariant tame ==> logs == Logs(mels, peak, t)[..band]
    {
      var value := LogMel(mels[band], peak, t.log, t.ln2);
      if value.None? {
        return None;
      }
      logs := logs + [value.value];
    }
    assert tame ==> Logs(mels, peak, t)[..BANDS] == Logs(mels, peak, t);
    r := Some(logs);
  }

  /** The ten feature bytes of one row of logarithms. */
  method FeatureRow(logs: seq<int>, t: Tables) returns (r: Option<seq<int>>)
    requires t.Sized() && |logs| == BANDS
    ensures r.Some? <==>
      forall j :: 0 <= j < COEFFICIENTS ==>
        -0x8000_0000_0000_0000 <= Dot(logs, t.DctRow(j)) < 0x8000_0000_0000_0000
    ensures r.Some? ==>
      && |r.value| == COEFFICIENTS
      && forall j :: 0 <= j < COEFFICIENTS ==> r.value[j] == FeatureByte(Coefficient(logs, t, j))
  {
    hide Dot, FeatureByte;
    var features: seq<int> := [];
    for j := 0 to COEFFICIENTS
      invariant |features| == j
      invariant forall k :: 0 <= k < j ==>
        && -0x8000_0000_0000_0000 <= Dot(logs, t.DctRow(k)) < 0x8000_0000_0000_0000
        && features[k] == FeatureByte(Coefficient(logs, t, k))
    {
      var total := Reduce(logs, t.DctRow(j));
      if total < -0x8000_0000_0000_0000 || total >= 0x8000_0000_0000_0000 {
        return None;
      }
      features := features + [FeatureByte(RneShift(total, 30))];
    }
    r := Some(features);
  }

  method FindPeak(samples: seq<int>) returns (peak: int)
    ensures peak == Peak(samples)
  {
    peak := 1;
    for k := 0 to |samples|
      invariant peak == Peak(samples[..k])
    {
      assert samples[..k + 1][..k] == samples[..k];
      peak := Max(peak, samples[k]);
    }
    assert samples[..|samples|] == samples;
  }

  datatype Outcome = Rejected | Fault | Accepted(features: seq<int>)

  /** `frontend_stages`: a window of the wrong size or outside S16 is rejected; for every
      other window no stage faults, and the bytes are the specified features. */
  method FrontendStages(samples: seq<int>, t: Tables) returns (r: Outcome)
    requires t.Sized()
    ensures r.Rejected? <==>
      |samples| != 16_000 || exists k :: 0 <= k < |samples| && !(-32_768 <= samples[k] <= 32_767)
    ensures t.Promised() && !r.Rejected? ==> r == Accepted(Features(samples, t, FRAME_COUNT))
    ensures t.Promised() && RootsOfUnity(t.twiddle) && !r.Rejected? ==>
      r.Accepted? && AreFeatures(samples, t, r.features)
  {
    hide RootsOfUnity, AreFeatures, Peak, Mels, Logs, LogTable, AllWithin, FeatureByte, Coefficient, Dot;
    if |samples| != WINDOW_SAMPLES || !S16(samples) {
      return Rejected;
    }
    var peak := FindPeak(samples);
    PeakRange(samples);
    var re, im := new int[POINTS], new int[POINTS];
    var melRows: seq<seq<int>> := [];
    for row := 0 to FRAME_COUNT
      invariant |melRows| == row && forall k :: 0 <= k < row ==> |melRows[k]| == BANDS
      invariant t.Promised() ==> forall k :: 0 <= k < row ==> melRows[k] == Mels(FrameAt(samples, k), t)
    {
      var mels := MelFrame(FrameAt(samples, row), t, re, im);
      if mels.None? {
        return Fault;
      }
      melRows := melRows + [mels.value];
    }
    var logRows: seq<seq<int>> := [];
    for row := 0 to FRAME_COUNT
      invariant |logRows| == row && forall k :: 0 <= k < row ==> |logRows[k]| == BANDS
      invariant t.Promised() ==> forall k :: 0 <= k < row ==> LogsAt(samples, t, peak, k) == logRows[k]
    {
      var logs := LogRow(melRows[row], peak, t);
      if t.Promised() {
        MelsInRange(FrameAt(samples, row), t);
      }
      if logs.None? {
        return Fault;
      }
      logRows := logRows + [logs.value];
    }
    var features: seq<int> := [];
    for row := 0 to FRAME_COUNT
      invariant |features| == COEFFICIENTS * row
      invariant t.Promised() ==> features == Features(samples, t, row)
    {
      var bytes := FeatureRow(logRows[row], t);
      if t.Promised() {
        RowFeatures(samples, t, peak, row, logRows[row], bytes);
      }
      if bytes.None? {
        return Fault;
      }
      features := features + bytes.value;
    }
    if t.Promised() && RootsOfUnity(t.twiddle) {
      FeaturesMeaning(samples, t);
    }
    r := Accepted(features);
  }

  ghost function LogsAt(samples: seq<int>, t: Tables, peak: int, row: nat): (logs: seq<int>)
    requires t.Promised() && |samples| == WINDOW_SAMPLES && S16(samples) && row < FRAME_COUNT && 1 <= peak <= 0x7FFF
    ensures |logs| == BANDS
  {
    MelsInRange(FrameAt(samples, row), t);
    Logs(Mels(FrameAt(samples, row), t), peak, t)
  }

  lemma RowFeatures(samples: seq<int>, t: Tables, peak: int, row: nat, logs: seq<int>, bytes: Option<seq<int>>)
    requires t.Promised() && |samples| == WINDOW_SAMPLES && S16(samples) && row < FRAME_COUNT && 1 <= peak <= 0x7FFF
    requires logs == LogsAt(samples, t, peak, row)
    requires bytes.Some? <==>
      forall j :: 0 <= j < COEFFICIENTS ==>
        -0x8000_0000_0000_0000 <= Dot(logs, t.DctRow(j)) < 0x8000_0000_0000_0000
    requires bytes.Some? ==>
      && |bytes.value| == COEFFICIENTS
      && forall j :: 0 <= j < COEFFICIENTS ==> bytes.value[j] == FeatureByte(Coefficient(logs, t, j))
    ensures bytes == Some(FrameFeatures(FrameAt(samples, row), peak, t))
  {
    hide Dot, FeatureByte, Coefficient, Logs, Mels;
    MelsInRange(FrameAt(samples, row), t);
    forall j: nat | j < COEFFICIENTS
      ensures -0x8000_0000_0000_0000 <= Dot(logs, t.DctRow(j)) < 0x8000_0000_0000_0000
    {
      ReductionInRange(Mels(FrameAt(samples, row), t), peak, t, j);
    }
    assert bytes.value == FrameFeatures(FrameAt(samples, row), peak, t);
  }
}
