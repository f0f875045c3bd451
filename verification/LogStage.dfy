/** The logarithm stage of the keyword-spotting frontend: exact normalisation of a
    rational, table interpolation, and the final 32-bit truncation. */
module LogStage {
  import opened Common
  import opened Arithmetic
  import opened Rounding

  // ---------------------------------------------------------------- Normalisation

  /** `n / d == 2^e * (numerator / scale)` with `1 <= numerator / scale < 2`. */
  datatype Normal = Normal(numerator: int, scale: int, exponent: int)

  /** Doubles the denominator while the ratio is at least two. */
  function ScaleUp(n: int, scale: int, exponent: int): Normal
    requires 0 < scale <= n
    decreases n - scale
  {
    if n >= 2 * scale then ScaleUp(n, 2 * scale, exponent + 1) else Normal(n, scale, exponent)
  }

  /** Doubles the numerator while the ratio is below one. */
  function ScaleDown(n: int, scale: int, exponent: int): Normal
    requires 0 < n && 0 < scale && n < 2 * scale
    decreases scale - n
  {
    if n < scale then ScaleDown(2 * n, scale, exponent - 1) else Normal(n, scale, exponent)
  }

  function Normalize(n: int, d: int): Normal
    requires n > 0 && d > 0
  {
    if n >= d then ScaleUp(n, d, 0) else ScaleDown(n, d, 0)
  }

  /** `2^e <= n / d` */
  predicate Reaches(n: int, d: int, e: int) {
    if e >= 0 then d * Pow2(e) <= n else d <= n * Pow2(-e)
  }

  lemma {:induction false} ScaleUpSpec(n: int, d: int, k: nat)
    requires 0 < d && 0 < d * Pow2(k) <= n
    ensures var r := ScaleUp(n, d * Pow2(k), k);
      && r.exponent >= k && r.numerator == n && r.scale == d * Pow2(r.exponent)
      && r.scale <= n < 2 * r.scale
    decreases n - d * Pow2(k)
  {
    if n >= 2 * (d * Pow2(k)) {
      assert 2 * (d * Pow2(k)) == d * Pow2(k + 1) by { Associate(2, d, Pow2(k)); Associate(d, 2, Pow2(k)); }
      ScaleUpSpec(n, d, k + 1);
    }
  }

  lemma {:induction false} ScaleDownSpec(n: int, d: int, k: nat)
    requires 0 < n && 0 < d && 0 < n * Pow2(k) < 2 * d && (k > 0 ==> n * Pow2(k - 1) < d)
    ensures var r := ScaleDown(n * Pow2(k), d, 0 - k);
      && r.exponent <= 0 - k && r.scale == d && r.numerator == n * Pow2(-r.exponent)
      && d <= r.numerator < 2 * d && (r.exponent < 0 ==> n * Pow2(-r.exponent - 1) < d)
    decreases d - n * Pow2(k)
  {
    if n * Pow2(k) < d {
      assert 2 * (n * Pow2(k)) == n * Pow2(k + 1) by { Associate(2, n, Pow2(k)); Associate(n, 2, Pow2(k)); }
      ScaleDownSpec(n, d, k + 1);
    }
  }

  /** The loops end with an exact decomposition: the exponent is the floor of the
      binary logarithm and the mantissa lies in [1, 2). */
  lemma NormalizeSpec(n: int, d: int)
    requires n > 0 && d > 0
    ensures var r := Normalize(n, d);
      && r.scale <= r.numerator < 2 * r.scale && r.scale > 0
      && (r.exponent >= 0 ==> r.numerator == n && r.scale == d * Pow2(r.exponent))
      && (r.exponent < 0 ==> r.scale == d && r.numerator == n * Pow2(-r.exponent))
      && Reaches(n, d, r.exponent) && !Reaches(n, d, r.exponent + 1)
  {
    assert Pow2(0) == 1;
    if n >= d {
      ScaleUpSpec(n, d, 0);
      var e := Normalize(n, d).exponent;
      Associate(d, 2, Pow2(e));
      Associate(2, d, Pow2(e));
    } else {
      ScaleDownSpec(n, d, 0);
    }
  }

  lemma ReachesBelow(n: int, d: int, e: int)
    requires n > 0 && d > 0 && Reaches(n, d, e + 1)
    ensures Reaches(n, d, e)
  {
    if e >= 0 {
      Pow2Monotone(e, e + 1);
      MulMonotone(Pow2(e), Pow2(e + 1), d);
    } else if e == -1 {
      assert Pow2(0) == 1 && Pow2(1) == 2;
    } else {
      Pow2Monotone(-e - 1, -e);
      MulMonotone(Pow2(-e - 1), Pow2(-e), n);
    }
  }

  lemma {:induction false} ReachesDown(n: int, d: int, low: int, high: int)
    requires n > 0 && d > 0 && low <= high && Reaches(n, d, high)
    ensures Reaches(n, d, low)
    decreases high - low
  {
    hide Reaches;
    if low < high {
      ReachesBelow(n, d, high - 1);
      ReachesDown(n, d, low, high - 1);
    }
  }

  lemma ReachesMore(n: int, m: int, d: int, e: int)
    requires 0 < n <= m && d > 0 && Reaches(n, d, e)
    ensures Reaches(m, d, e)
  {
    if e < 0 {
      MulMonotone(n, m, Pow2(-e));
    }
  }

  // ---------------------------------------------------------------- Interpolation

  /** What the log table promises: 1025 nondecreasing entries from 0 to ln 2. */
  ghost predicate LogTable(table: seq<int>, ln2: int) {
    && |table| == 1025 && table[0] == 0 && table[1024] == ln2 <= 0x100_0000
    && forall i, j :: 0 <= i <= j <= 1024 ==> table[i] <= table[j]
  }

  const STEPS: int := 0x400_0000

  /** The mantissa's position in the table, in units of 2^-26, rounded once. */
  function Position(n: Normal): int
    requires 0 < n.scale <= n.numerator
  {
    RoundMagnitude((n.numerator - n.scale) * STEPS, n.scale)
  }

  function Interpolate(table: seq<int>, position: int): int
    requires |table| == 1025 && 0 <= position <= STEPS
  {
    var i := position / 0x1_0000;
    if i == 1024 then table[1024]
    else table[i] + RneShift((table[i + 1] - table[i]) * (position % 0x1_0000), 16)
  }

  lemma PositionBound(n: Normal)
    requires 0 < n.scale <= n.numerator < 2 * n.scale
    ensures 0 <= Position(n) <= STEPS
  {
    hide RoundMagnitude;
    MulNonNegative(n.numerator - n.scale, STEPS);
    RoundMonotone((n.numerator - n.scale) * STEPS, STEPS * n.scale, n.scale);
    RoundExact(STEPS, n.scale);
  }

  /** Between two neighbouring entries. */
  lemma SegmentBounds(step: int, fraction: int)
    requires step >= 0 && 0 <= fraction <= 0x1_0000
    ensures 0 <= RneShift(step * fraction, 16) <= step
  {
    hide RneShift;
    Pow2Literals();
    MulNonNegative(step, fraction);
    MulMonotone(fraction, 0x1_0000, step);
    RneMonotone(0, step * fraction, 16);
    RneExact(0, 16);
    RneMonotone(step * fraction, step * 0x1_0000, 16);
    RneExact(step, 16);
  }

  lemma InterpolateBounds(table: seq<int>, ln2: int, position: int)
    requires LogTable(table, ln2) && 0 <= position <= STEPS
    ensures var i := position / 0x1_0000;
      table[i] <= Interpolate(table, position) <= table[if i == 1024 then i else i + 1]
  {
    hide RneShift;
    var i := position / 0x1_0000;
    if i < 1024 {
      SegmentBounds(table[i + 1] - table[i], position % 0x1_0000);
    }
  }

  lemma InterpolateMonotone(table: seq<int>, ln2: int, p: int, q: int)
    requires LogTable(table, ln2) && 0 <= p <= q <= STEPS
    ensures Interpolate(table, p) <= Interpolate(table, q)
  {
    hide RneShift;
    var i, j := p / 0x1_0000, q / 0x1_0000;
    InterpolateBounds(table, ln2, p);
    InterpolateBounds(table, ln2, q);
    if i < j {
      assert table[i + 1] <= table[j];
    } else if i < 1024 {
      MulMonotone(p % 0x1_0000, q % 0x1_0000, table[i + 1] - table[i]);
      RneMonotone((table[i + 1] - table[i]) * (p % 0x1_0000), (table[i + 1] - table[i]) * (q % 0x1_0000), 16);
    }
  }

  // ---------------------------------------------------------------- The stage

  function Numerator(mel: int, peak: int): int { 1_000_000 * mel + 16 * peak }

  function Denominator(peak: int): int { 16_000_000 * peak }

  predicate InDomain(mel: int, peak: int) { 0 <= mel <= 0xFFFF_FFFF && 1 <= peak <= 0xFFFF }

  /** The logarithm before the final truncation. */
  ghost function LogValue(mel: int, peak: int, table: seq<int>, ln2: int): int
    requires InDomain(mel, peak) && LogTable(table, ln2)
  {
    NormalizeSpec(Numerator(mel, peak), Denominator(peak));
    var n := Normalize(Numerator(mel, peak), Denominator(peak));
    PositionBound(n);
    n.exponent * ln2 + Interpolate(table, Position(n))
  }

  /** The exponent stays within -20 .. 28. */
  lemma ExponentRange(mel: int, peak: int)
    requires InDomain(mel, peak)
    ensures -20 <= Normalize(Numerator(mel, peak), Denominator(peak)).exponent <= 28
  {
    hide Normalize;
    var n, d := Numerator(mel, peak), Denominator(peak);
    NormalizeSpec(n, d);
    var e := Normalize(n, d).exponent;
    Pow2Literals();
    assert Pow2(20) == 0x10_0000 by { Pow2Add(16, 4); }
    if e < -20 {
      ReachesDown(n, d, -20, -20) by { MulMonotone(16 * peak, n, Pow2(20)); }
      ReachesUp(n, d, e);
    } else if e > 28 {
      ReachesDown(n, d, 29, e);
    }
  }

  lemma ReachesUp(n: int, d: int, e: int)
    requires n > 0 && d > 0 && e < -20 && Reaches(n, d, -20)
    ensures Reaches(n, d, e + 1)
  {
    ReachesDown(n, d, e + 1, -20);
  }

  lemma LogRange(mel: int, peak: int, table: seq<int>, ln2: int)
    requires InDomain(mel, peak) && LogTable(table, ln2)
    ensures 0 <= ln2 && -20 * ln2 <= LogValue(mel, peak, table, ln2) <= 29 * ln2
  {
    hide Normalize, Interpolate, Position;
    ExponentRange(mel, peak);
    NormalizeSpec(Numerator(mel, peak), Denominator(peak));
    var n := Normalize(Numerator(mel, peak), Denominator(peak));
    PositionBound(n);
    InterpolateBounds(table, ln2, Position(n));
    assert 0 <= table[0] <= ln2;
    MulMonotone(-20, n.exponent, ln2);
    MulMonotone(n.exponent, 28, ln2);
  }

  /** The final truncation to 32 bits never takes effect. */
  lemma LogFits(mel: int, peak: int, table: seq<int>, ln2: int)
    requires InDomain(mel, peak) && LogTable(table, ln2)
    ensures -0x8000_0000 <= LogValue(mel, peak, table, ln2) <= 0x7FFF_FFFF
  {
    hide LogValue;
    LogRange(mel, peak, table, ln2);
  }

  /** For a fixed peak the logarithm does not decrease with the mel energy. */
  lemma LogMonotone(mel: int, more: int, peak: int, table: seq<int>, ln2: int)
    requires InDomain(mel, peak) && InDomain(more, peak) && mel <= more && LogTable(table, ln2)
    ensures LogValue(mel, peak, table, ln2) <= LogValue(more, peak, table, ln2)
  {
    hide Normalize, Interpolate, Position, Reaches;
    var n, m, d := Numerator(mel, peak), Numerator(more, peak), Denominator(peak);
    NormalizeSpec(n, d);
    NormalizeSpec(m, d);
    var a, b := Normalize(n, d), Normalize(m, d);
    PositionBound(a);
    PositionBound(b);
    InterpolateBounds(table, ln2, Position(a));
    InterpolateBounds(table, ln2, Position(b));
    ReachesMore(n, m, d, a.exponent);
    if a.exponent > b.exponent {
      ReachesDown(m, d, b.exponent + 1, a.exponent);
      assert false;
    } else if a.exponent < b.exponent {
      assert 0 <= table[0] <= ln2;
      MulMonotone(a.exponent + 1, b.exponent, ln2);
      Distribute(a.exponent, 1, ln2);
    } else {
      PositionMonotone(a, b, n, m);
      InterpolateMonotone(table, ln2, Position(a), Position(b));
    }
  }

  lemma PositionMonotone(a: Normal, b: Normal, n: int, m: int)
    requires a.exponent == b.exponent && a.scale == b.scale > 0 && n <= m
    requires a.exponent >= 0 ==> a.numerator == n && b.numerator == m
    requires a.exponent < 0 ==> a.numerator == n * Pow2(-a.exponent) && b.numerator == m * Pow2(-a.exponent)
    requires a.scale <= a.numerator && b.scale <= b.numerator
    ensures Position(a) <= Position(b)
  {
    hide RoundMagnitude;
    if a.exponent < 0 {
      MulMonotone(n, m, Pow2(-a.exponent));
    }
    RoundMonotone((a.numerator - a.scale) * STEPS, (b.numerator - b.scale) * STEPS, a.scale);
  }

  // ---------------------------------------------------------------- The stage as written

  /** `floor(x * factor / s)` for `0 <= x < s` stays below the factor. */
  lemma QuotientBelow(x: int, s: int, factor: int)
    requires 0 <= x < s && factor > 0
    ensures 0 <= (x * factor) / s < factor
    ensures 0 <= x * factor - (x * factor) / s * s < s
  {
    MulNonNegative(x, factor);
    DivModFacts(x * factor, s);
    DivNonNegative(x * factor, s);
    MulStrict(x, s, factor);
    if (x * factor) / s >= factor {
      MulMonotone(factor, (x * factor) / s, s);
    }
  }

  /** Two divisions with remainders are one division. */
  lemma SplitDivision(x: int, s: int, index: int, fraction: int, left: int)
    requires 0 <= left < s && (x * 1024 - index * s) * 0x1_0000 == fraction * s + left
    ensures (x * STEPS) / s == index * 0x1_0000 + fraction && (x * STEPS) % s == left
  {
    Distribute(index * 0x1_0000, fraction, s);
    assert (index * 0x1_0000) * s == (index * s) * 0x1_0000;
    DivModUnique(x * STEPS, s, index * 0x1_0000 + fraction, left);
  }

  /** Table index and fraction, computed in two divisions, are the position computed
      in one. */
  lemma TwoDivisions(n: Normal)
    requires 0 < n.scale <= n.numerator < 2 * n.scale
    ensures var scaled := (n.numerator - n.scale) * 1024;
      var index := scaled / n.scale;
      var rest := (scaled - index * n.scale) * 0x1_0000;
      var fraction := rest / n.scale;
      var left := rest - fraction * n.scale;
      var rounded := if 2 * left > n.scale || (2 * left == n.scale && fraction % 2 == 1) then fraction + 1
        else fraction;
      && 0 <= index <= 1023 && 0 <= rounded <= 0x1_0000
      && Position(n) == index * 0x1_0000 + rounded
  {
    var s, x := n.scale, n.numerator - n.scale;
    QuotientBelow(x, s, 1024);
    var index := (x * 1024) / s;
    var rem := x * 1024 - index * s;
    QuotientBelow(rem, s, 0x1_0000);
    var fraction := (rem * 0x1_0000) / s;
    var left := rem * 0x1_0000 - fraction * s;
    SplitDivision(x, s, index, fraction, left);
    assert (index * 0x1_0000 + fraction) % 2 == fraction % 2;
  }

  /** Table index and rounded fraction; the fraction may be 65536. */
  method Locate(n: Normal) returns (index: int, fraction: int)
    requires 0 < n.scale <= n.numerator < 2 * n.scale
    ensures 0 <= index <= 1023 && 0 <= fraction <= 0x1_0000 && Position(n) == index * 0x1_0000 + fraction
  {
    hide Position;
    TwoDivisions(n);
    var scaled := (n.numerator - n.scale) * 1024;
    index := scaled / n.scale;
    var rest := (scaled - index * n.scale) * 0x1_0000;
    fraction := rest / n.scale;
    var left := rest - fraction * n.scale;
    if 2 * left > n.scale || (2 * left == n.scale && fraction % 2 == 1) {
      fraction := fraction + 1;
    }
  }

  /** `v` is the logarithm of n / d: with e the floor of the binary logarithm, the mantissa
      less one is rounded to a multiple of 2^-26, of which the upper ten bits name a segment
      of the table and the rest, up to a whole segment, is interpolated. */
  ghost predicate IsLog(n: int, d: int, table: seq<int>, ln2: int, v: int)
    requires |table| == 1025
  {
    exists e: int, index: nat, fraction: nat :: LogBy(n, d, table, ln2, v, e, index, fraction)
  }

  ghost predicate LogBy(n: int, d: int, table: seq<int>, ln2: int, v: int, e: int, index: nat, fraction: nat)
    requires |table| == 1025
  {
    && index < 1024 && fraction <= 0x1_0000 && AtPosition(n, d, e, index * 0x1_0000 + fraction)
    && OnSegment(table, index, fraction, v - e * ln2)
  }

  /** 2^e <= n / d < 2^(e+1), and 2^26 (n / (d 2^e) - 1) rounds to the position. */
  ghost predicate AtPosition(n: int, d: int, e: int, position: int) {
    if e >= 0 then
      && d * Pow2(e) <= n < 2 * (d * Pow2(e))
      && NearestEven((n - d * Pow2(e)) * 0x400_0000, d * Pow2(e), position)
    else
      && d <= n * Pow2(-e) < 2 * d
      && NearestEven((n * Pow2(-e) - d) * 0x400_0000, d, position)
  }

  /** The value on a segment, `fraction` 65536ths from its start. */
  ghost predicate OnSegment(table: seq<int>, index: nat, fraction: nat, v: int)
    requires |table| == 1025 && index < 1024
  {
    NearestEven((table[index + 1] - table[index]) * fraction, 0x1_0000, v - table[index])
  }

  lemma PositionMeaning(n: int, d: int)
    requires n > 0 && d > 0
    ensures var r := Normalize(n, d);
      0 < r.scale <= r.numerator < 2 * r.scale && AtPosition(n, d, r.exponent, Position(r))
  {
    hide Normalize, RoundMagnitude, Reaches;
    NormalizeSpec(n, d);
    var r := Normalize(n, d);
    MulNonNegative(r.numerator - r.scale, STEPS);
    RoundSpec((r.numerator - r.scale) * STEPS, r.scale);
  }

  lemma SegmentMeaning(table: seq<int>, index: nat, fraction: nat)
    requires |table| == 1025 && index < 1024 && fraction <= 0x1_0000
    ensures OnSegment(table, index, fraction, Interpolate(table, index * 0x1_0000 + fraction))
  {
    hide RneShift, Interpolate;
    SegmentIsPosition(table, index, fraction);
    Pow2Literals();
    RneNearest((table[index + 1] - table[index]) * fraction, 16);
  }

  lemma LogMeaning(mel: int, peak: int, table: seq<int>, ln2: int)
    requires InDomain(mel, peak) && LogTable(table, ln2)
    ensures IsLog(1_000_000 * mel + 16 * peak, 16_000_000 * peak, table, ln2, LogValue(mel, peak, table, ln2))
  {
    hide Normalize, Position, Interpolate, AtPosition, OnSegment;
    var n, d := Numerator(mel, peak), Denominator(peak);
    var r := Normalize(n, d);
    PositionMeaning(n, d);
    TwoDivisions(r);
    var index := (r.numerator - r.scale) * 1024 / r.scale;
    var fraction := Position(r) - index * 0x1_0000;
    SegmentMeaning(table, index, fraction);
    assert LogBy(n, d, table, ln2, LogValue(mel, peak, table, ln2), r.exponent, index, fraction);
  }

  /** `log_mel_q24` */
  method LogMel(mel: int, peak: int, table: seq<int>, ln2: int) returns (r: Option<int>)
    requires |table| == 1025
    ensures r.Some? <==> 0 <= mel <= 0xFFFF_FFFF && 1 <= peak <= 0xFFFF
    ensures InDomain(mel, peak) && LogTable(table, ln2) ==> r == Some(LogValue(mel, peak, table, ln2))
    ensures r.Some? && LogTable(table, ln2) ==>
      IsLog(1_000_000 * mel + 16 * peak, 16_000_000 * peak, table, ln2, r.value)
  {
    hide Interpolate, Position, Normalize, RneShift, Reaches, S32, IsLog;
    if InDomain(mel, peak) && LogTable(table, ln2) {
      LogMeaning(mel, peak, table, ln2);
    }
    if !(0 <= mel <= 0xFFFF_FFFF) || !(1 <= peak <= 0xFFFF) {
      return None;
    }
    NormalizeSpec(Numerator(mel, peak), Denominator(peak));
    var normal := NormalizeLoop(Numerator(mel, peak), Denominator(peak));
    var index, fraction := Locate(normal);
    SegmentIsPosition(table, index, fraction);
    var value := normal.exponent * ln2 + (table[index] + RneShift((table[index + 1] - table[index]) * fraction, 16));
    if LogTable(table, ln2) {
      LogFits(mel, peak, table, ln2);
      S32Identity(value);
    }
    r := Some(S32(value));
  }

  lemma SegmentIsPosition(table: seq<int>, index: int, fraction: int)
    requires |table| == 1025 && 0 <= index <= 1023 && 0 <= fraction <= 0x1_0000
    ensures table[index] + RneShift((table[index + 1] - table[index]) * fraction, 16)
         == Interpolate(table, index * 0x1_0000 + fraction)
  {
    hide RneShift;
    var step := table[index + 1] - table[index];
    Pow2Literals();
    if fraction == 0x1_0000 {
      RneExact(step, 16);
      if index < 1023 {
        RneExact(0, 16);
        assert (table[index + 2] - table[index + 1]) * 0 == 0 * Pow2(16);
      }
    }
  }

  method NormalizeLoop(n: int, d: int) returns (r: Normal)
    requires n > 0 && d > 0
    ensures r == Normalize(n, d)
  {
    var numerator, scale, exponent := n, d, 0;
    if n >= d {
      while numerator >= 2 * scale
        invariant 0 < scale <= numerator && ScaleUp(numerator, scale, exponent) == Normalize(n, d)
        decreases numerator - scale
      {
        scale, exponent := 2 * scale, exponent + 1;
      }
    } else {
      while numerator < scale
        invariant 0 < numerator < 2 * scale && 0 < scale && ScaleDown(numerator, scale, exponent) == Normalize(n, d)
        decreases scale - numerator
      {
        numerator, exponent := 2 * numerator, exponent - 1;
      }
    }
    r := Normal(numerator, scale, exponent);
  }
}
