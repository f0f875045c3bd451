/** The polyphase resampler: the codec runs it once over the whole padded signal, the
    engine's kernel chunk by chunk with its position saved in between. */
module Resampler {
  import opened Common
  import opened Arithmetic
  import opened Rounding
  import opened Prediction

  const TAPS: nat := 16
  const PHASES: nat := 32
  const LEAD: nat := 7

  /** One sample per channel. */
  type Frame = seq<int>

  // ---------------------------------------------------------------- Positions

  datatype Position = Position(source: nat, phase: nat)

  /** The input index and filter phase of the output at `numerator / l`. */
  function PositionAt(numerator: nat, l: nat): Position
    requires l > 0
  {
    DivModFacts(numerator, l);
    DivNonNegative(numerator, l);
    var source, remainder := numerator / l, numerator % l;
    DivNonNegative(PHASES * remainder, l);
    var phaseFloor, phaseRemainder := PHASES * remainder / l, PHASES * remainder % l;
    var phase := if 2 * phaseRemainder > l || (2 * phaseRemainder == l && phaseFloor % 2 == 1) then phaseFloor + 1
      else phaseFloor;
    if phase == PHASES then Position(source + 1, 0) else Position(source, phase)
  }

  lemma PhaseDivision(numerator: nat, l: nat)
    requires l > 0
    ensures var remainder := numerator % l;
      && PHASES * numerator / l == PHASES * (numerator / l) + PHASES * remainder / l
      && PHASES * numerator % l == PHASES * remainder % l
      && PHASES * remainder / l < PHASES
  {
    var source, remainder := numerator / l, numerator % l;
    DivModFacts(numerator, l);
    var quotient, rest := PHASES * remainder / l, PHASES * remainder % l;
    DivModFacts(PHASES * remainder, l);
    if quotient >= PHASES {
      MulMonotone(PHASES, quotient, l);
    }
    Distribute(PHASES * source, quotient, l);
    Associate(PHASES, source, l);
    DivModUnique(PHASES * numerator, l, PHASES * source + quotient, rest);
  }

  /** The position is the exact one rounded to the nearest 32nd of a sample, ties to
      even; its phase is always one of the 32. */
  lemma PositionNearest(numerator: nat, l: nat)
    requires l > 0
    ensures var p := PositionAt(numerator, l);
      && p.phase < PHASES && numerator / l <= p.source <= numerator / l + 1
      && PHASES * p.source + p.phase == RoundMagnitude(PHASES * numerator, l)
  {
    PhaseDivision(numerator, l);
    var source, quotient := numerator / l, PHASES * (numerator % l) / l;
    var total := PHASES * numerator / l;
    assert total == PHASES * source + quotient && total % 2 == quotient % 2;
  }

  // ---------------------------------------------------------------- The filter

  function Saturate(value: int): (r: int)
    ensures InS32(r) && (InS32(value) ==> r == value)
  {
    Min(Max(value, -0x8000_0000), 0x7FFF_FFFF)
  }

  /** One channel of a run of frames. */
  function Column(frames: seq<Frame>, channel: nat): (c: seq<int>)
    requires Uniform(frames, channel + 1)
    ensures |c| == |frames|
  {
    seq(|frames|, k requires 0 <= k < |frames| => frames[k][channel])
  }

  /** Every frame has at least this many channels. */
  predicate Uniform(frames: seq<Frame>, channels: nat) {
    forall k :: 0 <= k < |frames| ==> |frames[k]| >= channels
  }

  function Filter(samples: seq<int>, coefficients: seq<int>): int
    requires |samples| == |coefficients|
  {
    Saturate(RneShift(Dot(samples, coefficients), 30))
  }

  /** The bank of one filter: 32 phases of 16 coefficients. */
  type Bank = c: seq<int> | |c| == 512 witness seq(512, _ => 0)

  function PhaseOf(bank: Bank, phase: nat): (c: seq<int>)
    requires phase < PHASES
    ensures |c| == TAPS
  {
    bank[TAPS * phase..TAPS * phase + TAPS]
  }

  /** A filter bank, the channel count and the ratio of output to input rate. */
  datatype Setup = Setup(bank: Bank, channels: nat, l: nat, m: nat) {
    predicate Valid() { l > 0 && m > 0 }
  }

  /** The output frame at a position, from a window that starts 7 frames before the
      input frame `base`. */
  function FrameAt(s: Setup, window: seq<Frame>, base: nat, p: Position): (f: Frame)
    requires p.phase < PHASES && base <= p.source && p.source - base + TAPS <= |window|
    requires Uniform(window, s.channels)
    ensures |f| == s.channels
  {
    var taps := window[p.source - base..p.source - base + TAPS];
    seq(s.channels, c requires 0 <= c < s.channels => Filter(Column(taps, c), PhaseOf(s.bank, p.phase)))
  }

  /** A window for the input frames from `base` to `limit`, and the numerator of the
      next output, which lies at `base` or later. */
  predicate Ready(s: Setup, window: seq<Frame>, base: nat, next: nat, limit: nat) {
    && s.Valid() && base <= limit && |window| == limit - base + TAPS && Uniform(window, s.channels)
    && base <= next / s.l
  }

  /** An output still to be computed from the window has all its taps inside it. */
  lemma TapsInside(s: Setup, window: seq<Frame>, base: nat, next: nat, limit: nat)
    requires Ready(s, window, base, next, limit) && next / s.l < limit
    ensures var p := PositionAt(next, s.l);
      p.phase < PHASES && base <= p.source && p.source - base + TAPS <= |window|
    ensures next < limit * s.l && Ready(s, window, base, next + s.m, limit)
  {
    hide PositionAt;
    PositionNearest(next, s.l);
    Below(next, s.l, limit);
    DivMonotone(next, next + s.m, s.l);
  }

  /** The resampling loop: frames for the input frames up to `limit`, and the numerator
      of the next output. */
  function Emit(s: Setup, window: seq<Frame>, base: nat, next: nat, limit: nat): (seq<Frame>, nat)
    requires Ready(s, window, base, next, limit)
    decreases limit * s.l - next
  {
    if next / s.l >= limit then ([], next)
    else
      TapsInside(s, window, base, next, limit);
      var (rest, last) := Emit(s, window, base, next + s.m, limit);
      ([FrameAt(s, window, base, PositionAt(next, s.l))] + rest, last)
  }

  lemma Below(next: nat, l: nat, limit: nat)
    requires l > 0
    ensures next / l < limit <==> next < limit * l
  {
    DivModFacts(next, l);
    if next / l < limit {
      MulStrict(next / l, limit, l);
    } else {
      MulMonotone(limit, next / l, l);
    }
  }

  // ---------------------------------------------------------------- Output count

  /** `ceil(n / m)` */
  function CeilDiv(n: nat, m: nat): (q: nat)
    requires m > 0
    ensures n <= q * m < n + m
  {
    DivModFacts(n + m - 1, m);
    DivNonNegative(n + m - 1, m);
    (n + m - 1) / m
  }

  lemma CeilStep(n: nat, m: nat)
    requires m > 0 && n > 0
    ensures CeilDiv(n, m) == 1 + CeilDiv(if n > m then n - m else 0, m)
  {
    var rest := if n > m then n - m else 0;
    var q := CeilDiv(rest, m);
    Distribute(q, 1, m);
    DivModUnique(n + m - 1, m, q + 1, n + m - 1 - (q + 1) * m);
  }

  /** The loop emits one frame per output position below the limit. */
  lemma {:induction false} EmitCount(s: Setup, window: seq<Frame>, base: nat, next: nat, limit: nat)
    requires Ready(s, window, base, next, limit)
    ensures var (frames, last) := Emit(s, window, base, next, limit);
      && |frames| == CeilDiv(if next < limit * s.l then limit * s.l - next else 0, s.m)
      && last == next + |frames| * s.m && last / s.l >= limit
      && (next < limit * s.l ==> last < limit * s.l + s.m)
    decreases limit * s.l - next
  {
    hide FrameAt, PositionAt;
    Below(next, s.l, limit);
    if next < limit * s.l {
      TapsInside(s, window, base, next, limit);
      EmitCount(s, window, base, next + s.m, limit);
      CeilStep(limit * s.l - next, s.m);
      var (rest, last) := Emit(s, window, base, next + s.m, limit);
      Distribute(|rest|, 1, s.m);
      Below(last, s.l, limit);
    } else {
      DivModUnique(s.m - 1, s.m, 0, s.m - 1);
    }
  }

  /** Output `k` is the frame at numerator `next + k * m`. */
  lemma {:induction false} EmitAt(s: Setup, window: seq<Frame>, base: nat, next: nat, limit: nat, k: nat)
    requires Ready(s, window, base, next, limit) && k < |Emit(s, window, base, next, limit).0|
    ensures var at := next + k * s.m;
      && Ready(s, window, base, at, limit) && at / s.l < limit
      && var p := PositionAt(at, s.l);
      && p.phase < PHASES && base <= p.source && p.source - base + TAPS <= |window|
      && Emit(s, window, base, next, limit).0[k] == FrameAt(s, window, base, p)
    decreases k
  {
    hide FrameAt, PositionAt;
    TapsInside(s, window, base, next, limit);
    if k == 0 {
    } else {
      EmitAt(s, window, base, next + s.m, limit, k - 1);
      Distribute(k - 1, 1, s.m);
    }
  }

  // ---------------------------------------------------------------- Chunks

  /** A window cut at either end gives the same frame. */
  lemma FrameInCut(s: Setup, window: seq<Frame>, base: nat, p: Position, lo: nat, hi: nat)
    requires p.phase < PHASES && base <= p.source && Uniform(window, s.channels)
    requires lo <= p.source - base && p.source - base + TAPS <= hi <= |window|
    ensures FrameAt(s, window[lo..hi], base + lo, p) == FrameAt(s, window, base, p)
  {
    hide Filter;
    var at := p.source - base;
    SubSlice(window, lo, hi - lo, at - lo, at - lo + TAPS);
  }

  /** Up to an intermediate limit the rest of the window is not needed; from there on
      what came before is not needed. */
  lemma {:induction false} EmitSplit(s: Setup, window: seq<Frame>, base: nat, next: nat, middle: nat, limit: nat)
    requires Ready(s, window, base, next, limit) && base <= middle <= limit
    ensures var head := window[..middle - base + TAPS];
      var tail := window[middle - base..];
      && Ready(s, head, base, next, middle)
      && var (first, between) := Emit(s, head, base, next, middle);
      && Ready(s, tail, middle, between, limit)
      && var (second, last) := Emit(s, tail, middle, between, limit);
      Emit(s, window, base, next, limit) == (first + second, last)
    decreases limit * s.l - next
  {
    hide FrameAt, PositionAt;
    var head, tail := window[..middle - base + TAPS], window[middle - base..];
    if next / s.l < middle {
      TapsInside(s, window, base, next, limit);
      TapsInside(s, head, base, next, middle);
      FrameInCut(s, window, base, PositionAt(next, s.l), 0, middle - base + TAPS);
      EmitSplit(s, window, base, next + s.m, middle, limit);
      var (first, between) := Emit(s, head, base, next + s.m, middle);
      var (second, last) := Emit(s, tail, middle, between, limit);
      var f := FrameAt(s, window, base, PositionAt(next, s.l));
      assert [f] + (first + second) == ([f] + first) + second;
    } else {
      EmitTail(s, window, base, next, middle, limit);
      assert [] + Emit(s, tail, middle, next, limit).0 == Emit(s, tail, middle, next, limit).0;
    }
  }

  lemma {:induction false} EmitTail(s: Setup, window: seq<Frame>, base: nat, next: nat, middle: nat, limit: nat)
    requires Ready(s, window, base, next, limit) && base <= middle <= limit && middle <= next / s.l
    ensures var tail := window[middle - base..];
      Ready(s, tail, middle, next, limit) && Emit(s, tail, middle, next, limit) == Emit(s, window, base, next, limit)
    decreases limit * s.l - next
  {
    hide FrameAt, PositionAt;
    var tail := window[middle - base..];
    assert tail == window[middle - base..|window|];
    if next / s.l < limit {
      TapsInside(s, window, base, next, limit);
      TapsInside(s, tail, middle, next, limit);
      FrameInCut(s, window, base, PositionAt(next, s.l), middle - base, |window|);
      EmitTail(s, window, base, next + s.m, middle, limit);
    }
  }

  /** One kernel call per chunk, the next numerator carried from call to call. */
  function Stream(s: Setup, padded: seq<Frame>, counts: seq<nat>, base: nat, next: nat): (seq<Frame>, nat)
    requires s.Valid() && |padded| == base + Total(counts) + TAPS && Uniform(padded, s.channels) && base <= next / s.l
    decreases |counts|
  {
    if counts == [] then ([], next)
    else
      var limit := base + counts[0];
      var window := padded[base..limit + TAPS];
      EmitCount(s, window, base, next, limit);
      var (first, between) := Emit(s, window, base, next, limit);
      var (rest, last) := Stream(s, padded, counts[1..], limit, between);
      (first + rest, last)
  }

  /** Any chunking of the input gives the frames of one run over all of it. */
  lemma {:induction false} StreamIsEmit(s: Setup, padded: seq<Frame>, counts: seq<nat>, base: nat, next: nat)
    requires s.Valid() && |padded| == base + Total(counts) + TAPS && Uniform(padded, s.channels) && base <= next / s.l
    ensures Stream(s, padded, counts, base, next) == Emit(s, padded[base..], base, next, base + Total(counts))
    decreases |counts|
  {
    hide FrameAt, PositionAt, Emit;
    var window := padded[base..];
    var end := base + Total(counts);
    if counts == [] {
      NothingToEmit(s, window, base, next);
    } else {
      var limit := base + counts[0];
      EmitCount(s, padded[base..limit + TAPS], base, next, limit);
      var (first, between) := Emit(s, padded[base..limit + TAPS], base, next, limit);
      StreamIsEmit(s, padded, counts[1..], limit, between);
      EmitSplit(s, window, base, next, limit, end);
      assert window[..limit - base + TAPS] == padded[base..limit + TAPS];
      assert window[limit - base..] == padded[limit..];
    }
  }

  lemma NothingToEmit(s: Setup, window: seq<Frame>, base: nat, next: nat)
    requires Ready(s, window, base, next, base)
    ensures Emit(s, window, base, next, base) == ([], next)
  {
  }

  /** Below 2^64 the saved position never wraps. */
  lemma PositionFits(s: Setup, window: seq<Frame>, base: nat, next: nat, limit: nat)
    requires Ready(s, window, base, next, limit)
    requires limit * s.l + s.m <= WRAP && next < WRAP
    ensures Emit(s, window, base, next, limit).1 < WRAP && limit < WRAP
  {
    EmitCount(s, window, base, next, limit);
    MulMonotone(1, s.l, limit);
    assert Emit(s, window, base, next, limit).0 == [] || next < limit * s.l by { Below(next, s.l, limit); }
  }

  // ---------------------------------------------------------------- What a frame means

  /** A sample of a channel; there is silence before and behind the frames. */
  function SampleAt(frames: seq<Frame>, channel: nat, j: int): int
    requires Uniform(frames, channel + 1)
  {
    if 0 <= j < |frames| then frames[j][channel] else 0
  }

  /** The samples from `first` on, each times the coefficient of its tap in a row of 16. */
  function TapSum(frames: seq<Frame>, channel: nat, bank: Bank, first: int, row: nat, taps: nat): int
    requires Uniform(frames, channel + 1) && row < 32 && taps <= 16
  {
    if taps == 0 then 0
    else
      TapSum(frames, channel, bank, first, row, taps - 1)
      + SampleAt(frames, channel, first + taps - 1) * bank[16 * row + taps - 1]
  }

  /** 2^-30 times the sum, rounded to nearest and clamped to 32 bits. */
  ghost predicate IsWord(sum: int, value: int) {
    exists rounded: int ::
      && NearestEven(sum, 0x4000_0000, rounded)
      && value == if rounded < -0x8000_0000 then -0x8000_0000 else if rounded > 0x7FFF_FFFF then 0x7FFF_FFFF
        else rounded
  }

  /** The value is interpolated at `n / l`, counted in 32nds of a sample from `offset` on: the
      nearest position names the first of 16 samples and the row of 16 coefficients. */
  ghost predicate Interpolated(
    frames: seq<Frame>, channel: nat, bank: Bank, n: int, l: nat, offset: int, value: int)
    requires Uniform(frames, channel + 1)
  {
    exists position: nat ::
      && NearestEven(n, l, position)
      && IsWord(TapSum(frames, channel, bank, position / 32 + offset, position % 32, 16), value)
  }

  lemma {:induction false} DotBack(a: seq<int>, b: seq<int>)
    requires |a| == |b| > 0
    ensures Dot(a, b) == Dot(a[..|a| - 1], b[..|a| - 1]) + a[|a| - 1] * b[|a| - 1]
    decreases |a|
  {
    var n := |a| - 1;
    if n == 0 {
    } else {
      DotBack(a[1..], b[1..]);
      assert a[1..][..n - 1] == a[..n][1..] && b[1..][..n - 1] == b[..n][1..];
    }
  }

  lemma {:induction false} DotIsTapSum(window: seq<Frame>, channel: nat, bank: Bank, at: nat, row: nat, n: nat)
    requires Uniform(window, channel + 1) && at + n <= |window| && row < 32 && n <= 16
    ensures Dot(Column(window[at..at + n], channel), bank[16 * row..16 * row + n])
      == TapSum(window, channel, bank, at, row, n)
    decreases n
  {
    if n == 0 {
    } else {
      DotIsTapSum(window, channel, bank, at, row, n - 1);
      var a, b := Column(window[at..at + n], channel), bank[16 * row..16 * row + n];
      DotBack(a, b);
      assert a[..n - 1] == Column(window[at..at + n - 1], channel);
      assert b[..n - 1] == bank[16 * row..16 * row + n - 1];
    }
  }

  /** A frame of the loop is interpolated in every channel. */
  lemma FrameInterpolated(s: Setup, window: seq<Frame>, base: nat, numerator: nat, channel: nat)
    requires s.l > 0 && Uniform(window, s.channels) && channel < s.channels
    requires var p := PositionAt(numerator, s.l);
      p.phase < PHASES && base <= p.source && p.source - base + TAPS <= |window|
    ensures Interpolated(window, channel, s.bank, 32 * numerator, s.l, 0 - base,
                         FrameAt(s, window, base, PositionAt(numerator, s.l))[channel])
  {
    hide PositionAt, RneShift, Dot, TapSum, RoundMagnitude;
    var p := PositionAt(numerator, s.l);
    PositionNearest(numerator, s.l);
    RoundSpec(32 * numerator, s.l);
    var position := 32 * p.source + p.phase;
    DotIsTapSum(window, channel, s.bank, p.source - base, p.phase, 16);
    var sum := TapSum(window, channel, s.bank, p.source - base, p.phase, 16);
    RneNearest(sum, 30);
    Pow2Literals();
    assert NearestEven(32 * numerator, s.l, position);
    assert position / 32 == p.source && position % 32 == p.phase;
    assert NearestEven(sum, 0x4000_0000, RneShift(sum, 30));
    assert IsWord(sum, FrameAt(s, window, base, p)[channel]);
    assert position / 32 + (0 - base) == p.source - base;
  }

  /** Seven frames of silence shift the taps by seven. */
  lemma {:induction false} TapsOfPadded(samples: seq<Frame>, channels: nat, channel: nat, bank: Bank, first: int,
    row: nat, taps: nat)
    requires Uniform(samples, channels) && channel < channels && row < 32 && taps <= 16
    ensures TapSum(Padded(samples, channels), channel, bank, first, row, taps)
      == TapSum(samples, channel, bank, first - 7, row, taps)
    decreases taps
  {
    if taps == 0 {
    } else {
      TapsOfPadded(samples, channels, channel, bank, first, row, taps - 1);
    }
  }

  /** Interpolation in the padded signal is interpolation in the signal. */
  lemma InterpolatedUnpadded(samples: seq<Frame>, channels: nat, channel: nat, bank: Bank, n: int, l: nat, value: int)
    requires Uniform(samples, channels) && channel < channels
    requires Interpolated(Padded(samples, channels), channel, bank, n, l, 0, value)
    ensures Interpolated(samples, channel, bank, n, l, -7, value)
  {
    hide TapSum, NearestEven, IsWord;
    var padded := Padded(samples, channels);
    var position: nat :|
      && NearestEven(n, l, position)
      && IsWord(TapSum(padded, channel, bank, position / 32 + 0, position % 32, 16), value);
    TapsOfPadded(samples, channels, channel, bank, position / 32, position % 32, 16);
    assert position / 32 - 7 == position / 32 + (-7);
    assert NearestEven(n, l, position)
      && IsWord(TapSum(samples, channel, bank, position / 32 + (-7), position % 32, 16), value);
  }

  /** Every channel of every output frame is interpolated at its position. */
  ghost predicate AllInterpolated(
    frames: seq<Frame>, s: Setup, next: nat, offset: int, output: seq<Frame>)
    requires s.Valid() && Uniform(frames, s.channels)
  {
    forall k :: 0 <= k < |output| ==>
      && |output[k]| == s.channels
      && forall c: nat :: c < s.channels ==>
        Interpolated(frames, c, s.bank, 32 * (next + k * s.m), s.l, offset, output[k][c])
  }

  lemma EmitInterpolated(s: Setup, window: seq<Frame>, base: nat, next: nat, limit: nat)
    requires Ready(s, window, base, next, limit)
    ensures AllInterpolated(window, s, next, 0 - base, Emit(s, window, base, next, limit).0)
  {
    hide FrameAt, PositionAt, Emit, Interpolated;
    var output := Emit(s, window, base, next, limit).0;
    forall k: nat | k < |output|
      ensures |output[k]| == s.channels
      ensures forall c: nat :: c < s.channels ==>
        Interpolated(window, c, s.bank, 32 * (next + k * s.m), s.l, 0 - base, output[k][c])
    {
      EmitAt(s, window, base, next, limit, k);
      forall c: nat | c < s.channels
        ensures Interpolated(window, c, s.bank, 32 * (next + k * s.m), s.l, 0 - base, output[k][c])
      {
        FrameInterpolated(s, window, base, next + k * s.m, c);
      }
    }
  }

  lemma OutputUnpadded(s: Setup, samples: seq<Frame>, output: seq<Frame>)
    requires s.Valid() && Uniform(samples, s.channels)
    requires AllInterpolated(Padded(samples, s.channels), s, 0, 0, output)
    ensures AllInterpolated(samples, s, 0, -7, output)
  {
    hide Interpolated, Padded;
    forall k: nat | k < |output|
      ensures |output[k]| == s.channels
      ensures forall c: nat :: c < s.channels ==>
        Interpolated(samples, c, s.bank, 32 * (0 + k * s.m), s.l, -7, output[k][c])
    {
      forall c: nat | c < s.channels
        ensures Interpolated(samples, c, s.bank, 32 * (0 + k * s.m), s.l, -7, output[k][c])
      {
        InterpolatedUnpadded(samples, s.channels, c, s.bank, 32 * (0 + k * s.m), s.l, output[k][c]);
      }
    }
  }

  // ---------------------------------------------------------------- The two programs

  const WRAP: nat := 0x1_0000_0000_0000_0000

  function Silence(n: nat, channels: nat): (z: seq<Frame>)
    ensures |z| == n && Uniform(z, channels)
  {
    seq(n, _ => seq(channels, _ => 0))
  }

  /** Seven frames of silence before the signal, nine after it. */
  function Padded(samples: seq<Frame>, channels: nat): (p: seq<Frame>)
    ensures |p| == |samples| + TAPS
    ensures Uniform(samples, channels) ==> Uniform(p, channels)
  {
    Silence(LEAD, channels) + samples + Silence(TAPS - LEAD, channels)
  }

  method FilterFrame(s: Setup, window: seq<Frame>, base: nat, p: Position) returns (frame: Frame)
    requires p.phase < PHASES && base <= p.source && p.source - base + TAPS <= |window|
    requires Uniform(window, s.channels)
    ensures frame == FrameAt(s, window, base, p)
  {
    hide Filter;
    frame := [];
    for channel := 0 to s.channels
      invariant frame == FrameAt(s, window, base, p)[..channel]
    {
      var samples := Column(window[p.source - base..p.source - base + TAPS], channel);
      frame := frame + [Filter(samples, PhaseOf(s.bank, p.phase))];
    }
  }

  /** `_resample` of the codec: the whole signal at once. */
  method ResampleAll(s: Setup, samples: seq<Frame>) returns (output: seq<Frame>)
    requires s.Valid() && Uniform(samples, s.channels)
    ensures output == Emit(s, Padded(samples, s.channels), 0, 0, |samples|).0
    ensures |output| == CeilDiv(|samples| * s.l, s.m)
    ensures AllInterpolated(samples, s, 0, -7, output)
  {
    hide FrameAt, PositionAt, Interpolated, AllInterpolated;
    var padded := Padded(samples, s.channels);
    var numerator := 0;
    DivModUnique(0, s.l, 0, 0);
    output := [];
    EmitCount(s, padded, 0, 0, |samples|);
    ghost var goal := Emit(s, padded, 0, 0, |samples|).0;
    EmitInterpolated(s, padded, 0, 0, |samples|);
    OutputUnpadded(s, samples, goal);
    assert output + goal == goal;
    while numerator / s.l < |samples|
      invariant Ready(s, padded, 0, numerator, |samples|)
      invariant output + Emit(s, padded, 0, numerator, |samples|).0 == goal
      decreases |samples| * s.l - numerator
    {
      TapsInside(s, padded, 0, numerator, |samples|);
      var frame := FilterFrame(s, padded, 0, PositionAt(numerator, s.l));
      assert output + Emit(s, padded, 0, numerator, |samples|).0
          == output + [frame] + Emit(s, padded, 0, numerator + s.m, |samples|).0;
      output := output + [frame];
      numerator := numerator + s.m;
    }
    assert output + [] == output;
    if |samples| * s.l == 0 {
      DivModUnique(s.m - 1, s.m, 0, s.m - 1);
    }
  }

  /** All samples of the window and all coefficients are 32-bit words, as the kernel reads
      them from memory. */
  predicate ReadAsWords(s: Setup, window: seq<Frame>) {
    && (forall k, c :: 0 <= k < |window| && 0 <= c < |window[k]| ==> InS32(window[k][c]))
    && (forall k :: 0 <= k < 512 ==> InS32(s.bank[k]))
  }

  /** One output frame of the kernel, with the accumulator test. */
  method KernelFrame(s: Setup, window: seq<Frame>, base: nat, p: Position) returns (frame: Option<Frame>)
    requires p.phase < PHASES && base <= p.source && p.source - base + TAPS <= |window|
    requires Uniform(window, s.channels) && ReadAsWords(s, window)
    ensures frame == Some(FrameAt(s, window, base, p))
  {
    hide RneShift, Dot, Saturate;
    var values: Frame := [];
    for channel := 0 to s.channels
      invariant values == FrameAt(s, window, base, p)[..channel]
    {
      var samples := Column(window[p.source - base..p.source - base + TAPS], channel);
      FilterNeverFaults(samples, s.bank, p.phase);
      if !InAccumulator(Dot(samples, PhaseOf(s.bank, p.phase))) {
        return None;
      }
      values := values + [Filter(samples, PhaseOf(s.bank, p.phase))];
    }
    assert values == FrameAt(s, window, base, p);
    frame := Some(values);
  }

  /** The RESAMPLE kernel: one chunk, position and base saved as 64-bit numbers. The
      accumulator fault is never raised. */
  method ResampleChunk(s: Setup, window: seq<Frame>, count: nat, next: nat, base: nat)
    returns (fault: bool, output: seq<Frame>, nextSaved: nat, baseSaved: nat)
    requires Ready(s, window, base, next, base + count) && ReadAsWords(s, window)
    ensures !fault && output == Emit(s, window, base, next, base + count).0
    ensures nextSaved == Emit(s, window, base, next, base + count).1 % WRAP && baseSaved == (base + count) % WRAP
    ensures AllInterpolated(window, s, next, 0 - base, output)
    ensures nextSaved == (next + |output| * s.m) % WRAP
    ensures |output| == CeilDiv(if next < (base + count) * s.l then (base + count) * s.l - next else 0, s.m)
  {
    hide FrameAt, PositionAt, ReadAsWords, Interpolated, AllInterpolated;
    EmitInterpolated(s, window, base, next, base + count);
    EmitCount(s, window, base, next, base + count);
    var limit := base + count;
    var position := next;
    fault, output, nextSaved, baseSaved := false, [], 0, 0;
    ghost var (goal, last) := Emit(s, window, base, next, limit);
    assert output + goal == goal;
    while position / s.l < limit
      invariant Ready(s, window, base, position, limit) && !fault
      invariant output + Emit(s, window, base, position, limit).0 == goal
      invariant Emit(s, window, base, position, limit).1 == last
      decreases limit * s.l - position
    {
      TapsInside(s, window, base, position, limit);
      var filtered := KernelFrame(s, window, base, PositionAt(position, s.l));
      if filtered.None? {
        fault := true;
        return;
      }
      var frame := filtered.value;
      assert output + Emit(s, window, base, position, limit).0
          == output + [frame] + Emit(s, window, base, position + s.m, limit).0;
      output := output + [frame];
      position := position + s.m;
    }
    assert output + [] == output;
    nextSaved, baseSaved := position % WRAP, limit % WRAP;
  }

  /** Streaming any chunking of a signal gives what the codec computes in one go. */
  lemma StreamRefinesCodec(s: Setup, samples: seq<Frame>, counts: seq<nat>)
    requires s.Valid() && Uniform(samples, s.channels) && Total(counts) == |samples|
    ensures 0 / s.l == 0
    ensures Stream(s, Padded(samples, s.channels), counts, 0, 0)
      == Emit(s, Padded(samples, s.channels), 0, 0, |samples|)
  {
    hide Stream, Emit;
    DivModUnique(0, s.l, 0, 0);
    var padded := Padded(samples, s.channels);
    assert padded[0..] == padded;
    StreamIsEmit(s, padded, counts, 0, 0);
  }

  // ---------------------------------------------------------------- Gain and range

  function SumOf(values: seq<int>): int {
    if values == [] then 0 else values[0] + SumOf(values[1..])
  }

  lemma {:induction false} DotConstant(samples: seq<int>, coefficients: seq<int>, value: int)
    requires |samples| == |coefficients| && forall k :: 0 <= k < |samples| ==> samples[k] == value
    ensures Dot(samples, coefficients) == value * SumOf(coefficients)
    decreases |samples|
  {
    if samples == [] {
    } else {
      DotConstant(samples[1..], coefficients[1..], value);
      Distribute(coefficients[0], SumOf(coefficients[1..]), value);
    }
  }

  /** Every phase of the bank has unit gain. */
  predicate UnitGain(bank: Bank) {
    forall phase :: 0 <= phase < PHASES ==> SumOf(PhaseOf(bank, phase)) == 0x4000_0000
  }

  lemma FilterConstant(samples: seq<int>, coefficients: seq<int>, value: int)
    requires |samples| == |coefficients| && forall k :: 0 <= k < |samples| ==> samples[k] == value
    requires SumOf(coefficients) == 0x4000_0000 && InS32(value)
    ensures Filter(samples, coefficients) == value
  {
    hide RneShift, Dot;
    DotConstant(samples, coefficients, value);
    Pow2Literals();
    RneExact(value, 30);
  }

  /** A constant signal is reproduced exactly wherever all 16 taps lie inside it. */
  lemma ConstantReproduced(s: Setup, samples: seq<Frame>, value: Frame, k: nat)
    requires s.Valid() && UnitGain(s.bank) && |value| == s.channels
    requires forall j :: 0 <= j < |samples| ==> samples[j] == value
    requires forall c :: 0 <= c < s.channels ==> InS32(value[c])
    requires k < CeilDiv(|samples| * s.l, s.m)
    requires var p := PositionAt(k * s.m, s.l); LEAD <= p.source && p.source + TAPS - LEAD <= |samples|
    ensures Ready(s, Padded(samples, s.channels), 0, 0, |samples|)
    ensures var output := Emit(s, Padded(samples, s.channels), 0, 0, |samples|).0;
      k < |output| && output[k] == value
  {
    hide PositionAt, Emit, Filter;
    var padded := Padded(samples, s.channels);
    DivModUnique(0, s.l, 0, 0);
    EmitCount(s, padded, 0, 0, |samples|);
    EmitAt(s, padded, 0, 0, |samples|, k);
    var p := PositionAt(k * s.m, s.l);
    var taps := padded[p.source..p.source + TAPS];
    forall c | 0 <= c < s.channels
      ensures Filter(Column(taps, c), PhaseOf(s.bank, p.phase)) == value[c]
    {
      FilterConstant(Column(taps, c), PhaseOf(s.bank, p.phase), value[c]);
    }
  }

  /** The filter's accumulator stays within 72 bits for all 32-bit samples and
      coefficients. */
  lemma FilterNeverFaults(samples: seq<int>, bank: Bank, phase: nat)
    requires |samples| == TAPS && phase < PHASES
    requires forall k :: 0 <= k < TAPS ==> InS32(samples[k])
    requires forall k :: 0 <= k < 512 ==> InS32(bank[k])
    ensures InAccumulator(Dot(samples, PhaseOf(bank, phase)))
  {
    AccumulatorNeverOverflows(samples, PhaseOf(bank, phase));
  }
}
