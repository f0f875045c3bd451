/** The fixed-point 512-point FFT of the keyword-spotting frontend: the in-place,
    bit-reversed, rounded radix-2 loop computes the recursive transform, and its
    overflow fault and 32-bit truncations can never take effect on S16 audio. */
module Fft {
  import opened Common
  import opened Arithmetic
  import opened Rounding
  import opened ComplexNumbers
  import opened Transforms
  import opened Dft

  const FRAME_SAMPLES: nat := 480

  // ---------------------------------------------------------------- Bit reversal

  /** The bit-reversed arrangement of the points. */
  function Reversed(x: seq<Complex>, level: nat): (r: seq<Complex>)
    requires |x| == Pow2(level)
    ensures |r| == |x|
    decreases level
  {
    if level == 0 then x else Reversed(Evens(x), level - 1) + Reversed(Odds(x), level - 1)
  }

  /** The index whose `bits` bits are those of `n` in reverse. */
  function BitReverse(n: nat, bits: nat): (r: nat)
    requires n < Pow2(bits)
    ensures r < Pow2(bits)
  {
    if bits == 0 then 0 else BitReverse(n / 2, bits - 1) + (if n % 2 == 1 then Pow2(bits - 1) else 0)
  }

  lemma SplitUpdate(x: seq<Complex>, i: nat, z: Complex)
    requires i < |x|
    ensures i % 2 == 0 ==> Evens(x[i := z]) == Evens(x)[i / 2 := z] && Odds(x[i := z]) == Odds(x)
    ensures i % 2 == 1 ==> Odds(x[i := z]) == Odds(x)[i / 2 := z] && Evens(x[i := z]) == Evens(x)
  {
  }

  lemma JoinUpdate(a: seq<Complex>, b: seq<Complex>, i: nat, z: Complex)
    ensures i < |a| ==> a[i := z] + b == (a + b)[i := z]
    ensures i < |b| ==> a + b[i := z] == (a + b)[|a| + i := z]
  {
  }

  /** Storing a point at its bit-reversed index keeps the arrangement. */
  lemma {:induction false} ReversedUpdate(x: seq<Complex>, level: nat, i: nat, z: Complex)
    requires |x| == Pow2(level) && i < |x|
    ensures Reversed(x[i := z], level) == Reversed(x, level)[BitReverse(i, level) := z]
    decreases level
  {
    hide Evens, Odds;
    if level == 0 {
      assert i == 0;
    } else {
      SplitUpdate(x, i, z);
      var a, b := Reversed(Evens(x), level - 1), Reversed(Odds(x), level - 1);
      var k := BitReverse(i / 2, level - 1);
      JoinUpdate(a, b, k, z);
      if i % 2 == 0 {
        ReversedUpdate(Evens(x), level - 1, i / 2, z);
        assert Reversed(x[i := z], level) == a[k := z] + b;
      } else {
        ReversedUpdate(Odds(x), level - 1, i / 2, z);
        assert Reversed(x[i := z], level) == a + b[k := z];
      }
    }
  }

  lemma {:induction false} ReversedZeros(level: nat)
    ensures Reversed(seq(Pow2(level), _ => ZERO), level) == seq(Pow2(level), _ => ZERO)
    decreases level
  {
    if level == 0 {
    } else {
      ReversedZeros(level - 1);
      var zeros := seq(Pow2(level), _ => ZERO);
      assert Evens(zeros) == seq(Pow2(level - 1), _ => ZERO) && Odds(zeros) == seq(Pow2(level - 1), _ => ZERO);
    }
  }

  // ---------------------------------------------------------------- Stages

  /** One stage: every block of `2 * half` points is merged in place. */
  function Stage(z: seq<Complex>, w: Table, half: nat): (r: seq<Complex>)
    requires half > 0
    ensures |r| == |z|
    decreases |z|
  {
    if |z| < 2 * half then z
    else Combine(z[..half], z[half..2 * half], w) + Stage(z[2 * half..], w, half)
  }

  /** The stages with blocks of 2, 4, ... up to 2^level points. */
  function Stages(z: seq<Complex>, w: Table, level: nat): (r: seq<Complex>)
    ensures |r| == |z|
    decreases level
  {
    if level == 0 then z else Stage(Stages(z, w, level - 1), w, Pow2(level - 1))
  }

  lemma {:induction false} StageSplits(a: seq<Complex>, b: seq<Complex>, w: Table, half: nat, blocks: nat)
    requires half > 0 && |a| == blocks * (2 * half)
    ensures Stage(a + b, w, half) == Stage(a, w, half) + Stage(b, w, half)
    decreases blocks
  {
    hide Combine;
    if blocks == 0 {
      assert a == [] && a + b == b;
    } else {
      Distribute(blocks, -1, 2 * half);
      MulNonNegative(blocks - 1, 2 * half);
      var n := 2 * half;
      assert (a + b)[..half] == a[..half] && (a + b)[half..n] == a[half..n] && (a + b)[n..] == a[n..] + b;
      StageSplits(a[n..], b, w, half, blocks - 1);
    }
  }

  lemma {:induction false} StagesSplit(a: seq<Complex>, b: seq<Complex>, w: Table, level: nat, blocks: nat)
    requires |a| == |b| == blocks * Pow2(level)
    ensures Stages(a + b, w, level) == Stages(a, w, level) + Stages(b, w, level)
    decreases level
  {
    hide Stage;
    if level == 0 {
    } else {
      var half := Pow2(level - 1);
      Associate(blocks, 2, half);
      StagesSplit(a, b, w, level - 1, 2 * blocks);
      StageSplits(Stages(a, w, level - 1), Stages(b, w, level - 1), w, half, blocks);
    }
  }

  /** The staged loop on bit-reversed points is the recursive transform. */
  lemma {:induction false} StagesTransform(x: seq<Complex>, w: Table, level: nat)
    requires |x| == Pow2(level)
    ensures Stages(Reversed(x, level), w, level) == Transform(x, w, level)
    decreases level
  {
    hide Combine;
    if level == 0 {
    } else {
      var half := Pow2(level - 1);
      var a, b := Reversed(Evens(x), level - 1), Reversed(Odds(x), level - 1);
      StagesTransform(Evens(x), w, level - 1);
      StagesTransform(Odds(x), w, level - 1);
      StagesSplit(a, b, w, level - 1, 1);
      OneBlock(Transform(Evens(x), w, level - 1), Transform(Odds(x), w, level - 1), w);
    }
  }

  lemma OneBlock(a: seq<Complex>, b: seq<Complex>, w: Table)
    requires |a| == |b| > 0
    ensures Stage(a + b, w, |a|) == Combine(a, b, w)
  {
    hide Combine;
    var z, n := a + b, |a|;
    assert z[..n] == a && z[n..2 * n] == b && z[2 * n..] == [];
    assert Combine(a, b, w) + [] == Combine(a, b, w);
  }

  // ---------------------------------------------------------------- Bounds

  ghost predicate AllWithin(z: seq<Complex>, bound: int) { forall k :: 0 <= k < |z| ==> Within(z[k], bound) }

  lemma CombineWithin(a: seq<Complex>, b: seq<Complex>, w: Table, bound: int)
    requires |a| == |b| > 0 && 0 <= bound <= 0x4800_0000
    requires AllWithin(a, bound) && AllWithin(b, bound) && AllWithin(w, UNIT + 1)
    ensures AllWithin(Combine(a, b, w), bound + 2)
  {
    hide Within, Upper, Lower;
    forall k | 0 <= k < 2 * |a|
      ensures Within(Combine(a, b, w)[k], bound + 2)
    {
      var j := if k < |a| then k else k - |a|;
      TwiddleWithin(w, |a|, j);
      ButterflyWithin(a[j], b[j], TwiddleAt(w, |a|, j), bound);
    }
  }

  lemma TwiddleWithin(w: Table, half: nat, j: nat)
    requires j < half && AllWithin(w, UNIT + 1)
    ensures Within(TwiddleAt(w, half, j), UNIT + 1)
  {
    hide Within;
    TwiddleInTable(half, j);
  }

  lemma {:induction false} StageWithin(z: seq<Complex>, w: Table, half: nat, bound: int)
    requires half > 0 && 0 <= bound <= 0x4800_0000 && AllWithin(z, bound) && AllWithin(w, UNIT + 1)
    ensures AllWithin(Stage(z, w, half), bound + 2)
    decreases |z|
  {
    hide Within, Combine;
    if |z| < 2 * half {
      forall k | 0 <= k < |z|
        ensures Within(z[k], bound + 2)
      {
        WithinMonotone(z[k], bound, bound + 2);
      }
    } else {
      CombineWithin(z[..half], z[half..2 * half], w, bound);
      StageWithin(z[2 * half..], w, half, bound);
    }
  }

  // ---------------------------------------------------------------- The loop as written

  /** The two lists read as one sequence of complex numbers. */
  ghost function Zipped(re: seq<int>, im: seq<int>): (z: seq<Complex>)
    requires |re| == |im|
    ensures |z| == |re|
  {
    seq(|re|, k requires 0 <= k < |re| => Complex(re[k], im[k]))
  }

  /** The 480 windowed samples, padded with zeros. */
  function Padded(windowed: seq<int>): (x: seq<Complex>)
    requires |windowed| <= POINTS
    ensures |x| == POINTS
  {
    seq(POINTS, k requires 0 <= k < POINTS => if k < |windowed| then Complex(windowed[k], 0) else ZERO)
  }

  lemma Points()
    ensures Pow2(9) == POINTS
  {
    Pow2Literals();
  }

  /** Clears the lists and stores the samples in bit-reversed order. */
  method LoadFrame(windowed: seq<int>, re: array<int>, im: array<int>)
    requires re != im && re.Length == im.Length == POINTS == Pow2(9) && |windowed| <= POINTS
    modifies re, im
    ensures Zipped(re[..], im[..]) == Reversed(Padded(windowed), 9)
  {
    hide Reversed, BitReverse, Pow2;
    for k := 0 to POINTS
      invariant forall j :: 0 <= j < k ==> re[j] == 0 && im[j] == 0
    {
      re[k], im[k] := 0, 0;
    }
    ReversedZeros(9);
    assert Zipped(re[..], im[..]) == seq(Pow2(9), _ => ZERO) == Padded([]);
    assert windowed[..0] == [];
    for k := 0 to |windowed|
      invariant forall j :: 0 <= j < POINTS ==> im[j] == 0
      invariant Zipped(re[..], im[..]) == Reversed(Padded(windowed[..k]), 9)
    {
      ghost var before := Zipped(re[..], im[..]);
      var target := BitReverse(k, 9);
      re[target] := windowed[k];
      assert Padded(windowed[..k + 1]) == Padded(windowed[..k])[k := Complex(windowed[k], 0)];
      ReversedUpdate(Padded(windowed[..k]), 9, k, Complex(windowed[k], 0));
      assert Zipped(re[..], im[..]) == before[target := Complex(windowed[k], 0)];
    }
    assert windowed[..|windowed|] == windowed;
  }

  /** One butterfly in place, with the truncations and the overflow test. */
  method Butterfly(re: array<int>, im: array<int>, left: nat, right: nat, w: Complex, ghost bound: int)
    returns (fault: bool)
    requires re != im && left < right < re.Length == im.Length
    modifies re, im
    ensures forall k :: 0 <= k < re.Length && k != left && k != right ==> re[k] == old(re[k]) && im[k] == old(im[k])
    ensures var a, b := Complex(old(re[left]), old(im[left])), Complex(old(re[right]), old(im[right]));
      0 <= bound <= 0x4800_0000 && Within(a, bound) && Within(b, bound) && Within(w, UNIT + 1) ==>
        && !fault
        && Complex(re[left], im[left]) == Upper(a, b, w) && Complex(re[right], im[right]) == Lower(a, b, w)
  {
    hide RneShift, Within;
    var a, b := Complex(re[left], im[left]), Complex(re[right], im[right]);
    if 0 <= bound <= 0x4800_0000 && Within(a, bound) && Within(b, bound) && Within(w, UNIT + 1) {
      ButterflyWithin(a, b, w, bound);
      S32Identity(Twist(b, w).re);
      S32Identity(Twist(b, w).im);
    }
    var twistRe := S32(RneShift(re[right] * w.re - im[right] * w.im, 30));
    var twistIm := S32(RneShift(re[right] * w.im + im[right] * w.re, 30));
    var sumRe, sumIm := RneShift(re[left] + twistRe, 1), RneShift(im[left] + twistIm, 1);
    var difRe, difIm := RneShift(re[left] - twistRe, 1), RneShift(im[left] - twistIm, 1);
    if !InS32(sumRe) || !InS32(sumIm) || !InS32(difRe) || !InS32(difIm) {
      return true;
    }
    re[left], im[left] := sumRe, sumIm;
    re[right], im[right] := difRe, difIm;
    fault := false;
  }

  /** The first `j` butterflies of the block at `group` are done, nothing else. */
  ghost predicate Merging(z: seq<Complex>, cur: seq<Complex>, w: Table, group: nat, half: nat, j: nat)
    requires half > 0 && group + 2 * half <= |z| == |cur| && j <= half
  {
    && (forall t :: 0 <= t < j ==> cur[group + t] == Upper(z[group + t], z[group + half + t], TwiddleAt(w, half, t)))
    && (forall t :: 0 <= t < j ==>
          cur[group + half + t] == Lower(z[group + t], z[group + half + t], TwiddleAt(w, half, t)))
    && (forall k :: group + j <= k < group + half ==> cur[k] == z[k])
    && (forall k :: group + half + j <= k < group + 2 * half ==> cur[k] == z[k])
  }

  lemma MergingStep(z: seq<Complex>, cur: seq<Complex>, next: seq<Complex>, w: Table, group: nat, half: nat, j: nat)
    requires half > 0 && group + 2 * half <= |z| == |cur| == |next| && j < half && Merging(z, cur, w, group, half, j)
    requires forall k :: 0 <= k < |z| && k != group + j && k != group + half + j ==> next[k] == cur[k]
    requires next[group + j] == Upper(z[group + j], z[group + half + j], TwiddleAt(w, half, j))
    requires next[group + half + j] == Lower(z[group + j], z[group + half + j], TwiddleAt(w, half, j))
    ensures Merging(z, next, w, group, half, j + 1)
  {
    hide Upper, Lower, TwiddleAt;
  }

  lemma MergingEnds(z: seq<Complex>, cur: seq<Complex>, w: Table, group: nat, half: nat)
    requires half > 0 && group + 2 * half <= |z| == |cur| && Merging(z, cur, w, group, half, half)
    ensures cur[group..group + 2 * half] == Combine(z[group..group + half], z[group + half..group + 2 * half], w)
  {
    hide Upper, Lower, TwiddleAt;
    var a, b := z[group..group + half], z[group + half..group + 2 * half];
    var merged := Combine(a, b, w);
    forall k | 0 <= k < 2 * half
      ensures cur[group + k] == merged[k]
    {
      if k >= half {
        var t := k - half;
        assert cur[group + half + t] == Lower(z[group + t], z[group + half + t], TwiddleAt(w, half, t));
        assert a[t] == z[group + t] && b[t] == z[group + half + t];
      }
    }
  }

  /** One block of `2 * half` points from `group` on. */
  method MergeBlock(re: array<int>, im: array<int>, w: Table, group: nat, half: nat, ghost bound: int)
    returns (fault: bool)
    requires re != im && half > 0 && group + 2 * half <= re.Length == im.Length
    modifies re, im
    ensures forall k :: 0 <= k < re.Length && !(group <= k < group + 2 * half) ==>
      re[k] == old(re[k]) && im[k] == old(im[k])
    ensures var z := Zipped(old(re[..]), old(im[..]));
      0 <= bound <= 0x4800_0000 && AllWithin(z, bound) && AllWithin(w, UNIT + 1) ==>
        && !fault
        && Zipped(re[..], im[..])[group..group + 2 * half]
          == Combine(z[group..group + half], z[group + half..group + 2 * half], w)
  {
    hide Within, Upper, Lower, Combine, TwiddleAt;
    ghost var z := Zipped(re[..], im[..]);
    ghost var tame := 0 <= bound <= 0x4800_0000 && AllWithin(z, bound) && AllWithin(w, UNIT + 1);
    for j := 0 to half
      invariant forall k :: 0 <= k < re.Length && !(group <= k < group + 2 * half) ==>
        re[k] == old(re[k]) && im[k] == old(im[k])
      invariant tame ==> Merging(z, Zipped(re[..], im[..]), w, group, half, j)
    {
      ghost var cur := Zipped(re[..], im[..]);
      if tame {
        TwiddleWithin(w, half, j);
        assert cur[group + j] == z[group + j] && cur[group + half + j] == z[group + half + j];
      }
      fault := Butterfly(re, im, group + j, group + half + j, TwiddleAt(w, half, j), bound);
      if fault {
        return;
      }
      if tame {
        MergingStep(z, cur, Zipped(re[..], im[..]), w, group, half, j);
      }
    }
    fault := false;
    if tame {
      MergingEnds(z, Zipped(re[..], im[..]), w, group, half);
    }
  }

  /** One stage over all blocks. */
  method RunStage(re: array<int>, im: array<int>, w: Table, half: nat, ghost blocks: nat, ghost bound: int)
    returns (fault: bool)
    requires re != im && half > 0 && re.Length == im.Length == POINTS == blocks * (2 * half)
    modifies re, im
    ensures var z := Zipped(old(re[..]), old(im[..]));
      0 <= bound <= 0x4700_0000 && AllWithin(z, bound) && AllWithin(w, UNIT + 1) ==>
        !fault && Zipped(re[..], im[..]) == Stage(z, w, half)
  {
    hide Combine, Stage, Within;
    ghost var z := Zipped(re[..], im[..]);
    ghost var tame := 0 <= bound <= 0x4700_0000 && AllWithin(z, bound) && AllWithin(w, UNIT + 1);
    var group := 0;
    ghost var g := 0;
    ghost var finished: seq<Complex> := [];
    StageOfNothing(w, half);
    assert z[..0] == [];
    while group < POINTS
      invariant 0 <= g <= blocks && group == g * (2 * half) <= POINTS
      invariant tame ==> finished == Stage(z[..group], w, half) && Zipped(re[..], im[..]) == finished + z[group..]
    {
      BlockFits(g, blocks, 2 * half);
      ghost var before := Zipped(re[..], im[..]);
      if tame {
        MixedWithin(z, finished, w, half, group, bound);
      }
      fault := MergeBlock(re, im, w, group, half, bound + 2);
      if fault {
        return;
      }
      if tame {
        BlockMerged(z, finished, before, Zipped(re[..], im[..]), w, half, group, g);
        finished := finished + Combine(z[group..group + half], z[group + half..group + 2 * half], w);
      }
      group, g := group + 2 * half, g + 1;
      Distribute(g - 1, 1, 2 * half);
    }
    fault := false;
    assert z[..POINTS] == z && finished + z[POINTS..] == finished;
  }

  lemma StageOfNothing(w: Table, half: nat)
    requires half > 0
    ensures Stage([], w, half) == []
  {
  }

  lemma BlockFits(g: nat, blocks: nat, n: nat)
    requires n > 0 && g * n < blocks * n
    ensures g < blocks && g * n + n <= blocks * n
  {
    if g >= blocks {
      MulMonotone(blocks, g, n);
    } else {
      MulStrict(g, blocks, n);
    }
  }

  /** Finished blocks have grown by at most two, the others not at all. */
  lemma MixedWithin(z: seq<Complex>, finished: seq<Complex>, w: Table, half: nat, group: nat, bound: int)
    requires half > 0 && group <= |z| && finished == Stage(z[..group], w, half)
    requires 0 <= bound <= 0x4800_0000 && AllWithin(z, bound) && AllWithin(w, UNIT + 1)
    ensures AllWithin(finished + z[group..], bound + 2)
  {
    hide Within, Stage;
    StageWithin(z[..group], w, half, bound);
    forall k | group <= k < |z|
      ensures Within(z[k], bound + 2)
    {
      WithinMonotone(z[k], bound, bound + 2);
    }
  }

  /** The two halves of the block that is merged next. */
  lemma BlockSlices(z: seq<Complex>, finished: seq<Complex>, half: nat, group: nat)
    requires group + 2 * half <= |z| && |finished| == group
    ensures var before := finished + z[group..];
      && before[group..group + half] == z[group..group + half]
      && before[group + half..group + 2 * half] == z[group + half..group + 2 * half]
    ensures z[..group + 2 * half]
      == z[..group] + (z[group..group + half] + z[group + half..group + 2 * half])
  {
    var before := finished + z[group..];
    assert forall k :: group <= k < |z| ==> before[k] == z[k];
  }

  /** Replacing one block and nothing else. */
  lemma BlockReplaced(before: seq<Complex>, after: seq<Complex>, merged: seq<Complex>, group: nat)
    requires group + |merged| <= |before| == |after|
    requires after[group..group + |merged|] == merged
    requires forall k :: 0 <= k < |before| && !(group <= k < group + |merged|) ==> after[k] == before[k]
    ensures after == before[..group] + merged + before[group + |merged|..]
  {
    assert after == after[..group] + after[group..group + |merged|] + after[group + |merged|..];
  }

  lemma BlockMerged(
    z: seq<Complex>, finished: seq<Complex>, before: seq<Complex>, after: seq<Complex>, w: Table, half: nat,
      group: nat, g: nat)
    requires half > 0 && group == g * (2 * half) && group + 2 * half <= |z| == |before| == |after|
    requires finished == Stage(z[..group], w, half) && before == finished + z[group..]
    requires forall k :: 0 <= k < |z| && !(group <= k < group + 2 * half) ==> after[k] == before[k]
    requires after[group..group + 2 * half]
      == Combine(before[group..group + half], before[group + half..group + 2 * half], w)
    ensures finished + Combine(z[group..group + half], z[group + half..group + 2 * half], w)
      == Stage(z[..group + 2 * half], w, half)
    ensures after
      == finished + Combine(z[group..group + half], z[group + half..group + 2 * half], w) + z[group + 2 * half..]
  {
    hide Combine, Stage;
    var a, b := z[group..group + half], z[group + half..group + 2 * half];
    BlockSlices(z, finished, half, group);
    StageSplits(z[..group], a + b, w, half, g);
    OneBlock(a, b, w);
    BlockReplaced(before, after, Combine(a, b, w), group);
    assert before[..group] == finished && before[group + 2 * half..] == z[group + 2 * half..];
  }

  /** With a table of roots of unity, samples of at most 2^30 have a spectrum, and this is it. */
  ghost predicate Transforms512(samples: seq<int>, w: Table, fault: bool, z: seq<Complex>) {
    RootsOfUnity(w) && (forall k :: 0 <= k < |samples| ==> -UNIT <= samples[k] <= UNIT) ==>
      !fault && IsSpectrum(samples, w, z)
  }

  /** `_fft_frame`: for tables of modulus at most 2^30 + 1 and window outputs of at most
      2^30, the loop raises no fault, its truncations are identities, it computes the
      recursive transform, and every modulus stays within 2^30 + 18. */
  method FftFrame(windowed: seq<int>, w: Table, re: array<int>, im: array<int>) returns (fault: bool)
    requires re != im && re.Length == im.Length == POINTS && |windowed| == FRAME_SAMPLES
    modifies re, im
    ensures AllWithin(w, UNIT + 1) && (forall k :: 0 <= k < |windowed| ==> -UNIT <= windowed[k] <= UNIT) ==>
      && !fault && |Padded(windowed)| == Pow2(9)
      && Zipped(re[..], im[..]) == Transform(Padded(windowed), w, 9)
      && AllWithin(Zipped(re[..], im[..]), UNIT + 18)
    ensures Transforms512(windowed, w, fault, Zipped(re[..], im[..]))
  {
    hide Pow2, Stages, Stage, Reversed, Transform, Within, IsSpectrum, RootsOfUnity;
    FrameIsSpectrum(windowed, w);
    Points();
    LoadFrame(windowed, re, im);
    ghost var z0 := Zipped(re[..], im[..]);
    ghost var tame := AllWithin(w, UNIT + 1) && (forall k :: 0 <= k < |windowed| ==> -UNIT <= windowed[k] <= UNIT);
    if tame {
      PaddedWithin(windowed);
      ReversedWithin(Padded(windowed), 9, UNIT);
    }
    var length := 2;
    ghost var level := 0;
    StagesStart(z0, w);
    PowersOfTwo(0);
    while length <= POINTS
      invariant 0 <= level <= 9 && length == Pow2(level + 1)
      invariant tame ==> Zipped(re[..], im[..]) == Stages(z0, w, level)
      invariant tame ==> AllWithin(Zipped(re[..], im[..]), UNIT + 2 * level)
      decreases 2 * POINTS - length
    {
      var half := length / 2;
      PowersOfTwo(level);
      PowersOfTwo(level + 1);
      if tame {
        StageWithin(Zipped(re[..], im[..]), w, half, UNIT + 2 * level);
        StagesNext(z0, w, level);
      }
      fault := RunStage(re, im, w, half, Pow2(8 - level), UNIT + 2 * level);
      if fault {
        return;
      }
      length, level := length * 2, level + 1;
    }
    fault := false;
    PowersOfTwo(level);
    if tame {
      StagesTransform(Padded(windowed), w, 9);
    }
  }

  /** With roots of unity the transform of the padded samples is their spectrum. */
  lemma FrameIsSpectrum(windowed: seq<int>, w: Table)
    requires |windowed| <= POINTS
    ensures RootsOfUnity(w) && (forall k :: 0 <= k < |windowed| ==> -UNIT <= windowed[k] <= UNIT) ==>
      && AllWithin(w, UNIT + 1) && |Padded(windowed)| == Pow2(9)
      && IsSpectrum(windowed, w, Transform(Padded(windowed), w, 9))
  {
    hide Transform, Within, IsSpectrum, Multiplies, InUnit, Pads, Padded;
    Points();
    if RootsOfUnity(w) && (forall k :: 0 <= k < |windowed| ==> -UNIT <= windowed[k] <= UNIT) {
      PaddedSamples(windowed);
      TransformIsSpectrum(Padded(windowed), windowed, w);
    }
  }

  lemma PaddedSamples(windowed: seq<int>)
    requires |windowed| <= POINTS && forall k :: 0 <= k < |windowed| ==> -UNIT <= windowed[k] <= UNIT
    ensures Pads(Padded(windowed), windowed) && InUnit(Padded(windowed))
  {
    hide Within;
    PaddedWithin(windowed);
  }

  lemma StagesStart(z: seq<Complex>, w: Table)
    ensures Stages(z, w, 0) == z
  {
  }

  lemma StagesNext(z: seq<Complex>, w: Table, level: nat)
    ensures Stages(z, w, level + 1) == Stage(Stages(z, w, level), w, Pow2(level))
  {
  }

  lemma PowersOfTwo(level: nat)
    ensures Pow2(level + 1) == 2 * Pow2(level) && Pow2(0) == 1 && Pow2(9) == POINTS
    ensures level <= 8 ==> Pow2(level + 1) <= POINTS && Pow2(8 - level) * Pow2(level + 1) == POINTS
    ensures level >= 9 ==> Pow2(level + 1) > POINTS
  {
    Points();
    if level <= 8 {
      Pow2Monotone(level + 1, 9);
      Pow2Add(8 - level, level + 1);
    } else {
      Pow2Monotone(9, level);
    }
  }

  lemma PaddedWithin(windowed: seq<int>)
    requires |windowed| <= POINTS && forall k :: 0 <= k < |windowed| ==> -UNIT <= windowed[k] <= UNIT
    ensures AllWithin(Padded(windowed), UNIT)
  {
    forall k | 0 <= k < POINTS
      ensures Within(Padded(windowed)[k], UNIT)
    {
      if k < |windowed| {
        SquareMonotone(Abs(windowed[k]), UNIT);
      }
    }
  }

  lemma {:induction false} ReversedWithin(x: seq<Complex>, level: nat, bound: int)
    requires |x| == Pow2(level) && AllWithin(x, bound)
    ensures AllWithin(Reversed(x, level), bound)
    decreases level
  {
    hide Within;
    if level == 0 {
    } else {
      ReversedWithin(Evens(x), level - 1, bound);
      ReversedWithin(Odds(x), level - 1, bound);
    }
  }

  /** The window stage: an S16 sample under a Q2.30 window value of at most one. */
  lemma WindowedBound(sample: int, window: int)
    requires -0x8000 <= sample <= 0x7FFF && 0 <= window <= UNIT
    ensures -UNIT <= RneShift(sample * window, 15) <= UNIT
  {
    hide RneShift;
    Pow2Literals();
    MulMonotone(-0x8000, sample, window);
    MulMonotone(sample, 0x8000, window);
    RneMonotone(sample * window, UNIT * 0x8000, 15);
    RneMonotone(-UNIT * 0x8000, sample * window, 15);
    RneExact(UNIT, 15);
    RneExact(-UNIT, 15);
  }

  /** The window stage. */
  function Windowed(frame: seq<int>, hann: seq<int>): (windowed: seq<int>)
    requires |frame| == |hann|
    ensures |windowed| == |frame|
  {
    seq(|frame|, k requires 0 <= k < |frame| => RneShift(frame[k] * hann[k], 15))
  }

  /** From samples to spectrum: for every frame of S16 samples, a window within 0 .. 1 and
      twiddles of modulus at most 2^30 + 1, no fault is raised and the result is the
      recursive transform of the windowed frame, within 2^30 + 18. */
  method FrameSpectrum(frame: seq<int>, hann: seq<int>, w: Table, re: array<int>, im: array<int>) returns (fault: bool)
    requires re != im && re.Length == im.Length == POINTS && |frame| == |hann| == FRAME_SAMPLES
    modifies re, im
    ensures
      && AllWithin(w, UNIT + 1) && (forall k :: 0 <= k < |hann| ==> 0 <= hann[k] <= UNIT)
      && (forall k :: 0 <= k < |frame| ==> -0x8000 <= frame[k] <= 0x7FFF) ==>
        && !fault && |Padded(Windowed(frame, hann))| == Pow2(9)
        && Zipped(re[..], im[..]) == Transform(Padded(Windowed(frame, hann)), w, 9)
        && AllWithin(Zipped(re[..], im[..]), UNIT + 18)
        && (RootsOfUnity(w) ==> IsSpectrum(Windowed(frame, hann), w, Zipped(re[..], im[..])))
  {
    hide Pow2, Transform, Within, RneShift, IsSpectrum, RootsOfUnity;
    var windowed: seq<int> := [];
    for k := 0 to |frame|
      invariant windowed == Windowed(frame, hann)[..k]
    {
      windowed := windowed + [RneShift(frame[k] * hann[k], 15)];
    }
    assert windowed == Windowed(frame, hann);
    if (forall k :: 0 <= k < |hann| ==> 0 <= hann[k] <= UNIT)
      && (forall k :: 0 <= k < |frame| ==> -0x8000 <= frame[k] <= 0x7FFF) {
      forall k | 0 <= k < |windowed|
        ensures -UNIT <= windowed[k] <= UNIT
      {
        WindowedBound(frame[k], hann[k]);
      }
    }
    fault := FftFrame(windowed, w, re, im);
  }
}
