/** Fixed and linear prediction, written twice: the codec restores a whole subframe
    from a growing sample list, the engine's kernels work chunk by chunk from a saved
    history. The two are proved to agree for every way of chunking. */
module Prediction {
  import opened Common
  import opened Arithmetic

  /** `shift` is a right shift when non-negative, a left shift otherwise. */
  datatype Predictor = Fixed(order: nat) | Lpc(coefficients: seq<int>, shift: int) {
    function Order(): nat { if Fixed? then order else |coefficients| }

    predicate Valid() { Fixed? ==> order <= 4 }

    /** Coefficients as a kernel reads them: at most 32 words. */
    predicate Words() {
      Lpc? ==> |coefficients| <= 32 && forall k :: 0 <= k < |coefficients| ==> InS32(coefficients[k])
    }
  }

  function Shifted(value: int, shift: int): int {
    if shift >= 0 then value / Pow2(shift) else value * Pow2(-shift)
  }

  // ---------------------------------------------------------------- The codec

  /** Sum of `coefficients[k] * samples[-k-1]` for k from `from`. */
  function Weighted(coefficients: seq<int>, samples: seq<int>, from: nat): int
    requires from <= |coefficients| <= |samples|
    decreases |coefficients| - from
  {
    if from == |coefficients| then 0
    else coefficients[from] * samples[|samples| - 1 - from] + Weighted(coefficients, samples, from + 1)
  }

  function Predict(p: Predictor, samples: seq<int>): int
    requires p.Order() <= |samples|
  {
    var n := |samples|;
    match p
    case Lpc(coefficients, shift) => Shifted(Weighted(coefficients, samples, 0), shift)
    case Fixed(order) =>
      if order == 0 then 0
      else if order == 1 then samples[n - 1]
      else if order == 2 then 2 * samples[n - 1] - samples[n - 2]
      else if order == 3 then 3 * samples[n - 1] - 3 * samples[n - 2] + samples[n - 3]
      else 4 * samples[n - 1] - 6 * samples[n - 2] + 4 * samples[n - 3] - samples[n - 4]
  }

  /** The restoration loop: `None` when a sample leaves the 32-bit range. */
  function Restore(p: Predictor, samples: seq<int>, residuals: seq<int>): Option<seq<int>>
    requires p.Order() <= |samples|
    decreases |residuals|
  {
    if residuals == [] then Some(samples)
    else
      var value := Predict(p, samples) + residuals[0];
      if !InS32(value) then None else Restore(p, samples + [value], residuals[1..])
  }

  /** What an encoder would code for the samples from index `k` on. */
  function Differences(p: Predictor, samples: seq<int>, k: nat): seq<int>
    requires p.Order() <= k <= |samples|
    decreases |samples| - k
  {
    if k == |samples| then [] else [samples[k] - Predict(p, samples[..k])] + Differences(p, samples, k + 1)
  }

  /** Restoring the differences of 32-bit samples returns the samples. */
  lemma {:induction false} RestoreInverts(p: Predictor, samples: seq<int>, k: nat)
    requires p.Order() <= k <= |samples| && forall j :: k <= j < |samples| ==> InS32(samples[j])
    ensures Restore(p, samples[..k], Differences(p, samples, k)) == Some(samples)
    decreases |samples| - k
  {
    hide Predict;
    if k == |samples| {
      assert samples[..k] == samples;
    } else {
      assert samples[..k] + [samples[k]] == samples[..k + 1];
      RestoreInverts(p, samples, k + 1);
      assert Differences(p, samples, k)[1..] == Differences(p, samples, k + 1);
    }
  }

  /** And whatever is restored has the given residuals as its differences. */
  lemma {:induction false} RestoreFaithful(p: Predictor, samples: seq<int>, residuals: seq<int>)
    requires p.Order() <= |samples|
    ensures var r := Restore(p, samples, residuals);
      r.Some? ==>
        && |r.value| == |samples| + |residuals| && r.value[..|samples|] == samples
        && Differences(p, r.value, |samples|) == residuals
        && (forall j :: |samples| <= j < |r.value| ==> InS32(r.value[j]))
    decreases |residuals|
  {
    hide Predict;
    if residuals == [] {
    } else {
      var value := Predict(p, samples) + residuals[0];
      if InS32(value) {
        RestoreFaithful(p, samples + [value], residuals[1..]);
        var r := Restore(p, samples + [value], residuals[1..]);
        if r.Some? {
          assert r.value[..|samples| + 1] == samples + [value];
          assert r.value[..|samples|] == samples;
          assert [residuals[0]] + residuals[1..] == residuals;
        }
      }
    }
  }

  // ---------------------------------------------------------------- What restoration means

  /** The sum of the first `count` coefficients, each times a sample before `n`, the latest
      sample first. */
  function Convolution(coefficients: seq<int>, samples: seq<int>, n: nat, count: nat): int
    requires count <= |coefficients| && count <= n <= |samples|
  {
    if count == 0 then 0
    else Convolution(coefficients, samples, n, count - 1) + coefficients[count - 1] * samples[n - count]
  }

  /** The backward difference of the given order at `n`. */
  function Backward(samples: seq<int>, n: nat, order: nat): int
    requires order <= n < |samples|
    decreases order
  {
    if order == 0 then samples[n] else Backward(samples, n, order - 1) - Backward(samples, n - 1, order - 1)
  }

  /** The residual of sample `n`: of fixed prediction the backward difference; of linear
      prediction what is left of the sample when the weighted sum, divided by the power of
      two and rounded down, or multiplied by it, has been taken away. */
  ghost predicate Continues(p: Predictor, samples: seq<int>, n: nat, residual: int)
    requires p.Order() <= n < |samples|
  {
    match p
    case Fixed(order) => residual == Backward(samples, n, order)
    case Lpc(coefficients, shift) =>
      var sum, predicted := Convolution(coefficients, samples, n, |coefficients|), samples[n] - residual;
      if shift >= 0 then Pow2(shift) * predicted <= sum < Pow2(shift) * predicted + Pow2(shift)
      else predicted == Pow2(-shift) * sum
  }

  /** The samples from `from` on have these residuals. */
  ghost predicate Follows(p: Predictor, samples: seq<int>, from: nat, residuals: seq<int>)
    requires p.Order() <= from
  {
    && |samples| == from + |residuals|
    && forall j :: 0 <= j < |residuals| ==> Continues(p, samples, from + j, residuals[j])
  }

  lemma {:induction false} WeightedIsConvolution(coefficients: seq<int>, samples: seq<int>, n: nat, count: nat)
    requires count <= |coefficients| <= n <= |samples|
    ensures Weighted(coefficients, samples[..n], 0)
      == Convolution(coefficients, samples, n, count) + Weighted(coefficients, samples[..n], count)
    decreases count
  {
    if count == 0 {
    } else {
      WeightedIsConvolution(coefficients, samples, n, count - 1);
    }
  }

  lemma FixedPrediction(samples: seq<int>, n: nat, order: nat)
    requires order <= 4 && order <= n < |samples|
    ensures Predict(Fixed(order), samples[..n]) == samples[n] - Backward(samples, n, order)
  {
    if order >= 2 {
      assert Backward(samples, n, 2) == samples[n] - 2 * samples[n - 1] + samples[n - 2];
    }
    if order >= 3 {
      assert Backward(samples, n - 1, 2) == samples[n - 1] - 2 * samples[n - 2] + samples[n - 3];
    }
    if order == 4 {
      assert Backward(samples, n - 2, 2) == samples[n - 2] - 2 * samples[n - 3] + samples[n - 4];
    }
  }

  /** The prediction leaves exactly the residual the law asks for. */
  lemma PredictionLaw(p: Predictor, samples: seq<int>, n: nat, residual: int)
    requires p.Valid() && p.Order() <= n < |samples|
    ensures Continues(p, samples, n, residual) <==> samples[n] == Predict(p, samples[..n]) + residual
  {
    match p
    case Fixed(order) => FixedPrediction(samples, n, order);
    case Lpc(coefficients, shift) =>
      hide Weighted, Convolution;
      WeightedIsConvolution(coefficients, samples, n, |coefficients|);
      WeightedEnds(coefficients, samples[..n]);
      var sum, predicted := Convolution(coefficients, samples, n, |coefficients|), samples[n] - residual;
      if shift >= 0 {
        QuotientLaw(sum, Pow2(shift), predicted);
      }
  }

  lemma WeightedEnds(coefficients: seq<int>, samples: seq<int>)
    requires |coefficients| <= |samples|
    ensures Weighted(coefficients, samples, |coefficients|) == 0
  {
  }

  lemma QuotientLaw(n: int, d: int, q: int)
    requires d > 0
    ensures d * q <= n < d * q + d <==> n / d == q
  {
    DivModFacts(n, d);
    if d * q <= n < d * q + d {
      DivModUnique(n, d, q, n - q * d);
    }
  }

  /** A sample does not depend on what comes behind it. */
  lemma ContinuesEarly(p: Predictor, samples: seq<int>, more: seq<int>, n: nat, residual: int)
    requires p.Valid() && p.Order() <= n < |samples| && samples <= more
    ensures Continues(p, samples, n, residual) <==> Continues(p, more, n, residual)
  {
    hide Continues, Predict;
    PredictionLaw(p, samples, n, residual);
    PredictionLaw(p, more, n, residual);
    assert samples[..n] == more[..n];
  }

  /** Restoration delivers the samples that begin with the warm-up and have the residuals,
      if they are 32-bit numbers, and nothing otherwise. */
  lemma {:induction false} RestoreIff(p: Predictor, samples: seq<int>, residuals: seq<int>, all: seq<int>)
    requires p.Valid() && p.Order() <= |samples|
    ensures Restore(p, samples, residuals) == Some(all) <==>
      && samples <= all && Follows(p, all, |samples|, residuals)
      && forall n :: |samples| <= n < |all| ==> InS32(all[n])
    decreases |residuals|
  {
    hide Predict, Continues;
    if residuals == [] {
      assert |all| == |samples| ==> (samples <= all <==> samples == all);
    } else {
      var value, k := Predict(p, samples) + residuals[0], |samples|;
      var next := samples + [value];
      if InS32(value) {
        RestoreIff(p, next, residuals[1..], all);
      }
      if samples <= all && k < |all| {
        assert all[..k] == samples;
        PredictionLaw(p, all, k, residuals[0]);
        assert all[k] == value <==> next <= all;
      }
      FollowsStep(p, all, k, residuals);
    }
  }

  lemma FollowsStep(p: Predictor, all: seq<int>, k: nat, residuals: seq<int>)
    requires p.Order() <= k && residuals != []
    ensures Follows(p, all, k, residuals) <==>
      k < |all| && Continues(p, all, k, residuals[0]) && Follows(p, all, k + 1, residuals[1..])
  {
    hide Continues;
    if k < |all| && Continues(p, all, k, residuals[0]) && Follows(p, all, k + 1, residuals[1..]) {
      forall j | 0 <= j < |residuals|
        ensures Continues(p, all, k + j, residuals[j])
      {
        if j > 0 {
          assert residuals[1..][j - 1] == residuals[j];
        }
      }
    }
    if Follows(p, all, k, residuals) {
      assert residuals[0] == residuals[0];
      forall j | 0 <= j < |residuals[1..]|
        ensures Continues(p, all, k + 1 + j, residuals[1..][j])
      {
        assert residuals[j + 1] == residuals[1..][j];
      }
    }
  }

  /** What an encoder codes: the one list of residuals that the samples have. */
  lemma DifferencesIff(p: Predictor, samples: seq<int>, k: nat, residuals: seq<int>)
    requires p.Valid() && p.Order() <= k <= |samples|
    ensures Follows(p, samples, k, residuals) <==> residuals == Differences(p, samples, k)
  {
    hide Predict, Continues, Differences;
    DifferencesSize(p, samples, k);
    var d := Differences(p, samples, k);
    if |residuals| == |samples| - k {
      forall j | 0 <= j < |residuals|
        ensures Continues(p, samples, k + j, residuals[j]) <==> residuals[j] == d[j]
      {
        PredictionLaw(p, samples, k + j, residuals[j]);
        DifferencesAt(p, samples, k, k + j);
      }
    }
  }

  lemma {:induction false} DifferencesSize(p: Predictor, samples: seq<int>, k: nat)
    requires p.Order() <= k <= |samples|
    ensures |Differences(p, samples, k)| == |samples| - k
    decreases |samples| - k
  {
    if k < |samples| {
      DifferencesSize(p, samples, k + 1);
    }
  }

  lemma {:induction false} DifferencesAt(p: Predictor, samples: seq<int>, k: nat, n: nat)
    requires p.Order() <= k <= n < |samples|
    ensures |Differences(p, samples, k)| == |samples| - k
    ensures Differences(p, samples, k)[n - k] == samples[n] - Predict(p, samples[..n])
    decreases n - k
  {
    hide Predict;
    DifferencesSize(p, samples, k);
    if k < n {
      DifferencesAt(p, samples, k + 1, n);
    }
  }

  // ---------------------------------------------------------------- The kernels

  /** Inner product of two equally long lists. */
  function Dot(left: seq<int>, right: seq<int>): int
    requires |left| == |right|
  {
    if left == [] then 0 else left[0] * right[0] + Dot(left[1..], right[1..])
  }

  /** Prediction from a history with the newest sample first. */
  function KernelPredict(p: Predictor, history: seq<int>): int
    requires |history| == p.Order() && p.Valid()
  {
    match p
    case Lpc(coefficients, shift) => Shifted(Dot(coefficients, history), shift)
    case Fixed(order) =>
      if order == 0 then 0
      else if order == 1 then history[0]
      else if order == 2 then 2 * history[0] - history[1]
      else if order == 3 then 3 * history[0] - 3 * history[1] + history[2]
      else 4 * history[0] - 6 * history[1] + 4 * history[2] - history[3]
  }

  function Shift(history: seq<int>, value: int): (h: seq<int>)
    ensures |h| == |history|
  {
    if history == [] then [] else [value] + history[..|history| - 1]
  }

  /** One kernel call: the samples it writes and the history it saves. */
  function KernelRun(p: Predictor, history: seq<int>, residuals: seq<int>): Option<(seq<int>, seq<int>)>
    requires |history| == p.Order() && p.Valid()
    decreases |residuals|
  {
    if residuals == [] then Some(([], history))
    else
      var value := KernelPredict(p, history) + residuals[0];
      if !InS32(value) then None
      else
        match KernelRun(p, Shift(history, value), residuals[1..])
        case None => None
        case Some((samples, last)) => Some(([value] + samples, last))
  }

  /** Splitting the residuals into chunks, with the history saved in between, changes
      neither the samples, the final history, nor where the range is left. */
  lemma {:induction false} KernelChunks(p: Predictor, history: seq<int>, a: seq<int>, b: seq<int>)
    requires |history| == p.Order() && p.Valid()
    ensures KernelRun(p, history, a).Some? ==> |KernelRun(p, history, a).value.1| == |history|
    ensures KernelRun(p, history, a + b) ==
      match KernelRun(p, history, a)
      case None => None
      case Some((first, middle)) =>
        match KernelRun(p, if |middle| == |history| then middle else history, b)
        case None => None
        case Some((second, last)) => Some((first + second, last))
    decreases |a|
  {
    hide KernelPredict, Shift;
    if a == [] {
      assert a + b == b;
      if KernelRun(p, history, b).Some? {
        assert [] + KernelRun(p, history, b).value.0 == KernelRun(p, history, b).value.0;
      }
    } else {
      assert (a + b)[1..] == a[1..] + b;
      var value := KernelPredict(p, history) + a[0];
      var next := Shift(history, value);
      KernelChunks(p, next, a[1..], b);
      if InS32(value) && KernelRun(p, next, a[1..]).Some? {
        var (first, middle) := KernelRun(p, next, a[1..]).value;
        if KernelRun(p, middle, b).Some? {
          var second := KernelRun(p, middle, b).value.0;
          assert [value] + (first + second) == [value] + first + second;
        }
      }
    }
  }

  /** The newest `order` samples, newest first. */
  function Recent(samples: seq<int>, order: nat): seq<int>
    requires order <= |samples|
  {
    seq(order, j requires 0 <= j < order => samples[|samples| - 1 - j])
  }

  lemma RecentShift(samples: seq<int>, order: nat, value: int)
    requires order <= |samples|
    ensures Shift(Recent(samples, order), value) == Recent(samples + [value], order)
  {
  }

  lemma {:induction false} DotIsWeighted(coefficients: seq<int>, samples: seq<int>, from: nat)
    requires from <= |coefficients| <= |samples|
    ensures Dot(coefficients[from..], Recent(samples, |coefficients|)[from..]) == Weighted(coefficients, samples, from)
    decreases |coefficients| - from
  {
    if from < |coefficients| {
      var left, right := coefficients[from..], Recent(samples, |coefficients|)[from..];
      assert left[1..] == coefficients[from + 1..] && right[1..] == Recent(samples, |coefficients|)[from + 1..];
      DotIsWeighted(coefficients, samples, from + 1);
    }
  }

  lemma PredictionsAgree(p: Predictor, samples: seq<int>)
    requires p.Order() <= |samples| && p.Valid()
    ensures KernelPredict(p, Recent(samples, p.Order())) == Predict(p, samples)
  {
    if p.Lpc? {
      DotIsWeighted(p.coefficients, samples, 0);
      assert p.coefficients[0..] == p.coefficients;
      assert Recent(samples, p.Order())[0..] == Recent(samples, p.Order());
    }
  }

  /** One kernel call restores exactly what the codec's loop restores, saves the
      history the next call needs, and leaves the range in the same cases. */
  lemma {:induction false} KernelRefinesCodec(p: Predictor, samples: seq<int>, residuals: seq<int>)
    requires p.Order() <= |samples| && p.Valid()
    ensures match KernelRun(p, Recent(samples, p.Order()), residuals)
      case None => Restore(p, samples, residuals).None?
      case Some((written, history)) =>
        && Restore(p, samples, residuals) == Some(samples + written)
        && history == Recent(samples + written, p.Order())
    decreases |residuals|
  {
    hide KernelPredict, Predict, Shift;
    var order := p.Order();
    if residuals == [] {
      assert samples + [] == samples;
    } else {
      PredictionsAgree(p, samples);
      var value := Predict(p, samples) + residuals[0];
      RecentShift(samples, order, value);
      if InS32(value) {
        KernelRefinesCodec(p, samples + [value], residuals[1..]);
        var r := KernelRun(p, Recent(samples + [value], order), residuals[1..]);
        if r.Some? {
          assert samples + [value] + r.value.0 == samples + ([value] + r.value.0);
        }
      }
    }
  }

  /** The samples a history stands for, oldest first. */
  function OldestFirst(history: seq<int>): (samples: seq<int>)
    ensures |samples| == |history|
  {
    seq(|history|, j requires 0 <= j < |history| => history[|history| - 1 - j])
  }

  /** A kernel call delivers the samples that continue the history with the given residuals,
      if they are 32-bit numbers, and nothing otherwise; it saves the newest samples. */
  lemma KernelIff(p: Predictor, history: seq<int>, residuals: seq<int>, samples: seq<int>, last: seq<int>)
    requires |history| == p.Order() && p.Valid()
    ensures KernelRun(p, history, residuals) == Some((samples, last)) <==>
      var all := OldestFirst(history) + samples;
      && Follows(p, all, |history|, residuals) && (forall k :: 0 <= k < |samples| ==> InS32(samples[k]))
      && |last| == |history| && forall j :: 0 <= j < |last| ==> last[j] == all[|all| - 1 - j]
  {
    hide KernelPredict, Predict, Follows, KernelRun, Restore, InS32;
    var warmup := OldestFirst(history);
    var all := warmup + samples;
    assert Recent(warmup, p.Order()) == history;
    KernelRefinesCodec(p, warmup, residuals);
    RestoreIff(p, warmup, residuals, all);
    TailFits(warmup, samples);
    RecentIff(all, last, p.Order());
    var r := KernelRun(p, history, residuals);
    if r.Some? {
      SamePrefix(warmup, r.value.0, samples);
    }
  }

  lemma TailFits(warmup: seq<int>, samples: seq<int>)
    ensures var all := warmup + samples;
      (forall n :: |warmup| <= n < |all| ==> InS32(all[n])) <==> forall k :: 0 <= k < |samples| ==> InS32(samples[k])
  {
    hide InS32;
    var all := warmup + samples;
    assert forall k :: 0 <= k < |samples| ==> samples[k] == all[|warmup| + k];
  }

  lemma RecentIff(all: seq<int>, last: seq<int>, order: nat)
    requires order <= |all|
    ensures last == Recent(all, order) <==>
      |last| == order && forall j :: 0 <= j < |last| ==> last[j] == all[|all| - 1 - j]
  {
  }

  lemma SamePrefix(a: seq<int>, b: seq<int>, c: seq<int>)
    ensures a + b == a + c <==> b == c
  {
    if a + b == a + c {
      assert b == (a + b)[|a|..] && c == (a + c)[|a|..];
    }
  }

  // ---------------------------------------------------------------- The accumulator

  lemma ProductBound(a: int, b: int)
    requires InS32(a) && InS32(b)
    ensures -0x4000_0000_0000_0000 <= a * b <= 0x4000_0000_0000_0000
  {
    var h := 0x8000_0000;
    assert (h - a) * (h + b) >= 0 && (h + a) * (h - b) >= 0 by {
      MulNonNegative(h - a, h + b);
      MulNonNegative(h + a, h - b);
    }
    assert (h - a) * (h - b) >= 0 && (h + a) * (h + b) >= 0 by {
      MulNonNegative(h - a, h - b);
      MulNonNegative(h + a, h + b);
    }
    assert (h - a) * (h + b) == h * h + h * b - a * h - a * b;
    assert (h + a) * (h - b) == h * h - h * b + a * h - a * b;
    assert (h - a) * (h - b) == h * h - h * b - a * h + a * b;
    assert (h + a) * (h + b) == h * h + h * b + a * h + a * b;
  }

  lemma {:induction false} DotBound(left: seq<int>, right: seq<int>)
    requires |left| == |right| && (forall k :: 0 <= k < |left| ==> InS32(left[k]) && InS32(right[k]))
    ensures -(|left| * 0x4000_0000_0000_0000) <= Dot(left, right) <= |left| * 0x4000_0000_0000_0000
    decreases |left|
  {
    if left == [] {
    } else {
      ProductBound(left[0], right[0]);
      DotBound(left[1..], right[1..]);
    }
  }

  const ACCUMULATOR: int := 0x80_0000_0000_0000_0000

  /** The value fits the 72-bit accumulator. */
  predicate InAccumulator(value: int) { -ACCUMULATOR <= value <= ACCUMULATOR - 1 }

  /** The 72-bit accumulator fault is unreachable for any prediction order of the
      instruction set and any 32-bit operands. */
  lemma AccumulatorNeverOverflows(coefficients: seq<int>, history: seq<int>)
    requires |coefficients| == |history| <= 32
    requires forall k :: 0 <= k < |history| ==> InS32(coefficients[k]) && InS32(history[k])
    ensures InAccumulator(Dot(coefficients, history))
  {
    DotBound(coefficients, history);
  }
}
