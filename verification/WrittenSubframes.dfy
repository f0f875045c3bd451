/** Whatever the decoder of residuals and subframes accepts has been written by the
    specification encoder: every bit it reads is accounted for, so it accepts nothing but
    the format. */
module WrittenSubframes {
  import opened Common
  import opened Arithmetic
  import opened BitStream
  import opened BitReader
  import opened Residual
  import opened Prediction
  import opened Subframe

  // ---------------------------------------------------------------- Fields

  lemma BitsWritten(rest: seq<bit>, width: nat)
    requires GetBits(rest, width).Ok?
    ensures var (n, tail) := GetBits(rest, width).value; n < Pow2(width) && rest == NatBits(n, width) + tail
  {
    ValueBound(rest[..width]);
    NatOfValue(rest[..width]);
    assert rest == rest[..width] + rest[width..];
  }

  lemma SignedWritten(rest: seq<bit>, width: nat)
    requires width >= 1 && GetSigned(rest, width).Ok?
    ensures var (v, tail) := GetSigned(rest, width).value; FitsSigned(v, width) && rest == PutSigned(v, width) + tail
  {
    hide NatBits, Value;
    BitsWritten(rest, width);
    var n, half := GetBits(rest, width).value.0, Pow2(width - 1);
    if n < half {
      DivModUnique(n, half, 0, n);
      DivModUnique(n, Pow2(width), 0, n);
    } else {
      DivModUnique(n, half, 1, n - half);
      DivModUnique(n - Pow2(width), Pow2(width), -1, n);
    }
  }

  lemma {:induction false} UnaryWritten(rest: seq<bit>, seen: nat, limit: nat)
    requires seen <= limit && GetUnary(rest, seen, limit).Ok?
    ensures var (count, tail) := GetUnary(rest, seen, limit).value;
      seen <= count <= limit && rest == PutUnary(count - seen) + tail
    decreases |rest|
  {
    var (count, tail) := GetUnary(rest, seen, limit).value;
    assert rest == [rest[0]] + rest[1..];
    if rest[0] == 0 {
      UnaryWritten(rest[1..], seen + 1, limit);
      assert [0] + (PutUnary(count - seen - 1) + tail) == [0] + PutUnary(count - seen - 1) + tail;
    }
  }

  // ---------------------------------------------------------------- Residuals

  lemma FoldInverts(u: nat)
    ensures Fold(Unfold(u)) == u
  {
  }

  lemma JoinedSplits(quotient: nat, parameter: nat, remainder: nat)
    requires remainder < Pow2(parameter)
    ensures var u := Joined(quotient, parameter, remainder);
      ShiftRight(u, parameter) == quotient && LowBits(u, parameter) == remainder
  {
    DivModUnique(Joined(quotient, parameter, remainder), Pow2(parameter), quotient, remainder);
  }

  lemma RiceWritten(rest: seq<bit>, parameter: nat)
    requires GetRice(rest, parameter).Ok?
    ensures var (v, tail) := GetRice(rest, parameter).value;
      Carries(Rice(parameter), v) && rest == PutValue(v, Rice(parameter)) + tail
  {
    hide GetUnary, PutUnary, GetBits, NatBits, Joined, Fold, Unfold, ShiftRight, LowBits;
    UnaryWritten(rest, 0, RUN_LIMIT);
    var (quotient, after) := GetUnary(rest, 0, RUN_LIMIT).value;
    BitsWritten(after, parameter);
    var (remainder, tail) := GetBits(after, parameter).value;
    JoinedSplits(quotient, parameter, remainder);
    FoldInverts(Joined(quotient, parameter, remainder));
    assert PutUnary(quotient) + (NatBits(remainder, parameter) + tail)
      == PutUnary(quotient) + NatBits(remainder, parameter) + tail;
  }

  lemma ValueWritten(rest: seq<bit>, code: Code)
    requires GetValue(rest, code).Ok?
    ensures var (v, tail) := GetValue(rest, code).value; Carries(code, v) && rest == PutValue(v, code) + tail
  {
    hide GetRice, GetSigned, PutSigned, FitsSigned;
    match code
    case Rice(parameter) => RiceWritten(rest, parameter);
    case Escape(width) =>
      if width == 0 {
        assert [] + rest == rest;
      } else {
        SignedWritten(rest, width);
      }
  }

  lemma {:induction false} ValuesWritten(rest: seq<bit>, code: Code, count: nat)
    requires GetValues(rest, code, count).Ok?
    ensures var (values, tail) := GetValues(rest, code, count).value;
      |values| == count && (forall v :: v in values ==> Carries(code, v)) && rest == PutValues(values, code) + tail
    decreases count
  {
    hide GetValue, PutValue, Carries;
    var (values, tail) := GetValues(rest, code, count).value;
    if count == 0 {
      assert [] + rest == rest;
    } else {
      ValueWritten(rest, code);
      var (value, after) := GetValue(rest, code).value;
      ValuesWritten(after, code, count - 1);
      assert values[1..] == GetValues(after, code, count - 1).value.0;
      assert PutValue(value, code) + (PutValues(values[1..], code) + tail)
        == PutValue(value, code) + PutValues(values[1..], code) + tail;
    }
  }

  lemma CodeWritten(rest: seq<bit>, parameterBits: nat)
    requires GetCode(rest, parameterBits).Ok?
    ensures var (code, tail) := GetCode(rest, parameterBits).value;
      CodeFits(code, parameterBits) && rest == PutCode(code, parameterBits) + tail
  {
    hide GetBits, NatBits;
    BitsWritten(rest, parameterBits);
    var (parameter, after) := GetBits(rest, parameterBits).value;
    if parameter == Pow2(parameterBits) - 1 {
      BitsWritten(after, 5);
      assert Pow2(5) == 32;
      var (width, tail) := GetBits(after, 5).value;
      assert NatBits(parameter, parameterBits) + (NatBits(width, 5) + tail)
        == NatBits(parameter, parameterBits) + NatBits(width, 5) + tail;
    }
  }

  lemma {:induction false} PartitionsWritten(
    rest: seq<bit>, parameterBits: nat, partitions: nat, first: int, size: nat) returns (codes: seq<Code>)
    requires GetPartitions(rest, parameterBits, partitions, first, size).Ok?
    ensures |codes| == partitions && (partitions > 0 ==> first >= 0)
    ensures partitions > 0 ==>
      var (values, tail) := GetPartitions(rest, parameterBits, partitions, first, size).value;
      && Codable(values, codes, parameterBits, first, size)
      && rest == PutPartitions(values, codes, parameterBits, first, size) + tail
    decreases partitions
  {
    hide GetCode, GetValues, PutCode, PutValues, CodeFits, Carries;
    if partitions == 0 {
      codes := [];
    } else {
      CodeWritten(rest, parameterBits);
      var (code, after) := GetCode(rest, parameterBits).value;
      ValuesWritten(after, code, first);
      var (values, next) := GetValues(after, code, first).value;
      var others := PartitionsWritten(next, parameterBits, partitions - 1, size, size);
      codes := [code] + others;
      var (all, tail) := GetPartitions(rest, parameterBits, partitions, first, size).value;
      var more := GetPartitions(next, parameterBits, partitions - 1, size, size).value.0;
      assert all[..first] == values && all[first..] == more && codes[1..] == others;
      var written := PutPartitions(more, others, parameterBits, size, size);
      if partitions == 1 {
        assert next == tail && written + tail == tail;
      }
      assert PutCode(code, parameterBits) + (PutValues(values, code) + (written + tail))
        == PutCode(code, parameterBits) + PutValues(values, code) + written + tail;
    }
  }

  lemma ResidualsWritten(rest: seq<bit>, blockSize: nat, order: nat) returns (coding: Coding)
    requires GetResiduals(rest, blockSize, order).Ok?
    ensures var (values, tail) := GetResiduals(rest, blockSize, order).value;
      Allowed(coding, values, blockSize, order) && rest == PutResiduals(coding, values, blockSize, order) + tail
  {
    hide GetBits, NatBits, GetPartitions, PutPartitions, Codable;
    assert Pow2(2) == 4 && Pow2(4) == 16;
    BitsWritten(rest, 2);
    var (method_, r1) := GetBits(rest, 2).value;
    BitsWritten(r1, 4);
    var (partitionOrder, r2) := GetBits(r1, 4).value;
    var partitions := Pow2(partitionOrder);
    var size := blockSize / partitions;
    var codes := PartitionsWritten(r2, 4 + method_, partitions, size - order, size);
    coding := Coding(method_, partitionOrder, codes);
    var (values, tail) := GetResiduals(rest, blockSize, order).value;
    var written := PutPartitions(values, codes, 4 + method_, size - order, size);
    assert NatBits(method_, 2) + (NatBits(partitionOrder, 4) + (written + tail))
      == NatBits(method_, 2) + NatBits(partitionOrder, 4) + written + tail;
  }

  // ---------------------------------------------------------------- Subframes

  lemma {:induction false} SamplesWritten(rest: seq<bit>, width: nat, count: nat)
    requires width >= 1 && GetSamples(rest, width, count).Ok?
    ensures var (values, tail) := GetSamples(rest, width, count).value;
      |values| == count && AllFit(values, width) && rest == PutSamples(values, width) + tail
    decreases count
  {
    hide GetSigned, PutSigned, FitsSigned;
    var (values, tail) := GetSamples(rest, width, count).value;
    if count == 0 {
      assert [] + rest == rest;
    } else {
      SignedWritten(rest, width);
      var (value, after) := GetSigned(rest, width).value;
      SamplesWritten(after, width, count - 1);
      assert values[1..] == GetSamples(after, width, count - 1).value.0;
      assert PutSigned(value, width) + (PutSamples(values[1..], width) + tail)
        == PutSigned(value, width) + PutSamples(values[1..], width) + tail;
    }
  }

  lemma OneBitWritten(rest: seq<bit>)
    requires GetBits(rest, 1).Ok?
    ensures var (b, tail) := GetBits(rest, 1).value; b < 2 && rest == [b] + tail
  {
    assert rest == [rest[0]] + rest[1..];
    SingleBit(rest);
  }

  lemma HeaderWritten(rest: seq<bit>)
    requires GetHeader(rest).Ok?
    ensures var ((kind, wasted), tail) := GetHeader(rest).value;
      kind < 64 && wasted <= RUN_LIMIT + 1 && rest == PutHeader(kind, wasted) + tail
  {
    hide GetBits, GetUnary, PutUnary, NatBits;
    var ((kind, wasted), tail) := GetHeader(rest).value;
    OneBitWritten(rest);
    var r1 := GetBits(rest, 1).value.1;
    BitsWritten(r1, 6);
    assert Pow2(6) == 64;
    var r2 := GetBits(r1, 6).value.1;
    OneBitWritten(r2);
    var (flag, r3) := GetBits(r2, 1).value;
    if flag == 0 {
      assert [0] + (NatBits(kind, 6) + ([0] + tail)) == [0] + NatBits(kind, 6) + [0] + tail;
    } else {
      UnaryWritten(r3, 0, RUN_LIMIT);
      assert [0] + (NatBits(kind, 6) + ([1] + (PutUnary(wasted - 1) + tail)))
        == [0] + NatBits(kind, 6) + ([1] + PutUnary(wasted - 1)) + tail;
    }
  }

  lemma CoefficientsWritten(rest: seq<bit>, order: nat) returns (precision: nat)
    requires GetCoefficients(rest, order).Ok?
    ensures var ((coefficients, shift), tail) := GetCoefficients(rest, order).value;
      && 1 <= precision <= 15 && |coefficients| == order && AllFit(coefficients, precision) && FitsSigned(shift, 5)
      && rest == NatBits(precision - 1, 4) + PutSigned(shift, 5) + PutSamples(coefficients, precision) + tail
  {
    hide GetBits, GetSigned, GetSamples, PutSamples, PutSigned, NatBits, FitsSigned;
    var ((coefficients, shift), tail) := GetCoefficients(rest, order).value;
    BitsWritten(rest, 4);
    assert Pow2(4) == 16;
    var (p, r1) := GetBits(rest, 4).value;
    SignedWritten(r1, 5);
    SamplesWritten(GetSigned(r1, 5).value.1, p + 1, order);
    precision := p + 1;
    assert NatBits(p, 4) + (PutSigned(shift, 5) + (PutSamples(coefficients, precision) + tail))
      == NatBits(p, 4) + PutSigned(shift, 5) + PutSamples(coefficients, precision) + tail;
  }

  lemma PredictedWritten(rest: seq<bit>, p: Predictor, warmup: seq<int>, blockSize: nat, width: nat)
    returns (coding: Coding)
    requires width >= 1 && p.Valid() && p.Order() == |warmup| <= blockSize && AllFit(warmup, width)
    requires GetPredicted(rest, p, warmup, blockSize).Ok? && AllS32(GetPredicted(rest, p, warmup, blockSize).value.0)
    ensures var (samples, tail) := GetPredicted(rest, p, warmup, blockSize).value;
      && |samples| == blockSize && Predicted(p, samples, width, coding) && samples[..p.Order()] == warmup
      && rest == PutPredicted(p, samples, coding) + tail
  {
    hide GetResiduals, PutResiduals, Restore, Follows, Codable, ResidualsOf, FitsSigned, AllS32;
    var (samples, tail) := GetPredicted(rest, p, warmup, blockSize).value;
    coding := ResidualsWritten(rest, blockSize, p.Order());
    var residuals := GetResiduals(rest, blockSize, p.Order()).value.0;
    PredictedCount(rest, p, warmup, blockSize);
    RestoreIff(p, warmup, residuals, samples);
    OneList(p, samples, residuals);
  }

  lemma OneList(p: Predictor, samples: seq<int>, residuals: seq<int>)
    requires p.Valid() && p.Order() <= |samples| && Follows(p, samples, p.Order(), residuals)
    ensures ResidualsOf(p, samples) == residuals
  {
    hide Follows;
    DifferencesIff(p, samples, p.Order(), residuals);
    DifferencesIff(p, samples, p.Order(), ResidualsOf(p, samples));
  }

  lemma BodyWritten(rest: seq<bit>, kind: nat, width: nat, blockSize: nat) returns (plan: Plan)
    requires width >= 1 && blockSize >= 1 && GetBody(rest, kind, width, blockSize).Ok?
    requires AllS32(GetBody(rest, kind, width, blockSize).value.0)
    ensures var (samples, tail) := GetBody(rest, kind, width, blockSize).value;
      && |samples| == blockSize && plan.Kind() == kind && Suits(plan, samples, width)
      && rest == PutBody(plan, samples, width) + tail
  {
    hide GetSigned, GetSamples, PutSamples, PutSigned, GetPredicted, PutPredicted, GetCoefficients, FitsSigned, NatBits,
      Predicted, AllS32;
    BodyCount(rest, kind, width, blockSize);
    var (samples, tail) := GetBody(rest, kind, width, blockSize).value;
    if kind == 0 {
      plan := Constant;
      SignedWritten(rest, width);
    } else if kind == 1 {
      plan := Verbatim;
      SamplesWritten(rest, width, blockSize);
    } else if kind <= 12 {
      plan := FixedWritten(rest, kind, width, blockSize);
    } else {
      plan := LpcWritten(rest, kind, width, blockSize);
    }
  }

  lemma FixedWritten(rest: seq<bit>, kind: nat, width: nat, blockSize: nat) returns (plan: Plan)
    requires width >= 1 && 8 <= kind <= 12 && GetBody(rest, kind, width, blockSize).Ok?
    requires AllS32(GetBody(rest, kind, width, blockSize).value.0)
    ensures var (samples, tail) := GetBody(rest, kind, width, blockSize).value;
      && plan.Kind() == kind && Suits(plan, samples, width) && rest == PutBody(plan, samples, width) + tail
  {
    hide GetSamples, PutSamples, GetPredicted, PutPredicted, FitsSigned, AllS32, Codable;
    var order := kind - 8;
    var (samples, tail) := GetBody(rest, kind, width, blockSize).value;
    SamplesWritten(rest, width, order);
    var (warmup, after) := GetSamples(rest, width, order).value;
    var coding := PredictedWritten(after, Prediction.Fixed(order), warmup, blockSize, width);
    plan := FixedPlan(order, coding);
    var coded := PutPredicted(Prediction.Fixed(order), samples, coding);
    assert PutSamples(warmup, width) + (coded + tail) == PutSamples(warmup, width) + coded + tail;
  }

  lemma LpcWritten(rest: seq<bit>, kind: nat, width: nat, blockSize: nat) returns (plan: Plan)
    requires width >= 1 && 32 <= kind <= 63 && GetBody(rest, kind, width, blockSize).Ok?
    requires AllS32(GetBody(rest, kind, width, blockSize).value.0)
    ensures var (samples, tail) := GetBody(rest, kind, width, blockSize).value;
      && plan.Kind() == kind && Suits(plan, samples, width) && rest == PutBody(plan, samples, width) + tail
  {
    hide GetSamples, PutSamples, GetPredicted, PutPredicted, GetCoefficients, FitsSigned, AllS32, Codable, NatBits,
      PutSigned;
    var order := kind - 31;
    var (samples, tail) := GetBody(rest, kind, width, blockSize).value;
    SamplesWritten(rest, width, order);
    var (warmup, r1) := GetSamples(rest, width, order).value;
    var precision := CoefficientsWritten(r1, order);
    var ((coefficients, shift), r2) := GetCoefficients(r1, order).value;
    var p := Prediction.Lpc(coefficients, shift);
    var coding := PredictedWritten(r2, p, warmup, blockSize, width);
    plan := LpcPlan(coefficients, precision, shift, coding);
    var coded := PutPredicted(p, samples, coding);
    var model := NatBits(precision - 1, 4) + PutSigned(shift, 5) + PutSamples(coefficients, precision);
    assert PutSamples(warmup, width) + (model + (coded + tail))
      == PutSamples(warmup, width) + NatBits(precision - 1, 4) + PutSigned(shift, 5) + PutSamples(coefficients,
        precision)
        + coded + tail;
  }

  /** Every accepted subframe is the written form of its samples, for some plan and number of
      wasted bits within the format. */
  lemma SubframeWritten(rest: seq<bit>, blockSize: nat, bits: nat) returns (plan: Plan, coded: seq<int>, wasted: nat)
    requires blockSize >= 1 && GetSubframe(rest, blockSize, bits).Ok?
    ensures wasted < bits && wasted <= RUN_LIMIT + 1 && |coded| == blockSize && Suits(plan, coded, bits - wasted)
    ensures var (samples, tail) := GetSubframe(rest, blockSize, bits).value;
      && samples == Scaled(coded, wasted) && AllS32(samples)
      && rest == PutSubframe(plan, coded, wasted, bits) + tail
  {
    hide GetHeader, PutHeader, GetBody, PutBody, Suits;
    HeaderWritten(rest);
    var ((kind, n), body) := GetHeader(rest).value;
    wasted := n;
    var tail := GetBody(body, kind, bits - wasted, blockSize).value.1;
    coded := GetBody(body, kind, bits - wasted, blockSize).value.0;
    Unscaled(coded, wasted);
    plan := BodyWritten(body, kind, bits - wasted, blockSize);
    var written := PutBody(plan, coded, bits - wasted);
    assert PutHeader(kind, wasted) + (written + tail) == PutHeader(kind, wasted) + written + tail;
  }

  /** Samples whose multiples fit 32 bits fit themselves. */
  lemma Unscaled(samples: seq<int>, wasted: nat)
    requires AllS32(Scaled(samples, wasted))
    ensures AllS32(samples)
  {
    forall k | 0 <= k < |samples|
      ensures InS32(samples[k])
    {
      assert InS32(Scaled(samples, wasted)[k]);
      Grows(samples[k], Pow2(wasted));
    }
  }

  lemma Grows(value: int, unit: int)
    requires unit >= 1
    ensures value >= 0 ==> value <= value * unit
    ensures value < 0 ==> value * unit <= value
  {
    if value >= 0 {
      MulMonotone(1, unit, value);
    } else {
      MulMonotone(1, unit, -value);
      assert (-value) * unit == -(value * unit);
    }
  }
}
