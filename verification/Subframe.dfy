/** FLAC subframes (section 9.2 of RFC 9639): the decoder, a specification encoder,
    and the round trip between them. */
module Subframe {
  import opened Common
  import opened BitStream
  import opened BitReader
  import opened Residual
  import opened Prediction

  const BAD_SUBFRAME: Error := Error(7, 5, 0x40)
  const BAD_PADDING: Error := Error(4, 5, 0x40)
  const BAD_WASTED: Error := Error(7, 5, 0x41)
  const OUT_OF_RANGE: Error := Error(22, 6, 0x43)

  // ---------------------------------------------------------------- Decoder

  function GetSamples(rest: seq<bit>, width: nat, count: nat): Parsed<seq<int>>
    requires width >= 1
    decreases count
  {
    if count == 0 then Ok(([], rest))
    else
      match GetSigned(rest, width)
      case Err(e) => Err(e)
      case Ok((value, after)) =>
        match GetSamples(after, width, count - 1)
        case Err(e) => Err(e)
        case Ok((values, tail)) => Ok(([value] + values, tail))
  }

  /** Kind and number of wasted bits. */
  function GetHeader(rest: seq<bit>): Parsed<(nat, nat)> {
    match GetBits(rest, 1)
    case Err(e) => Err(e)
    case Ok((padding, r1)) =>
      if padding != 0 then Err(BAD_PADDING)
      else
        match GetBits(r1, 6)
        case Err(e) => Err(e)
        case Ok((kind, r2)) =>
          match GetBits(r2, 1)
          case Err(e) => Err(e)
          case Ok((flag, r3)) =>
            if flag == 0 then Ok(((kind, 0), r3))
            else
              match GetUnary(r3, 0, RUN_LIMIT)
              case Err(e) => Err(e)
              case Ok((zeros, r4)) => Ok(((kind, zeros + 1), r4))
  }

  function GetPredicted(rest: seq<bit>, p: Predictor, warmup: seq<int>, blockSize: nat): Parsed<seq<int>>
    requires p.Order() <= |warmup|
  {
    match GetResiduals(rest, blockSize, p.Order())
    case Err(e) => Err(e)
    case Ok((residuals, tail)) =>
      match Restore(p, warmup, residuals)
      case None => Err(OUT_OF_RANGE)
      case Some(samples) => Ok((samples, tail))
  }

  /** Precision, shift and coefficients of a linear predictor. */
  function GetCoefficients(rest: seq<bit>, order: nat): Parsed<(seq<int>, int)> {
    match GetBits(rest, 4)
    case Err(e) => Err(e)
    case Ok((precision, r1)) =>
      if precision == 15 then Err(BAD_SUBFRAME)
      else
        match GetSigned(r1, 5)
        case Err(e) => Err(e)
        case Ok((shift, r2)) =>
          match GetSamples(r2, precision + 1, order)
          case Err(e) => Err(e)
          case Ok((coefficients, tail)) => Ok(((coefficients, shift), tail))
  }

  function GetBody(rest: seq<bit>, kind: nat, width: nat, blockSize: nat): Parsed<seq<int>>
    requires width >= 1
  {
    if kind == 0 then
      match GetSigned(rest, width)
      case Err(e) => Err(e)
      case Ok((value, tail)) => Ok((seq(blockSize, _ => value), tail))
    else if kind == 1 then GetSamples(rest, width, blockSize)
    else if 8 <= kind <= 12 then
      var order := kind - 8;
      if order > blockSize then Err(BAD_SUBFRAME)
      else
        match GetSamples(rest, width, order)
        case Err(e) => Err(e)
        case Ok((warmup, after)) =>
          if |warmup| < order then Err(BAD_SUBFRAME) else GetPredicted(after, Fixed(order), warmup, blockSize)
    else if 32 <= kind <= 63 then
      var order := kind - 31;
      if order > blockSize then Err(BAD_SUBFRAME)
      else
        match GetSamples(rest, width, order)
        case Err(e) => Err(e)
        case Ok((warmup, r1)) =>
          match GetCoefficients(r1, order)
          case Err(e) => Err(e)
          case Ok(((coefficients, shift), r2)) =>
            if |warmup| < |coefficients| then Err(BAD_SUBFRAME)
            else GetPredicted(r2, Lpc(coefficients, shift), warmup, blockSize)
    else Err(BAD_SUBFRAME)
  }

  function Scaled(samples: seq<int>, wasted: nat): (r: seq<int>)
    ensures |r| == |samples|
  {
    seq(|samples|, k requires 0 <= k < |samples| => samples[k] * Pow2(wasted))
  }

  predicate AllS32(samples: seq<int>) { forall k :: 0 <= k < |samples| ==> InS32(samples[k]) }

  /** `_subframe` */
  function GetSubframe(rest: seq<bit>, blockSize: nat, bits: nat): Parsed<seq<int>> {
    match GetHeader(rest)
    case Err(e) => Err(e)
    case Ok(((kind, wasted), body)) =>
      if bits < wasted + 1 then Err(BAD_WASTED)
      else
        match GetBody(body, kind, bits - wasted, blockSize)
        case Err(e) => Err(e)
        case Ok((samples, tail)) =>
          if !AllS32(Scaled(samples, wasted)) then Err(OUT_OF_RANGE) else Ok((Scaled(samples, wasted), tail))
  }

  // ---------------------------------------------------------------- The decoder as written

  lemma {:induction false} SampleCount(rest: seq<bit>, width: nat, count: nat)
    requires width >= 1
    ensures GetSamples(rest, width, count).Ok? ==> |GetSamples(rest, width, count).value.0| == count
    decreases count
  {
    hide GetSigned;
    if count > 0 && GetSigned(rest, width).Ok? {
      SampleCount(GetSigned(rest, width).value.1, width, count - 1);
    }
  }

  method ReadSamples(reader: Reader, width: nat, count: nat) returns (r: Result<seq<int>, Error>)
    requires reader.Valid() && width >= 1
    modifies reader
    ensures reader.Valid() && Delivers(GetSamples(old(reader.Rest()), width, count), r, reader.Rest())
  {
    hide GetSigned;
    var values: seq<int> := [];
    var left := count;
    ghost var goal := GetSamples(reader.Rest(), width, count);
    PrependNothing(goal);
    while left > 0
      invariant 0 <= left && reader.Valid()
      invariant goal == Prepend(values, GetSamples(reader.Rest(), width, left))
    {
      var value := reader.GetSignedBits(width);
      if value.Err? {
        return Err(value.error);
      }
      PrependMore(values, value.value, GetSamples(reader.Rest(), width, left - 1));
      values := values + [value.value];
      left := left - 1;
    }
    assert values + [] == values;
    r := Ok(values);
  }

  method ReadHeader(reader: Reader) returns (r: Result<(nat, nat), Error>)
    requires reader.Valid()
    modifies reader
    ensures reader.Valid() && Delivers(GetHeader(old(reader.Rest())), r, reader.Rest())
  {
    hide GetBits, GetUnary;
    var padding := reader.Get(1);
    if padding.Err? {
      return Err(padding.error);
    }
    if padding.value != 0 {
      return Err(BAD_PADDING);
    }
    var kind := reader.Get(6);
    if kind.Err? {
      return Err(kind.error);
    }
    var flag := reader.Get(1);
    if flag.Err? {
      return Err(flag.error);
    }
    if flag.value == 0 {
      return Ok((kind.value, 0));
    }
    var zeros := reader.UnaryZeros(RUN_LIMIT);
    match zeros
    case Err(e) => r := Err(e);
    case Ok(n) => r := Ok((kind.value, n + 1));
  }

  /** The prediction loop: each residual extends the sample list. */
  method ReadPredicted(reader: Reader, p: Predictor, warmup: seq<int>, blockSize: nat)
    returns (r: Result<seq<int>, Error>)
    requires reader.Valid() && p.Order() <= |warmup|
    modifies reader
    ensures reader.Valid() && Delivers(GetPredicted(old(reader.Rest()), p, warmup, blockSize), r, reader.Rest())
  {
    hide GetResiduals, Predict;
    var residuals := ReadResiduals(reader, blockSize, p.Order());
    if residuals.Err? {
      return Err(residuals.error);
    }
    var samples := warmup;
    for k := 0 to |residuals.value|
      invariant p.Order() <= |samples|
      invariant Restore(p, samples, residuals.value[k..]) == Restore(p, warmup, residuals.value)
    {
      var value := Predict(p, samples) + residuals.value[k];
      assert residuals.value[k..][1..] == residuals.value[k + 1..];
      if !InS32(value) {
        return Err(OUT_OF_RANGE);
      }
      samples := samples + [value];
    }
    r := Ok(samples);
  }

  method ReadCoefficients(reader: Reader, order: nat) returns (r: Result<(seq<int>, int), Error>)
    requires reader.Valid()
    modifies reader
    ensures reader.Valid() && Delivers(GetCoefficients(old(reader.Rest()), order), r, reader.Rest())
  {
    hide GetBits, GetSigned, GetSamples;
    var precision := reader.Get(4);
    if precision.Err? {
      return Err(precision.error);
    }
    if precision.value == 15 {
      return Err(BAD_SUBFRAME);
    }
    var shift := reader.GetSignedBits(5);
    if shift.Err? {
      return Err(shift.error);
    }
    var coefficients := ReadSamples(reader, precision.value + 1, order);
    match coefficients
    case Err(e) => r := Err(e);
    case Ok(list) => r := Ok((list, shift.value));
  }

  method ReadBody(reader: Reader, kind: nat, width: nat, blockSize: nat) returns (r: Result<seq<int>, Error>)
    requires reader.Valid() && width >= 1
    modifies reader
    ensures reader.Valid() && Delivers(GetBody(old(reader.Rest()), kind, width, blockSize), r, reader.Rest())
  {
    hide GetSigned, GetSamples, GetPredicted, GetCoefficients;
    if kind == 0 {
      var value := reader.GetSignedBits(width);
      match value
      case Err(e) => r := Err(e);
      case Ok(v) => r := Ok(seq(blockSize, _ => v));
    } else if kind == 1 {
      r := ReadSamples(reader, width, blockSize);
    } else if 8 <= kind <= 12 && kind - 8 <= blockSize {
      SampleCount(reader.Rest(), width, kind - 8);
      var warmup := ReadSamples(reader, width, kind - 8);
      if warmup.Err? {
        return Err(warmup.error);
      }
      r := ReadPredicted(reader, Fixed(kind - 8), warmup.value, blockSize);
    } else if 32 <= kind <= 63 && kind - 31 <= blockSize {
      SampleCount(reader.Rest(), width, kind - 31);
      var warmup := ReadSamples(reader, width, kind - 31);
      if warmup.Err? {
        return Err(warmup.error);
      }
      CoefficientCount(reader.Rest(), kind - 31);
      var model := ReadCoefficients(reader, kind - 31);
      if model.Err? {
        return Err(model.error);
      }
      r := ReadPredicted(reader, Lpc(model.value.0, model.value.1), warmup.value, blockSize);
    } else {
      r := Err(BAD_SUBFRAME);
    }
  }

  lemma CoefficientCount(rest: seq<bit>, order: nat)
    ensures GetCoefficients(rest, order).Ok? ==> |GetCoefficients(rest, order).value.0.0| == order
  {
    hide GetSamples;
    if GetCoefficients(rest, order).Ok? {
      var (precision, r1) := GetBits(rest, 4).value;
      SampleCount(GetSigned(r1, 5).value.1, precision + 1, order);
    }
  }

  /** A decoded subframe holds one sample per sample time of the block. */
  lemma SubframeCount(rest: seq<bit>, blockSize: nat, bits: nat)
    ensures GetSubframe(rest, blockSize, bits).Ok? ==> |GetSubframe(rest, blockSize, bits).value.0| == blockSize
  {
    hide GetBody;
    if GetHeader(rest).Ok? {
      var ((kind, wasted), body) := GetHeader(rest).value;
      if wasted < bits {
        BodyCount(body, kind, bits - wasted, blockSize);
      }
    }
  }

  lemma BodyCount(rest: seq<bit>, kind: nat, width: nat, blockSize: nat)
    requires width >= 1
    ensures GetBody(rest, kind, width, blockSize).Ok? ==> |GetBody(rest, kind, width, blockSize).value.0| == blockSize
  {
    hide GetSamples, GetPredicted, GetCoefficients, GetSigned;
    SampleCount(rest, width, blockSize);
    if 8 <= kind <= 12 {
      SampleCount(rest, width, kind - 8);
      if GetSamples(rest, width, kind - 8).Ok? {
        var (warmup, after) := GetSamples(rest, width, kind - 8).value;
        PredictedCount(after, Prediction.Fixed(kind - 8), warmup, blockSize);
      }
    } else if 32 <= kind <= 63 {
      SampleCount(rest, width, kind - 31);
      if GetSamples(rest, width, kind - 31).Ok? {
        var (warmup, r1) := GetSamples(rest, width, kind - 31).value;
        CoefficientCount(r1, kind - 31);
        if GetCoefficients(r1, kind - 31).Ok? {
          var ((coefficients, shift), r2) := GetCoefficients(r1, kind - 31).value;
          PredictedCount(r2, Prediction.Lpc(coefficients, shift), warmup, blockSize);
        }
      }
    }
  }

  lemma PredictedCount(rest: seq<bit>, p: Predictor, warmup: seq<int>, blockSize: nat)
    requires p.Order() == |warmup|
    ensures GetPredicted(rest, p, warmup, blockSize).Ok? ==>
      |GetPredicted(rest, p, warmup, blockSize).value.0| == blockSize
  {
    hide GetResiduals, Restore;
    ResidualCount(rest, blockSize, p.Order());
    if GetResiduals(rest, blockSize, p.Order()).Ok? {
      RestoreFaithful(p, warmup, GetResiduals(rest, blockSize, p.Order()).value.0);
    }
  }

  method ReadSubframe(reader: Reader, blockSize: nat, bits: nat) returns (r: Result<seq<int>, Error>)
    requires reader.Valid()
    modifies reader
    ensures reader.Valid() && Delivers(GetSubframe(old(reader.Rest()), blockSize, bits), r, reader.Rest())
  {
    hide GetHeader, GetBody;
    var header := ReadHeader(reader);
    if header.Err? {
      return Err(header.error);
    }
    var (kind, wasted) := header.value;
    if bits - wasted < 1 {
      return Err(BAD_WASTED);
    }
    var samples := ReadBody(reader, kind, bits - wasted, blockSize);
    if samples.Err? {
      return Err(samples.error);
    }
    var restored: seq<int> := [];
    for k := 0 to |samples.value|
      invariant |restored| == k && forall j :: 0 <= j < k ==>
        restored[j] == samples.value[j] * Pow2(wasted) && InS32(restored[j])
    {
      var value := samples.value[k] * Pow2(wasted);
      if !InS32(value) {
        assert Scaled(samples.value, wasted)[k] == value;
        return Err(OUT_OF_RANGE);
      }
      restored := restored + [value];
    }
    assert restored == Scaled(samples.value, wasted);
    r := Ok(restored);
  }

  // ---------------------------------------------------------------- Specification encoder

  /** How a subframe is coded. */
  datatype Plan =
    | Constant
    | Verbatim
    | FixedPlan(order: nat, coding: Coding)
    | LpcPlan(coefficients: seq<int>, precision: nat, shift: int, coding: Coding)
  {
    function Kind(): nat {
      match this
      case Constant => 0
      case Verbatim => 1
      case FixedPlan(order, _) => 8 + order
      case LpcPlan(coefficients, _, _, _) => 31 + |coefficients|
    }

    function Model(): Predictor {
      match this
      case FixedPlan(order, _) => Fixed(order)
      case LpcPlan(coefficients, _, shift, _) => Lpc(coefficients, shift)
      case _ => Fixed(0)
    }
  }

  function PutSamples(samples: seq<int>, width: nat): seq<bit> {
    if samples == [] then [] else PutSigned(samples[0], width) + PutSamples(samples[1..], width)
  }

  function PutHeader(kind: nat, wasted: nat): seq<bit> {
    [0] + NatBits(kind, 6) + (if wasted == 0 then [0] else [1] + PutUnary(wasted - 1))
  }

  predicate AllFit(samples: seq<int>, width: nat)
    requires width >= 1
  {
    forall k :: 0 <= k < |samples| ==> FitsSigned(samples[k], width)
  }

  /** The plan can carry the samples within the limits of the format. */
  ghost predicate Suits(plan: Plan, samples: seq<int>, width: nat) {
    && width >= 1
    && match plan
       case Constant => samples != [] && AllFit(samples, width) && forall k :: 0 <= k < |samples| ==>
         samples[k] == samples[0]
       case Verbatim => AllFit(samples, width)
       case FixedPlan(order, coding) =>
         && order <= 4 && Predicted(plan.Model(), samples, width, coding)
       case LpcPlan(coefficients, precision, shift, coding) =>
         && 1 <= |coefficients| <= 32 && 1 <= precision <= 15
         && AllFit(coefficients, precision) && FitsSigned(shift, 5)
         && Predicted(plan.Model(), samples, width, coding)
  }

  ghost predicate Predicted(p: Predictor, samples: seq<int>, width: nat, coding: Coding)
    requires width >= 1 && p.Valid()
  {
    && p.Order() <= |samples| && AllFit(samples[..p.Order()], width) && AllS32(samples)
    && Allowed(coding, ResidualsOf(p, samples), |samples|, p.Order())
  }

  /** The residuals of the samples behind the warm-up; there is exactly one such list. */
  ghost function ResidualsOf(p: Predictor, samples: seq<int>): (residuals: seq<int>)
    requires p.Valid() && p.Order() <= |samples|
    ensures Follows(p, samples, p.Order(), residuals)
  {
    DifferencesIff(p, samples, p.Order(), Differences(p, samples, p.Order()));
    var residuals :| Follows(p, samples, p.Order(), residuals);
    residuals
  }

  ghost function PutPredicted(p: Predictor, samples: seq<int>, coding: Coding): seq<bit>
    requires p.Valid() && p.Order() <= |samples| && |coding.codes| > 0 && p.Order() <= |samples| / |coding.codes|
  {
    PutResiduals(coding, ResidualsOf(p, samples), |samples|, p.Order())
  }

  ghost function PutBody(plan: Plan, samples: seq<int>, width: nat): seq<bit>
    requires Suits(plan, samples, width)
  {
    match plan
    case Constant => PutSigned(samples[0], width)
    case Verbatim => PutSamples(samples, width)
    case FixedPlan(order, coding) =>
      PutSamples(samples[..order], width) + PutPredicted(Fixed(order), samples, coding)
    case LpcPlan(coefficients, precision, shift, coding) =>
      PutSamples(samples[..|coefficients|], width) + NatBits(precision - 1, 4) + PutSigned(shift, 5)
      + PutSamples(coefficients, precision) + PutPredicted(Lpc(coefficients, shift), samples, coding)
  }

  ghost function PutSubframe(plan: Plan, samples: seq<int>, wasted: nat, bits: nat): seq<bit>
    requires wasted < bits && Suits(plan, samples, bits - wasted)
  {
    PutHeader(plan.Kind(), wasted) + PutBody(plan, samples, bits - wasted)
  }

  // ---------------------------------------------------------------- Round trip

  lemma {:induction false} SamplesRoundTrip(samples: seq<int>, width: nat, tail: seq<bit>)
    requires width >= 1 && AllFit(samples, width)
    ensures GetSamples(PutSamples(samples, width) + tail, width, |samples|) == Ok((samples, tail))
    decreases |samples|
  {
    hide GetSigned, PutSigned, FitsSigned;
    if samples == [] {
      assert PutSamples(samples, width) + tail == tail;
    } else {
      var after := PutSamples(samples[1..], width) + tail;
      assert PutSamples(samples, width) + tail == PutSigned(samples[0], width) + after;
      SignedRoundTrip(samples[0], width, after);
      SamplesRoundTrip(samples[1..], width, tail);
      assert [samples[0]] + samples[1..] == samples;
    }
  }

  lemma OneBit(b: bit, tail: seq<bit>)
    ensures GetBits([b] + tail, 1) == Ok((b, tail))
  {
    var bits := [b] + tail;
    assert bits[..1] == [b] && bits[1..] == tail;
    SingleBit(bits);
  }

  lemma HeaderRoundTrip(kind: nat, wasted: nat, tail: seq<bit>)
    requires kind < 64 && wasted <= RUN_LIMIT + 1
    ensures GetHeader(PutHeader(kind, wasted) + tail) == Ok(((kind, wasted), tail))
  {
    hide GetBits, GetUnary, PutUnary, NatBits;
    var waste := if wasted == 0 then [0] else [1] + PutUnary(wasted - 1);
    assert PutHeader(kind, wasted) + tail == [0] + (NatBits(kind, 6) + (waste + tail));
    OneBit(0, NatBits(kind, 6) + (waste + tail));
    assert Pow2(6) == 64;
    NatRoundTrip(kind, 6, waste + tail);
    if wasted == 0 {
      OneBit(0, tail);
    } else {
      assert waste + tail == [1] + (PutUnary(wasted - 1) + tail);
      OneBit(1, PutUnary(wasted - 1) + tail);
      UnaryRoundTrip(wasted - 1, 0, RUN_LIMIT, tail);
    }
  }

  lemma PredictedRoundTrip(p: Predictor, samples: seq<int>, width: nat, coding: Coding, tail: seq<bit>)
    requires width >= 1 && p.Valid() && Predicted(p, samples, width, coding)
    ensures |coding.codes| > 0 && p.Order() <= |samples| / |coding.codes|
    ensures GetPredicted(PutPredicted(p, samples, coding) + tail, p, samples[..p.Order()], |samples|)
      == Ok((samples, tail))
  {
    hide GetResiduals, PutResiduals, Restore, Follows, Codable, ResidualsOf;
    ResidualRoundTrip(coding, ResidualsOf(p, samples), |samples|, p.Order(), tail);
    RestoreIff(p, samples[..p.Order()], ResidualsOf(p, samples), samples);
  }

  lemma CoefficientsRoundTrip(coefficients: seq<int>, precision: nat, shift: int, tail: seq<bit>)
    requires 1 <= precision <= 15 && AllFit(coefficients, precision) && FitsSigned(shift, 5)
    ensures var written := NatBits(precision - 1, 4) + PutSigned(shift, 5) + PutSamples(coefficients, precision);
      GetCoefficients(written + tail, |coefficients|) == Ok(((coefficients, shift), tail))
  {
    hide GetBits, GetSigned, GetSamples, PutSamples, PutSigned, NatBits;
    var list := PutSamples(coefficients, precision) + tail;
    assert NatBits(precision - 1, 4) + PutSigned(shift, 5) + PutSamples(coefficients, precision) + tail
        == NatBits(precision - 1, 4) + (PutSigned(shift, 5) + list);
    assert Pow2(4) == 16;
    NatRoundTrip(precision - 1, 4, PutSigned(shift, 5) + list);
    SignedRoundTrip(shift, 5, list);
    SamplesRoundTrip(coefficients, precision, tail);
  }

  lemma BodyRoundTrip(plan: Plan, samples: seq<int>, width: nat, tail: seq<bit>)
    requires Suits(plan, samples, width)
    ensures GetBody(PutBody(plan, samples, width) + tail, plan.Kind(), width, |samples|) == Ok((samples, tail))
  {
    hide GetSigned, GetSamples, PutSamples, PutSigned, GetPredicted, PutPredicted, GetCoefficients, FitsSigned, NatBits;
    match plan
    case Constant =>
      SignedRoundTrip(samples[0], width, tail);
      assert seq(|samples|, _ => samples[0]) == samples;
    case Verbatim => SamplesRoundTrip(samples, width, tail);
    case FixedPlan(order, coding) =>
      PredictedRoundTrip(Fixed(order), samples, width, coding, tail);
      var coded := PutPredicted(Fixed(order), samples, coding) + tail;
      assert PutBody(plan, samples, width) + tail == PutSamples(samples[..order], width) + coded;
      SamplesRoundTrip(samples[..order], width, coded);
    case LpcPlan(coefficients, precision, shift, coding) => LpcBodyRoundTrip(plan, samples, width, tail);
  }

  lemma LpcBodyRoundTrip(plan: Plan, samples: seq<int>, width: nat, tail: seq<bit>)
    requires Suits(plan, samples, width) && plan.LpcPlan?
    ensures GetBody(PutBody(plan, samples, width) + tail, plan.Kind(), width, |samples|) == Ok((samples, tail))
  {
    hide GetSigned, GetSamples, PutSamples, PutSigned, GetPredicted, PutPredicted, GetCoefficients, FitsSigned,
      NatBits, ResidualsOf, Allowed;
    var LpcPlan(coefficients, precision, shift, coding) := plan;
    var order := |coefficients|;
    PredictedRoundTrip(Lpc(coefficients, shift), samples, width, coding, tail);
    var coded := PutPredicted(Lpc(coefficients, shift), samples, coding) + tail;
    var model := NatBits(precision - 1, 4) + PutSigned(shift, 5) + PutSamples(coefficients, precision);
    assert PutBody(plan, samples, width) + tail == PutSamples(samples[..order], width) + (model + coded);
    SamplesRoundTrip(samples[..order], width, model + coded);
    CoefficientsRoundTrip(coefficients, precision, shift, coded);
  }

  /** Decoding an encoded subframe returns the samples, scaled by the wasted bits, and
      stops exactly at its last bit, for every prediction, partitioning and code the
      format allows. */
  lemma SubframeRoundTrip(plan: Plan, samples: seq<int>, wasted: nat, bits: nat, tail: seq<bit>)
    requires wasted < bits && wasted <= RUN_LIMIT + 1 && Suits(plan, samples, bits - wasted)
    requires AllS32(Scaled(samples, wasted))
    ensures GetSubframe(PutSubframe(plan, samples, wasted, bits) + tail, |samples|, bits)
      == Ok((Scaled(samples, wasted), tail))
    ensures forall k :: 0 <= k < |samples| ==> Scaled(samples, wasted)[k] == samples[k] * Pow2(wasted)
  {
    hide GetBody, PutBody, GetHeader, PutHeader, Suits;
    var body := PutBody(plan, samples, bits - wasted) + tail;
    assert PutSubframe(plan, samples, wasted, bits) + tail == PutHeader(plan.Kind(), wasted) + body;
    KindFits(plan, samples, bits - wasted);
    HeaderRoundTrip(plan.Kind(), wasted, body);
    BodyRoundTrip(plan, samples, bits - wasted, tail);
  }

  lemma KindFits(plan: Plan, samples: seq<int>, width: nat)
    requires Suits(plan, samples, width)
    ensures plan.Kind() < 64
  {
  }
}
