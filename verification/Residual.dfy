/** FLAC coded residuals (sections 9.2.7.1 to 9.2.7.3 of RFC 9639): the decoder, a
    specification encoder, and the round trip between them. */
module Residual {
  import opened Common
  import opened Arithmetic
  import opened BitStream
  import opened BitReader

  const RUN_LIMIT: nat := 65535
  const BAD_METHOD: Error := Error(7, 5, 0x40)
  const BAD_PARTITION: Error := Error(7, 5, 0x42)

  // ---------------------------------------------------------------- Decoder

  /** `(u >> 1) ^ -(u & 1)` */
  function Unfold(u: nat): int { if u % 2 == 0 then u / 2 else -(u / 2) - 1 }

  /** `(quotient << parameter) | remainder` */
  function Joined(quotient: nat, parameter: nat, remainder: nat): nat {
    MulNonNegative(quotient, Pow2(parameter));
    quotient * Pow2(parameter) + remainder
  }

  function GetRice(rest: seq<bit>, parameter: nat): Parsed<int> {
    match GetUnary(rest, 0, RUN_LIMIT)
    case Err(e) => Err(e)
    case Ok((quotient, after)) =>
      match GetBits(after, parameter)
      case Err(e) => Err(e)
      case Ok((remainder, tail)) => Ok((Unfold(Joined(quotient, parameter, remainder)), tail))
  }

  /** How the values of one partition are written. */
  datatype Code = Rice(parameter: nat) | Escape(width: nat)

  function GetValue(rest: seq<bit>, code: Code): Parsed<int> {
    match code
    case Rice(parameter) => GetRice(rest, parameter)
    case Escape(width) => if width == 0 then Ok((0, rest)) else GetSigned(rest, width)
  }

  function GetValues(rest: seq<bit>, code: Code, count: nat): Parsed<seq<int>>
    decreases count
  {
    if count == 0 then Ok(([], rest))
    else
      match GetValue(rest, code)
      case Err(e) => Err(e)
      case Ok((value, after)) =>
        match GetValues(after, code, count - 1)
        case Err(e) => Err(e)
        case Ok((values, tail)) => Ok(([value] + values, tail))
  }

  function GetCode(rest: seq<bit>, parameterBits: nat): Parsed<Code> {
    match GetBits(rest, parameterBits)
    case Err(e) => Err(e)
    case Ok((parameter, after)) =>
      if parameter != Pow2(parameterBits) - 1 then Ok((Rice(parameter), after))
      else
        match GetBits(after, 5)
        case Err(e) => Err(e)
        case Ok((width, tail)) => Ok((Escape(width), tail))
  }

  /** `partitions` further partitions of `size` values, the first one shortened. */
  function GetPartitions(rest: seq<bit>, parameterBits: nat, partitions: nat, first: int, size: nat): Parsed<seq<int>>
    decreases partitions
  {
    if partitions == 0 then Ok(([], rest))
    else if first < 0 then Err(BAD_PARTITION)
    else
      match GetCode(rest, parameterBits)
      case Err(e) => Err(e)
      case Ok((code, after)) =>
        match GetValues(after, code, first)
        case Err(e) => Err(e)
        case Ok((values, next)) =>
          match GetPartitions(next, parameterBits, partitions - 1, size, size)
          case Err(e) => Err(e)
          case Ok((others, tail)) => Ok((values + others, tail))
  }

  function GetResiduals(rest: seq<bit>, blockSize: nat, order: nat): Parsed<seq<int>> {
    match GetBits(rest, 2)
    case Err(e) => Err(e)
    case Ok((method_, r1)) =>
      if method_ > 1 then Err(BAD_METHOD)
      else
        match GetBits(r1, 4)
        case Err(e) => Err(e)
        case Ok((partitionOrder, r2)) =>
          var partitions := Pow2(partitionOrder);
          if blockSize % partitions != 0 then Err(BAD_PARTITION)
          else GetPartitions(r2, 4 + method_, partitions, blockSize / partitions - order, blockSize / partitions)
  }

  /** A decoded residual always has the length the block needs, so the length test at
      the end of the source's decoder never fires. */
  lemma ResidualCount(rest: seq<bit>, blockSize: nat, order: nat)
    ensures GetResiduals(rest, blockSize, order).Ok? ==>
      |GetResiduals(rest, blockSize, order).value.0| == blockSize - order
  {
    hide GetPartitions;
    if GetResiduals(rest, blockSize, order).Ok? {
      var r1 := GetBits(rest, 2).value.1;
      var partitions := Pow2(GetBits(r1, 4).value.0);
      var size := blockSize / partitions;
      PartitionCount(GetBits(r1, 4).value.1, 4 + GetBits(rest, 2).value.0, partitions, size - order, size);
      DivModFacts(blockSize, partitions);
      Distribute(partitions, 1, size);
    }
  }

  lemma {:induction false} PartitionCount(rest: seq<bit>, parameterBits: nat, partitions: nat, first: int, size: nat)
    ensures var p := GetPartitions(rest, parameterBits, partitions, first, size);
      p.Ok? && partitions > 0 ==> |p.value.0| == first + (partitions - 1) * size
    decreases partitions
  {
    hide GetCode, GetValues;
    if partitions > 0 && first >= 0 && GetCode(rest, parameterBits).Ok? {
      var (code, after) := GetCode(rest, parameterBits).value;
      ValueCount(after, code, first);
      if GetValues(after, code, first).Ok? {
        PartitionCount(GetValues(after, code, first).value.1, parameterBits, partitions - 1, size, size);
        Distribute(partitions - 2, 1, size);
      }
    }
  }

  lemma {:induction false} ValueCount(rest: seq<bit>, code: Code, count: nat)
    ensures GetValues(rest, code, count).Ok? ==> |GetValues(rest, code, count).value.0| == count
    decreases count
  {
    hide GetValue;
    if count > 0 && GetValue(rest, code).Ok? {
      ValueCount(GetValue(rest, code).value.1, code, count - 1);
    }
  }

  // ---------------------------------------------------------------- The decoder as written

  method ReadRice(reader: Reader, parameter: nat) returns (r: Result<int, Error>)
    requires reader.Valid()
    modifies reader
    ensures reader.Valid() && Delivers(GetRice(old(reader.Rest()), parameter), r, reader.Rest())
  {
    var quotient := reader.UnaryZeros(RUN_LIMIT);
    if quotient.Err? {
      return Err(quotient.error);
    }
    var remainder := reader.Get(parameter);
    if remainder.Err? {
      return Err(remainder.error);
    }
    r := Ok(Unfold(Joined(quotient.value, parameter, remainder.value)));
  }

  method ReadValues(reader: Reader, code: Code, count: nat) returns (r: Result<seq<int>, Error>)
    requires reader.Valid()
    modifies reader
    ensures reader.Valid() && Delivers(GetValues(old(reader.Rest()), code, count), r, reader.Rest())
  {
    hide GetValue;
    var values: seq<int> := [];
    var left := count;
    ghost var goal := GetValues(reader.Rest(), code, count);
    PrependNothing(goal);
    while left > 0
      invariant 0 <= left && reader.Valid()
      invariant goal == Prepend(values, GetValues(reader.Rest(), code, left))
    {
      ghost var rest := reader.Rest();
      var value := ReadValue(reader, code);
      if value.Err? {
        return Err(value.error);
      }
      PrependMore(values, value.value, GetValues(reader.Rest(), code, left - 1));
      values := values + [value.value];
      left := left - 1;
    }
    assert values + [] == values;
    r := Ok(values);
  }

  /** A parse whose values follow `front`. */
  function Prepend(front: seq<int>, p: Parsed<seq<int>>): Parsed<seq<int>> {
    match p
    case Err(e) => Err(e)
    case Ok((values, tail)) => Ok((front + values, tail))
  }

  lemma PrependNothing(p: Parsed<seq<int>>)
    ensures Prepend([], p) == p
  {
    if p.Ok? {
      assert [] + p.value.0 == p.value.0;
    }
  }

  lemma PrependMore(front: seq<int>, value: int, p: Parsed<seq<int>>)
    ensures Prepend(front + [value], p) == Prepend(front, Prepend([value], p))
  {
    if p.Ok? {
      assert front + [value] + p.value.0 == front + ([value] + p.value.0);
    }
  }

  method ReadValue(reader: Reader, code: Code) returns (r: Result<int, Error>)
    requires reader.Valid()
    modifies reader
    ensures reader.Valid() && Delivers(GetValue(old(reader.Rest()), code), r, reader.Rest())
  {
    match code
    case Rice(parameter) => r := ReadRice(reader, parameter);
    case Escape(width) =>
      if width == 0 {
        r := Ok(0);
      } else {
        r := reader.GetSignedBits(width);
      }
  }

  method ReadCode(reader: Reader, parameterBits: nat) returns (r: Result<Code, Error>)
    requires reader.Valid()
    modifies reader
    ensures reader.Valid() && Delivers(GetCode(old(reader.Rest()), parameterBits), r, reader.Rest())
  {
    var parameter := reader.Get(parameterBits);
    if parameter.Err? {
      return Err(parameter.error);
    }
    if parameter.value != Pow2(parameterBits) - 1 {
      return Ok(Rice(parameter.value));
    }
    var width := reader.Get(5);
    match width
    case Err(e) => r := Err(e);
    case Ok(n) => r := Ok(Escape(n));
  }

  method ReadPartitions(reader: Reader, parameterBits: nat, partitions: nat, size: nat, order: nat)
    returns (r: Result<seq<int>, Error>)
    requires reader.Valid()
    modifies reader
    ensures reader.Valid()
    ensures Delivers(GetPartitions(old(reader.Rest()), parameterBits, partitions, size - order, size), r, reader.Rest())
  {
    hide GetCode, GetValues;
    var result: seq<int> := [];
    ghost var goal := GetPartitions(reader.Rest(), parameterBits, partitions, size - order, size);
    PrependNothing(goal);
    for partition := 0 to partitions
      invariant reader.Valid()
      invariant goal == Prepend(result, GetPartitions(reader.Rest(), parameterBits, partitions - partition,
                                                      if partition == 0 then size - order else size, size))
    {
      var count := size - (if partition == 0 then order else 0);
      if count < 0 {
        return Err(BAD_PARTITION);
      }
      var code := ReadCode(reader, parameterBits);
      if code.Err? {
        return Err(code.error);
      }
      var values := ReadValues(reader, code.value, count);
      if values.Err? {
        return Err(values.error);
      }
      ghost var others := GetPartitions(reader.Rest(), parameterBits, partitions - partition - 1, size, size);
      PrependTwice(result, values.value, others);
      result := result + values.value;
    }
    assert result + [] == result;
    r := Ok(result);
  }

  lemma PrependTwice(front: seq<int>, values: seq<int>, p: Parsed<seq<int>>)
    ensures Prepend(front + values, p) == Prepend(front, Prepend(values, p))
  {
    if p.Ok? {
      assert front + values + p.value.0 == front + (values + p.value.0);
    }
  }

  /** `_residuals` */
  method ReadResiduals(reader: Reader, blockSize: nat, order: nat) returns (r: Result<seq<int>, Error>)
    requires reader.Valid()
    modifies reader
    ensures reader.Valid() && Delivers(GetResiduals(old(reader.Rest()), blockSize, order), r, reader.Rest())
  {
    hide GetPartitions;
    var method_ := reader.Get(2);
    if method_.Err? {
      return Err(method_.error);
    }
    if method_.value > 1 {
      return Err(BAD_METHOD);
    }
    var partitionOrder := reader.Get(4);
    if partitionOrder.Err? {
      return Err(partitionOrder.error);
    }
    var partitions := Pow2(partitionOrder.value);
    if blockSize % partitions != 0 {
      return Err(BAD_PARTITION);
    }
    r := ReadPartitions(reader, 4 + method_.value, partitions, blockSize / partitions, order);
  }

  // ---------------------------------------------------------------- Specification encoder

  function PutSigned(value: int, width: nat): seq<bit> { NatBits(value % Pow2(width), width) }

  function PutUnary(count: nat): seq<bit> {
    if count == 0 then [1] else [0] + PutUnary(count - 1)
  }

  /** The inverse of `Unfold`. */
  function Fold(value: int): nat { if value >= 0 then 2 * value else -2 * value - 1 }

  function PutValue(value: int, code: Code): seq<bit> {
    match code
    case Rice(parameter) =>
      PutUnary(ShiftRight(Fold(value), parameter)) + NatBits(LowBits(Fold(value), parameter), parameter)
    case Escape(width) => if width == 0 then [] else PutSigned(value, width)
  }

  function PutValues(values: seq<int>, code: Code): seq<bit> {
    if values == [] then [] else PutValue(values[0], code) + PutValues(values[1..], code)
  }

  function PutCode(code: Code, parameterBits: nat): seq<bit> {
    match code
    case Rice(parameter) => NatBits(parameter, parameterBits)
    case Escape(width) => NatBits(Pow2(parameterBits) - 1, parameterBits) + NatBits(width, 5)
  }

  function PutPartitions(values: seq<int>, codes: seq<Code>, parameterBits: nat, first: nat, size: nat): seq<bit>
    decreases |codes|
  {
    if codes == [] || |values| < first then []
    else PutCode(codes[0], parameterBits) + PutValues(values[..first], codes[0])
         + PutPartitions(values[first..], codes[1..], parameterBits, size, size)
  }

  /** A value the code can carry within the format's limits. */
  predicate Carries(code: Code, value: int) {
    match code
    case Rice(parameter) => ShiftRight(Fold(value), parameter) <= RUN_LIMIT
    case Escape(width) => if width == 0 then value == 0 else FitsSigned(value, width)
  }

  predicate CodeFits(code: Code, parameterBits: nat) {
    match code
    case Rice(parameter) => parameter < Pow2(parameterBits) - 1
    case Escape(width) => width < 32
  }

  /** The codes fit the values they are given, partition by partition. */
  ghost predicate Codable(values: seq<int>, codes: seq<Code>, parameterBits: nat, first: nat, size: nat)
    decreases |codes|
  {
    if codes == [] then values == []
    else
      && first <= |values| && CodeFits(codes[0], parameterBits)
      && (forall v :: v in values[..first] ==> Carries(codes[0], v))
      && Codable(values[first..], codes[1..], parameterBits, size, size)
  }

  /** One coded residual: coding method, partition order, codes and values. */
  datatype Coding = Coding(method_: nat, partitionOrder: nat, codes: seq<Code>)

  ghost predicate Allowed(coding: Coding, values: seq<int>, blockSize: nat, order: nat) {
    && coding.method_ <= 1 && coding.partitionOrder <= 15
    && |coding.codes| == Pow2(coding.partitionOrder)
    && blockSize % |coding.codes| == 0 && order <= blockSize / |coding.codes|
    && Codable(values, coding.codes, 4 + coding.method_, blockSize / |coding.codes| - order, blockSize / |coding.codes|)
  }

  function PutResiduals(coding: Coding, values: seq<int>, blockSize: nat, order: nat): seq<bit>
    requires |coding.codes| > 0 && order <= blockSize / |coding.codes|
  {
    NatBits(coding.method_, 2) + NatBits(coding.partitionOrder, 4)
    + PutPartitions(values, coding.codes, 4 + coding.method_, blockSize / |coding.codes| - order,
      blockSize / |coding.codes|)
  }

  // ---------------------------------------------------------------- Round trip

  lemma NatRoundTrip(n: nat, width: nat, tail: seq<bit>)
    requires n < Pow2(width)
    ensures GetBits(NatBits(n, width) + tail, width) == Ok((n, tail))
  {
    ValueOfNat(n, width);
    var bits := NatBits(n, width) + tail;
    assert bits[..width] == NatBits(n, width) && bits[width..] == tail;
    DivModUnique(n, Pow2(width), 0, n);
  }

  lemma SignedRoundTrip(value: int, width: nat, tail: seq<bit>)
    requires width >= 1 && FitsSigned(value, width)
    ensures GetSigned(PutSigned(value, width) + tail, width) == Ok((value, tail))
  {
    var half := Pow2(width - 1);
    var n := value % Pow2(width);
    if value >= 0 {
      DivModUnique(value, Pow2(width), 0, value);
      DivModUnique(n, half, 0, n);
    } else {
      DivModUnique(value, Pow2(width), -1, value + Pow2(width));
      DivModUnique(n, half, 1, n - half);
    }
    NatRoundTrip(n, width, tail);
  }

  lemma {:induction false} UnaryRoundTrip(count: nat, seen: nat, limit: nat, tail: seq<bit>)
    requires seen + count <= limit
    ensures GetUnary(PutUnary(count) + tail, seen, limit) == Ok((seen + count, tail))
    decreases count
  {
    var bits := PutUnary(count) + tail;
    if count == 0 {
      assert bits[1..] == tail;
    } else {
      assert bits[1..] == PutUnary(count - 1) + tail;
      UnaryRoundTrip(count - 1, seen + 1, limit, tail);
    }
  }

  lemma ValueRoundTrip(value: int, code: Code, tail: seq<bit>)
    requires Carries(code, value)
    ensures GetValue(PutValue(value, code) + tail, code) == Ok((value, tail))
  {
    match code
    case Escape(width) =>
      if width == 0 {
        assert PutValue(value, code) + tail == tail;
      } else {
        SignedRoundTrip(value, width, tail);
      }
    case Rice(parameter) => RiceRoundTrip(value, parameter, tail);
  }

  lemma RiceRoundTrip(value: int, parameter: nat, tail: seq<bit>)
    requires Carries(Rice(parameter), value)
    ensures GetRice(PutValue(value, Rice(parameter)) + tail, parameter) == Ok((value, tail))
  {
    hide ShiftRight, LowBits, NatBits, PutUnary, GetUnary, GetBits;
    var u := Fold(value);
    var high, low := ShiftRight(u, parameter), NatBits(LowBits(u, parameter), parameter);
    assert PutValue(value, Rice(parameter)) + tail == PutUnary(high) + (low + tail);
    UnaryRoundTrip(high, 0, RUN_LIMIT, low + tail);
    NatRoundTrip(LowBits(u, parameter), parameter, tail);
  }

  lemma {:induction false} ValuesRoundTrip(values: seq<int>, code: Code, tail: seq<bit>)
    requires forall v :: v in values ==> Carries(code, v)
    ensures GetValues(PutValues(values, code) + tail, code, |values|) == Ok((values, tail))
    decreases |values|
  {
    hide GetValue, PutValue, Carries;
    if values == [] {
      assert PutValues(values, code) + tail == tail;
    } else {
      var after := PutValues(values[1..], code) + tail;
      assert PutValues(values, code) + tail == PutValue(values[0], code) + after;
      ValueRoundTrip(values[0], code, after);
      ValuesRoundTrip(values[1..], code, tail);
      assert [values[0]] + values[1..] == values;
    }
  }

  lemma CodeRoundTrip(code: Code, parameterBits: nat, tail: seq<bit>)
    requires CodeFits(code, parameterBits)
    ensures GetCode(PutCode(code, parameterBits) + tail, parameterBits) == Ok((code, tail))
  {
    match code
    case Rice(parameter) => NatRoundTrip(parameter, parameterBits, tail);
    case Escape(width) =>
      var low := NatBits(width, 5);
      assert PutCode(code, parameterBits) + tail == NatBits(Pow2(parameterBits) - 1, parameterBits) + (low + tail);
      NatRoundTrip(Pow2(parameterBits) - 1, parameterBits, low + tail);
      assert Pow2(5) == 32;
      NatRoundTrip(width, 5, tail);
  }

  lemma {:induction false} PartitionsRoundTrip(
    values: seq<int>, codes: seq<Code>, parameterBits: nat, first: nat, size: nat, tail: seq<bit>)
    requires Codable(values, codes, parameterBits, first, size)
    ensures GetPartitions(PutPartitions(values, codes, parameterBits, first, size) + tail, parameterBits, |codes|,
      first, size)
         == Ok((values, tail))
    decreases |codes|
  {
    hide GetCode, PutCode, GetValues, PutValues, Carries, CodeFits;
    if codes == [] {
      assert PutPartitions(values, codes, parameterBits, first, size) + tail == tail;
    } else {
      var others := PutPartitions(values[first..], codes[1..], parameterBits, size, size) + tail;
      var chunk := PutValues(values[..first], codes[0]);
      assert PutPartitions(values, codes, parameterBits, first, size) + tail
        == PutCode(codes[0], parameterBits) + (chunk + others);
      CodeRoundTrip(codes[0], parameterBits, chunk + others);
      ValuesRoundTrip(values[..first], codes[0], others);
      PartitionsRoundTrip(values[first..], codes[1..], parameterBits, size, size, tail);
      assert values[..first] + values[first..] == values;
    }
  }

  /** Decoding an encoded residual returns the values and stops at the last bit. */
  lemma ResidualRoundTrip(coding: Coding, values: seq<int>, blockSize: nat, order: nat, tail: seq<bit>)
    requires Allowed(coding, values, blockSize, order)
    ensures GetResiduals(PutResiduals(coding, values, blockSize, order) + tail, blockSize, order) == Ok((values, tail))
  {
    hide GetPartitions, PutPartitions, Codable;
    var size := blockSize / |coding.codes|;
    var body := PutPartitions(values, coding.codes, 4 + coding.method_, size - order, size) + tail;
    var orderBits := NatBits(coding.partitionOrder, 4);
    assert PutResiduals(coding, values, blockSize, order) + tail == NatBits(coding.method_, 2) + (orderBits + body);
    assert Pow2(2) == 4 && Pow2(4) == 16;
    NatRoundTrip(coding.method_, 2, orderBits + body);
    NatRoundTrip(coding.partitionOrder, 4, body);
    PartitionsRoundTrip(values, coding.codes, 4 + coding.method_, size - order, size, tail);
  }
}
