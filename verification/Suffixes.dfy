/** Every parser of the codec consumes a prefix of its input: what it leaves is a
    suffix of what it was given. */
module Suffixes {
  import opened Common
  import opened BitReader
  import opened Residual
  import opened Prediction
  import opened Subframe
  import Coded = CodedNumber
  import BitStream

  ghost predicate SuffixOf(tail: seq<bit>, all: seq<bit>) {
    |tail| <= |all| && tail == all[|all| - |tail|..]
  }

  /** A successful parse leaves a suffix. */
  ghost predicate Leaves<T>(all: seq<bit>, parsed: Parsed<T>) {
    parsed.Ok? ==> SuffixOf(parsed.value.1, all)
  }

  lemma SuffixTransitive(a: seq<bit>, b: seq<bit>, c: seq<bit>)
    requires SuffixOf(a, b) && SuffixOf(b, c)
    ensures SuffixOf(a, c)
  {
    var middle := c[|c| - |b|..];
    assert middle[|b| - |a|..] == c[|c| - |a|..];
  }

  /** A parse of what another parse left. */
  lemma Onward<T>(all: seq<bit>, rest: seq<bit>, parsed: Parsed<T>)
    requires SuffixOf(rest, all) && Leaves(rest, parsed)
    ensures Leaves(all, parsed)
  {
    if parsed.Ok? {
      SuffixTransitive(parsed.value.1, rest, all);
    }
  }

  lemma BitsLeave(rest: seq<bit>, width: nat)
    ensures Leaves(rest, GetBits(rest, width))
  {
  }

  lemma SignedLeave(rest: seq<bit>, width: nat)
    requires width >= 1
    ensures Leaves(rest, GetSigned(rest, width))
  {
    hide SignExtend;
    BitsLeave(rest, width);
  }

  lemma {:induction false} UnaryLeave(rest: seq<bit>, count: nat, limit: nat)
    ensures Leaves(rest, GetUnary(rest, count, limit))
    decreases |rest|
  {
    if rest != [] && rest[0] != 1 && count + 1 <= limit {
      UnaryLeave(rest[1..], count + 1, limit);
      Onward(rest, rest[1..], GetUnary(rest[1..], count + 1, limit));
    }
  }

  lemma {:induction false} AlignLeaves(rest: seq<bit>, position: nat)
    ensures var r := AlignZero(rest, position);
      r.Ok? ==> SuffixOf(r.value, rest) && (position + |rest| - |r.value|) % 8 == 0
    decreases (8 - position % 8) % 8
  {
    if position % 8 != 0 && rest != [] && rest[0] == 0 {
      AlignLeaves(rest[1..], position + 1);
      var r := AlignZero(rest[1..], position + 1);
      if r.Ok? {
        SuffixTransitive(r.value, rest[1..], rest);
      }
    }
  }

  lemma ValueLeaves(rest: seq<bit>, code: Code)
    ensures Leaves(rest, GetValue(rest, code))
  {
    hide GetBits, GetUnary, GetSigned;
    match code
    case Rice(parameter) =>
      UnaryLeave(rest, 0, RUN_LIMIT);
      var quotient := GetUnary(rest, 0, RUN_LIMIT);
      if quotient.Ok? {
        BitsLeave(quotient.value.1, parameter);
        Onward(rest, quotient.value.1, GetBits(quotient.value.1, parameter));
      }
    case Escape(width) =>
      if width > 0 {
        SignedLeave(rest, width);
      }
  }

  lemma {:induction false} ValuesLeave(rest: seq<bit>, code: Code, count: nat)
    ensures Leaves(rest, GetValues(rest, code, count))
    decreases count
  {
    hide GetValue;
    if count == 0 {
    } else {
      ValueLeaves(rest, code);
      var first := GetValue(rest, code);
      if first.Ok? {
        ValuesLeave(first.value.1, code, count - 1);
        Onward(rest, first.value.1, GetValues(first.value.1, code, count - 1));
      }
    }
  }

  lemma CodeLeaves(rest: seq<bit>, parameterBits: nat)
    ensures Leaves(rest, GetCode(rest, parameterBits))
  {
    hide GetBits;
    BitsLeave(rest, parameterBits);
    var parameter := GetBits(rest, parameterBits);
    if parameter.Ok? {
      BitsLeave(parameter.value.1, 5);
      Onward(rest, parameter.value.1, GetBits(parameter.value.1, 5));
    }
  }

  lemma {:induction false} PartitionsLeave(rest: seq<bit>, parameterBits: nat, partitions: nat, first: int, size: nat)
    ensures Leaves(rest, GetPartitions(rest, parameterBits, partitions, first, size))
    decreases partitions
  {
    hide GetCode, GetValues;
    if partitions > 0 && first >= 0 {
      CodeLeaves(rest, parameterBits);
      var code := GetCode(rest, parameterBits);
      if code.Ok? {
        var (c, r1) := code.value;
        ValuesLeave(r1, c, first);
        var values := GetValues(r1, c, first);
        Onward(rest, r1, values);
        if values.Ok? {
          PartitionsLeave(values.value.1, parameterBits, partitions - 1, size, size);
          Onward(rest, values.value.1, GetPartitions(values.value.1, parameterBits, partitions - 1, size, size));
        }
      }
    }
  }

  lemma ResidualsLeave(rest: seq<bit>, blockSize: nat, order: nat)
    ensures Leaves(rest, GetResiduals(rest, blockSize, order))
  {
    hide GetBits, GetPartitions;
    BitsLeave(rest, 2);
    var coding := GetBits(rest, 2);
    if coding.Ok? {
      var (method_, r1) := coding.value;
      BitsLeave(r1, 4);
      Onward(rest, r1, GetBits(r1, 4));
      if GetBits(r1, 4).Ok? {
        var (partitionOrder, r2) := GetBits(r1, 4).value;
        var partitions := Pow2(partitionOrder);
        var size := blockSize / partitions;
        PartitionsLeave(r2, 4 + method_, partitions, size - order, size);
        Onward(rest, r2, GetPartitions(r2, 4 + method_, partitions, size - order, size));
      }
    }
  }

  lemma {:induction false} SamplesLeave(rest: seq<bit>, width: nat, count: nat)
    requires width >= 1
    ensures Leaves(rest, GetSamples(rest, width, count))
    decreases count
  {
    hide GetSigned;
    if count == 0 {
    } else {
      SignedLeave(rest, width);
      var first := GetSigned(rest, width);
      if first.Ok? {
        SamplesLeave(first.value.1, width, count - 1);
        Onward(rest, first.value.1, GetSamples(first.value.1, width, count - 1));
      }
    }
  }

  lemma PredictedLeave(all: seq<bit>, rest: seq<bit>, p: Predictor, warmup: seq<int>, blockSize: nat)
    requires p.Order() <= |warmup| && SuffixOf(rest, all)
    ensures Leaves(all, GetPredicted(rest, p, warmup, blockSize))
  {
    hide GetResiduals, Restore, SuffixOf;
    ResidualsLeave(rest, blockSize, p.Order());
    Onward(all, rest, GetResiduals(rest, blockSize, p.Order()));
  }

  lemma CoefficientsLeave(rest: seq<bit>, order: nat)
    ensures Leaves(rest, GetCoefficients(rest, order))
  {
    hide GetBits, GetSigned, GetSamples, SuffixOf;
    BitsLeave(rest, 4);
    if GetBits(rest, 4).Ok? {
      var (precision, r1) := GetBits(rest, 4).value;
      SignedLeave(r1, 5);
      Onward(rest, r1, GetSigned(r1, 5));
      if GetSigned(r1, 5).Ok? {
        var r2 := GetSigned(r1, 5).value.1;
        SamplesLeave(r2, precision + 1, order);
        Onward(rest, r2, GetSamples(r2, precision + 1, order));
      }
    }
  }

  lemma BodyLeaves(rest: seq<bit>, kind: nat, width: nat, blockSize: nat)
    requires width >= 1
    ensures Leaves(rest, GetBody(rest, kind, width, blockSize))
  {
    hide GetSigned, GetSamples, GetPredicted, GetCoefficients, SuffixOf;
    SignedLeave(rest, width);
    SamplesLeave(rest, width, blockSize);
    if 8 <= kind <= 12 {
      SamplesLeave(rest, width, kind - 8);
      var warmup := GetSamples(rest, width, kind - 8);
      if warmup.Ok? && |warmup.value.0| >= kind - 8 {
        PredictedLeave(rest, warmup.value.1, Fixed(kind - 8), warmup.value.0, blockSize);
      }
    } else if 32 <= kind <= 63 {
      SamplesLeave(rest, width, kind - 31);
      var warmup := GetSamples(rest, width, kind - 31);
      if warmup.Ok? {
        var r1 := warmup.value.1;
        CoefficientsLeave(r1, kind - 31);
        Onward(rest, r1, GetCoefficients(r1, kind - 31));
        if GetCoefficients(r1, kind - 31).Ok? {
          var ((coefficients, shift), r2) := GetCoefficients(r1, kind - 31).value;
          if |coefficients| <= |warmup.value.0| {
            PredictedLeave(rest, r2, Lpc(coefficients, shift), warmup.value.0, blockSize);
          }
        }
      }
    }
  }

  lemma HeaderLeaves(rest: seq<bit>)
    ensures Leaves(rest, GetHeader(rest))
  {
    hide GetBits, GetUnary, SuffixOf;
    BitsLeave(rest, 1);
    if GetBits(rest, 1).Ok? {
      var r1 := GetBits(rest, 1).value.1;
      BitsLeave(r1, 6);
      Onward(rest, r1, GetBits(r1, 6));
      if GetBits(r1, 6).Ok? {
        var r2 := GetBits(r1, 6).value.1;
        BitsLeave(r2, 1);
        Onward(rest, r2, GetBits(r2, 1));
        if GetBits(r2, 1).Ok? {
          var r3 := GetBits(r2, 1).value.1;
          UnaryLeave(r3, 0, RUN_LIMIT);
          Onward(rest, r3, GetUnary(r3, 0, RUN_LIMIT));
        }
      }
    }
  }

  lemma SubframeLeaves(rest: seq<bit>, blockSize: nat, bits: nat)
    ensures Leaves(rest, GetSubframe(rest, blockSize, bits))
  {
    hide GetHeader, GetBody, SuffixOf;
    HeaderLeaves(rest);
    if GetHeader(rest).Ok? {
      var ((kind, wasted), body) := GetHeader(rest).value;
      if wasted < bits {
        BodyLeaves(body, kind, bits - wasted, blockSize);
        Onward(rest, body, GetBody(body, kind, bits - wasted, blockSize));
      }
    }
  }

  lemma {:induction false} ContinueLeaves(rest: seq<bit>, value: nat, n: nat)
    ensures Leaves(rest, Coded.Continue(rest, value, n))
    decreases n
  {
    hide GetBits;
    if n == 0 {
    } else {
      BitsLeave(rest, 8);
      if GetBits(rest, 8).Ok? {
        var (next, after) := GetBits(rest, 8).value;
        ContinueLeaves(after, 64 * value + next % 64, n - 1);
        Onward(rest, after, Coded.Continue(after, 64 * value + next % 64, n - 1));
      }
    }
  }

  lemma NumberLeaves(rest: seq<bit>)
    ensures Leaves(rest, Coded.Decode(rest))
  {
    hide Coded.Continue, Coded.LeadingOnes, BitStream.Value;
    if |rest| >= 8 {
      Coded.ByteRead(rest);
      var first: byte := BitStream.Value(rest[..8]);
      var count := Coded.LeadingOnes(first);
      if 2 <= count <= 7 {
        ContinueLeaves(rest[8..], first % Pow2(7 - count), count - 1);
        Onward(rest, rest[8..], Coded.Continue(rest[8..], first % Pow2(7 - count), count - 1));
      }
    }
  }
}
