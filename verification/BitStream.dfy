/** Most-significant-bit-first bit streams: the definition every bit reader of the
    system is measured against. */
module BitStream {
  import opened Common
  import opened Arithmetic

  /** The `width` low bits of `n`, most significant first. */
  function NatBits(n: nat, width: nat): (bits: seq<bit>)
    ensures |bits| == width
  {
    if width == 0 then [] else NatBits(n / 2, width - 1) + [n % 2]
  }

  /** The number a bit string spells. */
  function Value(bits: seq<bit>): nat {
    if bits == [] then 0 else 2 * Value(bits[..|bits| - 1]) + bits[|bits| - 1]
  }

  /** All bits of a byte string, in reading order. */
  function Bits(data: seq<byte>): (bits: seq<bit>)
    ensures |bits| == 8 * |data|
  {
    if data == [] then [] else NatBits(data[0], 8) + Bits(data[1..])
  }

  /** Reads `width` bits off the front. */
  function Take(bits: seq<bit>, width: nat): Option<(nat, seq<bit>)> {
    if |bits| < width then None else Some((Value(bits[..width]), bits[width..]))
  }

  lemma {:induction false} ValueAppend(a: seq<bit>, b: seq<bit>)
    ensures Value(a + b) == Value(a) * Pow2(|b|) + Value(b)
    decreases |b|
  {
    if b == [] {
      assert a + b == a;
    } else {
      var front := b[..|b| - 1];
      assert (a + b)[..|a + b| - 1] == a + front;
      ValueAppend(a, front);
      assert 2 * (Value(a) * Pow2(|front|)) == Value(a) * (2 * Pow2(|front|)) by {
        Associate(2, Value(a), Pow2(|front|));
        Associate(Value(a), 2, Pow2(|front|));
      }
    }
  }

  lemma {:induction false} ValueBound(bits: seq<bit>)
    ensures Value(bits) < Pow2(|bits|)
    decreases |bits|
  {
    if bits == [] {
    } else {
      ValueBound(bits[..|bits| - 1]);
    }
  }

  lemma {:induction false} ValueOfNat(n: nat, width: nat)
    ensures Value(NatBits(n, width)) == n % Pow2(width)
    decreases width
  {
    if width == 0 {
    } else {
      ValueOfNat(n / 2, width - 1);
      var bits := NatBits(n, width);
      assert bits[..width - 1] == NatBits(n / 2, width - 1);
      DivDiv(n, 2, Pow2(width - 1));
    }
  }

  lemma {:induction false} NatOfValue(bits: seq<bit>)
    ensures NatBits(Value(bits), |bits|) == bits
    decreases |bits|
  {
    if bits == [] {
    } else {
      NatOfValue(bits[..|bits| - 1]);
    }
  }

  lemma DropNone(n: nat)
    ensures ShiftRight(n, 0) == n
  {
  }

  lemma DropOne(n: nat, width: nat, drop: nat)
    requires 1 <= drop <= width
    ensures ShiftRight(n, drop) == ShiftRight(n / 2, drop - 1)
    ensures NatBits(n, width)[..width - drop] == NatBits(n / 2, width - 1)[..width - drop]
  {
    DivDiv(n, 2, Pow2(drop - 1));
    DivNonNegative(n, Pow2(drop));
    var front := NatBits(n / 2, width - 1);
    assert (front + [n % 2])[..width - drop] == front[..width - drop];
  }

  /** Dropping low bits of a number drops the tail of its bit string. */
  lemma {:induction false} NatBitsPrefix(n: nat, width: nat, drop: nat)
    requires drop <= width
    ensures NatBits(n, width)[..width - drop] == NatBits(ShiftRight(n, drop), width - drop)
    decreases drop
  {
    hide Pow2, NatBits, ShiftRight;
    if drop == 0 {
      DropNone(n);
    } else {
      DropOne(n, width, drop);
      NatBitsPrefix(n / 2, width - 1, drop - 1);
    }
  }

  /** Keeping the low bits of a number keeps the tail of its bit string. */
  lemma {:induction false} NatBitsSuffix(n: nat, width: nat, keep: nat)
    requires keep <= width
    ensures NatBits(n, width)[width - keep..] == NatBits(n, keep)
    decreases keep
  {
    if keep == 0 {
    } else {
      NatBitsSuffix(n / 2, width - 1, keep - 1);
    }
  }

  /** A field of a byte: `(b >> (8 - offset - take)) & ((1 << take) - 1)`. */
  lemma ByteField(b: byte, offset: nat, take: nat)
    requires offset + take <= 8
    ensures Value(NatBits(b, 8)[offset..offset + take]) == (b / Pow2(8 - offset - take)) % Pow2(take)
  {
    hide NatBits, Value, Pow2;
    var shift := 8 - offset - take;
    DivNonNegative(b, Pow2(shift));
    var high: nat := b / Pow2(shift);
    NatBitsPrefix(b, 8, shift);
    NatBitsSuffix(high, offset + take, take);
    ValueOfNat(high, take);
    var field := NatBits(b, 8)[..8 - shift][offset..];
    assert NatBits(b, 8)[offset..offset + take] == field;
  }

  lemma {:induction false} BitsAppend(a: seq<byte>, b: seq<byte>)
    ensures Bits(a + b) == Bits(a) + Bits(b)
    decreases |a|
  {
    if a == [] {
      assert a + b == b;
    } else {
      assert (a + b)[1..] == a[1..] + b;
      BitsAppend(a[1..], b);
    }
  }

  /** The bits of one byte inside the stream. */
  lemma {:induction false} BitsOfByte(data: seq<byte>, k: nat)
    requires k < |data|
    ensures Bits(data)[8 * k..8 * k + 8] == NatBits(data[k], 8)
    decreases k
  {
    if k == 0 {
    } else {
      BitsOfByte(data[1..], k - 1);
      assert Bits(data)[8 * k..8 * k + 8] == Bits(data[1..])[8 * (k - 1)..8 * (k - 1) + 8];
    }
  }

  /** A field that lies inside one byte of the stream. */
  lemma StreamField(data: seq<byte>, k: nat, offset: nat, take: nat)
    requires k < |data| && offset + take <= 8
    ensures Value(Bits(data)[8 * k + offset..8 * k + offset + take]) == (data[k] / Pow2(8 - offset - take)) % Pow2(take)
  {
    BitsOfByte(data, k);
    ByteField(data[k], offset, take);
    SubSlice(Bits(data), 8 * k, 8, offset, offset + take);
  }
}
