/** The coded frame or sample number of a FLAC frame header (section 9.1.5 of RFC
    9639): a variable-length code of 1 to 7 bytes. */
module CodedNumber {
  import opened Common
  import opened Arithmetic
  import opened BitStream
  import opened BitReader

  const LIMIT: nat := 0x10_0000_0000
  const TRUNCATED_HEADER: Error := Error(5, 4, 0x20)
  const BAD_NUMBER: Error := Error(4, 4, 0x17)

  // ---------------------------------------------------------------- The decoder

  /** The ones at the head of a byte. */
  function LeadingOnes(first: byte): (count: nat)
    ensures count <= 8 && 0x100 - Pow2(8 - count) <= first
    ensures count < 8 ==> first < 0x100 - Pow2(7 - count)
  {
    PowersOfTwo();
    if first < 0x80 then 0 else if first < 0xC0 then 1 else if first < 0xE0 then 2
    else if first < 0xF0 then 3 else if first < 0xF8 then 4 else if first < 0xFC then 5
    else if first < 0xFE then 6 else if first < 0xFF then 7 else 8
  }

  /** The first value that needs `count` bytes. */
  function Minimum(count: nat): nat
    requires 2 <= count <= 7
  {
    Pow2(if count == 2 then 7 else 5 * count - 4)
  }

  /** Reads `n` continuation bytes of six bits each. */
  function Continue(rest: seq<bit>, value: nat, n: nat): Parsed<nat> {
    if n == 0 then Ok((value, rest))
    else match GetBits(rest, 8)
      case Err(_) => Err(TRUNCATED_HEADER)
      case Ok((next, after)) =>
        if next / 64 != 2 then Err(BAD_NUMBER) else Continue(after, 64 * value + next % 64, n - 1)
  }

  lemma ByteRead(rest: seq<bit>)
    requires |rest| >= 8
    ensures Value(rest[..8]) < 0x100
  {
    ValueBound(rest[..8]);
  }

  function Decode(rest: seq<bit>): Parsed<nat> {
    if |rest| < 8 then Err(TRUNCATED_HEADER)
    else
      ByteRead(rest);
      var first: byte := Value(rest[..8]);
      var count := LeadingOnes(first);
      if first < 0x80 then Ok((first, rest[8..]))
      else if count < 2 || count > 7 then Err(BAD_NUMBER)
      else match Continue(rest[8..], first % Pow2(7 - count), count - 1)
        case Err(e) => Err(e)
        case Ok((value, after)) =>
          if value < Minimum(count) || value >= LIMIT then Err(BAD_NUMBER) else Ok((value, after))
  }

  lemma PowersOfTwo()
    ensures Pow2(0) == 1 && Pow2(1) == 2 && Pow2(2) == 4 && Pow2(3) == 8 && Pow2(4) == 0x10
    ensures Pow2(5) == 0x20 && Pow2(6) == 0x40 && Pow2(7) == 0x80 && Pow2(8) == 0x100
  {
  }

  // ---------------------------------------------------------------- The forms of a number

  function Pow64(k: nat): (p: nat)
    ensures p >= 1
  {
    if k == 0 then 1 else 64 * Pow64(k - 1)
  }

  /** `value` in `count` bytes has room up to here. */
  function Capacity(count: nat): nat
    requires 1 <= count <= 7
  {
    if count == 1 then 0x80 else Pow2(7 - count) * Pow64(count - 1)
  }

  /** The `k` low six-bit digits as continuation bytes. */
  function Tail(n: nat, k: nat): (bytes: seq<byte>)
    ensures |bytes| == k
  {
    if k == 0 then []
    else
      DivNonNegative(n, Pow64(k - 1));
      [0x80 + n / Pow64(k - 1) % 64] + Tail(n, k - 1)
  }

  /** The number written in `count` bytes, whether or not it needs that many. */
  function Form(n: nat, count: nat): (bytes: seq<byte>)
    requires 1 <= count <= 7 && n < Capacity(count)
    ensures |bytes| == count
  {
    if count == 1 then [n]
    else
      PowersOfTwo();
      LeadFits(n, count);
      [0x100 - Pow2(8 - count) + n / Pow64(count - 1)] + Tail(n, count - 1)
  }

  lemma LeadFits(n: nat, count: nat)
    requires 2 <= count <= 7 && n < Capacity(count)
    ensures 0 <= n / Pow64(count - 1) < Pow2(7 - count)
    ensures 2 * Pow2(7 - count) == Pow2(8 - count) <= 0x40
  {
    PowersOfTwo();
    DivNonNegative(n, Pow64(count - 1));
    DivModFacts(n, Pow64(count - 1));
    if n / Pow64(count - 1) >= Pow2(7 - count) {
      MulMonotone(Pow2(7 - count), n / Pow64(count - 1), Pow64(count - 1));
    }
  }

  /** The fewest bytes that hold the number. */
  function Length(n: nat): (count: nat)
    requires n < LIMIT
    ensures 1 <= count <= 7
  {
    if n < 0x80 then 1 else if n < 0x800 then 2 else if n < 0x1_0000 then 3
    else if n < 0x20_0000 then 4 else if n < 0x400_0000 then 5
    else if n < 0x8000_0000 then 6 else 7
  }

  lemma Capacities(count: nat)
    requires 1 <= count <= 7
    ensures Capacity(count) ==
      if count == 1 then 0x80 else if count == 2 then 0x800 else if count == 3 then 0x1_0000
      else if count == 4 then 0x20_0000 else if count == 5 then 0x400_0000
      else if count == 6 then 0x8000_0000 else LIMIT
  {
    PowersOfTwo();
  }

  /** A number fits the forms from its length on, and only those. */
  lemma LengthIsLeast(n: nat, count: nat)
    requires n < LIMIT && 1 <= count <= 7
    ensures n < Capacity(count) <==> Length(n) <= count
  {
    Capacities(count);
  }

  function Encode(n: nat): (bytes: seq<byte>)
    requires n < LIMIT
  {
    LengthIsLeast(n, Length(n));
    Form(n, Length(n))
  }

  lemma MinimumOf(count: nat)
    requires 2 <= count <= 7
    ensures Minimum(count) == Capacity(count - 1)
  {
    Capacities(count - 1);
    PowersOfTwo();
    Pow2Literals();
    Pow2Add(8, 3);
    Pow2Add(16, 5);
    Pow2Add(16, 10);
    assert Pow2(10) == 0x400 by { Pow2Add(8, 2); }
  }

  // ---------------------------------------------------------------- Decoding a form

  lemma ReadByte(b: byte, data: seq<byte>, rest: seq<bit>)
    ensures GetBits(Bits([b] + data) + rest, 8) == Ok((b, Bits(data) + rest))
  {
    hide NatBits, Value;
    var all := Bits([b] + data) + rest;
    assert ([b] + data)[1..] == data;
    assert Bits([b] + data) == NatBits(b, 8) + Bits(data);
    assert all[..8] == NatBits(b, 8) && all[8..] == Bits(data) + rest;
    ValueOfNat(b, 8);
    PowersOfTwo();
  }

  lemma TailDigit(n: nat, value: nat, k: nat)
    requires k >= 1
    ensures n % Pow64(k) == n / Pow64(k - 1) % 64 * Pow64(k - 1) + n % Pow64(k - 1)
    ensures (64 * value + n / Pow64(k - 1) % 64) * Pow64(k - 1) + n % Pow64(k - 1) == value * Pow64(k) + n % Pow64(k)
  {
    var p, d := Pow64(k - 1), n / Pow64(k - 1) % 64;
    DivDiv(n, p, 64);
    Distribute(64 * value, d, p);
    Associate(value, 64, p);
    assert p * 64 == Pow64(k);
  }

  lemma {:induction false} ContinueTail(n: nat, value: nat, k: nat, rest: seq<bit>)
    ensures Continue(Bits(Tail(n, k)) + rest, value, k) == Ok((value * Pow64(k) + n % Pow64(k), rest))
    decreases k
  {
    hide Bits, Pow64;
    if k == 0 {
      assert Bits(Tail(n, 0)) + rest == rest;
      Units(n);
    } else {
      DivNonNegative(n, Pow64(k - 1));
      var d := n / Pow64(k - 1) % 64;
      ReadByte(0x80 + d, Tail(n, k - 1), rest);
      ContinueTail(n, 64 * value + d, k - 1, rest);
      TailDigit(n, value, k);
    }
  }

  lemma Units(n: nat)
    ensures Pow64(0) == 1 && n % Pow64(0) == 0
  {
  }

  /** The first byte of a form announces its length and carries the leading bits. */
  lemma LeadByte(high: nat, count: nat)
    requires 2 <= count <= 7 && high < Pow2(7 - count)
    ensures var first := 0x100 - Pow2(8 - count) + high;
      0x80 <= first < 0x100 && LeadingOnes(first) == count && first % Pow2(7 - count) == high
  {
    PowersOfTwo();
  }

  /** A form is accepted exactly when no shorter form holds the number. */
  lemma FormDecodes(n: nat, count: nat, rest: seq<bit>)
    requires n < LIMIT && 1 <= count <= 7 && n < Capacity(count)
    ensures Decode(Bits(Form(n, count)) + rest) == if count == Length(n) then Ok((n, rest)) else Err(BAD_NUMBER)
  {
    hide Bits, Pow64, LeadingOnes, Continue, Minimum, Capacity;
    var all := Bits(Form(n, count)) + rest;
    LengthIsLeast(n, count);
    if count == 1 {
      ReadByte(n, [], rest);
      assert [n] + [] == Form(n, 1);
      NoBits(rest);
      assert all[8..] == rest;
    } else {
      LeadFits(n, count);
      var high := n / Pow64(count - 1);
      LeadByte(high, count);
      ReadByte(0x100 - Pow2(8 - count) + high, Tail(n, count - 1), rest);
      ContinueTail(n, high, count - 1, rest);
      DivModFacts(n, Pow64(count - 1));
      MinimumOf(count);
      LengthIsLeast(n, count - 1);
    }
  }

  lemma NoBits(rest: seq<bit>)
    ensures Bits([]) + rest == rest
  {
    assert Bits([]) == [];
  }

  /** Decoding an encoded number gives it back and stops at its last bit. */
  lemma DecodeEncode(n: nat, rest: seq<bit>)
    requires n < LIMIT
    ensures Decode(Bits(Encode(n)) + rest) == Ok((n, rest))
  {
    hide Form, Decode, Bits;
    LengthIsLeast(n, Length(n));
    FormDecodes(n, Length(n), rest);
  }

  // ---------------------------------------------------------------- Nothing else is accepted

  lemma ByteWritten(rest: seq<bit>, data: seq<byte>, after: seq<bit>)
    requires |rest| >= 8 && rest[8..] == Bits(data) + after && Value(rest[..8]) < 0x100
    ensures rest == Bits([Value(rest[..8])] + data) + after
  {
    hide NatBits, Value;
    var b := Value(rest[..8]);
    assert ([b] + data)[1..] == data;
    NatOfValue(rest[..8]);
    assert rest == rest[..8] + rest[8..];
  }

  lemma {:induction false} ContinueInverts(rest: seq<bit>, value: nat, k: nat)
    requires Continue(rest, value, k).Ok?
    ensures var (n, after) := Continue(rest, value, k).value;
      n / Pow64(k) == value && rest == Bits(Tail(n, k)) + after
    decreases k
  {
    hide Bits, Value, NatBits, Pow2;
    var (n, after) := Continue(rest, value, k).value;
    if k == 0 {
      NoBits(after);
    } else {
      ByteRead(rest);
      var next := Value(rest[..8]);
      ContinueInverts(rest[8..], 64 * value + next % 64, k - 1);
      var p, d := Pow64(k - 1), next % 64;
      assert n / p == 64 * value + d;
      DivModUnique(64 * value + d, 64, value, d);
      DivDiv(n, p, 64);
      assert p * 64 == Pow64(k);
      assert next == 0x80 + d;
      ByteWritten(rest, Tail(n, k - 1), after);
    }
  }

  lemma HeadInverts(first: byte, count: nat)
    requires 0x80 <= first && count == LeadingOnes(first) && 2 <= count <= 7
    ensures first % Pow2(7 - count) < Pow2(7 - count) && first == 0x100 - Pow2(8 - count) + first % Pow2(7 - count)
  {
    PowersOfTwo();
  }

  lemma BelowCapacity(n: nat, high: nat, count: nat)
    requires 2 <= count <= 7 && n / Pow64(count - 1) == high < Pow2(7 - count)
    ensures n < Capacity(count)
  {
    DivModFacts(n, Pow64(count - 1));
    MulStrict(high, Pow2(7 - count), Pow64(count - 1));
  }

  /** Every accepted bit string starts with the shortest form of the number read. */
  lemma EncodeDecode(rest: seq<bit>)
    requires Decode(rest).Ok?
    ensures var (n, after) := Decode(rest).value;
      n < LIMIT && rest == Bits(Encode(n)) + after
  {
    hide Bits, Value, Pow64, LeadingOnes, Continue, Minimum, Capacity, Length;
    var (n, after) := Decode(rest).value;
    ByteRead(rest);
    var first: byte := Value(rest[..8]);
    if first < 0x80 {
      NoBits(after);
      ByteWritten(rest, [], after);
      LengthIsLeast(n, 1);
      Capacities(1);
      assert [n] + [] == Encode(n);
    } else {
      var count := LeadingOnes(first);
      var high := first % Pow2(7 - count);
      HeadInverts(first, count);
      ContinueInverts(rest[8..], high, count - 1);
      BelowCapacity(n, high, count);
      MinimumOf(count);
      LengthIsLeast(n, count);
      LengthIsLeast(n, count - 1);
      ByteWritten(rest, Tail(n, count - 1), after);
    }
  }

  /** No two numbers share a code, and no code is a prefix of another. */
  lemma CodesDistinct(a: nat, b: nat, x: seq<bit>, y: seq<bit>)
    requires a < LIMIT && b < LIMIT && Bits(Encode(a)) + x == Bits(Encode(b)) + y
    ensures a == b && x == y
  {
    hide Decode, Encode, Bits;
    DecodeEncode(a, x);
    DecodeEncode(b, y);
  }

  // ---------------------------------------------------------------- The reader's method

  /** `_utf8_integer` */
  method ReadCodedNumber(reader: Reader) returns (r: Result<nat, Error>)
    requires reader.Valid()
    modifies reader
    ensures reader.Valid() && Delivers(Decode(old(reader.Rest())), r, reader.Rest())
  {
    hide Bits, Value, Pow2;
    ghost var all := reader.Rest();
    var head := reader.Get(8);
    if head.Err? {
      return Err(TRUNCATED_HEADER);
    }
    ByteRead(all);
    var first: byte := head.value;
    if first < 0x80 {
      return Ok(first);
    }
    var count := CountOnes(first);
    if count < 2 || count > 7 {
      return Err(BAD_NUMBER);
    }
    var value: nat := first % Pow2(7 - count);
    ghost var goal := Continue(reader.Rest(), value, count - 1);
    for k := 0 to count - 1
      invariant reader.Valid() && Continue(reader.Rest(), value, count - 1 - k) == goal
    {
      var next := reader.Get(8);
      if next.Err? {
        return Err(TRUNCATED_HEADER);
      }
      if next.value / 64 != 2 {
        return Err(BAD_NUMBER);
      }
      value := 64 * value + next.value % 64;
    }
    if value < Minimum(count) || value >= LIMIT {
      return Err(BAD_NUMBER);
    }
    r := Ok(value);
  }

  method CountOnes(first: byte) returns (count: nat)
    ensures count == LeadingOnes(first)
  {
    PowersOfTwo();
    var prefix := 0x80;
    count := 0;
    while prefix > 0 && first / prefix % 2 == 1
      invariant count <= 8 && prefix == (if count == 8 then 0 else Pow2(7 - count))
      invariant first >= 0x100 - Pow2(8 - count)
      decreases prefix
    {
      count := count + 1;
      prefix := prefix / 2;
    }
  }
}
