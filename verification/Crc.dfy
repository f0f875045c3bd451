/** The CRC-8 and CRC-16 of FLAC frames (sections 9.1.8 and 9.3 of RFC 9639), as the
    codec computes them a byte at a time and the bitstream engine a bit at a time,
    against division of polynomials over GF(2). */
module Crc {
  import opened Common
  import opened Arithmetic
  import opened BitStream

  // ---------------------------------------------------------------- Polynomial division

  /** A generator polynomial `x^w + low`, coefficients from `x^(w-1)` down to `x^0`. */
  type Generator = low: seq<bit> | |low| >= 1 && low[|low| - 1] == 1 witness [1]

  function Flip(a: bit, b: bit): bit { if a == b then 0 else 1 }

  /** Sum of two polynomials of the same length. */
  function Sum(a: seq<bit>, b: seq<bit>): (s: seq<bit>)
    requires |a| == |b|
    ensures |s| == |a|
  {
    seq(|a|, k requires 0 <= k < |a| => Flip(a[k], b[k]))
  }

  function Zeros(n: nat): (z: seq<bit>)
    ensures |z| == n && forall k :: 0 <= k < n ==> z[k] == 0
  {
    seq(n, _ => 0)
  }

  /** The coefficient `times` a polynomial. */
  function Times(times: bit, p: seq<bit>): (s: seq<bit>)
    ensures |s| == |p|
  {
    if times == 1 then p else Zeros(|p|)
  }

  /** The product of the quotient and the generator, highest coefficient first. */
  function Product(g: Generator, quotient: seq<bit>): (p: seq<bit>)
    ensures |p| == |quotient| + |g|
    decreases |quotient|
  {
    if quotient == [] then Zeros(|g|)
    else
      var n := |quotient| - 1;
      var p := Product(g, quotient[..n]);
      p[..n] + Sum(p[n..] + [0], Times(quotient[n], [1] + g))
  }

  // ---------------------------------------------------------------- The shift register

  function Feedback(state: seq<bit>, b: bit): bit
    requires state != []
  {
    Flip(state[0], b)
  }

  /** The register after one more message bit. */
  function Shifted(g: Generator, state: seq<bit>, b: bit): (next: seq<bit>)
    requires |state| == |g|
    ensures |next| == |g|
  {
    Sum(state[1..] + [0], Times(Feedback(state, b), g))
  }

  function Register(g: Generator, state: seq<bit>, message: seq<bit>): (next: seq<bit>)
    requires |state| == |g|
    ensures |next| == |g|
    decreases |message|
  {
    if message == [] then state
    else Register(g, Shifted(g, state, message[0]), message[1..])
  }

  function Remainder(g: Generator, message: seq<bit>): (r: seq<bit>)
    ensures |r| == |g|
  {
    Register(g, Zeros(|g|), message)
  }

  lemma {:induction false} RegisterAppend(g: Generator, state: seq<bit>, a: seq<bit>, b: seq<bit>)
    requires |state| == |g|
    ensures Register(g, state, a + b) == Register(g, Register(g, state, a), b)
    decreases |a|
  {
    if a == [] {
      assert a + b == b;
    } else {
      assert (a + b)[1..] == a[1..] + b;
      RegisterAppend(g, Shifted(g, state, a[0]), a[1..], b);
    }
  }

  /** The feedback bits of a run are the coefficients of the quotient. */
  function Quotient(g: Generator, message: seq<bit>): (q: seq<bit>)
    ensures |q| == |message|
    decreases |message|
  {
    if message == [] then []
    else
      var n := |message| - 1;
      Quotient(g, message[..n]) + [Feedback(Remainder(g, message[..n]), message[n])]
  }

  lemma ProductStep(g: Generator, quotient: seq<bit>, b: bit, p: seq<bit>, tail: seq<bit>)
    requires |p| == |quotient| && |tail| == |g| && Product(g, quotient) == p + tail
    ensures Product(g, quotient + [b]) == p + Sum(tail + [0], Times(b, [1] + g))
  {
    hide Sum, Times;
    var n := |quotient|;
    assert (quotient + [b])[..n] == quotient;
    assert (p + tail)[..n] == p && (p + tail)[n..] == tail;
  }

  /** One division step puts the message bit in place and leaves the shifted register. */
  lemma DivisionStep(g: Generator, state: seq<bit>, b: bit)
    requires |state| == |g|
    ensures Sum(state + [0], Times(Feedback(state, b), [1] + g)) == [b] + Shifted(g, state, b)
  {
    var f := Feedback(state, b);
    var left, right := Sum(state + [0], Times(f, [1] + g)), [b] + Shifted(g, state, b);
    assert left[0] == b;
    forall k | 0 < k < |left|
      ensures left[k] == right[k]
    {
      assert (state + [0])[k] == (state[1..] + [0])[k - 1];
      assert Times(f, [1] + g)[k] == Times(f, g)[k - 1];
    }
  }

  lemma RemainderStep(g: Generator, message: seq<bit>, b: bit)
    ensures Remainder(g, message + [b]) == Shifted(g, Remainder(g, message), b)
  {
    hide Shifted;
    RegisterAppend(g, Zeros(|g|), message, [b]);
    var r := Remainder(g, message);
    assert Register(g, Shifted(g, r, b), [b][1..]) == Shifted(g, r, b);
  }

  lemma NothingLeft(g: Generator)
    ensures Product(g, []) == [] + Remainder(g, [])
  {
    assert [] + Remainder(g, []) == Zeros(|g|);
  }

  /** Message and remainder together are a multiple of the generator. */
  lemma {:induction false} DivisionExact(g: Generator, message: seq<bit>)
    ensures Product(g, Quotient(g, message)) == message + Remainder(g, message)
    decreases |message|
  {
    hide Sum, Times, Product, Register;
    if message == [] {
      NothingLeft(g);
    } else {
      var n := |message| - 1;
      var before, b := message[..n], message[n];
      var r := Remainder(g, before);
      DivisionExact(g, before);
      assert message == before + [b];
      RemainderStep(g, before, b);
      ProductStep(g, Quotient(g, before), Feedback(r, b), before, r);
      DivisionStep(g, r, b);
      assert before + ([b] + Shifted(g, r, b)) == message + Shifted(g, r, b);
    }
  }

  /** A multiple of the generator is determined by its leading coefficients. */
  lemma {:induction false} ProductDetermined(g: Generator, p: seq<bit>, q: seq<bit>)
    requires |p| == |q| && Product(g, p)[..|p|] == Product(g, q)[..|p|]
    ensures p == q
    decreases |p|
  {
    hide Sum, Times, Product;
    if p == [] {
    } else {
      var n := |p| - 1;
      LeadingCoefficient(g, p);
      LeadingCoefficient(g, q);
      assert Product(g, p)[..n] == Product(g, p)[..|p|][..n] == Product(g, q)[..n];
      ProductDetermined(g, p[..n], q[..n]);
      assert Product(g, p)[n] == Product(g, p)[..|p|][n] == Product(g, q)[n];
      assert p == p[..n] + [p[n]] && q == q[..n] + [q[n]];
    }
  }

  lemma LeadingCoefficient(g: Generator, q: seq<bit>)
    requires q != []
    ensures var n := |q| - 1;
      && Product(g, q)[..n] == Product(g, q[..n])[..n]
      && Product(g, q)[n] == Flip(Product(g, q[..n])[n], q[n])
  {
    hide Product;
    var n := |q| - 1;
    var p := Product(g, q[..n]);
    assert p == p[..n] + p[n..] && q == q[..n] + [q[n]];
    ProductStep(g, q[..n], q[n], p[..n], p[n..]);
    assert Sum(p[n..] + [0], Times(q[n], [1] + g))[0] == Flip(p[n], q[n]);
  }

  /** A check value is right exactly when message and check value together are a
      multiple of the generator. */
  lemma RemainderIff(g: Generator, message: seq<bit>, check: seq<bit>)
    requires |check| == |g|
    ensures check == Remainder(g, message)
       <==> exists q: seq<bit> :: |q| == |message| && Product(g, q) == message + check
  {
    hide Product, Quotient, Register;
    DivisionExact(g, message);
    if q: seq<bit> :| |q| == |message| && Product(g, q) == message + check {
      MultiplesAgree(g, message, check, q);
    }
  }

  lemma MultiplesAgree(g: Generator, message: seq<bit>, check: seq<bit>, q: seq<bit>)
    requires |check| == |g| && |q| == |message| && Product(g, q) == message + check
    ensures check == Remainder(g, message)
  {
    hide Product, Quotient, Register;
    DivisionExact(g, message);
    var exact := message + Remainder(g, message);
    assert (message + check)[..|message|] == message == exact[..|message|];
    ProductDetermined(g, q, Quotient(g, message));
    assert (message + check)[|message|..] == check && exact[|message|..] == Remainder(g, message);
  }

  lemma {:induction false} ProductOfShift(g: Generator, q: seq<bit>, n: nat)
    ensures Product(g, q + Zeros(n)) == Product(g, q) + Zeros(n)
    decreases n
  {
    hide Sum, Product;
    if n == 0 {
      assert q + Zeros(0) == q && Product(g, q) + Zeros(0) == Product(g, q);
    } else {
      ProductOfShift(g, q, n - 1);
      var shifted := q + Zeros(n - 1);
      var p := Product(g, q) + Zeros(n - 1);
      var m := |shifted|;
      assert q + Zeros(n) == shifted + [0];
      assert p == p[..m] + p[m..];
      ProductStep(g, shifted, 0, p[..m], p[m..]);
      SumZero(p[m..] + [0]);
      assert p[..m] + (p[m..] + [0]) == Product(g, q) + Zeros(n);
    }
  }

  lemma SumZero(a: seq<bit>)
    ensures Sum(a, Zeros(|a|)) == a
  {
  }

  // ---------------------------------------------------------------- What a check detects

  /** One step loses nothing: its result and its bit give back the register. */
  lemma ShiftedTail(g: Generator, s: seq<bit>, t: seq<bit>, a: bit, b: bit, keep: nat)
    requires |s| == |t| == |g| && keep < |g|
    requires Shifted(g, s, a)[keep..] == Shifted(g, t, b)[keep..]
    ensures Feedback(s, a) == Feedback(t, b) && s[keep + 1..] == t[keep + 1..]
  {
    var last := |g| - 1;
    var x, y := Shifted(g, s, a), Shifted(g, t, b);
    assert x[keep..][last - keep] == x[last] && y[keep..][last - keep] == y[last];
    assert x[last] == Feedback(s, a) && y[last] == Feedback(t, b);
    forall k | keep + 1 <= k < |g|
      ensures s[k] == t[k]
    {
      assert x[keep..][k - 1 - keep] == x[k - 1] && y[keep..][k - 1 - keep] == y[k - 1];
      assert (s[1..] + [0])[k - 1] == s[k] && (t[1..] + [0])[k - 1] == t[k];
    }
  }

  /** Equal registers after at most `w` bits agree on the first feedback bit, and the
      registers before agree beyond the bits shifted out. */
  lemma {:induction false} RunTail(g: Generator, s: seq<bit>, t: seq<bit>, a: seq<bit>, b: seq<bit>)
    requires |s| == |t| == |g| && |a| == |b| <= |g| && Register(g, s, a) == Register(g, t, b)
    ensures s[|a|..] == t[|a|..]
    ensures a != [] ==> Feedback(s, a[0]) == Feedback(t, b[0])
    decreases |a|
  {
    hide Shifted;
    if a == [] {
    } else {
      RunTail(g, Shifted(g, s, a[0]), Shifted(g, t, b[0]), a[1..], b[1..]);
      ShiftedTail(g, s, t, a[0], b[0], |a| - 1);
    }
  }

  lemma {:induction false} ShortRunsDiffer(g: Generator, s: seq<bit>, a: seq<bit>, b: seq<bit>)
    requires |s| == |g| && |a| == |b| <= |g| && Register(g, s, a) == Register(g, s, b)
    ensures a == b
    decreases |a|
  {
    hide Shifted;
    if a == [] {
    } else {
      RunTail(g, s, s, a, b);
      ShortRunsDiffer(g, Shifted(g, s, a[0]), a[1..], b[1..]);
      assert a == [a[0]] + a[1..] && b == [b[0]] + b[1..];
    }
  }

  lemma {:induction false} RunInjective(g: Generator, s: seq<bit>, t: seq<bit>, c: seq<bit>)
    requires |s| == |t| == |g| && Register(g, s, c) == Register(g, t, c)
    ensures s == t
    decreases |c|
  {
    hide Shifted;
    if c == [] {
    } else {
      RunInjective(g, Shifted(g, s, c[0]), Shifted(g, t, c[0]), c[1..]);
      ShiftedTail(g, s, t, c[0], c[0], 0);
      assert s == [s[0]] + s[1..] && t == [t[0]] + t[1..];
    }
  }

  /** A burst of errors no longer than the check value always changes it. */
  lemma BurstDetected(g: Generator, before: seq<bit>, a: seq<bit>, b: seq<bit>, after: seq<bit>)
    requires |a| == |b| <= |g| && a != b
    ensures Remainder(g, before + a + after) != Remainder(g, before + b + after)
  {
    hide Register;
    var zero := Zeros(|g|);
    RegisterAppend(g, zero, before + a, after);
    RegisterAppend(g, zero, before + b, after);
    RegisterAppend(g, zero, before, a);
    RegisterAppend(g, zero, before, b);
    if Remainder(g, before + a + after) == Remainder(g, before + b + after) {
      RunInjective(g, Register(g, zero, before + a), Register(g, zero, before + b), after);
      ShortRunsDiffer(g, Register(g, zero, before), a, b);
    }
  }

  /** A message followed by its check value leaves the register at zero, and no other
      check value does. */
  lemma ResidueIff(g: Generator, message: seq<bit>, check: seq<bit>)
    requires |check| == |g|
    ensures Remainder(g, message + check) == Zeros(|g|) <==> check == Remainder(g, message)
  {
    hide Register, Product, Quotient;
    var right := Remainder(g, message);
    var q := Quotient(g, message) + Zeros(|g|);
    DivisionExact(g, message);
    ProductOfShift(g, Quotient(g, message), |g|);
    MultiplesAgree(g, message + right, Zeros(|g|), q);
    if Remainder(g, message + check) == Zeros(|g|) {
      RegisterAppend(g, Zeros(|g|), message, check);
      RegisterAppend(g, Zeros(|g|), message, right);
      ShortRunsDiffer(g, right, check, right);
    }
  }

  // ---------------------------------------------------------------- Registers as numbers

  /** The generator `x^width + poly`. */
  function GeneratorOf(width: nat, poly: nat): Generator
    requires width >= 1 && poly % 2 == 1
  {
    NatBits(poly, width)
  }

  lemma {:induction false} BitsOfXor(a: nat, b: nat, width: nat)
    ensures NatBits(BitXor(a, b), width) == Sum(NatBits(a, width), NatBits(b, width))
    decreases width
  {
    if width == 0 {
    } else {
      BitsOfXor(a / 2, b / 2, width - 1);
      assert BitXor(a, b) / 2 == BitXor(a / 2, b / 2);
      assert BitXor(a, b) % 2 == Flip(a % 2, b % 2);
    }
  }

  /** `value << 1`, cut to the width, drops the leading bit. */
  lemma BitsOfDouble(value: nat, width: nat)
    requires width >= 1
    ensures NatBits(2 * value % Pow2(width), width) == NatBits(value, width)[1..] + [0]
  {
    ValueOfNat(2 * value, width);
    NatOfValue(NatBits(2 * value, width));
    NatBitsSuffix(value, width, width - 1);
  }

  /** `(n >> (width - 1 - k)) & 1` is the bit `k` places from the front. */
  lemma {:induction false} BitAt(n: nat, width: nat, k: nat)
    requires k < width
    ensures NatBits(n, width)[k] == n / Pow2(width - 1 - k) % 2
    decreases width
  {
    if k < width - 1 {
      BitAt(n / 2, width - 1, k);
      DivDiv(n, 2, Pow2(width - 2 - k));
    }
  }

  lemma {:induction false} BitsOfShift(value: nat, width: nat, shift: nat)
    ensures NatBits(value * Pow2(shift), width + shift) == NatBits(value, width) + Zeros(shift)
    decreases shift
  {
    if shift == 0 {
      assert NatBits(value, width) + Zeros(0) == NatBits(value, width);
    } else {
      BitsOfShift(value, width, shift - 1);
      assert value * Pow2(shift) == 2 * (value * Pow2(shift - 1));
    }
  }

  function Flagged(flag: bool, poly: nat): nat { if flag then poly else 0 }

  lemma BitsOfFlagged(flag: bool, poly: nat, width: nat)
    ensures NatBits(Flagged(flag, poly), width) == Times(if flag then 1 else 0, NatBits(poly, width))
  {
    if !flag {
      BitsOfShift(0, 0, width);
      assert NatBits(0, 0) + Zeros(width) == Zeros(width);
    }
  }

  lemma {:induction false} XorBound(a: nat, b: nat, width: nat)
    requires a < Pow2(width) && b < Pow2(width)
    ensures BitXor(a, b) < Pow2(width)
    decreases width
  {
    if width > 0 && a > 0 && b > 0 {
      XorBound(a / 2, b / 2, width - 1);
    }
  }

  /** A register narrower than its width is the number its bits spell. */
  lemma ValueOfRegister(value: nat, width: nat)
    requires value < Pow2(width)
    ensures Value(NatBits(value, width)) == value
  {
    ValueOfNat(value, width);
    DivModUnique(value, Pow2(width), 0, value);
  }

  /** The check value of a byte string. */
  function CrcOf(width: nat, poly: nat, data: seq<byte>): nat
    requires width >= 1 && poly % 2 == 1
  {
    Value(Remainder(GeneratorOf(width, poly), Bits(data)))
  }

  // ---------------------------------------------------------------- The engine's bit step

  /** One bit of the CRC8 and CRC16 instructions. */
  function SerialStep(width: nat, poly: nat, crc: nat, b: bit): nat
    requires width >= 1
  {
    BitXor(2 * crc % Pow2(width), Flagged(crc / Pow2(width - 1) % 2 != b, poly))
  }

  lemma SerialStepShifts(width: nat, poly: nat, crc: nat, b: bit)
    requires width >= 1 && poly % 2 == 1 && poly < Pow2(width)
    ensures SerialStep(width, poly, crc, b) < Pow2(width)
    ensures NatBits(SerialStep(width, poly, crc, b), width) == Shifted(GeneratorOf(width, poly), NatBits(crc, width), b)
  {
    hide NatBits, BitXor;
    var flag := crc / Pow2(width - 1) % 2 != b;
    BitsOfXor(2 * crc % Pow2(width), Flagged(flag, poly), width);
    BitsOfDouble(crc, width);
    BitsOfFlagged(flag, poly, width);
    BitAt(crc, width, 0);
    XorBound(2 * crc % Pow2(width), Flagged(flag, poly), width);
  }

  /** The CRC8 and CRC16 instructions: one byte, bit by bit. Both operands are cut to
      their widths first. */
  method SerialByte(width: nat, poly: nat, src0: nat, src1: nat) returns (crc: nat)
    requires width >= 1 && poly % 2 == 1 && poly < Pow2(width)
    ensures crc == Value(Register(GeneratorOf(width, poly), NatBits(src0, width), NatBits(src1, 8)))
    ensures NatBits(crc, width) == Register(GeneratorOf(width, poly), NatBits(src0, width), NatBits(src1, 8))
  {
    hide NatBits, SerialStep, Shifted, Value;
    crc := LowBits(src0, width);
    var data := LowBits(src1, 8);
    ghost var g, bits := GeneratorOf(width, poly), NatBits(data, 8);
    BitsOfLow(src0, width);
    BitsOfLow(src1, 8);
    ghost var goal := Register(g, NatBits(crc, width), bits);
    assert bits[0..] == bits;
    for k := 0 to 8
      invariant crc < Pow2(width) && Register(g, NatBits(crc, width), bits[k..]) == goal
    {
      var b: bit := data / Pow2(7 - k) % 2;
      assert b == bits[k] by { BitAt(data, 8, k); }
      SerialStepShifts(width, poly, crc, b);
      crc := SerialStep(width, poly, crc, b);
      assert bits[k..][1..] == bits[k + 1..];
    }
    ValueOfRegister(crc, width);
  }

  /** Folding the instruction over a byte string from zero. */
  method SerialCrc(width: nat, poly: nat, data: seq<byte>) returns (crc: nat)
    requires width >= 1 && poly % 2 == 1 && poly < Pow2(width)
    ensures crc == CrcOf(width, poly, data)
  {
    hide NatBits, Register, Bits, Value;
    crc := 0;
    ghost var g := GeneratorOf(width, poly);
    NothingRead(width, poly);
    ValueOfRegister(0, width);
    assert data[..0] == [];
    for k := 0 to |data|
      invariant NatBits(crc, width) == Remainder(g, Bits(data[..k]))
      invariant crc == CrcOf(width, poly, data[..k])
    {
      RemainderByte(g, data, k);
      crc := SerialByte(width, poly, crc, data[k]);
    }
    assert data[..|data|] == data;
  }

  lemma NothingRead(width: nat, poly: nat)
    requires width >= 1 && poly % 2 == 1
    ensures NatBits(0, width) == Remainder(GeneratorOf(width, poly), Bits([]))
  {
    BitsOfFlagged(false, poly, width);
  }

  lemma RemainderByte(g: Generator, data: seq<byte>, k: nat)
    requires k < |data|
    ensures Remainder(g, Bits(data[..k + 1])) == Register(g, Remainder(g, Bits(data[..k])), NatBits(data[k], 8))
  {
    hide NatBits, Register;
    assert data[..k + 1] == data[..k] + [data[k]];
    BitsAppend(data[..k], [data[k]]);
    assert Bits([data[k]]) == NatBits(data[k], 8);
    RegisterAppend(g, Zeros(|g|), Bits(data[..k]), NatBits(data[k], 8));
  }

  // ---------------------------------------------------------------- The codec's byte step

  /** One of the eight shifts after a byte has been added to the register. */
  function ByteShift(width: nat, poly: nat, value: nat): (r: nat)
    requires width >= 1
    ensures r < Pow2(width)
  {
    BitXor(2 * value, Flagged(value / Pow2(width - 1) % 2 == 1, poly)) % Pow2(width)
  }

  /** The register after `k` bits, with the rest of the byte still on top of it. */
  ghost predicate Overlaid(g: Generator, value: nat, state: seq<bit>, rest: seq<bit>)
  {
    |state| == |g| >= |rest| && NatBits(value, |g|) == Sum(state, rest + Zeros(|g| - |rest|))
  }

  lemma BitsOfLow(value: nat, width: nat)
    ensures NatBits(LowBits(value, width), width) == NatBits(value, width)
  {
    hide NatBits;
    BitsOfMod(value, width);
    DivModUnique(value, Pow2(width), ShiftRight(value, width), LowBits(value, width));
  }

  lemma BitsOfMod(value: nat, width: nat)
    ensures NatBits(value % Pow2(width), width) == NatBits(value, width)
  {
    ValueOfNat(value, width);
    NatOfValue(NatBits(value, width));
  }

  lemma ByteShiftBits(width: nat, poly: nat, value: nat)
    requires width >= 1 && poly % 2 == 1
    ensures var bits := NatBits(value, width);
      NatBits(ByteShift(width, poly, value), width) == Sum(bits[1..] + [0], Times(bits[0], GeneratorOf(width, poly)))
  {
    hide NatBits, BitXor, Sum;
    var flag := value / Pow2(width - 1) % 2 == 1;
    BitsOfMod(BitXor(2 * value, Flagged(flag, poly)), width);
    BitsOfXor(2 * value, Flagged(flag, poly), width);
    BitsOfMod(2 * value, width);
    BitsOfDouble(value, width);
    BitsOfFlagged(flag, poly, width);
    BitAt(value, width, 0);
  }

  lemma OverlaidStep(g: Generator, width: nat, poly: nat, value: nat, state: seq<bit>, rest: seq<bit>)
    requires width >= 1 && poly % 2 == 1 && g == GeneratorOf(width, poly)
    requires rest != [] && Overlaid(g, value, state, rest)
    ensures Overlaid(g, ByteShift(width, poly, value), Shifted(g, state, rest[0]), rest[1..])
  {
    hide NatBits, ByteShift;
    ByteShiftBits(width, poly, value);
    var bits := NatBits(value, width);
    var top := rest + Zeros(width - |rest|);
    var next := rest[1..] + Zeros(width - |rest| + 1);
    assert bits[0] == Feedback(state, rest[0]);
    forall k | 0 <= k < width
      ensures Sum(bits[1..] + [0], Times(bits[0], g))[k] == Sum(Shifted(g, state, rest[0]), next)[k]
    {
      assert next[k] == if k < width - 1 then top[k + 1] else 0;
    }
  }

  /** `crc8` and `crc16`: each byte is added to the register, then shifted out. */
  method ByteCrc(width: nat, poly: nat, data: seq<byte>) returns (value: nat)
    requires width >= 8 && poly % 2 == 1
    ensures value == CrcOf(width, poly, data)
  {
    hide NatBits, Register, Bits, ByteShift, Shifted, Overlaid, BitXor, Value;
    value := 0;
    ghost var g := GeneratorOf(width, poly);
    NothingRead(width, poly);
    assert data[..0] == [];
    for k := 0 to |data|
      invariant value < Pow2(width) && NatBits(value, width) == Remainder(g, Bits(data[..k]))
    {
      RemainderByte(g, data, k);
      ghost var state, rest := NatBits(value, width), NatBits(data[k], 8);
      ghost var goal := Register(g, state, rest);
      OverlaidStart(width, poly, value, data[k]);
      value := BitXor(value, data[k] * Pow2(width - 8));
      for j := 0 to 8
        invariant |rest| == 8 - j && |state| == width && (j > 0 ==> value < Pow2(width))
        invariant Overlaid(g, value, state, rest) && Register(g, state, rest) == goal
      {
        OverlaidStep(g, width, poly, value, state, rest);
        RegisterStep(g, state, rest);
        state, rest := Shifted(g, state, rest[0]), rest[1..];
        value := ByteShift(width, poly, value);
      }
      OverlaidEnd(g, value, state);
    }
    assert data[..|data|] == data;
    ValueOfRegister(value, width);
  }

  /** `crc8` */
  method Crc8(data: seq<byte>) returns (value: nat)
    ensures value == CrcOf(8, 0x07, data)
  {
    value := ByteCrc(8, 0x07, data);
  }

  /** `crc16` */
  method Crc16(data: seq<byte>) returns (value: nat)
    ensures value == CrcOf(16, 0x8005, data)
  {
    value := ByteCrc(16, 0x8005, data);
  }

  lemma OverlaidStart(width: nat, poly: nat, value: nat, data: byte)
    requires width >= 8 && poly % 2 == 1
    ensures Overlaid(GeneratorOf(width, poly), BitXor(value, data * Pow2(width - 8)), NatBits(value, width),
      NatBits(data, 8))
  {
    hide NatBits, BitXor, Pow2, Sum;
    MulNonNegative(data, Pow2(width - 8));
    var placed: nat := data * Pow2(width - 8);
    BitsOfShift(data, 8, width - 8);
    assert 8 + (width - 8) == width;
    BitsOfXor(value, placed, width);
  }

  lemma RegisterStep(g: Generator, state: seq<bit>, rest: seq<bit>)
    requires |state| == |g| && rest != []
    ensures Register(g, state, rest) == Register(g, Shifted(g, state, rest[0]), rest[1..])
  {
  }

  lemma OverlaidEnd(g: Generator, value: nat, state: seq<bit>)
    requires Overlaid(g, value, state, [])
    ensures NatBits(value, |g|) == Register(g, state, [])
  {
    assert [] + Zeros(|g|) == Zeros(|g|);
    SumZero(state);
  }

  // ---------------------------------------------------------------- Byte strings

  lemma BitsInjective(a: seq<byte>, b: seq<byte>)
    requires |a| == |b| && Bits(a) == Bits(b)
    ensures a == b
  {
    hide NatBits, Bits;
    forall k | 0 <= k < |a|
      ensures a[k] == b[k]
    {
      BitsOfByte(a, k);
      BitsOfByte(b, k);
      ByteOfBits(a[k]);
      ByteOfBits(b[k]);
    }
  }

  lemma ByteOfBits(b: byte)
    ensures Value(NatBits(b, 8)) == b
  {
    ValueOfNat(b, 8);
  }

  lemma ValueInjective(a: seq<bit>, b: seq<bit>)
    requires |a| == |b| && Value(a) == Value(b)
    ensures a == b
  {
    NatOfValue(a);
    NatOfValue(b);
  }

  /** A string followed by its check value has check value zero, and by no other. */
  lemma CrcResidueIff(width: nat, poly: nat, data: seq<byte>, check: seq<byte>)
    requires poly % 2 == 1 && 8 * |check| == width && width >= 8
    ensures CrcOf(width, poly, data + check) == 0 <==> Value(Bits(check)) == CrcOf(width, poly, data)
  {
    hide NatBits, Register, Bits, Value;
    var g := GeneratorOf(width, poly);
    BitsAppend(data, check);
    ResidueIff(g, Bits(data), Bits(check));
    NothingRead(width, poly);
    ValueOfRegister(0, width);
    RegisterOfNothing(g);
    if Value(Bits(check)) == CrcOf(width, poly, data) {
      ValueInjective(Bits(check), Remainder(g, Bits(data)));
    }
    if CrcOf(width, poly, data + check) == 0 {
      ValueInjective(Remainder(g, Bits(data + check)), NatBits(0, width));
    }
  }

  lemma RegisterOfNothing(g: Generator)
    ensures Remainder(g, Bits([])) == Zeros(|g|)
  {
  }

  /** Strings that differ only within as many bytes as the check value has never share it. */
  lemma CrcDetects(width: nat, poly: nat, before: seq<byte>, a: seq<byte>, b: seq<byte>, after: seq<byte>)
    requires width >= 1 && poly % 2 == 1
    requires |a| == |b| && 8 * |a| <= width && a != b
    ensures CrcOf(width, poly, before + a + after) != CrcOf(width, poly, before + b + after)
  {
    hide NatBits, Register, Bits, Value;
    var g := GeneratorOf(width, poly);
    BitsAppend(before + a, after);
    BitsAppend(before, a);
    BitsAppend(before + b, after);
    BitsAppend(before, b);
    if Bits(a) == Bits(b) {
      BitsInjective(a, b);
    }
    BurstDetected(g, Bits(before), Bits(a), Bits(b), Bits(after));
    var x, y := Remainder(g, Bits(before + a + after)), Remainder(g, Bits(before + b + after));
    if Value(x) == Value(y) {
      ValueInjective(x, y);
    }
  }

  /** Changing one byte changes both check values. */
  lemma OneByteDetected(data: seq<byte>, k: nat, other: byte)
    requires k < |data| && other != data[k]
    ensures CrcOf(8, 0x07, data[k := other]) != CrcOf(8, 0x07, data)
    ensures CrcOf(16, 0x8005, data[k := other]) != CrcOf(16, 0x8005, data)
  {
    hide CrcOf;
    var before, after := data[..k], data[k + 1..];
    assert data == before + [data[k]] + after && data[k := other] == before + [other] + after;
    assert [data[k]] != [other] by { assert [data[k]][0] != [other][0]; }
    CrcDetects(8, 0x07, before, [other], [data[k]], after);
    CrcDetects(16, 0x8005, before, [other], [data[k]], after);
  }
}
