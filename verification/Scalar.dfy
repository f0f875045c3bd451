/** What the scalar instructions mean, bit by bit and as numbers: the registers hold
    32-bit words, and every result is cut to 32 bits. */
module Scalar {
  import opened Common
  import opened Arithmetic
  import opened BitStream
  import opened Isa
  import opened Transport
  import opened Machine
  import opened Crc

  /** The word an instruction writes. */
  function Outcome32(i: Instruction, a: word, b: word): word { ToWord(Alu(i, a, b)) }

  function WordBits(w: word): (bits: seq<bit>)
    ensures |bits| == 32
  {
    NatBits(w, 32)
  }

  /** The bitwise operators act on each bit. */
  function Combined(opcode: nat, x: bit, y: bit): bit {
    if opcode == AND then (if x == 1 && y == 1 then 1 else 0)
    else if opcode == OR then (if x == 1 || y == 1 then 1 else 0)
    else Flip(x, y)
  }

  function Bitwise(opcode: nat, a: nat, b: nat): nat {
    if opcode == AND then BitAnd(a, b) else if opcode == OR then BitOr(a, b) else BitXor(a, b)
  }

  lemma {:induction false} BitwiseBits(opcode: nat, a: nat, b: nat, width: nat, k: nat)
    requires k < width
    ensures NatBits(Bitwise(opcode, a, b), width)[k] == Combined(opcode, NatBits(a, width)[k], NatBits(b, width)[k])
    decreases width
  {
    assert Bitwise(opcode, a, b) / 2 == Bitwise(opcode, a / 2, b / 2);
    assert Bitwise(opcode, a, b) % 2 == Combined(opcode, a % 2, b % 2);
    if k < width - 1 {
      BitwiseBits(opcode, a / 2, b / 2, width - 1, k);
    }
  }

  lemma BitsOfCut(value: nat)
    ensures NatBits(ToWord(value), 32) == NatBits(value, 32)
  {
    Pow2Literals();
    BitsOfMod(value, 32);
  }

  lemma LogicMeaning(i: Instruction, a: word, b: word, k: nat)
    requires i.opcode in {AND, OR, XOR} && k < 32
    ensures WordBits(Outcome32(i, a, b))[k] == Combined(i.opcode, WordBits(a)[k], WordBits(b)[k])
  {
    hide NatBits, BitAnd, BitOr, BitXor;
    BitwiseBits(i.opcode, a, b, 32, k);
    BitsOfCut(Bitwise(i.opcode, a, b));
  }

  /** A left shift moves every bit towards the front and fills with zeros. */
  lemma ShiftLeftMeaning(i: Instruction, a: word, b: word, k: nat)
    requires i.opcode == SHL && k < 32
    ensures WordBits(Outcome32(i, a, b))[k] == if k + b % 32 < 32 then WordBits(a)[k + b % 32] else 0
  {
    hide NatBits, BitAnd, BitOr, BitXor, Pow2;
    var s := b % 32;
    MulNonNegative(a, Pow2(s));
    var shifted: nat := a * Pow2(s);
    BitsOfCut(shifted);
    BitsOfShift(a, 32, s);
    NatBitsSuffix(shifted, 32 + s, 32);
    assert NatBits(shifted, 32 + s)[s..][k] == NatBits(shifted, 32 + s)[s + k];
  }

  /** A right shift moves every bit towards the back and fills with zeros. */
  lemma ShiftRightMeaning(i: Instruction, a: word, b: word, k: nat)
    requires i.opcode == SHR && k < 32
    ensures WordBits(Outcome32(i, a, b))[k] == if k >= b % 32 then WordBits(a)[k - b % 32] else 0
  {
    hide NatBits, BitAnd, BitOr, BitXor, Pow2;
    var s := b % 32;
    var q := ShiftRight(a, s);
    BitsOfCut(q);
    FrontZeros(a, s, k);
  }

  lemma FrontZeros(a: word, s: nat, k: nat)
    requires s < 32 && k < 32
    ensures NatBits(ShiftRight(a, s), 32)[k] == if k >= s then NatBits(a, 32)[k - s] else 0
  {
    hide NatBits, Pow2;
    var q := ShiftRight(a, s);
    if k >= s {
      NatBitsPrefix(a, 32, s);
      NatBitsSuffix(q, 32, 32 - s);
      assert NatBits(q, 32)[s..][k - s] == NatBits(q, 32)[k];
      assert NatBits(a, 32)[..32 - s][k - s] == NatBits(a, 32)[k - s];
    } else {
      BitAt(q, 32, k);
      Small(a, s, k);
    }
  }

  /** The quotient has no bits in the freed places. */
  lemma Small(a: word, s: nat, k: nat)
    requires k < s < 32
    ensures ShiftRight(a, s) / Pow2(31 - k) == 0
  {
    var q, p, top := ShiftRight(a, s), Pow2(s), Pow2(31 - k);
    Pow2Add(s, 31 - k);
    Pow2Monotone(32, s + (31 - k));
    Pow2Literals();
    assert top * p == p * top;
    if q >= top {
      MulMonotone(top, q, p);
    }
    DivModUnique(q, top, 0, q);
  }

  /** An arithmetic shift is the signed value divided by the power of two, rounded down. */
  lemma ArithmeticShiftMeaning(i: Instruction, a: word, b: word)
    requires i.opcode == SAR
    ensures var r, p := Signed32(Outcome32(i, a, b)), Pow2(b % 32);
      r * p <= Signed32(a) < r * p + p
  {
    hide BitAnd, BitOr, BitXor, Pow2;
    var p := Pow2(b % 32);
    DivModFacts(Signed32(a), p);
    QuotientInRange(Signed32(a), p);
    S32Identity(Signed32(a) / p);
  }

  lemma QuotientInRange(value: int, p: int)
    requires InS32(value) && p >= 1
    ensures InS32(value / p)
  {
    DivModFacts(value, p);
    var r := value / p;
    if r > 0 {
      MulMonotone(1, p, r);
      assert p * r == r * p;
    } else {
      MulMonotone(1, p, -r);
      assert p * (-r) == -(r * p);
      if r < -0x8000_0000 {
        MulStrict(r, -0x8000_0000, p);
        MulMonotone(1, p, 0x8000_0000);
      }
    }
  }

  /** The range a saturation clamps to. */
  function Lowest(aux: nat): int { if aux / 0x20 % 2 == 1 then -(Pow2(Width(aux) - 1) as int) else 0 }

  function Highest(aux: nat): int { if aux / 0x20 % 2 == 1 then Pow2(Width(aux) - 1) - 1 else Pow2(Width(aux)) - 1 }

  function Width(aux: nat): (width: nat)
    ensures 1 <= width <= 32
  {
    if aux % 0x20 == 0 then 32 else aux % 0x20
  }

  /** The value of a word in the signedness the saturation works in. */
  function Read32(aux: nat, w: word): int { if aux / 0x20 % 2 == 1 then Signed32(w) else w }

  /** The limits of a range are within the words. */
  lemma LimitsFit(aux: nat)
    ensures if aux / 0x20 % 2 == 1 then -0x8000_0000 <= Lowest(aux) <= 0 <= Highest(aux) <= 0x7FFF_FFFF
      else Lowest(aux) == 0 <= Highest(aux) <= 0xFFFF_FFFF
  {
    hide Pow2;
    Pow2Literals();
    Pow2Monotone(Width(aux), 32);
    Pow2Monotone(Width(aux) - 1, 31);
  }

  /** A saturated word reads as the operand, clamped to the range. */
  lemma SaturationClamps(i: Instruction, a: word, b: word)
    requires i.opcode == SAT
    ensures Read32(i.aux, Outcome32(i, a, b)) == Min(Max(Read32(i.aux, a), Lowest(i.aux)), Highest(i.aux))
  {
    hide BitAnd, BitOr, BitXor, Pow2;
    LimitsFit(i.aux);
    var clamped := Min(Max(Read32(i.aux, a), Lowest(i.aux)), Highest(i.aux));
    assert Saturate(a, i.aux) == clamped;
  }

  /** Saturation gives the value of the range nearest to the operand. */
  lemma SaturationMeaning(i: Instruction, a: word, b: word, other: int)
    requires i.opcode == SAT && Lowest(i.aux) <= other <= Highest(i.aux)
    ensures var r := Read32(i.aux, Outcome32(i, a, b));
      && Lowest(i.aux) <= r <= Highest(i.aux)
      && Abs(r - Read32(i.aux, a)) <= Abs(other - Read32(i.aux, a))
  {
    hide Outcome32, Lowest, Highest, Read32;
    LimitsFit(i.aux);
    SaturationClamps(i, a, b);
  }
}
