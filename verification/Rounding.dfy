/** Division by a power of two, rounded to nearest with ties to even, as every
    fixed-point stage of the system does it. */
module Rounding {
  import opened Common
  import opened Arithmetic

  /** The quotient of a magnitude, rounded to nearest, ties to even. */
  function RoundMagnitude(magnitude: int, divisor: int): (q: int)
    requires magnitude >= 0 && divisor > 0
    ensures q >= 0
  {
    DivNonNegative(magnitude, divisor);
    var quotient, remainder := magnitude / divisor, magnitude % divisor;
    if 2 * remainder > divisor || (2 * remainder == divisor && quotient % 2 == 1) then quotient + 1 else quotient
  }

  /** `rne` and `rne_shift` */
  function RneShift(value: int, shift: nat): int {
    if shift == 0 then value
    else if value < 0 then -RoundMagnitude(-value, Pow2(shift))
    else RoundMagnitude(value, Pow2(shift))
  }

  /** The rounded quotient is within half a unit, and even when exactly half way. */
  lemma RoundSpec(magnitude: int, divisor: int)
    requires magnitude >= 0 && divisor > 0
    ensures var q := RoundMagnitude(magnitude, divisor);
      && -divisor <= 2 * (q * divisor - magnitude) <= divisor
      && (2 * (q * divisor - magnitude) == divisor || 2 * (q * divisor - magnitude) == -divisor ==> q % 2 == 0)
  {
    DivModFacts(magnitude, divisor);
    var quotient := magnitude / divisor;
    Distribute(quotient, 1, divisor);
  }

  /** The specification determines the result. */
  lemma RoundUnique(magnitude: int, divisor: int, q: int)
    requires magnitude >= 0 && divisor > 0
    requires -divisor <= 2 * (q * divisor - magnitude) <= divisor
    requires 2 * (q * divisor - magnitude) == divisor || 2 * (q * divisor - magnitude) == -divisor ==> q % 2 == 0
    ensures q == RoundMagnitude(magnitude, divisor)
  {
    hide RoundMagnitude;
    RoundSpec(magnitude, divisor);
    var r := RoundMagnitude(magnitude, divisor);
    if q < r {
      MulStrict(q, r, divisor);
      if q + 1 < r {
        MulStrict(q + 1, r, divisor);
        Distribute(q, 1, divisor);
      }
    } else if r < q {
      MulStrict(r, q, divisor);
      if r + 1 < q {
        MulStrict(r + 1, q, divisor);
        Distribute(r, 1, divisor);
      }
    }
  }

  /** `q` is `n / d` rounded to nearest, ties to even. */
  predicate NearestEven(n: int, d: int, q: int) {
    -d <= 2 * (q * d - n) <= d && (2 * (q * d - n) == d || 2 * (q * d - n) == -d ==> q % 2 == 0)
  }

  /** Rounding by a shift is rounding of the signed quotient. */
  lemma RneNearest(value: int, shift: nat)
    requires shift >= 1
    ensures NearestEven(value, Pow2(shift), RneShift(value, shift))
  {
    hide RoundMagnitude, Pow2;
    var d := Pow2(shift);
    if value < 0 {
      RoundSpec(-value, d);
      NearestNegated(-value, d, RoundMagnitude(-value, d));
    } else {
      RoundSpec(value, d);
    }
  }

  lemma NearestNegated(n: int, d: int, q: int)
    requires NearestEven(n, d, q)
    ensures NearestEven(-n, d, -q)
  {
    assert (-q) * d == -(q * d);
  }

  lemma RoundMonotone(a: int, b: int, divisor: int)
    requires divisor > 0 && 0 <= a <= b
    ensures RoundMagnitude(a, divisor) <= RoundMagnitude(b, divisor)
  {
    hide RoundMagnitude;
    RoundSpec(a, divisor);
    RoundSpec(b, divisor);
    var p, q := RoundMagnitude(a, divisor), RoundMagnitude(b, divisor);
    if q < p {
      MulStrict(q, p, divisor);
    }
  }

  /** Multiples are not rounded. */
  lemma RoundExact(q: int, divisor: int)
    requires divisor > 0 && q >= 0 && q * divisor >= 0
    ensures RoundMagnitude(q * divisor, divisor) == q
  {
    RoundUnique(q * divisor, divisor, q);
  }

  lemma RneError(value: int, shift: nat)
    requires shift >= 1
    ensures 2 * Abs(RneShift(value, shift) * Pow2(shift) - value) <= Pow2(shift)
  {
    hide RoundMagnitude;
    var d := Pow2(shift);
    if value < 0 {
      RoundSpec(-value, d);
      var q := RoundMagnitude(-value, d);
      assert (-q) * d == -(q * d);
    } else {
      RoundSpec(value, d);
    }
  }

  lemma RneExact(q: int, shift: nat)
    ensures RneShift(q * Pow2(shift), shift) == q
  {
    hide RoundMagnitude;
    var d := Pow2(shift);
    if shift > 0 {
      if q < 0 {
        MulStrict(q, 0, d);
        assert (-q) * d == -(q * d);
        RoundExact(-q, d);
      } else {
        MulNonNegative(q, d);
        RoundExact(q, d);
      }
    }
  }

  lemma RneMonotone(a: int, b: int, shift: nat)
    requires a <= b
    ensures RneShift(a, shift) <= RneShift(b, shift)
  {
    hide RoundMagnitude;
    if shift > 0 {
      if a >= 0 {
        RoundMonotone(a, b, Pow2(shift));
      } else if b < 0 {
        RoundMonotone(-b, -a, Pow2(shift));
      }
    }
  }
}
