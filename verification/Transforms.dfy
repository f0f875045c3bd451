/** The rounded radix-2 transform, by recursion: decimation in time with Q2.30 twiddles and
    a halving in every butterfly. */
module Transforms {
  import opened Common
  import opened Arithmetic
  import opened Rounding
  import opened ComplexNumbers

  const POINTS: nat := 512
  const UNIT: int := 0x4000_0000

  // ---------------------------------------------------------------- The butterfly

  /** One rounded complex multiplication by a Q2.30 twiddle. */
  function Twist(z: Complex, w: Complex): Complex {
    Complex(RneShift(Times(z, w).re, 30), RneShift(Times(z, w).im, 30))
  }

  function Halve(z: Complex): Complex { Complex(RneShift(z.re, 1), RneShift(z.im, 1)) }

  /** The two outputs of a butterfly. */
  function Upper(left: Complex, right: Complex, w: Complex): Complex { Halve(Plus(left, Twist(right, w))) }

  function Lower(left: Complex, right: Complex, w: Complex): Complex { Halve(Minus(left, Twist(right, w))) }

  /** A multiplication by a twiddle of modulus at most 2^30 + 1 grows the modulus by
      less than two. */
  lemma TwistWithin(z: Complex, w: Complex, bound: int)
    requires 0 <= bound <= 0x4800_0000 && Within(z, bound) && Within(w, UNIT + 1)
    ensures Within(Twist(z, w), bound + 2)
  {
    hide RneShift;
    var exact, twist := Times(z, w), Twist(z, w);
    Pow2Literals();
    RneError(exact.re, 30);
    RneError(exact.im, 30);
    var error := Minus(Scale(twist, UNIT), exact);
    SmallWithin(error, 0x2000_0000, 0x3000_0000);
    TimesWithin(z, w, bound, UNIT + 1);
    Triangle(exact, error, bound * (UNIT + 1), 0x3000_0000);
    assert Plus(exact, error) == Scale(twist, UNIT);
    WithinMonotone(Scale(twist, UNIT), bound * (UNIT + 1) + 0x3000_0000, UNIT * (bound + 2));
    Unscale(twist, UNIT, bound + 2);
  }

  lemma HalveWithin(z: Complex, bound: int)
    requires bound >= 0 && Within(z, 2 * bound)
    ensures Within(Halve(z), bound + 1)
  {
    hide RneShift;
    assert Pow2(1) == 2;
    RneError(z.re, 1);
    RneError(z.im, 1);
    var error := Minus(Scale(Halve(z), 2), z);
    SmallWithin(error, 1, 2);
    Triangle(z, error, 2 * bound, 2);
    assert Plus(z, error) == Scale(Halve(z), 2);
    Unscale(Halve(z), 2, bound + 1);
  }

  /** One butterfly grows the modulus by at most two, and every intermediate value
      stays inside the signed 32-bit range. */
  lemma ButterflyWithin(left: Complex, right: Complex, w: Complex, bound: int)
    requires 0 <= bound <= 0x4800_0000 && Within(left, bound) && Within(right, bound) && Within(w, UNIT + 1)
    ensures Within(Upper(left, right, w), bound + 2) && Within(Lower(left, right, w), bound + 2)
    ensures InS32(Twist(right, w).re) && InS32(Twist(right, w).im)
    ensures InS32(Upper(left, right, w).re) && InS32(Upper(left, right, w).im)
    ensures InS32(Lower(left, right, w).re) && InS32(Lower(left, right, w).im)
  {
    hide Twist, Halve, Within;
    var twist := Twist(right, w);
    TwistWithin(right, w, bound);
    WithinParts(twist, bound + 2);
    Triangle(left, twist, bound, bound + 2);
    HalveWithin(Plus(left, twist), bound + 1);
    WithinParts(Upper(left, right, w), bound + 2);
    NegateWithin(twist, bound + 2);
    Triangle(left, Negate(twist), bound, bound + 2);
    assert Plus(left, Negate(twist)) == Minus(left, twist);
    HalveWithin(Minus(left, twist), bound + 1);
    WithinParts(Lower(left, right, w), bound + 2);
  }

  // ---------------------------------------------------------------- The recursive transform

  function Evens(x: seq<Complex>): (r: seq<Complex>)
    ensures |r| == (|x| + 1) / 2
  {
    seq((|x| + 1) / 2, k requires 0 <= k < (|x| + 1) / 2 => x[2 * k])
  }

  function Odds(x: seq<Complex>): (r: seq<Complex>)
    ensures |r| == |x| / 2
  {
    seq(|x| / 2, k requires 0 <= k < |x| / 2 => x[2 * k + 1])
  }

  /** The twiddle factors of half a turn. */
  type Table = w: seq<Complex> | |w| >= POINTS / 2 witness seq(POINTS / 2, _ => ZERO)

  /** The twiddle a butterfly of a block of `2 * half` points uses. */
  function TwiddleAt(w: Table, half: nat, j: nat): Complex
    requires j < half
  {
    TwiddleInTable(half, j);
    w[POINTS / (2 * half) * j]
  }

  lemma TwiddleInTable(half: nat, j: nat)
    requires j < half
    ensures 0 <= POINTS / (2 * half) * j < POINTS / 2
  {
    var step := POINTS / (2 * half);
    DivModFacts(POINTS, 2 * half);
    DivNonNegative(POINTS, 2 * half);
    MulNonNegative(step, j);
    Associate(step, 2, half);
    if step == 0 {
    } else {
      MulStrict(j, half, step);
      assert j * step == step * j && half * step == step * half;
    }
  }

  /** Merges the transforms of the even and of the odd points. */
  function Combine(a: seq<Complex>, b: seq<Complex>, w: Table): (r: seq<Complex>)
    requires |a| == |b| > 0
    ensures |r| == 2 * |a|
  {
    var n := |a|;
    seq(n, j requires 0 <= j < n => Upper(a[j], b[j], TwiddleAt(w, n, j)))
    + seq(n, j requires 0 <= j < n => Lower(a[j], b[j], TwiddleAt(w, n, j)))
  }

  /** Decimation in time, by recursion. */
  function Transform(x: seq<Complex>, w: Table, level: nat): (r: seq<Complex>)
    requires |x| == Pow2(level)
    ensures |r| == |x|
    decreases level
  {
    if level == 0 then x
    else Combine(Transform(Evens(x), w, level - 1), Transform(Odds(x), w, level - 1), w)
  }

  lemma TransformSplits(x: seq<Complex>, w: Table, level: nat)
    requires |x| == Pow2(level)
    ensures level == 0 ==> Transform(x, w, level) == x
    ensures level > 0 ==>
      && |Evens(x)| == |Odds(x)| == Pow2(level - 1) > 0
      && Transform(x, w, level)
         == Combine(Transform(Evens(x), w, level - 1), Transform(Odds(x), w, level - 1), w)
  {
    hide Combine, Evens, Odds;
  }
}
