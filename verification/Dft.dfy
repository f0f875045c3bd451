/** The rounded transform is the discrete Fourier transform up to rounding: every bin
    lies within 27 units of the sum over the points, each times its root of unity. */
module Dft {
  import opened Common
  import opened Arithmetic
  import opened Rounding
  import opened ComplexNumbers
  import opened Transforms

  // ---------------------------------------------------------------- Roots of unity

  /** The `m`-th power of the first root, from a table of half a turn. */
  function Root(w: Table, m: int): Complex {
    var r := m % 512;
    if r < 256 then w[r] else Negate(w[r - 256])
  }

  /** Products of two entries differ from the entry they stand for by at most three units. */
  ghost predicate Multiplies(w: Table) {
    forall a: nat, b: nat :: a < 256 && b < 256 ==>
      Within(Minus(Times(w[a], w[b]), Scale(Root(w, a + b), 0x4000_0000)), 3 * 0x4000_0000)
  }

  /** The table holds the powers of one root of unity in units of 2^-30, as precisely as
      components rounded to nearest are. */
  ghost predicate RootsOfUnity(w: Table) {
    w[0] == Complex(0x4000_0000, 0) && (forall k :: 0 <= k < |w| ==> Within(w[k], 0x4000_0001)) && Multiplies(w)
  }

  lemma RootPeriod(w: Table, m: int, turns: int)
    ensures Root(w, m + 512 * turns) == Root(w, m)
  {
    assert (m + 512 * turns) % 512 == m % 512;
  }

  lemma RootHalfTurn(w: Table, m: int)
    ensures Root(w, m + 256) == Negate(Root(w, m))
  {
    var r := m % 512;
    assert (m + 256) % 512 == if r < 256 then r + 256 else r - 256;
  }

  lemma RootWithin(w: Table, m: int)
    requires RootsOfUnity(w)
    ensures Within(Root(w, m), UNIT + 1)
  {
    hide Within, Multiplies;
    var r := m % 512;
    if r >= 256 {
      NegateWithin(w[r - 256], UNIT + 1);
    }
  }

  lemma NegateTimes(z: Complex, v: Complex)
    ensures Times(Negate(z), v) == Negate(Times(z, v)) && Times(z, Negate(v)) == Negate(Times(z, v))
  {
  }

  lemma NegateScale(z: Complex, k: int)
    ensures Scale(Negate(z), k) == Negate(Scale(z, k)) && Negate(Negate(z)) == z
  {
  }

  lemma NegateMinus(z: Complex, v: Complex)
    ensures Minus(Negate(z), Negate(v)) == Negate(Minus(z, v))
  {
  }

  /** Roots multiply, whatever the powers. */
  lemma RootsMultiply(w: Table, a: int, b: int)
    requires RootsOfUnity(w)
    ensures Within(Minus(Times(Root(w, a), Root(w, b)), Scale(Root(w, a + b), UNIT)), 3 * UNIT)
  {
    hide Within, Times, Minus, Scale, Negate, Root;
    var p, q := a % 256, b % 256;
    var sum, product := Root(w, p + q), Times(w[p], w[q]);
    var error := Minus(product, Scale(sum, UNIT));
    assert Within(error, 3 * UNIT);
    RootFold(w, a);
    RootFold(w, b);
    RootSum(w, a, b);
    NegateTimes(w[p], w[q]);
    NegateTimes(w[p], Negate(w[q]));
    NegateScale(sum, UNIT);
    NegateScale(product, UNIT);
    NegateMinus(product, Scale(sum, UNIT));
    NegateWithin(error, 3 * UNIT);
  }

  lemma RootFold(w: Table, a: int)
    ensures Root(w, a) == if a / 256 % 2 == 0 then w[a % 256] else Negate(w[a % 256])
  {
    assert a % 512 == 256 * (a / 256 % 2) + a % 256;
  }

  lemma RootSum(w: Table, a: int, b: int)
    ensures var sum := Root(w, a % 256 + b % 256);
      Root(w, a + b) == if a / 256 % 2 == b / 256 % 2 then sum else Negate(sum)
  {
    hide Root, Negate;
    var p, q, s, t := a % 256, b % 256, a / 256, b / 256;
    var turns, halves := s / 2 + t / 2, s % 2 + t % 2;
    assert a + b == p + q + 256 * halves + 512 * turns;
    RootPeriod(w, p + q + 256 * halves, turns);
    if halves == 1 {
      RootHalfTurn(w, p + q);
    } else if halves == 2 {
      RootPeriod(w, p + q, 1);
    }
  }

  // ---------------------------------------------------------------- Sums over points

  /** The first `n` points, each times the root of its index and `k`. */
  function Correlation(x: seq<Complex>, w: Table, k: int, n: nat): Complex
    requires n <= |x|
  {
    if n == 0 then ZERO
    else
      Plus(Correlation(x, w, k, n - 1), Times(x[n - 1], Root(w, (n - 1) * k)))
  }

  /** The first `n` odd points, each times the root of its index and `k`. */
  function OddPart(x: seq<Complex>, w: Table, k: int, n: nat): Complex
    requires 2 * n <= |x|
  {
    if n == 0 then ZERO
    else
      Plus(OddPart(x, w, k, n - 1), Times(x[2 * n - 1], Root(w, (2 * n - 1) * k)))
  }

  lemma PlusAssociates(a: Complex, b: Complex, c: Complex, d: Complex)
    ensures Plus(Plus(Plus(a, b), c), d) == Plus(Plus(a, c), Plus(b, d))
  {
  }

  lemma CorrelationStep(x: seq<Complex>, w: Table, k: int, n: nat)
    requires n < |x|
    ensures Correlation(x, w, k, n + 1) == Plus(Correlation(x, w, k, n), Times(x[n], Root(w, n * k)))
  {
    hide Root, Times, Plus;
  }

  lemma OddPartStep(x: seq<Complex>, w: Table, k: int, n: nat)
    requires 2 * n + 2 <= |x|
    ensures OddPart(x, w, k, n + 1) == Plus(OddPart(x, w, k, n), Times(x[2 * n + 1], Root(w, (2 * n + 1) * k)))
  {
    hide Root, Times, Plus;
    assert 2 * (n + 1) - 1 == 2 * n + 1;
  }

  /** The even points and the odd points. */
  lemma {:induction false} CorrelationSplits(x: seq<Complex>, w: Table, k: int, n: nat)
    requires 2 * n <= |x|
    ensures Correlation(x, w, k, 2 * n) == Plus(Correlation(Evens(x), w, 2 * k, n), OddPart(x, w, k, n))
    decreases n
  {
    hide Root, Times, Evens, Correlation, OddPart, Plus;
    if n == 0 {
      NothingSums(x, w, k);
    } else {
      var m := n - 1;
      CorrelationSplits(x, w, k, m);
      CorrelationStep(x, w, k, 2 * m);
      CorrelationStep(x, w, k, 2 * m + 1);
      EvenPoint(x, m);
      CorrelationStep(Evens(x), w, 2 * k, m);
      OddPartStep(x, w, k, m);
      assert (2 * m) * k == m * (2 * k);
      var even, odd := Times(x[2 * m], Root(w, (2 * m) * k)), Times(x[2 * m + 1], Root(w, (2 * m + 1) * k));
      PlusAssociates(Correlation(Evens(x), w, 2 * k, m), OddPart(x, w, k, m), even, odd);
    }
  }

  lemma NothingSums(x: seq<Complex>, w: Table, k: int)
    ensures Correlation(x, w, k, 0) == Plus(Correlation(Evens(x), w, 2 * k, 0), OddPart(x, w, k, 0))
  {
    hide Root, Times, Evens, Within;
    assert Correlation(x, w, k, 0) == ZERO && OddPart(x, w, k, 0) == ZERO;
  }

  lemma EvenPoint(x: seq<Complex>, m: nat)
    requires 2 * m + 1 < |x|
    ensures Evens(x)[m] == x[2 * m] && Odds(x)[m] == x[2 * m + 1]
  {
  }

  /** A whole turn later everything repeats. */
  lemma {:induction false} CorrelationPeriod(x: seq<Complex>, w: Table, k: int, n: nat)
    requires n <= |x|
    ensures Correlation(x, w, k + 512, n) == Correlation(x, w, k, n)
    decreases n
  {
    hide Root, Times, Plus;
    if n == 0 {
    } else {
      var m := n - 1;
      CorrelationPeriod(x, w, k, m);
      CorrelationStep(x, w, k, m);
      assert m * (k + 512) == m * k + 512 * m;
      RootPeriod(w, m * k, m);
    }
  }

  /** Half a turn later the odd part changes its sign. */
  lemma {:induction false} OddPartHalfTurn(x: seq<Complex>, w: Table, k: int, n: nat)
    requires 2 * n <= |x|
    ensures OddPart(x, w, k + 256, n) == Negate(OddPart(x, w, k, n))
    decreases n
  {
    hide Root, Times, Plus, Negate, OddPart;
    if n == 0 {
      NoOddPart(x, w, k);
      NoOddPart(x, w, k + 256);
    } else {
      var m := n - 1;
      var i := 2 * m + 1;
      OddPartHalfTurn(x, w, k, m);
      OddPartStep(x, w, k, m);
      OddPartStep(x, w, k + 256, m);
      assert i * (k + 256) == i * k + 256 + 512 * m;
      RootPeriod(w, i * k + 256, m);
      RootHalfTurn(w, i * k);
      NegateTimes(x[i], Root(w, i * k));
      NegatePlus(OddPart(x, w, k, m), Times(x[i], Root(w, i * k)));
    }
  }

  lemma NoOddPart(x: seq<Complex>, w: Table, k: int)
    ensures OddPart(x, w, k, 0) == ZERO == Negate(ZERO)
  {
    hide Root, Times;
    assert OddPart(x, w, k, 0) == ZERO;
    assert Negate(ZERO) == ZERO;
  }

  lemma NegatePlus(z: Complex, v: Complex)
    ensures Plus(Negate(z), Negate(v)) == Negate(Plus(z, v))
  {
  }

  /** A common factor comes out of the odd part up to the error of the roots. */
  lemma {:induction false} OddPartFactors(x: seq<Complex>, w: Table, k: int, n: nat, bound: nat)
    requires RootsOfUnity(w) && 2 * n <= |x| && forall i :: 0 <= i < |x| ==> Within(x[i], bound)
    ensures Within(
      Minus(Scale(OddPart(x, w, k, n), UNIT), Times(Correlation(Odds(x), w, 2 * k, n), Root(w, k))),
      n * (bound * (3 * UNIT)))
    decreases n
  {
    hide Root, Times, Plus, Minus, Scale, Within, OddPart, Correlation, RootsOfUnity, Odds;
    if n == 0 {
      NoFactor(x, w, k);
    } else {
      var m := n - 1;
      OddPartFactors(x, w, k, m, bound);
      OddPartStep(x, w, k, m);
      EvenPoint(x, m);
      CorrelationStep(Odds(x), w, 2 * k, m);
      assert m * (2 * k) + k == (2 * m + 1) * k;
      RootsMultiply(w, m * (2 * k), k);
      FactorOne(x[2 * m + 1], Root(w, m * (2 * k)), Root(w, k), Root(w, (2 * m + 1) * k), bound);
      FactorSum(OddPart(x, w, k, m), Correlation(Odds(x), w, 2 * k, m), x[2 * m + 1], Root(w, m * (2 * k)), Root(w, k),
        Root(w, (2 * m + 1) * k), m * (bound * (3 * UNIT)), bound * (3 * UNIT));
      Distribute(m, 1, bound * (3 * UNIT));
    }
  }

  lemma NoFactor(x: seq<Complex>, w: Table, k: int)
    ensures Within(Minus(Scale(OddPart(x, w, k, 0), UNIT), Times(Correlation(Odds(x), w, 2 * k, 0), Root(w, k))), 0)
  {
    hide Root, Odds;
  }

  lemma TimesAssociates(y: Complex, p: Complex, q: Complex)
    ensures Times(Times(y, p), q) == Times(y, Times(p, q))
  {
    Associate(y.re, p.re, q.re);
    Associate(y.re, p.re, q.im);
    Associate(y.im, p.im, q.re);
    Associate(y.im, p.im, q.im);
    Associate(y.re, p.im, q.re);
    Associate(y.re, p.im, q.im);
    Associate(y.im, p.re, q.re);
    Associate(y.im, p.re, q.im);
    Distribute(y.re * p.re, y.im * p.im, q.re);
    Distribute(y.re * p.re, y.im * p.im, q.im);
    Distribute(y.re * p.im, y.im * p.re, q.re);
    Distribute(y.re * p.im, y.im * p.re, q.im);
    Expand(y.re, p.re * q.re, p.im * q.im);
    Expand(y.im, p.re * q.im, p.im * q.re);
    Expand(y.re, p.re * q.im, p.im * q.re);
    Expand(y.im, p.re * q.re, p.im * q.im);
  }

  lemma Expand(a: int, b: int, c: int)
    ensures a * (b + c) == a * b + a * c && a * (b - c) == a * b - a * c
  {
  }

  lemma TimesMinus(y: Complex, p: Complex, q: Complex)
    ensures Times(y, Minus(p, q)) == Minus(Times(y, p), Times(y, q))
    ensures Times(Minus(p, q), y) == Minus(Times(p, y), Times(q, y))
  {
    Expand(y.re, p.re, q.re);
    Expand(y.im, p.im, q.im);
    Expand(y.re, p.im, q.im);
    Expand(y.im, p.re, q.re);
  }

  lemma TimesPlus(y: Complex, p: Complex, q: Complex)
    ensures Times(Plus(p, q), y) == Plus(Times(p, y), Times(q, y))
  {
    Distribute(p.re, q.re, y.re);
    Distribute(p.im, q.im, y.im);
    Distribute(p.re, q.re, y.im);
    Distribute(p.im, q.im, y.re);
  }

  lemma TimesScale(y: Complex, p: Complex, k: int)
    ensures Times(y, Scale(p, k)) == Scale(Times(y, p), k) == Times(Scale(y, k), p)
  {
    Associate(y.re, p.re, k);
    Associate(y.im, p.im, k);
    Associate(y.re, p.im, k);
    Associate(y.im, p.re, k);
    ScaledProduct(y.re, p.re, k);
    ScaledProduct(y.im, p.im, k);
    ScaledProduct(y.re, p.im, k);
    ScaledProduct(y.im, p.re, k);
    Distribute(y.re * p.re, y.im * p.im, k);
    Distribute(y.re * p.im, y.im * p.re, k);
  }

  lemma ScaledProduct(a: int, b: int, k: int)
    ensures (a * k) * b == (a * b) * k
  {
  }

  /** One term: the point times the error of the product of roots. */
  lemma FactorOne(y: Complex, p: Complex, q: Complex, pq: Complex, bound: nat)
    requires Within(y, bound) && Within(Minus(Times(p, q), Scale(pq, UNIT)), 3 * UNIT)
    ensures Within(Minus(Scale(Times(y, pq), UNIT), Times(Times(y, p), q)), bound * (3 * UNIT))
  {
    hide Times, Minus, Scale, Within;
    var error := Minus(Times(p, q), Scale(pq, UNIT));
    TimesWithin(y, error, bound, 3 * UNIT);
    TimesAssociates(y, p, q);
    TimesScale(y, pq, UNIT);
    TimesMinus(y, Times(p, q), Scale(pq, UNIT));
    NegateWithin(Times(y, error), bound * (3 * UNIT));
    MinusSwaps(Times(Times(y, p), q), Scale(Times(y, pq), UNIT));
  }

  lemma MinusSwaps(a: Complex, b: Complex)
    ensures Negate(Minus(a, b)) == Minus(b, a)
  {
  }

  /** Adding a term to the odd part and to the correlation. */
  lemma FactorSum(odd: Complex, even: Complex, y: Complex, p: Complex, q: Complex, pq: Complex, a: nat, b: nat)
    requires Within(Minus(Scale(odd, UNIT), Times(even, q)), a)
    requires Within(Minus(Scale(Times(y, pq), UNIT), Times(Times(y, p), q)), b)
    ensures Within(Minus(Scale(Plus(odd, Times(y, pq)), UNIT), Times(Plus(even, Times(y, p)), q)), a + b)
  {
    hide Times, Within;
    var term, last := Times(y, pq), Times(y, p);
    Triangle(Minus(Scale(odd, UNIT), Times(even, q)), Minus(Scale(term, UNIT), Times(last, q)), a, b);
    TimesPlus(q, even, last);
    Gather(odd, term, Times(even, q), Times(last, q));
  }

  lemma Gather(a: Complex, b: Complex, c: Complex, d: Complex)
    ensures Plus(Minus(Scale(a, UNIT), c), Minus(Scale(b, UNIT), d)) == Minus(Scale(Plus(a, b), UNIT), Plus(c, d))
  {
  }

  // ---------------------------------------------------------------- One butterfly

  /** The exact error of a butterfly, in one component: `x` of the output, `a` of the left
      input, `t` of the rounded product, `bw` and `sw` of the products with the exact
      values, `se` and `odd` of the sums the output stands for. */
  lemma ComponentError(x: int, a: int, t: int, bw: int, se: int, sw: int, odd: int, p: int)
    ensures UNIT * (x * (2 * p) - (se + odd))
      == UNIT * (a * p - se) + (bw * p - sw) - (odd * UNIT - sw) + (t * UNIT - bw) * p + (2 * x - (a + t)) * (UNIT * p)
  {
    Distribute(t * UNIT, bw, p);
    Distribute(2 * x, a + t, UNIT * p);
    Distribute(a, t, UNIT * p);
    Associate(t, UNIT, p);
    assert x * (2 * p) == 2 * (x * p) && (2 * x) * (UNIT * p) == 2 * UNIT * (x * p);
    assert a * (UNIT * p) == UNIT * (a * p) && t * (UNIT * p) == UNIT * (t * p);
  }

  /** The five contributions to the error of an output. */
  lemma ButterflySplit(
    x: Complex, a: Complex, t: Complex, bw: Complex, se: Complex, sw: Complex, odd: Complex, p: int)
    ensures Scale(Minus(Scale(x, 2 * p), Plus(se, odd)), UNIT) ==
      Plus(Plus(Plus(Scale(Minus(Scale(a, p), se), UNIT), Minus(Scale(bw, p), sw)),
                Minus(sw, Scale(odd, UNIT))),
           Plus(Scale(Minus(Scale(t, UNIT), bw), p), Scale(Minus(Scale(x, 2), Plus(a, t)), UNIT * p)))
  {
    ComponentError(x.re, a.re, t.re, bw.re, se.re, sw.re, odd.re, p);
    ComponentError(x.im, a.im, t.im, bw.im, se.im, sw.im, odd.im, p);
  }

  lemma ScaleWithin(z: Complex, k: nat, bound: int)
    requires Within(z, bound)
    ensures Within(Scale(z, k), bound * k)
  {
    ProductSquare(z.re, k);
    ProductSquare(z.im, k);
    ProductSquare(bound, k);
    Distribute(z.re * z.re, z.im * z.im, k * k);
    MulNonNegative(k, k);
    MulMonotone(z.re * z.re + z.im * z.im, bound * bound, k * k);
    MulNonNegative(bound, k);
  }

  /** If both inputs are `p` times smaller than their sums up to `e * p`, the output is
      `2 * p` times smaller than its sum up to `(e + 3) * 2 * p`, all in units of 2^-30. */
  lemma ButterflyError(
    x: Complex, a: Complex, b: Complex, t: Complex, w: Complex, se: Complex, so: Complex, odd: Complex, p: nat, e: nat)
    requires Within(w, UNIT + 1) && e <= 0x1000_0000
    requires Within(Minus(Scale(a, p), se), e * p) && Within(Minus(Scale(b, p), so), e * p)
    requires Within(Minus(Scale(odd, UNIT), Times(so, w)), p * (3 * UNIT))
    requires Within(Minus(Scale(t, UNIT), Times(b, w)), 0x3000_0000)
    requires Within(Minus(Scale(x, 2), Plus(a, t)), 2)
    ensures Within(Minus(Scale(x, 2 * p), Plus(se, odd)), (e + 3) * (2 * p))
  {
    hide Within, Times, Minus, Plus, Scale;
    var bw, sw := Times(b, w), Times(so, w);
    var da, db := Minus(Scale(a, p), se), Minus(Scale(b, p), so);
    var dt, dx := Minus(Scale(t, UNIT), bw), Minus(Scale(x, 2), Plus(a, t));
    ScaleWithin(da, UNIT, e * p);
    TimesWithin(db, w, e * p, UNIT + 1);
    TimesMinus(w, Scale(b, p), so);
    TimesScale(b, w, p);
    NegateWithin(Minus(Scale(odd, UNIT), sw), p * (3 * UNIT));
    MinusSwaps(Scale(odd, UNIT), sw);
    ScaleWithin(dt, p, 0x3000_0000);
    ScaleWithin(dx, UNIT * p, 2);
    var first, second := Scale(da, UNIT), Minus(Scale(bw, p), sw);
    var third := Minus(sw, Scale(odd, UNIT));
    Triangle(first, second, e * p * UNIT, e * p * (UNIT + 1));
    Triangle(Plus(first, second), third, e * p * UNIT + e * p * (UNIT + 1), p * (3 * UNIT));
    Triangle(Scale(dt, p), Scale(dx, UNIT * p), 0x3000_0000 * p, 2 * (UNIT * p));
    Triangle(Plus(Plus(first, second), third), Plus(Scale(dt, p), Scale(dx, UNIT * p)),
      e * p * UNIT + e * p * (UNIT + 1) + p * (3 * UNIT), 0x3000_0000 * p + 2 * (UNIT * p));
    ButterflySplit(x, a, t, bw, se, sw, odd, p);
    ErrorBudget(p, e);
    WithinMonotone(Scale(Minus(Scale(x, 2 * p), Plus(se, odd)), UNIT),
      e * p * UNIT + e * p * (UNIT + 1) + p * (3 * UNIT) + (0x3000_0000 * p + 2 * (UNIT * p)),
      UNIT * ((e + 3) * (2 * p)));
    Unscale(Minus(Scale(x, 2 * p), Plus(se, odd)), UNIT, (e + 3) * (2 * p));
  }

  lemma ErrorBudget(p: nat, e: nat)
    requires e <= 0x1000_0000
    ensures e * p * UNIT + e * p * (UNIT + 1) + p * (3 * UNIT) + (0x3000_0000 * p + 2 * (UNIT * p))
      <= UNIT * ((e + 3) * (2 * p))
    ensures e * p >= 0 && (e + 3) * (2 * p) >= 0
  {
    MulNonNegative(e, p);
    MulMonotone(e, 0x1000_0000, p);
    assert (e + 3) * (2 * p) == 2 * (e * p) + 6 * p;
  }

  // ---------------------------------------------------------------- The transform

  /** The rounding errors of both outputs of a butterfly. */
  lemma RoundingErrors(a: Complex, b: Complex, w: Complex)
    ensures Within(Minus(Scale(Twist(b, w), UNIT), Times(b, w)), 0x3000_0000)
    ensures Within(Minus(Scale(Upper(a, b, w), 2), Plus(a, Twist(b, w))), 2)
    ensures Within(Minus(Scale(Lower(a, b, w), 2), Plus(a, Negate(Twist(b, w)))), 2)
  {
    hide RneShift, Within;
    Pow2Literals();
    assert Pow2(1) == 2;
    var product, twist := Times(b, w), Twist(b, w);
    RneError(product.re, 30);
    RneError(product.im, 30);
    SmallWithin(Minus(Scale(twist, UNIT), product), 0x2000_0000, 0x3000_0000);
    var sum, difference := Plus(a, twist), Minus(a, twist);
    RneError(sum.re, 1);
    RneError(sum.im, 1);
    RneError(difference.re, 1);
    RneError(difference.im, 1);
    SmallWithin(Minus(Scale(Upper(a, b, w), 2), sum), 1, 2);
    SmallWithin(Minus(Scale(Lower(a, b, w), 2), difference), 1, 2);
    assert Plus(a, Negate(twist)) == difference;
  }

  /** The step from one bin to the next in a transform of 2^level points. */
  function Stride(level: nat): nat
    requires level <= 9
  {
    Pow2(9 - level)
  }

  lemma StrideHalves(level: nat, j: nat)
    requires 1 <= level <= 9 && j < Pow2(level - 1)
    ensures Stride(level - 1) == 2 * Stride(level) && j * Stride(level - 1) == 2 * (j * Stride(level))
    ensures 0 <= j * Stride(level) < 256 && (j + Pow2(level - 1)) * Stride(level) == j * Stride(level) + 256
    ensures Pow2(level) == 2 * Pow2(level - 1) > 0 && POINTS / Pow2(level) == Stride(level)
  {
    hide Pow2;
    var half, stride := Pow2(level - 1), Stride(level);
    Pow2Literals();
    Pow2Add(level - 1, 9 - level);
    DoublePower(level);
    DoublePower(10 - level);
    StrideProducts(half, stride, j);
  }

  lemma StrideProducts(half: nat, stride: nat, j: nat)
    requires half * stride == 256 && j < half
    ensures j * (2 * stride) == 2 * (j * stride) && 0 <= j * stride < 256 && (j + half) * stride == j * stride + 256
    ensures POINTS / (2 * half) == stride
  {
    MulNonNegative(j, stride);
    MulStrict(j, half, stride);
    Distribute(j, half, stride);
    assert stride * (2 * half) == 2 * (half * stride);
    DivModUnique(POINTS, 2 * half, stride, 0);
  }

  /** Bins `j` and `half + j` of a transform, from bin `j` of the two halves. */
  lemma CombinedBins(x: seq<Complex>, w: Table, level: nat, j: nat)
    requires 1 <= level <= 9 && |x| == Pow2(level) && j < Pow2(level - 1)
    ensures |Evens(x)| == |Odds(x)| == Pow2(level - 1) && 0 <= j * Stride(level) < 256
    ensures var a, b := Transform(Evens(x), w, level - 1)[j], Transform(Odds(x), w, level - 1)[j];
      && Transform(x, w, level)[j] == Upper(a, b, w[j * Stride(level)])
      && Transform(x, w, level)[Pow2(level - 1) + j] == Lower(a, b, w[j * Stride(level)])
  {
    hide Upper, Lower, Evens, Odds, Pow2, Stride, Combine, TwiddleAt, Transform;
    StrideHalves(level, j);
    TransformSplits(x, w, level);
    CombineAt(Transform(Evens(x), w, level - 1), Transform(Odds(x), w, level - 1), w, j);
    TwiddleIs(w, Pow2(level - 1), j, j * Stride(level), Stride(level));
  }

  lemma CombineAt(a: seq<Complex>, b: seq<Complex>, w: Table, j: nat)
    requires j < |a| == |b|
    ensures Combine(a, b, w)[j] == Upper(a[j], b[j], TwiddleAt(w, |a|, j))
    ensures Combine(a, b, w)[|a| + j] == Lower(a[j], b[j], TwiddleAt(w, |a|, j))
  {
    hide Upper, Lower, TwiddleAt;
  }

  lemma TwiddleIs(w: Table, half: nat, j: nat, at: int, stride: nat)
    requires j < half && POINTS / (2 * half) == stride && at == j * stride && 0 <= at < 256
    ensures TwiddleAt(w, half, j) == w[at]
  {
    assert stride * j == j * stride;
  }

  /** The error of a bin: the bin times the number of points, in units of 2^-30, against the
      sum over the points. */
  function Error(x: seq<Complex>, w: Table, level: nat, k: nat): Complex
    requires level <= 9 && |x| == Pow2(level) && k < |x|
  {
    Minus(Scale(Transform(x, w, level)[k], Pow2(level) * UNIT), Correlation(x, w, k * Stride(level), |x|))
  }

  function Slack(level: nat): int { 3 * level * (Pow2(level) * UNIT) }

  /** The bin is its sum divided by the number of points, up to three units a level. */
  ghost predicate Close(x: seq<Complex>, w: Table, level: nat, k: nat) {
    level <= 9 && |x| == Pow2(level) && k < |x| && Within(Error(x, w, level, k), Slack(level))
  }

  /** Every bin of a rounded transform of points within one unit is close to its sum. */
  lemma {:induction false} TransformIsDft(x: seq<Complex>, w: Table, level: nat, k: nat)
    requires level <= 9 && |x| == Pow2(level) && k < |x|
    requires RootsOfUnity(w) && InUnit(x)
    ensures Close(x, w, level, k)
    decreases level
  {
    hide Close, Within, Transform, Evens, Odds, RootsOfUnity, Pow2;
    if level == 0 {
      SinglePoint(x, w, k);
    } else {
      var half := Pow2(level - 1);
      DoublePower(level);
      var j := if k < half then k else k - half;
      TransformSplits(x, w, level);
      HalfPoints(x);
      TransformIsDft(Evens(x), w, level - 1, j);
      TransformIsDft(Odds(x), w, level - 1, j);
      BothBins(x, w, level, j, half);
    }
  }

  lemma DoublePower(level: nat)
    requires level > 0
    ensures Pow2(level) == 2 * Pow2(level - 1)
  {
  }

  lemma HalfPoints(x: seq<Complex>)
    requires InUnit(x)
    ensures InUnit(Evens(x)) && InUnit(Odds(x))
  {
    hide Within;
  }

  lemma SinglePoint(x: seq<Complex>, w: Table, k: nat)
    requires |x| == Pow2(0) && k < |x| && RootsOfUnity(w)
    ensures Close(x, w, 0, k)
  {
    hide Multiplies, Stride, Within, Times;
    assert |x| == Pow2(0) == 1 && k == 0;
    CorrelationStep(x, w, k * Stride(0), 0);
    assert 0 * (k * Stride(0)) == 0;
    assert Root(w, 0) == Complex(UNIT, 0);
    TimesUnit(x[0]);
    assert Transform(x, w, 0) == x;
    assert Correlation(x, w, k * Stride(0), 0) == ZERO;
    ZeroWithin();
  }

  lemma TimesUnit(z: Complex)
    ensures Minus(Scale(z, 1 * UNIT), Plus(ZERO, Times(z, Complex(UNIT, 0)))) == ZERO
  {
  }

  lemma ZeroWithin()
    ensures Within(ZERO, 0)
  {
  }

  lemma CloseMeans(y: seq<Complex>, w: Table, level: nat, k: nat, half: nat, at: int, e: nat)
    requires level <= 9 && |y| == Pow2(level) == half && k < |y| && Close(y, w, level, k) && k * Stride(level) == at
    requires e == 3 * level
    ensures Within(Minus(Scale(Transform(y, w, level)[k], half * UNIT), Correlation(y, w, at, half)),
                   e * (half * UNIT))
  {
    hide Within, Transform, Minus, Scale, Correlation, Stride, Pow2;
  }

  lemma MeansClose(x: seq<Complex>, w: Table, level: nat, k: nat, value: Complex, half: nat, sum: Complex, e: nat)
    requires 1 <= level <= 9 && |x| == Pow2(level) == 2 * half && k < |x| && Transform(x, w, level)[k] == value
    requires Correlation(x, w, k * Stride(level), |x|) == sum
    requires e + 3 == 3 * level && Within(Minus(Scale(value, 2 * (half * UNIT)), sum), (e + 3) * (2 * (half * UNIT)))
    ensures Close(x, w, level, k)
  {
    hide Within, Transform, Minus, Scale, Correlation, Stride, Pow2;
    assert Pow2(level) * UNIT == 2 * (half * UNIT);
  }

  /** What the two bins have in common: `a` and `b` are the bins of the halves, `se` and
      `so` their sums. */
  ghost predicate Halves(
    x: seq<Complex>, w: Table, at: nat, half: nat, e: nat, a: Complex, b: Complex, se: Complex, so: Complex)
    requires at < 256 && |x| == 2 * half
  {
    && Within(w[at], UNIT + 1)
    && Within(Minus(Scale(a, half * UNIT), se), e * (half * UNIT))
    && Within(Minus(Scale(b, half * UNIT), so), e * (half * UNIT))
    && Within(Minus(Scale(OddPart(x, w, at, half), UNIT), Times(so, w[at])), half * UNIT * (3 * UNIT))
  }

  lemma OddPartOfHalves(x: seq<Complex>, w: Table, at: nat, half: nat)
    requires |x| == 2 * half && at < 256 && |Odds(x)| == half && RootsOfUnity(w) && InUnit(x)
    ensures Within(Minus(Scale(OddPart(x, w, at, half), UNIT), Times(Correlation(Odds(x), w, 2 * at, half), w[at])),
                   half * UNIT * (3 * UNIT))
    ensures Within(w[at], UNIT + 1)
  {
    hide Within, Times, Minus, Scale, Root, Correlation, OddPart, Odds, RootsOfUnity;
    RootInTable(w, at, w[at]);
    OddPartFactors(x, w, at, half, UNIT);
    assert half * (UNIT * (3 * UNIT)) == half * UNIT * (3 * UNIT);
  }

  /** Both halves of the points are transformed up to their errors in bin `j`. */
  ghost predicate HalvesClose(x: seq<Complex>, w: Table, level: nat, j: nat, half: nat) {
    && 1 <= level <= 9 && |x| == Pow2(level) == 2 * half && Pow2(level - 1) == half && j < half
    && |Evens(x)| == |Odds(x)| == half
    && Close(Evens(x), w, level - 1, j) && Close(Odds(x), w, level - 1, j)
  }

  ghost predicate PairClose(x: seq<Complex>, w: Table, level: nat, j: nat, half: nat) {
    && level <= 9 && |x| == Pow2(level) && half + j < |x|
    && Close(x, w, level, j) && Close(x, w, level, half + j)
  }

  ghost predicate InUnit(x: seq<Complex>) { forall i :: 0 <= i < |x| ==> Within(x[i], UNIT) }

  /** Both outputs of the butterfly stand for their sums. */
  lemma OutputsClose(
    x: seq<Complex>, w: Table, at: nat, half: nat, e: nat, a: Complex, b: Complex, se: Complex, so: Complex)
    requires at < 256 && |x| == 2 * half && e <= 0x1000_0000 && Halves(x, w, at, half, e, a, b, se, so)
    ensures var odd := OddPart(x, w, at, half);
      && Within(Minus(Scale(Upper(a, b, w[at]), 2 * (half * UNIT)), Plus(se, odd)), (e + 3) * (2 * (half * UNIT)))
      && Within(Minus(Scale(Lower(a, b, w[at]), 2 * (half * UNIT)), Plus(se, Negate(odd))),
                (e + 3) * (2 * (half * UNIT)))
  {
    hide Within, Times, Minus, Plus, Scale, OddPart, Twist, Upper, Lower, Negate;
    var p, odd, t := half * UNIT, OddPart(x, w, at, half), Twist(b, w[at]);
    RoundingErrors(a, b, w[at]);
    ButterflyError(Upper(a, b, w[at]), a, b, t, w[at], se, so, odd, p, e);
    NegateFactor(odd, so, w[at], p * (3 * UNIT));
    NegateFactor(t, b, w[at], 0x3000_0000);
    NegateWithin(w[at], UNIT + 1);
    ButterflyError(Lower(a, b, w[at]), a, b, Negate(t), Negate(w[at]), se, so, Negate(odd), p, e);
  }

  /** The sums of the two bins. */
  lemma BinSums(x: seq<Complex>, w: Table, half: nat, at: int)
    requires |x| == 2 * half && |Evens(x)| == half
    ensures var se, odd := Correlation(Evens(x), w, 2 * at, half), OddPart(x, w, at, half);
      Correlation(x, w, at, |x|) == Plus(se, odd) && Correlation(x, w, at + 256, |x|) == Plus(se, Negate(odd))
  {
    hide Times, Plus, Root, Correlation, OddPart, Evens, Negate;
    CorrelationSplits(x, w, at, half);
    CorrelationSplits(x, w, at + 256, half);
    CorrelationPeriod(Evens(x), w, 2 * at, half);
    OddPartHalfTurn(x, w, at, half);
  }

  lemma BothBins(x: seq<Complex>, w: Table, level: nat, j: nat, half: nat)
    requires RootsOfUnity(w) && InUnit(x) && HalvesClose(x, w, level, j, half)
    ensures PairClose(x, w, level, j, half)
  {
    hide Within, Times, Minus, Plus, Scale, Root, Correlation, OddPart, Transform, Evens, Odds, RootsOfUnity, Twist,
      Upper, Lower, Stride, Pow2, Negate, Close, Halves;
    StrideHalves(level, j);
    var at: nat := j * Stride(level);
    var e := 3 * (level - 1);
    var a, b := Transform(Evens(x), w, level - 1)[j], Transform(Odds(x), w, level - 1)[j];
    var se, so := Correlation(Evens(x), w, 2 * at, half), Correlation(Odds(x), w, 2 * at, half);
    CloseMeans(Evens(x), w, level - 1, j, half, 2 * at, e);
    CloseMeans(Odds(x), w, level - 1, j, half, 2 * at, e);
    OddPartOfHalves(x, w, at, half);
    HalvesHold(x, w, at, half, e, a, b, se, so);
    OutputsClose(x, w, at, half, e, a, b, se, so);
    CombinedBins(x, w, level, j);
    BinSums(x, w, half, at);
    assert (half + j) * Stride(level) == at + 256;
    MeansClose(x, w, level, j, Upper(a, b, w[at]), half, Correlation(x, w, at, |x|), e);
    MeansClose(x, w, level, half + j, Lower(a, b, w[at]), half, Correlation(x, w, at + 256, |x|), e);
  }

  lemma HalvesHold(
    x: seq<Complex>, w: Table, at: nat, half: nat, e: nat, a: Complex, b: Complex, se: Complex, so: Complex)
    requires at < 256 && |x| == 2 * half && Within(w[at], UNIT + 1)
    requires Within(Minus(Scale(a, half * UNIT), se), e * (half * UNIT))
    requires Within(Minus(Scale(b, half * UNIT), so), e * (half * UNIT))
    requires Within(Minus(Scale(OddPart(x, w, at, half), UNIT), Times(so, w[at])), half * UNIT * (3 * UNIT))
    ensures Halves(x, w, at, half, e, a, b, se, so)
  {
    hide Within, Times, Minus, Scale, OddPart;
  }

  lemma RootInTable(w: Table, at: int, entry: Complex)
    requires 0 <= at < 256 && w[at] == entry && RootsOfUnity(w)
    ensures Root(w, at) == entry && Within(entry, UNIT + 1)
  {
    hide Within, Root, Multiplies;
    RootLow(w, at);
  }

  lemma RootLow(w: Table, at: int)
    requires 0 <= at < 256
    ensures Root(w, at) == w[at]
  {
    hide Negate;
    SmallRemainder(at);
  }

  lemma SmallRemainder(at: int)
    requires 0 <= at < 512
    ensures at % 512 == at
  {
  }

  lemma NegateFactor(z: Complex, y: Complex, v: Complex, bound: int)
    requires Within(Minus(Scale(z, UNIT), Times(y, v)), bound)
    ensures Within(Minus(Scale(Negate(z), UNIT), Times(y, Negate(v))), bound)
  {
    hide Within, Times, Minus, Scale, Negate;
    NegateScale(z, UNIT);
    NegateTimes(y, v);
    NegateMinus(Scale(z, UNIT), Times(y, v));
    NegateWithin(Minus(Scale(z, UNIT), Times(y, v)), bound);
  }

  // ---------------------------------------------------------------- Of samples

  /** The samples, each times the root of its index and `k`. */
  function SampleSum(samples: seq<int>, w: Table, k: int): Complex {
    if samples == [] then ZERO
    else
      var n := |samples| - 1;
      var term := Root(w, n * k);
      var rest := SampleSum(samples[..n], w, k);
      Complex(rest.re + samples[n] * term.re, rest.im + samples[n] * term.im)
  }

  /** `z` is the discrete Fourier transform of the samples and zeros behind them: 512 times
      every bin is the sum of its bin, up to 27 units a point, all in units of 2^-30. */
  ghost predicate IsSpectrum(samples: seq<int>, w: Table, z: seq<Complex>) {
    && |z| == 512
    && forall k: nat :: k < 512 ==>
      Within(Minus(Scale(z[k], 512 * 0x4000_0000), SampleSum(samples, w, k)), 27 * 512 * 0x4000_0000)
  }

  /** The samples as points, padded with zeros. */
  ghost predicate Pads(x: seq<Complex>, samples: seq<int>) {
    && |samples| <= |x| == 512
    && forall i :: 0 <= i < 512 ==> x[i] == if i < |samples| then Complex(samples[i], 0) else ZERO
  }

  lemma {:induction false} CorrelationOfSamples(x: seq<Complex>, samples: seq<int>, w: Table, k: int, n: nat)
    requires Pads(x, samples) && n <= 512
    ensures Correlation(x, w, k, n) == SampleSum(if n <= |samples| then samples[..n] else samples, w, k)
    decreases n
  {
    hide Root, Times, Plus;
    if n == 0 {
    } else {
      var m := n - 1;
      CorrelationOfSamples(x, samples, w, k, m);
      CorrelationStep(x, w, k, m);
      RealTerm(Correlation(x, w, k, m), if m < |samples| then samples[m] else 0, Root(w, m * k));
      if m < |samples| {
        assert samples[..n][..m] == samples[..m];
      } else {
        assert m == |samples| ==> samples[..m] == samples;
      }
    }
  }

  lemma RealTerm(sum: Complex, sample: int, root: Complex)
    ensures Plus(sum, Times(Complex(sample, 0), root))
      == Complex(sum.re + sample * root.re, sum.im + sample * root.im)
  {
  }

  /** The rounded transform of padded samples is their spectrum. */
  lemma TransformIsSpectrum(x: seq<Complex>, samples: seq<int>, w: Table)
    requires |x| == Pow2(9) && Pads(x, samples) && RootsOfUnity(w) && InUnit(x)
    ensures IsSpectrum(samples, w, Transform(x, w, 9))
  {
    hide Within, Minus, Scale, Transform, Root, Correlation, SampleSum, RootsOfUnity, InUnit, Pads;
    assert Pow2(9) == 512 && Stride(9) == 1 by { Pow2Literals(); }
    forall k: nat | k < 512
      ensures Within(
        Minus(Scale(Transform(x, w, 9)[k], 512 * UNIT), SampleSum(samples, w, k)), 27 * 512 * UNIT)
    {
      TransformIsDft(x, w, 9, k);
      CorrelationOfSamples(x, samples, w, k, 512);
      PadsSize(x, samples);
      assert samples[..|samples|] == samples;
    }
  }

  lemma PadsSize(x: seq<Complex>, samples: seq<int>)
    requires Pads(x, samples)
    ensures |samples| <= 512 == |x|
  {
  }
}
