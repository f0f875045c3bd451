/** Complex numbers with integer parts, and bounds on their moduli. */
module ComplexNumbers {
  import opened Common
  import opened Arithmetic

  datatype Complex = Complex(re: int, im: int)

  const ZERO: Complex := Complex(0, 0)

  function Plus(a: Complex, b: Complex): Complex { Complex(a.re + b.re, a.im + b.im) }

  function Minus(a: Complex, b: Complex): Complex { Complex(a.re - b.re, a.im - b.im) }

  function Times(a: Complex, b: Complex): Complex { Complex(a.re * b.re - a.im * b.im, a.re * b.im + a.im * b.re) }

  // ---------------------------------------------------------------- Moduli

  /** The modulus of `z` is at most `bound`. */
  predicate Within(z: Complex, bound: int) { bound >= 0 && z.re * z.re + z.im * z.im <= bound * bound }

  lemma SquareMonotone(a: int, b: int)
    requires 0 <= a <= b
    ensures a * a <= b * b
  {
    MulMonotone(a, b, a);
    MulMonotone(a, b, b);
  }

  lemma SquareBound(x: int, bound: int)
    requires bound >= 0 && x * x <= bound * bound
    ensures -bound <= x <= bound
  {
    if x > bound {
      SquareMonotone(bound + 1, x);
    } else if x < -bound {
      SquareMonotone(bound + 1, -x);
    }
  }

  lemma WithinMonotone(z: Complex, a: int, b: int)
    requires Within(z, a) && a <= b
    ensures Within(z, b)
  {
    SquareMonotone(a, b);
  }

  lemma WithinParts(z: Complex, bound: int)
    requires Within(z, bound)
    ensures -bound <= z.re <= bound && -bound <= z.im <= bound
  {
    assert z.re * z.re >= 0 && z.im * z.im >= 0;
    SquareBound(z.re, bound);
    SquareBound(z.im, bound);
  }

  lemma ProductSquare(x: int, y: int)
    ensures (x * y) * (x * y) == (x * x) * (y * y)
  {
  }

  lemma CrossTerms(p: int, q: int, r: int, s: int)
    ensures (p * r) * (q * s) == (p * s) * (q * r)
  {
  }

  /** The modulus of a product is the product of the moduli. */
  lemma ProductModulus(p: int, q: int, r: int, s: int)
    ensures (p * r - q * s) * (p * r - q * s) + (p * s + q * r) * (p * s + q * r) == (p * p + q * q) * (r * r + s * s)
  {
    var a, b, c, d := p * r, q * s, p * s, q * r;
    assert (a - b) * (a - b) == a * a - 2 * (a * b) + b * b;
    assert (c + d) * (c + d) == c * c + 2 * (c * d) + d * d;
    CrossTerms(p, q, r, s);
    ProductSquare(p, r);
    ProductSquare(q, s);
    ProductSquare(p, s);
    ProductSquare(q, r);
    var P, Q, R, S := p * p, q * q, r * r, s * s;
    assert (P + Q) * (R + S) == P * R + P * S + Q * R + Q * S;
  }

  lemma TimesWithin(z: Complex, w: Complex, a: int, b: int)
    requires Within(z, a) && Within(w, b)
    ensures Within(Times(z, w), a * b)
  {
    ProductModulus(z.re, z.im, w.re, w.im);
    var x, y := z.re * z.re + z.im * z.im, w.re * w.re + w.im * w.im;
    assert x >= 0 && y >= 0;
    MulMonotone(x, a * a, y);
    MulMonotone(y, b * b, a * a);
    assert x * y <= (a * a) * (b * b) by { assert y * (a * a) == (a * a) * y
      && (b * b) * (a * a) == (a * a) * (b * b); }
    ProductSquare(a, b);
    MulNonNegative(a, b);
  }

  lemma InnerBound(p: int, q: int, r: int, s: int, a: int, b: int)
    requires a >= 0 && b >= 0 && p * p + q * q <= a * a && r * r + s * s <= b * b
    ensures p * r + q * s <= a * b
  {
    TimesWithin(Complex(p, q), Complex(r, -s), a, b);
    MulNonNegative(a, b);
    WithinParts(Times(Complex(p, q), Complex(r, -s)), a * b);
    assert q * -s == -(q * s);
  }

  lemma Triangle(u: Complex, v: Complex, a: int, b: int)
    requires Within(u, a) && Within(v, b)
    ensures Within(Plus(u, v), a + b)
  {
    InnerBound(u.re, u.im, v.re, v.im, a, b);
    assert (u.re + v.re) * (u.re + v.re) == u.re * u.re + 2 * (u.re * v.re) + v.re * v.re;
    assert (u.im + v.im) * (u.im + v.im) == u.im * u.im + 2 * (u.im * v.im) + v.im * v.im;
    assert (a + b) * (a + b) == a * a + 2 * (a * b) + b * b;
  }

  function Negate(z: Complex): Complex { Complex(-z.re, -z.im) }

  lemma NegateWithin(z: Complex, bound: int)
    requires Within(z, bound)
    ensures Within(Negate(z), bound)
  {
    assert (-z.re) * (-z.re) == z.re * z.re && (-z.im) * (-z.im) == z.im * z.im;
  }

  function Scale(z: Complex, k: int): Complex { Complex(z.re * k, z.im * k) }

  lemma Unscale(z: Complex, k: int, bound: int)
    requires k > 0 && bound >= 0 && Within(Scale(z, k), k * bound)
    ensures Within(z, bound)
  {
    ProductSquare(z.re, k);
    ProductSquare(z.im, k);
    ProductSquare(k, bound);
    var n, b, kk := z.re * z.re + z.im * z.im, bound * bound, k * k;
    assert n * kk <= kk * b by { Distribute(z.re * z.re, z.im * z.im, kk); }
    if n > b {
      assert kk > 0 by { MulStrict(0, k, k); }
      MulStrict(b, n, kk);
    }
  }

  /** Both components of an error are small. */
  lemma SmallWithin(z: Complex, part: int, bound: int)
    requires Abs(z.re) <= part && Abs(z.im) <= part && part >= 0 && bound >= 0 && 2 * (part * part) <= bound * bound
    ensures Within(z, bound)
  {
    SquareMonotone(Abs(z.re), part);
    SquareMonotone(Abs(z.im), part);
    assert Abs(z.re) * Abs(z.re) == z.re * z.re && Abs(z.im) * Abs(z.im) == z.im * z.im;
  }
}
