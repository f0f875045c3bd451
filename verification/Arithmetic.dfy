/** Facts about products, quotients and powers of two that the solver needs spelt
    out. */
module Arithmetic {
  import opened Common

  lemma MulNonNegative(a: int, b: int)
    requires a >= 0 && b >= 0
    ensures a * b >= 0
  {
  }

  lemma MulMonotone(a: int, b: int, c: int)
    requires a <= b && c >= 0
    ensures a * c <= b * c
  {
    MulNonNegative(b - a, c);
    assert (b - a) * c == b * c - a * c;
  }

  lemma MulStrict(a: int, b: int, c: int)
    requires a < b && c > 0
    ensures a * c + c <= b * c
  {
    MulMonotone(a + 1, b, c);
    assert (a + 1) * c == a * c + c;
  }

  lemma Distribute(a: int, b: int, c: int)
    ensures (a + b) * c == a * c + b * c
    ensures (a - b) * c == a * c - b * c
  {
  }

  lemma Associate(a: int, b: int, c: int)
    ensures (a * b) * c == a * (b * c)
  {
  }

  lemma DivModFacts(n: int, d: int)
    requires d > 0
    ensures n == (n / d) * d + n % d && 0 <= n % d < d
  {
  }

  /** Quotient and remainder are determined by their defining equation. */
  lemma DivModUnique(n: int, d: int, q: int, r: int)
    requires 0 <= r < d && n == q * d + r
    ensures n / d == q && n % d == r
  {
    DivModFacts(n, d);
    var q' := n / d;
    if q < q' {
      MulStrict(q, q', d);
    } else if q' < q {
      MulStrict(q', q, d);
    }
  }

  lemma DivDiv(n: int, a: int, b: int)
    requires a > 0 && b > 0
    ensures a * b > 0
    ensures (n / a) / b == n / (a * b)
    ensures n % (a * b) == ((n / a) % b) * a + n % a
  {
    DivModFacts(n, a);
    DivModFacts(n / a, b);
    MulStrict(0, a, b);
    var q, r := (n / a) / b, (n / a) % b;
    assert (q * b + r) * a == q * (a * b) + r * a by {
      Distribute(q * b, r, a);
      Associate(q, b, a);
      assert b * a == a * b;
    }
    MulStrict(r, b, a);
    MulNonNegative(r, a);
    assert b * a == a * b;
    DivModUnique(n, a * b, q, r * a + n % a);
  }

  lemma DivNonNegative(n: int, d: int)
    requires n >= 0 && d > 0
    ensures n / d >= 0
  {
    DivModFacts(n, d);
    if n / d < 0 {
      MulStrict(n / d, 0, d);
    }
  }

  /** `n >> k` */
  function ShiftRight(n: nat, k: nat): (q: nat)
    ensures q * Pow2(k) <= n < q * Pow2(k) + Pow2(k)
  {
    DivModFacts(n, Pow2(k));
    DivNonNegative(n, Pow2(k));
    n / Pow2(k)
  }

  /** `n & ((1 << k) - 1)` */
  function LowBits(n: nat, k: nat): (r: nat)
    ensures r < Pow2(k) && n == ShiftRight(n, k) * Pow2(k) + r
  {
    n - ShiftRight(n, k) * Pow2(k)
  }

  lemma DivMonotone(a: int, b: int, d: int)
    requires a <= b && d > 0
    ensures a / d <= b / d
  {
    DivModFacts(a, d);
    DivModFacts(b, d);
    if b / d < a / d {
      MulStrict(b / d, a / d, d);
    }
  }

  lemma {:induction false} Pow2Add(a: nat, b: nat)
    ensures Pow2(a + b) == Pow2(a) * Pow2(b)
    decreases a
  {
    if a == 0 {
    } else {
      Pow2Add(a - 1, b);
      Associate(2, Pow2(a - 1), Pow2(b));
    }
  }

  lemma {:induction false} Pow2Monotone(a: nat, b: nat)
    requires a <= b
    ensures Pow2(a) <= Pow2(b)
    decreases b - a
  {
    if a < b {
      Pow2Monotone(a, b - 1);
    }
  }

  lemma Pow2Literals()
    ensures Pow2(4) == 0x10 && Pow2(8) == 0x100 && Pow2(15) == 0x8000 && Pow2(16) == 0x1_0000
    ensures Pow2(29) == 0x2000_0000 && Pow2(30) == 0x4000_0000 && Pow2(31) == 0x8000_0000 && Pow2(32) == 0x1_0000_0000
  {
    assert Pow2(4) == 0x10;
    Pow2Add(4, 4);
    Pow2Add(8, 8);
    assert Pow2(16) == 2 * Pow2(15);
    Pow2Add(16, 16);
    assert Pow2(32) == 2 * Pow2(31) && Pow2(31) == 2 * Pow2(30) && Pow2(30) == 2 * Pow2(29);
  }
}
