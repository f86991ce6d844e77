/** Division facts behind mixed-radix paths, filter windows and buckets. */
module Arithmetic {

  lemma {:induction false} MulAtLeast(k: nat, m: nat)
    requires k >= 1
    ensures k * m >= m
    decreases k
  {
    if k > 1 {
      MulAtLeast(k - 1, m);
      assert k * m == (k - 1) * m + m;
    }
  }

  lemma Distribute(a: int, b: int, m: int)
    ensures (a - b) * m == a * m - b * m && (a + b) * m == a * m + b * m
  {
  }

  lemma QuotientAtMost(q: int, q': int, m: nat, r: nat, r': nat)
    requires q * m + r == q' * m + r' && r < m && r' < m
    ensures q <= q'
  {
    if q > q' {
      MulAtLeast(q - q', m);
      Distribute(q, q', m);
    }
  }

  /** Quotient and remainder are determined by what they satisfy. */
  lemma DivModUnique(x: int, m: nat, q: int, r: nat)
    requires m >= 1 && x == q * m + r && r < m
    ensures x / m == q && x % m == r
  {
    var q', r' := x / m, x % m;
    assert x == q' * m + r';
    QuotientAtMost(q, q', m, r, r');
    QuotientAtMost(q', q, m, r', r);
  }

  /** The last digit and the rest of a number in radix f determine each other. */
  lemma DigitsDetermine(a: nat, b: nat, x: nat, y: nat, f: nat)
    requires a < f && b < f
    ensures a + f * x == b + f * y <==> a == b && x == y
  {
    if a + f * x == b + f * y {
      DivModUnique(a + f * x, f, x, a);
      DivModUnique(a + f * x, f, y, b);
    }
  }

  lemma Reassociate(a: int, b: int, f: int, m: int)
    ensures (a * m + b) * f == a * (f * m) + b * f
  {
    assert (a * m + b) * f == a * m * f + b * f;
    assert a * m * f == a * (m * f);
  }

  lemma DigitBound(b: nat, f: nat, m: nat, r: nat)
    requires b < m && r < f
    ensures b * f + r < f * m
  {
    Distribute(m, b, f);
    MulAtLeast(m - b, f);
  }

  lemma ProductPositive(f: nat, m: nat)
    requires f >= 1 && m >= 1
    ensures f * m >= 1
  {
    MulAtLeast(m, f);
  }

  /** A remainder modulo a product, digit by digit. */
  lemma ModOfProduct(i: nat, f: nat, m: nat)
    requires f >= 1 && m >= 1
    ensures f * m >= 1 && i % (f * m) == i % f + f * ((i / f) % m)
  {
    ProductPositive(f, m);
    var q, r := i / f, i % f;
    var a, b := q / m, q % m;
    assert q == a * m + b;
    assert i == q * f + r;
    Reassociate(a, b, f, m);
    DigitBound(b, f, m, r);
    DivModUnique(i, f * m, a, b * f + r);
  }
}
