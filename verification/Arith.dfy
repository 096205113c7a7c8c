// Facts about products and quotients that the solver does not find by itself.
module Arith {

  lemma MulNonneg(x: int, y: int)
    requires 0 <= x && 0 <= y
    ensures 0 <= x * y
  {
  }

  lemma MulAdd(d: int, x: int, y: int)
    ensures d * (x + y) == d * x + d * y
    ensures d * (x - y) == d * x - d * y
  {
  }

  lemma MulSwap(x: int, y: int, z: int)
    ensures (x * y) * z == x * (y * z) == (x * z) * y
  {
  }

  // A multiple of d is zero or at least d away from it.
  lemma MulAtLeast(d: int, k: int)
    requires 0 <= d
    ensures k >= 1 ==> d * k >= d
    ensures k <= -1 ==> d * k <= -d
    ensures k >= 0 ==> d * k >= 0
  {
    if k >= 1 {
      MulNonneg(d, k - 1);
      MulAdd(d, k, 1);
    } else if k <= -1 {
      MulNonneg(d, -1 - k);
      MulAdd(d, -1, k);
      assert d * (-1 - k) == -d - d * k;
    }
  }

  lemma MulMono(d: int, x: int, y: int)
    requires 0 <= d && x <= y
    ensures d * x <= d * y
  {
    MulNonneg(d, y - x);
    MulAdd(d, y, x);
  }

  lemma DivMod(x: int, d: int)
    requires 1 <= d
    ensures x == d * (x / d) + x % d && 0 <= x % d < d
  {
  }

  // Quotient and remainder are the only pair that fit.
  lemma DivModUnique(x: int, d: int, q: int, r: int)
    requires 1 <= d && x == d * q + r && 0 <= r < d
    ensures x / d == q && x % d == r
  {
    DivMod(x, d);
    SameQuotient(d, q, r, x / d, x % d);
  }

  lemma SameQuotient(d: int, q: int, r: int, q1: int, r1: int)
    requires 1 <= d && d * q + r == d * q1 + r1 && 0 <= r < d && 0 <= r1 < d
    ensures q == q1 && r == r1
  {
    MulAdd(d, q, q1);
    MulAtLeast(d, q - q1);
  }

  lemma MultipleMod(d: int, q: int)
    requires 1 <= d
    ensures (d * q) % d == 0 && (d * q) / d == q
  {
    DivModUnique(d * q, d, q, 0);
  }

  lemma DivBounds(x: int, d: int)
    requires 0 <= x && 1 <= d
    ensures 0 <= x / d <= x
  {
    DivMod(x, d);
    MulAtLeast(d, x / d);
    MulAtLeast(x / d, d);
  }

  // A quotient is below q when the dividend is below d * q.
  lemma DivBelow(x: int, d: int, q: int)
    requires 1 <= d && x < d * q
    ensures x / d < q
  {
    DivMod(x, d);
    MulAdd(d, x / d, q);
    MulAtLeast(d, x / d - q);
  }

  // Dividing in two steps.
  lemma DivTwice(x: int, d: int, e: int)
    requires 1 <= d && 1 <= e
    ensures 1 <= d * e && x / (d * e) == (x / d) / e && x % (d * e) == d * ((x / d) % e) + x % d
  {
    var q, r, s := (x / d) / e, (x / d) % e, x % d;
    MulAtLeast(d, e);
    DivMod(x, d);
    DivMod(x / d, e);
    MulAdd(d, e * q, r);
    MulSwap(d, e, q);
    MulMono(d, r, e - 1);
    MulAdd(d, e, 1);
    MulNonneg(d, r);
    assert x == (d * e) * q + (d * r + s);
    DivModUnique(x, d * e, q, d * r + s);
  }
}
