/** Facts of integer multiplication and division that the averaging
    proofs rely on, kept apart so that each is proved on its own. */
module Arith {

  lemma SmallMultiple(d: nat, t: int)
    requires d >= 1 && 0 <= d * t < d
    ensures t == 0
  {
  }

  /** Multiplying by a positive `d` and dividing by it again is the identity. */
  lemma MulDivCancel(d: nat, v: nat)
    requires d >= 1
    ensures (d * v) / d == v
  {
    var q := (d * v) / d;
    var r := (d * v) % d;
    assert d * q + r == d * v;
    assert d * (v - q) == r;
    SmallMultiple(d, v - q);
  }

  /** A quotient of a sum of at most `d` samples by `d` is again a sample. */
  lemma QuotientIsByte(s: nat, d: nat)
    requires d >= 1 && s <= 255 * d
    ensures s / d <= 255
  {
  }

  lemma PeelFactor(n: nat, b: nat, v: nat)
    requires n >= 1
    ensures n * b * v == (n - 1) * b * v + b * v
  {
  }

  lemma MulMonotone(a: nat, b: nat, c: nat)
    requires b <= c
    ensures a * b <= a * c
  {
  }

  lemma MulCancelLess(d: nat, a: int, c: int)
    requires d >= 1 && d * a < d * c
    ensures a < c
  {
  }

  lemma DivMonotone(p: nat, q: nat, d: nat)
    requires d >= 1 && p <= q
    ensures p / d <= q / d
  {
    var a, b := p / d, q / d;
    assert d * a + p % d == p && d * b + q % d == q;
    assert d * (b + 1) == d * b + d;
    MulCancelLess(d, a, b + 1);
  }

  /** Adding less than `d` raises a quotient by `d` by at most one. */
  lemma DivStep(p: nat, e: nat, d: nat)
    requires e < d
    ensures (p + e) / d <= p / d + 1
  {
    var a, b := p / d, (p + e) / d;
    assert d * a + p % d == p && d * b + (p + e) % d == p + e;
    assert d * (a + 2) == d * a + d + d;
    MulCancelLess(d, b, a + 2);
  }

  lemma DivBelow(p: nat, m: nat, d: nat)
    requires d >= 1 && p < m * d
    ensures p / d < m
  {
    var a := p / d;
    assert d * a + p % d == p;
    MulCancelLess(d, a, m);
  }

  /** Quotient and remainder of `q * d + r` when `r < d`. */
  lemma DivExact(q: nat, r: nat, d: nat)
    requires r < d
    ensures (q * d + r) / d == q && (q * d + r) % d == r
  {
    var n := q * d + r;
    var a := n / d;
    assert d * a + n % d == n;
    assert d * (q + 1) == q * d + d;
    assert d * (a + 1) == d * a + d;
    MulCancelLess(d, a, q + 1);
    MulCancelLess(d, q, a + 1);
  }

  lemma Decompose(n: nat, d: nat)
    requires d >= 1
    ensures n == (n / d) * d + n % d && n % d < d
  {
  }

  lemma MulSucc(a: nat, c: nat)
    ensures (a + 1) * c == a * c + c
  {
  }

  /** The divisor of an emitted mean is positive and bounds its total. */
  lemma MeanBounds(total: nat, size: nat, count: nat)
    requires size >= 1 && count >= 1 && total <= size * (255 * count)
    ensures size * count >= 1 && total <= 255 * (size * count)
  {
    MulMonotone(size, 1, count);
  }

  /** `size` rows of `count` samples each of value `v` average to `v`. */
  lemma MeanOfRepeated(size: nat, count: nat, v: nat)
    requires size >= 1 && count >= 1
    ensures size * count >= 1 && (size * (count * v)) / (size * count) == v
  {
    assert size * (count * v) == (size * count) * v;
    MulMonotone(size, 1, count);
    MulDivCancel(size * count, v);
  }
}
