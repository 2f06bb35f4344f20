/** The few facts about multiplication and division that the solver does not find unaided. */
module Arith {

  lemma MulMono(a: int, b: int, p: int)
    requires a <= b && p >= 0
    ensures a * p <= b * p
  {
    assert (b - a) * p >= 0;
  }

  lemma MulSucc(a: int, p: int)
    ensures (a + 1) * p == a * p + p
  {
  }

  lemma DivModUnique(v: int, d: int, q: int, r: int)
    requires d > 0 && 0 <= r < d
    requires v == q * d + r
    ensures v / d == q && v % d == r
  {
    var q' := v / d;
    assert q' * d <= v < q' * d + d;
    if q' < q {
      MulMono(q' + 1, q, d);
      MulSucc(q', d);
    } else if q < q' {
      MulMono(q + 1, q', d);
      MulSucc(q, d);
    }
  }

  lemma SmallDivMod(v: int, d: int)
    requires 0 <= v < d
    ensures v / d == 0 && v % d == v
  {
    DivModUnique(v, d, 0, v);
  }

  lemma DivBound(v: int, d: int, q: int)
    requires d > 0 && v < q * d
    ensures v / d < q
  {
    var k := v / d;
    if k >= q { MulMono(q, k, d); }
  }

  lemma DivAtLeast(v: int, d: int, q: int)
    requires d > 0 && q * d <= v
    ensures q <= v / d
  {
    var k := v / d;
    if k < q {
      MulSucc(k, d);
      MulMono(k + 1, q, d);
    }
  }

  lemma DivModBound(v: int, d: int, q: int)
    requires d > 0 && 0 <= v < q * d
    ensures 0 <= v / d < q && 0 <= v % d < d
  {
    DivBound(v, d, q);
  }

  /** Splitting off the lowest binary digit before a division by a power of two. */
  lemma HalfModDiv(v: int, p: int)
    requires p >= 1
    ensures v % (2 * p) == v % 2 + 2 * ((v / 2) % p)
    ensures v / (2 * p) == (v / 2) / p
  {
    var h := v / 2;
    var q, r := h / p, h % p;
    assert h == q * p + r;
    assert q * (2 * p) == 2 * (q * p);
    DivModUnique(v, 2 * p, q, v % 2 + 2 * r);
  }
}
