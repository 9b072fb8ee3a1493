/** Facts about quotients that the solver does not find by itself. */
module Arithmetic {
  /** A nonzero multiple of c is at least c away from zero. */
  lemma Multiple(k: int, c: nat)
    ensures k >= 1 ==> k * c >= c
    ensures k <= 0 ==> k * c <= 0
    ensures k <= -1 ==> k * c + c <= 0
  {
    if k >= 1 {
      assert (k - 1) * c >= 0;
    } else if k == 0 {
      assert k * c == 0;
    } else {
      assert (-1 - k) * c >= 0;
    }
  }

  lemma DivUnique(v: nat, d: nat, q: nat, r: nat)
    requires d > 0 && r < d && v == q * d + r
    ensures v / d == q && v % d == r
  {
    var k := v / d - q;
    assert k * d == v / d * d - q * d == r - v % d;
    Multiple(k, d);
  }

  /** The quotient grows exactly behind a multiple's last predecessor. */
  lemma NextQuotient(v: nat, d: nat)
    requires d > 0
    ensures (v + 1) / d == v / d + if v % d == d - 1 then 1 else 0
  {
    var q, r := v / d, v % d;
    assert v == q * d + r;
    if r == d - 1 {
      assert v + 1 == (q + 1) * d + 0;
      DivUnique(v + 1, d, q + 1, 0);
    } else {
      DivUnique(v + 1, d, q, r + 1);
    }
  }

  /** Numbers with a quotient from a to b are those from the a-th to the b-th multiple. */
  lemma QuotientRange(x: nat, d: nat, a: nat, b: nat)
    requires d > 0
    ensures a <= x / d < b <==> a * d <= x < b * d
  {
    var q, r := x / d, x % d;
    assert x == q * d + r;
    assert x - a * d == (q - a) * d + r;
    assert x - b * d == (q - b) * d + r;
    Multiple(q - a, d);
    Multiple(q - b, d);
  }
}
