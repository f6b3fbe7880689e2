/** The few facts about multiplication and division that several proofs share. */
module Arith {
  lemma MulAtLeast(d: nat, k: nat)
    requires k >= 1
    ensures d * k >= d
  {
  }

  lemma DivModUnique(v: nat, d: nat, q: nat, r: nat)
    requires v == d * q + r && r < d
    ensures v / d == q && v % d == r
  {
    var p, s := v / d, v % d;
    assert v == d * p + s;
    assert d * p - d * q == d * (p - q);
    if p > q {
      MulAtLeast(d, p - q);
    } else if p < q {
      MulAtLeast(d, q - p);
    }
  }

  lemma MulMono(a: nat, b: nat, d: nat)
    requires a <= b
    ensures a * d <= b * d
  {
  }
}
