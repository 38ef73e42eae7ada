/** Facts about multiplication, division and remainder that the solver does not find alone. */
module Arith {

  lemma MulMono(k: nat, d: nat)
    requires k >= 1
    ensures k * d >= d
  {
  }

  /** Division and remainder are determined by x == q * d + r with r < d. */
  lemma DivModUnique(x: nat, d: nat, q: nat, r: nat)
    requires r < d && x == q * d + r
    ensures x / d == q && x % d == r
  {
    var q', r' := x / d, x % d;
    assert x == q' * d + r';
    if q' < q {
      assert (q - q') * d == q * d - q' * d;
      MulMono(q - q', d);
    } else if q' > q {
      assert (q' - q) * d == q' * d - q * d;
      MulMono(q' - q, d);
    }
  }

  lemma ModBelow(a: nat, m: nat)
    requires m > 0
    ensures a % m <= a
    ensures a < m ==> a % m == a
  {
    if a < m {
      DivModUnique(a, m, 0, a);
    }
  }

  lemma MulDivCancel(q: nat, d: nat)
    requires d > 0
    ensures (q * d) / d == q && (q * d) % d == 0
  {
    DivModUnique(q * d, d, q, 0);
  }
}
