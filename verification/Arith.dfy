/** Non-linear facts about multiplication and division that the solver is given by name. */
module Arith {

  type pos = n: nat | n > 0 witness 1

  lemma MulMono(a: nat, b: nat, c: nat)
    requires a <= b
    ensures a * c <= b * c
  {}

  lemma MulStrict(a: nat, b: nat, c: nat)
    requires a < b
    ensures a * c + c <= b * c
  {
    MulMono(a + 1, b, c);
    assert (a + 1) * c == a * c + c;
  }

  /** The quotient and remainder of a decomposition are the decomposition. */
  lemma DivModUnique(a: nat, d: pos, q: nat, r: nat)
    requires r < d && a == q * d + r
    ensures a / d == q && a % d == r
  {
    var q', r' := a / d, a % d;
    assert a == q' * d + r';
    if q < q' {
      MulStrict(q, q', d);
    } else if q' < q {
      MulStrict(q', q, d);
    }
  }

  lemma DivModParts(a: nat, d: pos)
    ensures a == (a / d) * d + a % d && a % d < d
  {}

  lemma DivAddOne(a: nat, d: pos)
    ensures (a + d) / d == a / d + 1
  {
    DivModParts(a, d);
    assert (a / d + 1) * d == (a / d) * d + d;
    DivModUnique(a + d, d, a / d + 1, a % d);
  }
}
