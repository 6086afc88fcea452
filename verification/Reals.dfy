/** Products and quotients of exact decimals, kept behind names so that proofs see only the laws they need. */
module Reals {
  function Mul(a: real, b: real): real { a * b }

  lemma MulAdd(a: real, b: real, c: real)
    ensures Mul(a, b + c) == Mul(a, b) + Mul(a, c)
    ensures Mul(b + c, a) == Mul(b, a) + Mul(c, a)
    ensures Mul(a, b - c) == Mul(a, b) - Mul(a, c)
  {}

  lemma MulZero(a: real)
    ensures Mul(a, 0.0) == 0.0 && Mul(0.0, a) == 0.0
  {}

  lemma MulNegate(a: real, b: real)
    ensures Mul(a, -b) == -Mul(a, b)
  {}

  lemma MulCommutes(a: real, b: real)
    ensures Mul(a, b) == Mul(b, a)
  {}

  lemma MulMonotone(a: real, b: real, c: real)
    requires a >= 0.0 && b <= c
    ensures Mul(a, b) <= Mul(a, c)
  {
    assert a * (c - b) >= 0.0;
  }

  function Quotient(a: real, b: real): real
    requires b != 0.0
  {
    a / b
  }

  function Min(a: real, b: real): real { if a <= b then a else b }

  lemma QuotientBound(n: real, q: real, limit: real)
    requires q > 0.0
    ensures n <= Mul(limit, q) ==> Quotient(n, q) <= limit
    ensures n >= Mul(limit, q) ==> Quotient(n, q) >= limit
  {
    var r := n / q;
    assert r * q == n;
    if r > limit {
      assert r * q > limit * q;
    } else if r < limit {
      assert r * q < limit * q;
    }
  }
}
