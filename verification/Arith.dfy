/** Facts about products and quotients that the solver does not find by itself. */
module Arith {

  lemma {:induction false} MulMono(a: int, b: int, n: nat)
    requires a <= b
    ensures a * n <= b * n
  {
  }

  lemma {:induction false} DivMono(a: int, b: int, n: nat)
    requires n > 0 && a <= b
    ensures a / n <= b / n
  {
    var p, q := a / n, b / n;
    assert a == p * n + a % n && b == q * n + b % n;
    if p > q {
      MulMono(q + 1, p, n);
    }
  }

  lemma {:induction false} DivInUnit(u: nat, off: nat, unit: nat)
    requires off < unit
    ensures (u * unit + off) / unit == u
  {
    var a := u * unit + off;
    var q := a / unit;
    assert a == q * unit + a % unit;
    if q < u {
      MulMono(q + 1, u, unit);
    } else if q > u {
      MulMono(u + 1, q, unit);
    }
  }

  lemma {:induction false} Product(a: int, b: int, n: int)
    ensures (a + b) * n == a * n + b * n
  {
  }

  lemma {:induction false} DivBelow(k: nat, h: nat, s: nat)
    requires s > 0 && k < h * s
    ensures k / s < h
  {
    var q := k / s;
    assert k == q * s + k % s;
    if q >= h {
      MulMono(h, q, s);
    }
  }
}
