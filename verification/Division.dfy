/** Unsigned division by its recursion, which keeps products of variables out of the proofs that only pass
    quotients on. */
module Division {
  function Div(n: nat, d: nat): (q: nat)
    requires d >= 1
    ensures q <= n
    ensures q >= 1 <==> n >= d
    decreases n
  {
    if n < d then 0 else 1 + Div(n - d, d)
  }

  lemma {:induction false} DivIs(n: nat, d: nat)
    requires d >= 1
    ensures Div(n, d) == n / d
    ensures n == (n / d) * d + n % d
  {
    if n < d {
      Divided(n, d, 0, n);
    } else {
      DivIs(n - d, d);
      var q := (n - d) / d;
      assert n == q * d + d + (n - d) % d;
      OneMore(q, d);
      Divided(n, d, q + 1, (n - d) % d);
    }
  }

  lemma OneMore(q: int, d: int)
    ensures (q + 1) * d == q * d + d
  {
  }

  /** Quotient and remainder are unique. */
  lemma Divided(n: nat, d: nat, q: nat, r: nat)
    requires r < d && n == q * d + r
    ensures n / d == q && n % d == r
  {
    assert n == (n / d) * d + n % d;
    assert (n / d - q) * d == (n / d) * d - q * d;
    NoWholeMultiple(n / d - q, d, r - n % d);
  }

  lemma NoWholeMultiple(k: int, d: int, x: int)
    requires k * d == x && -d < x < d
    ensures k == 0
  {
  }
}
