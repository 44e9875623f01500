/** A few facts about products and quotients of variables. */
module Arithmetic {

  lemma MulMono(a: nat, a': nat, b: nat, b': nat)
    requires a <= a' && b <= b'
    ensures a * b <= a' * b'
  {
    assert a * b <= a' * b;
    assert a' * b <= a' * b';
  }

  /** Quotient and remainder are unique. */
  lemma Quotient(n: nat, d: nat, q: nat, r: nat)
    requires d > 0 && n == d * q + r && r < d
    ensures n / d == q && n % d == r
  {
    var q', r' := n / d, n % d;
    assert n == d * q' + r';
    if q' < q {
      MulMono(d, d, q' + 1, q);
    } else if q' > q {
      MulMono(d, d, q + 1, q');
    }
  }

  lemma DivLower(y: nat, total: nat, q: nat)
    requires 0 < total && q * total <= y
    ensures q <= y / total
  {
    var z := y / total;
    assert y < (z + 1) * total;
    if z < q {
      MulMono(z + 1, q, total, total);
    }
  }

  lemma DivUpper(y: nat, total: nat, q: nat)
    requires 0 < total && y <= q * total
    ensures y / total <= q
  {
    assert (q + 1) * total == q * total + total;
    if q < y / total {
      MulMono(q + 1, y / total, total, total);
    }
  }

  /** `x / m <= w` moved across the division: a multiple of `m` with all its remainders. */
  lemma DivAtMost(x: nat, m: nat, w: nat)
    requires 0 < m
    ensures x / m <= w <==> x < (w + 1) * m
  {
    if x / m <= w {
      MulMono(x / m + 1, w + 1, m, m);
      assert x < (x / m + 1) * m;
    } else {
      DivLess(x, m, w + 1);
    }
  }

  lemma DivLess(x: nat, m: nat, q: nat)
    requires 0 < m && q <= x / m
    ensures q * m <= x
  {
    MulMono(q, x / m, m, m);
    assert x / m * m <= x;
  }

  lemma DivStrict(y: nat, total: nat, q: nat)
    requires 0 < total && y < q * total
    ensures y / total < q
  {
    if q <= y / total {
      MulMono(q, y / total, total, total);
    }
  }

  lemma MulAssoc(a: nat, b: nat, c: nat)
    ensures a * b * c == a * (b * c)
  {
  }

  function Pow2(k: nat): nat {
    if k == 0 then 1 else 2 * Pow2(k - 1)
  }
}
