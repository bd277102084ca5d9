/**
 Natural-number products for the bitmap layout. `Times` names the
 products of sizes and indices, and the layout and copy-loop proofs reach
 them through the laws stated here rather than through nonlinear
 arithmetic.
 */
module Arith {

  function Times(a: nat, b: nat): nat
  {
    a * b
  }

  lemma {:induction false} TimesIsProduct(a: nat, b: nat)
    ensures Times(a, b) == a * b
    decreases a
  {
    if a > 0 {
      TimesIsProduct(a - 1, b);
      MulSucc(a - 1, b);
    }
  }

  lemma TimesSucc(a: nat, b: nat)
    ensures Times(a + 1, b) == Times(a, b) + b
  {
  }

  lemma TimesMonotone(a: nat, b: nat, c: nat)
    requires a <= b
    ensures Times(a, c) <= Times(b, c)
  {
    TimesIsProduct(a, c);
    TimesIsProduct(b, c);
    MulMonotone(a, b, c);
  }

  lemma MulSucc(a: int, b: int)
    ensures (a + 1) * b == a * b + b
  {
  }

  lemma MulMonotone(a: nat, b: nat, c: nat)
    requires a <= b
    ensures 0 <= a * c <= b * c
  {
  }

  lemma MulSubDistrib(a: int, b: int, c: int)
    ensures (a - b) * c == a * c - b * c
  {
  }

  lemma MulRegroup(a: int, b: int, c: int)
    ensures a * (b * c) == c * (a * b) == (a * b) * c
  {
  }

  lemma DivUnique(x: int, p: int, q: int, r: int)
    requires p > 0 && 0 <= r < p && x == q * p + r
    ensures x / p == q
  {
    var d := x / p;
    MulSubDistrib(d, q, p);
    if d > q {
      MulMonotone(1, d - q, p);
    } else if d < q {
      MulMonotone(1, q - d, p);
      MulSubDistrib(q, d, p);
    }
  }

  /** `(n + p - 1) / p` is the ceiling of `n / p`. */
  lemma CeilingDiv(n: nat, p: nat)
    requires p >= 1
    ensures (n + p - 1) / p * p >= n
    ensures (n + p - 1) / p > 0 ==> ((n + p - 1) / p - 1) * p < n
    ensures n % p == 0 ==> (n + p - 1) / p * p == n
    ensures n % p != 0 ==> (n + p - 1) / p * p == n - n % p + p
  {
    var a, b := n / p, n % p;
    if b == 0 {
      DivUnique(n + p - 1, p, a, p - 1);
      MulSucc(a - 1, p);
    } else {
      MulSucc(a, p);
      DivUnique(n + p - 1, p, a + 1, b - 1);
    }
  }

  /** Any `q` with `(q - 1) * p < n <= q * p` is that ceiling. */
  lemma CeilingUnique(n: nat, p: nat, q: nat)
    requires p >= 1
    requires q * p >= n && (q > 0 ==> (q - 1) * p < n)
    ensures q == (n + p - 1) / p
  {
    var c := (n + p - 1) / p;
    CeilingDiv(n, p);
    if q < c {
      MulMonotone(q, c - 1, p);
    } else if q > c {
      MulMonotone(c, q - 1, p);
    }
  }
}
