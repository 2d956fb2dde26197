/** Facts about Euclidean division the ring and frame-counter proofs need
    with a variable divisor. */
module Arith {

  lemma MulAtLeast(a: int, m: int)
    requires 1 <= a && 0 < m
    ensures m <= a * m
  {
  }

  lemma MulSub(a: int, b: int, m: int)
    ensures (a - b) * m == a * m - b * m
  {
  }

  /** Quotient and remainder are the only ones with `0 <= s < m`. */
  lemma ModUnique(f: int, m: int, q: int, s: int)
    requires 0 < m && f == q * m + s && 0 <= s < m
    ensures f % m == s && f / m == q
  {
    var q', s' := f / m, f % m;
    assert f == q' * m + s';
    MulSub(q, q', m);
    MulSub(q', q, m);
    if q' < q {
      MulAtLeast(q - q', m);
    } else if q' > q {
      MulAtLeast(q' - q, m);
    }
  }

  /** Counting modulo `m` one step at a time agrees with reducing the
      count. */
  lemma ModSucc(k: nat, m: nat)
    requires 0 < m
    ensures (k % m + 1) % m == (k + 1) % m
  {
    var q, s := k / m, k % m;
    if s + 1 < m {
      ModUnique(k + 1, m, q, s + 1);
      ModUnique(s + 1, m, 0, s + 1);
    } else {
      ModUnique(k + 1, m, q + 1, 0);
      ModUnique(s + 1, m, 1, 0);
    }
  }

  /** Multiplying by a nonnegative number keeps order. */
  lemma MulMono(a: int, b: int, m: nat)
    requires a <= b
    ensures a * m <= b * m
  {
    MulSub(b, a, m);
  }

  lemma MulRegroup(q: int, b: int, r: int, a: int)
    ensures (q * b + r) * a == q * (a * b) + r * a
  {
  }

  /** Dividing twice is dividing by the product. */
  lemma DivDiv(x: nat, a: nat, b: nat)
    requires 0 < a && 0 < b
    ensures x / a / b == x / (a * b)
  {
    var q1, r1 := x / a, x % a;
    var q2, r2 := q1 / b, q1 % b;
    assert x == q1 * a + r1;
    assert q1 == q2 * b + r2;
    MulRegroup(q2, b, r2, a);
    MulMono(r2, b - 1, a);
    MulSub(b, 1, a);
    ModUnique(x, a * b, q2, r2 * a + r1);
  }
}
