/** Products and truncating division, shared by the modules that reason about them. */
module Arithmetic {

  lemma MulMonotone(a: nat, b: nat, c: nat)
    requires a <= b
    ensures a * c <= b * c
  {
    assert b * c == a * c + (b - a) * c;
  }

  lemma MulCancel(a: nat, b: nat, c: nat)
    requires a * c < b * c
    ensures a < b
  {
    if b <= a { MulMonotone(b, a, c); }
  }

  lemma DivBounds(a: nat, b: nat)
    requires b > 0
    ensures a / b * b <= a < a / b * b + b
    ensures a == a / b * b + a % b && 0 <= a % b < b
  {
  }

  lemma DivIs(a: nat, b: nat, q: nat)
    requires b > 0 && q * b <= a < q * b + b
    ensures a / b == q
  {
    DivBounds(a, b);
    if a / b < q {
      MulMonotone(a / b + 1, q, b);
    } else if a / b > q {
      MulMonotone(q + 1, a / b, b);
    }
  }

  lemma DivMonotone(a: nat, b: nat, c: nat)
    requires c > 0 && a <= b
    ensures a / c <= b / c
  {
    DivBounds(a, c);
    DivBounds(b, c);
    MulCancel(a / c, b / c + 1, c);
  }

  /** Adding a multiple of the divisor. */
  lemma DivOfSum(k: nat, f: nat, w: nat)
    requires w > 0
    ensures (k * w + f) / w == k + f / w
  {
    DivBounds(f, w);
    assert (k + f / w) * w == k * w + f / w * w;
    DivIs(k * w + f, w, k + f / w);
  }

  lemma RemainderIs(q: nat, r: nat, m: nat)
    requires r < m
    ensures (q * m + r) % m == r
  {
    DivIs(q * m + r, m, q);
    DivBounds(q * m + r, m);
  }
}
