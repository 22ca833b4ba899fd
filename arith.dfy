/** Integer facts the index arithmetic of the pixel buffer relies on. */
module Arith {

  /** Quotient and remainder are determined by any decomposition n == q * b + r with 0 <= r < b. */
  lemma DivModUnique(n: int, b: int, q: int, r: int)
    requires b > 0 && 0 <= r < b && n == q * b + r
    ensures n / b == q && n % b == r
  {
    var q', r' := n / b, n % b;
    assert n == q' * b + r';
    if q' > q {
      MulMonotone(q + 1, q', b);
    } else if q' < q {
      MulMonotone(q' + 1, q, b);
    }
  }

  lemma MulMonotone(a: int, b: int, c: int)
    requires a <= b && c >= 0
    ensures a * c <= b * c
  {
  }

  lemma MulStrict(a: int, b: int, c: int)
    requires a < b && c > 0
    ensures a * c < b * c
  {
  }

  /** Cancelling a positive factor from an inequality. */
  lemma MulCancelLe(a: int, b: int, c: int)
    requires c > 0 && a * c <= b * c
    ensures a <= b
  {
    if a > b { MulStrict(b, a, c); }
  }

  lemma MulCancelLt(a: int, b: int, c: int)
    requires c > 0 && a * c < b * c
    ensures a < b
  {
    if a >= b { MulMonotone(b, a, c); }
  }

  lemma Distrib(a: int, b: int, c: int)
    ensures (a + b) * c == a * c + b * c
  {
  }

  /** The byte span of `len` items of `size` bytes from item `start`, inside `n` items. */
  lemma Span(start: nat, len: nat, n: nat, size: nat)
    requires start + len <= n
    ensures 0 <= start * size <= (start + len) * size <= n * size
    ensures (start + len) * size == start * size + len * size
    ensures 0 <= len * size
  {
    MulMonotone(start, start + len, size);
    MulMonotone(start + len, n, size);
    Distrib(start, len, size);
  }

  lemma Assoc(a: int, b: int, c: int)
    ensures (a * b) * c == a * (b * c)
  {
  }
}
