/** Quotients and products over variable divisors, each fact proved once. */
module Arithmetic {

  function Quot(n: nat, d: nat): nat
    requires 0 < d
  {
    n / d
  }

  /** `div_ceil`. */
  function CeilQuot(n: nat, d: nat): nat
    requires 0 < d
  {
    (n + d - 1) / d
  }

  lemma CeilDiv(n: nat, d: nat)
    requires 0 < d
    ensures n <= ((n + d - 1) / d) * d < n + d
  {
    var q := (n + d - 1) / d;
    assert n + d - 1 == d * q + (n + d - 1) % d;
  }

  lemma MulLe(a: nat, b: nat, c: nat)
    requires a <= b
    ensures a * c <= b * c
  {
  }

  lemma NextMultiple(a: nat, b: nat, c: nat)
    requires a < b
    ensures a * c + c <= b * c
  {
    MulLe(a + 1, b, c);
  }

  lemma OneLess(n: nat, c: nat)
    requires 0 < n
    ensures n * c == (n - 1) * c + c
  {
  }

  lemma DivUnique(n: nat, c: nat, q: nat, r: nat)
    requires 0 < c && r < c && n == c * q + r
    ensures Quot(n, c) == q && n % c == r
  {
    var q', r' := n / c, n % c;
    assert n == c * q' + r';
    if q' < q {
      MulLe(q' + 1, q, c);
    } else if q < q' {
      MulLe(q + 1, q', c);
    }
  }

  /** Moving within a chunk. */
  lemma SameChunk(p: nat, k: nat, c: nat)
    requires 0 < c && p % c + k < c
    ensures Quot(p + k, c) == Quot(p, c) && (p + k) % c == p % c + k
  {
    var q, r := p / c, p % c;
    assert p + k == c * q + (r + k);
    DivUnique(p + k, c, q, r + k);
  }

  /** A device made of whole blocks holds at least one. */
  lemma BlockFits(size: nat, block: nat)
    requires 0 < size && 0 < block && size % block == 0
    ensures block <= size
  {
  }
}
