/** Multiples, quotients and remainders. */
module Arithmetic {

  lemma DivideMultiple(b: nat, s: nat, n: nat)
    requires s < n
    ensures (b * n + s) / n == b && (b * n + s) % n == s
  {
    var q := (b * n + s) / n;
    assert q * n + (b * n + s) % n == b * n + s;
    if q < b {
      MultipleBelow(q, b, n);
    } else if b < q {
      MultipleBelow(b, q, n);
    }
  }

  lemma MultipleBelow(a: nat, b: nat, n: nat)
    requires a < b
    ensures a * n + n <= b * n
  {
    assert (a + 1) * n <= b * n;
  }
}
