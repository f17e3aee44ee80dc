/** Facts about multiplication and floored division of natural numbers,
  * which the row layout and the resize arithmetic both rely on. */
module Arith {
  /** Multiplying by the same factor keeps the order. */
  lemma {:induction false} MulMonotone(a: nat, b: nat, c: nat)
    requires a <= b
    ensures a * c <= b * c
  {
    if a < b {
      MulMonotone(a, b - 1, c);
      assert (b - 1) * c + c == b * c;
    }
  }

  /** Floored division: `n / d` is the largest whole number whose
    * multiple by `d` does not exceed `n`. */
  lemma FloorDiv(n: nat, d: nat)
    requires 0 < d
    ensures (n / d) * d <= n < (n / d) * d + d
  {
  }

  /** Multiplying by a positive number and dividing by it again gives
    * the number back. */
  lemma CancelFactor(a: nat, b: nat)
    requires 0 < a
    ensures a * b / a == b
  {
    var n := a * b;
    assert n == b * a;
    FloorDiv(n, a);
    if n / a < b {
      MulMonotone(n / a + 1, b, a);
    }
  }
}
