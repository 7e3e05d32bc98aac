/** Products, quotients and remainders, and the sizes of machine words. */
module Numbers {

  const TWO_16: nat := 0x1_0000
  const TWO_32: nat := 0x1_0000_0000
  const TWO_64: nat := 0x1_0000_0000_0000_0000

  lemma MulMonotone(a: int, b: int, d: int)
    requires a <= b && d >= 0
    ensures a * d <= b * d
  {
    assert (b - a) * d == b * d - a * d;
    assert (b - a) * d >= 0;
  }

  /** There is one quotient and one remainder. */
  lemma ModUnique(x: int, q: int, r: int, d: int)
    requires d > 0 && 0 <= r < d && x == q * d + r
    ensures x / d == q && x % d == r
  {
    var e := x / d;
    assert x == e * d + x % d;
    assert (e + 1) * d == e * d + d && (q + 1) * d == q * d + d;
    if e < q {
      MulMonotone(e + 1, q, d);
    } else if q < e {
      MulMonotone(q + 1, e, d);
    }
  }

  lemma DivNatural(n: nat, d: nat)
    requires d > 0
    ensures n / d >= 0
  {
    var q := n / d;
    assert n == q * d + n % d && (q + 1) * d == q * d + d;
    if q < 0 {
      MulMonotone(q + 1, 0, d);
    }
  }
}
