/** Integer arithmetic as C++ defines it. */
module CArithmetic {

  // Division and remainder truncate towards zero.

  function Quotient(a: int, b: int): int
    requires b > 0
  {
    if a >= 0 then a / b else -(-a / b)
  }

  function Remainder(a: int, b: int): int
    requires b > 0
  {
    a - b * Quotient(a, b)
  }

  lemma Negated(a: int, b: int)
    requires b > 0
    ensures Quotient(-a, b) == -Quotient(a, b) && Remainder(-a, b) == -Remainder(a, b)
  {
    assert b * -Quotient(a, b) == -(b * Quotient(a, b));
  }

  lemma RemainderFits(a: int, b: int)
    requires b > 0
    ensures -b < Remainder(a, b) < b
  {
    assert b * -(-a / b) == -(b * (-a / b));
  }

  // Euclidean division, as Dafny has it

  lemma MulAtLeast(m: int, d: int)
    requires m >= 0
    ensures d == 0 || m * d >= m || m * d <= -m
  {
    if d > 0 {
      assert m * (d - 1) >= 0;
    } else if d < 0 {
      assert m * (-d - 1) >= 0;
    }
  }

  lemma DivUnique(n: int, m: int, q: int, r: int)
    requires 0 <= r < m && n == m * q + r
    ensures n / m == q && n % m == r
  {
    assert m * (q - n / m) == n % m - r;
    MulAtLeast(m, q - n / m);
  }

  /** Dividing by a and then by b is dividing by their product. */
  lemma DivTwice(n: int, a: int, b: int, product: int)
    requires a > 0 && b > 0 && product == a * b
    ensures n / product == n / a / b
    ensures n == product * (n / product) + a * (n / a % b) + n % a
  {
    var q, r := n / a, n % a;
    var q', r' := q / b, q % b;
    DivTwiceParts(n, a, b, product, q', r', r);
    DivUnique(n, product, q', a * r' + r);
  }

  lemma DivTwiceParts(n: int, a: int, b: int, product: int, q: int, r: int, s: int)
    requires a > 0 && product == a * b && n == a * (b * q + r) + s && 0 <= r < b && 0 <= s < a
    ensures n == product * q + (a * r + s) && 0 <= a * r + s < product
  {
    Distribute(a, b * q, r);
    Associate(a, b, q);
    Distribute(a, b, -1);
    MulOrder(a, r, b - 1);
  }

  lemma MulOrder(a: int, b: int, c: int)
    requires a >= 0 && b <= c
    ensures a * b <= a * c
  {
    Distribute(a, b, c - b);
  }

  lemma Distribute(a: int, b: int, c: int)
    ensures a * (b + c) == a * b + a * c
  {
  }

  lemma Associate(a: int, b: int, c: int)
    ensures a * (b * c) == (a * b) * c
  {
  }

  type int16 = x: int | -0x8000 <= x < 0x8000

  type int32 = x: int | -0x8000_0000 <= x < 0x8000_0000

  type int64 = x: int | -0x8000_0000_0000_0000 <= x < 0x8000_0000_0000_0000

  type uint32 = x: int | 0 <= x < 0x1_0000_0000
}
