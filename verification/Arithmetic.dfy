/** Powers, bounds and remainders by a variable modulus. */
module Arithmetic {

  const TWO16: nat := 0x1_0000
  const TWO32: nat := 0x1_0000_0000
  const TWO64: nat := 0x1_0000_0000_0000_0000

  function Min(a: nat, b: nat): nat {
    if a <= b then a else b
  }

  function Pow2(n: nat): (p: nat)
    ensures p > 0
  {
    if n == 0 then 1 else 2 * Pow2(n - 1)
  }

  lemma {:induction false} Pow2Monotone(a: nat, b: nat)
    requires a <= b
    ensures Pow2(a) <= Pow2(b)
  {
    if a < b {
      Pow2Monotone(a, b - 1);
    }
  }

  /** The bit of that weight is set. */
  predicate Bit(value: nat, weight: nat)
    requires weight > 0
  {
    value / weight % 2 == 1
  }

  lemma MulAtLeast(a: int, m: int)
    requires a >= 1 && m >= 0
    ensures a * m >= m
  {
  }

  lemma Distribute(a: int, b: int, m: int)
    ensures (a - b) * m == a * m - b * m
  {
  }

  lemma Unique(x: int, m: int, q: int, r: int)
    requires 0 <= r < m && x == q * m + r
    ensures x % m == r && x / m == q
  {
    var q', r' := x / m, x % m;
    assert x == q' * m + r';
    Distribute(q, q', m);
    Distribute(q', q, m);
    if q > q' {
      MulAtLeast(q - q', m);
    } else if q < q' {
      MulAtLeast(q' - q, m);
    }
  }

  lemma Small(x: int, m: int)
    requires 0 <= x < m
    ensures x % m == x
  {
    Unique(x, m, 0, x);
  }

  lemma Pred(x: int, m: int)
    requires m > 0
    ensures (x - 1) % m == if x % m == 0 then m - 1 else x % m - 1
  {
    var q, r := x / m, x % m;
    if r == 0 {
      Distribute(q, 1, m);
      Unique(x - 1, m, q - 1, m - 1);
    } else {
      Unique(x - 1, m, q, r - 1);
    }
  }

  lemma Succ(x: int, m: int)
    requires m > 0
    ensures (x + 1) % m == (x % m + 1) % m
    ensures (x + 1) % m == if x % m == m - 1 then 0 else x % m + 1
  {
    Pred(x + 1, m);
    Small((x + 1) % m, m);
    if x % m == m - 1 {
      Unique(m, m, 1, 0);
    } else {
      Small(x % m + 1, m);
    }
  }

  lemma AddModulus(x: int, m: int)
    requires m > 0
    ensures (x + m) % m == x % m
  {
    var q, r := x / m, x % m;
    Distribute(q, -1, m);
    Unique(x + m, m, q + 1, r);
  }

  lemma DivDiv(x: nat, a: nat, b: nat)
    requires a > 0 && b > 0
    ensures x / a / b == x / (a * b)
  {
    var q, r := x / a / b, x / a % b;
    assert x / a == q * b + r && x == (x / a) * a + x % a;
    Distribute(q * b, -r, a);
    assert q * b * a == q * (a * b);
    MulMonotone(r, b - 1, a);
    Distribute(b, 1, a);
    Unique(x, a * b, q, r * a + x % a);
  }

  lemma MulMonotone(a: int, b: int, m: int)
    requires a <= b && m >= 0
    ensures a * m <= b * m
  {
  }

  lemma DivTwice(v: nat)
    ensures v / 2 / 2 == v / 4 && v / 4 / 2 == v / 8 && v / 8 / 2 == v / 16
  {
  }

  /** The low nibble is the sum of its bits. */
  lemma Nibble(v: nat)
    ensures v % 16 == v % 2 + 2 * (v / 2 % 2) + 4 * (v / 4 % 2) + 8 * (v / 8 % 2)
  {
    DivTwice(v);
    assert v == 2 * (v / 2) + v % 2;
    assert v / 2 == 2 * (v / 4) + v / 2 % 2;
    assert v / 4 == 2 * (v / 8) + v / 4 % 2;
    assert v / 8 == 2 * (v / 16) + v / 8 % 2;
  }
}
