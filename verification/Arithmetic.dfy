/** Products, quotients and remainders. */
module Arithmetic {
  lemma Distribute(a: int, b: int, c: int)
    ensures (a + b) * c == a * c + b * c
  {
  }

  lemma Associate(a: int, b: int, c: int)
    ensures (a * b) * c == a * (b * c)
  {
  }

  lemma ScaleBound(d: int, m: int)
    requires m > 0
    ensures d > 0 ==> d * m >= m
    ensures d < 0 ==> d * m <= -m
  {
  }

  lemma AtLeast(a: nat, b: nat)
    requires a > 0
    ensures a * b >= b
  {
  }

  lemma InOrder(a: nat, b: nat, c: nat)
    requires a <= b
    ensures a * c <= b * c
  {
  }

  lemma Cancel(a: nat, b: nat, c: nat)
    requires a * c < b * c
    ensures a < b
  {
    if b <= a {
      InOrder(b, a, c);
    }
  }

  /** A number lies between two multiples. */
  lemma Between(y: nat, c: nat)
    requires c > 0
    ensures (y / c) * c <= y < (y / c) * c + c == (y / c + 1) * c
  {
    assert y == (y / c) * c + y % c;
    Distribute(y / c, 1, c);
  }

  lemma Split(a: int, m: int)
    requires m > 0
    ensures a == (a / m) * m + a % m && 0 <= a % m < m
  {
  }

  /** Division is determined by quotient and remainder. */
  lemma ModUnique(a: int, q: int, r: int, m: int)
    requires m > 0 && 0 <= r < m && a == q * m + r
    ensures a / m == q && a % m == r
  {
    var d := a / m - q;
    assert a == (a / m) * m + a % m;
    assert d * m == r - a % m;
    ScaleBound(d, m);
  }

  lemma MultipleMod(q: int, m: int)
    requires m > 0
    ensures (q * m) % m == 0
  {
    ModUnique(q * m, q, 0, m);
  }

  lemma SumMod(a: int, b: int, m: int)
    requires m > 0 && a % m == 0 && b % m == 0
    ensures (a + b) % m == 0 && (a - b) % m == 0
  {
    var x, y := a / m, b / m;
    assert a == x * m && b == y * m;
    assert a + b == (x + y) * m && a - b == (x - y) * m;
    ModUnique(a + b, x + y, 0, m);
    ModUnique(a - b, x - y, 0, m);
  }

  /** A multiple of m is a multiple of every divisor of m. */
  lemma MultipleOfMultiple(a: int, m: int, g: int)
    requires m > 0 && g > 0 && a % m == 0 && m % g == 0
    ensures a % g == 0
  {
    var x, y := a / m, m / g;
    assert a == x * m && m == y * g;
    Associate(x, y, g);
    ModUnique(a, x * y, 0, g);
  }
}
