/** Greatest common divisors. */
module Divisors {

  function Gcd(a: nat, b: nat): (g: nat)
    requires a > 0 || b > 0
    ensures g > 0
    decreases b
  {
    if b == 0 then a else Gcd(b, a % b)
  }

  lemma Split(a: nat, b: nat)
    requires b > 0
    ensures a == (a / b) * b + a % b && a / b >= 0
  {}

  lemma Multiply(d: int, m: int, n: int, g: int, b: int, r: int)
    requires b == m * g && r == n * g
    ensures d * b + r == (d * m + n) * g
  {
    assert d * (m * g) == d * m * g;
  }

  /** It divides both numbers. */
  lemma {:induction false} GcdDivides(a: nat, b: nat) returns (p: int, q: int)
    requires a > 0 || b > 0
    ensures a == p * Gcd(a, b) && b == q * Gcd(a, b)
    decreases b
  {
    if b == 0 {
      p, q := 1, 0;
    } else {
      var m, n := GcdDivides(b, a % b);
      Split(a, b);
      Multiply(a / b, m, n, Gcd(b, a % b), b, a % b);
      p, q := a / b * m + n, m;
    }
  }

  /** It is a combination of both. */
  lemma {:induction false} Bezout(a: nat, b: nat) returns (x: int, y: int)
    requires a > 0 || b > 0
    ensures x * a + y * b == Gcd(a, b)
    decreases b
  {
    if b == 0 {
      x, y := 1, 0;
    } else {
      var m, n := Bezout(b, a % b);
      Split(a, b);
      Combine(m, n, a / b, a, b);
      x, y := n, m - n * (a / b);
    }
  }

  lemma Combine(m: int, n: int, d: int, a: int, b: int)
    ensures n * a + (m - n * d) * b == m * b + n * (a - d * b)
  {
    assert (m - n * d) * b == m * b - n * d * b;
  }
}
