/** Greatest common divisors: what the residues of a line's error term depend on. */
module Euclid {

  function Gcd(a: nat, b: nat): nat
    decreases b
  {
    if b == 0 then a else Gcd(b, a % b)
  }

  ghost predicate Divides(d: nat, a: nat)
  {
    exists m: nat :: Times(m, d) == a
  }

  function Times(m: int, d: int): int { m * d }

  /** The divisor of both numbers, as an integer combination of them. */
  lemma {:induction false} Bezout(a: nat, b: nat) returns (u: int, v: int)
    ensures u * a + v * b == Gcd(a, b)
    decreases b
  {
    if b == 0 {
      u, v := 1, 0;
    } else {
      var x, y := Bezout(b, a % b);
      var q := a / b;
      assert a == b * q + a % b;
      u, v := y, x - q * y;
      Combine(a, b, q, a % b, x, y);
    }
  }

  lemma Combine(a: nat, b: nat, q: nat, r: nat, x: int, y: int)
    requires a == b * q + r
    ensures y * a + (x - q * y) * b == x * b + y * r
  {
    assert y * a == y * (b * q) + y * r;
    assert (x - q * y) * b == x * b - q * y * b;
    assert y * (b * q) == q * y * b;
  }

  lemma Division(a: nat, b: nat) returns (q: nat, r: nat)
    requires b > 0
    ensures a == b * q + r && r == a % b
  {
    q, r := a / b, a % b;
  }

  lemma Multiple(a: nat, b: nat, q: nat, r: nat, i: nat, j: nat, g: nat)
    requires a == b * q + r && b == i * g && r == j * g
    ensures i * q + j >= 0 && a == (i * q + j) * g
  {
    assert (i * q + j) * g == i * q * g + j * g;
    assert i * q * g == i * g * q;
  }

  lemma {:induction false} GcdDivides(a: nat, b: nat) returns (m: nat, n: nat)
    ensures a == m * Gcd(a, b) && b == n * Gcd(a, b)
    ensures a + b > 0 ==> Gcd(a, b) > 0
    decreases b
  {
    if b == 0 {
      m, n := 1, 0;
    } else {
      var i, j := GcdDivides(b, a % b);
      var q, r := Division(a, b);
      Multiple(a, b, q, r, i, j, Gcd(a, b));
      m, n := i * q + j, i;
    }
  }

  /** Every common divisor divides it, so it is the greatest. */
  lemma GcdGreatest(a: nat, b: nat, d: nat)
    requires d > 0 && Divides(d, a) && Divides(d, b) && a + b > 0
    ensures Divides(Gcd(a, b), a) && Divides(Gcd(a, b), b) && Divides(d, Gcd(a, b))
  {
    var m, n := GcdDivides(a, b);
    assert Times(m, Gcd(a, b)) == a && Times(n, Gcd(a, b)) == b;
    var i: nat :| Times(i, d) == a;
    var j: nat :| Times(j, d) == b;
    hide Gcd;
    var u, v := Bezout(a, b);
    Combination(a, b, d, i, j, u, v);
    NotNegative(u * i + v * j, d);
    assert Times(u * i + v * j, d) == Gcd(a, b);
  }

  lemma Combination(a: nat, b: nat, d: nat, i: nat, j: nat, u: int, v: int)
    requires a == i * d && b == j * d
    ensures u * a + v * b == (u * i + v * j) * d
  {
    assert u * (i * d) == u * i * d;
    assert v * (j * d) == v * j * d;
    assert (u * i + v * j) * d == u * i * d + v * j * d;
  }

  lemma NotNegative(k: int, d: nat)
    requires d > 0 && k * d >= 0
    ensures k >= 0
  {
  }
}
