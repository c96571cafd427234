/** The greatest common divisor, and the multiples it generates. */
module Euclid {

  function Gcd(a: nat, b: nat): (g: nat)
    ensures a > 0 || b > 0 ==> g > 0
    decreases b
  {
    if b == 0 then a else Gcd(b, a % b)
  }

  lemma Swap(a: int, b: int, c: int)
    ensures a * (b * c) == b * (a * c)
  {
  }

  lemma Spread(a: int, b: int, c: int)
    ensures a * (b + c) == a * b + a * c && (a + b) * c == a * c + b * c
  {
  }

  lemma Division(a: nat, b: nat)
    requires 0 < b
    ensures a == b * (a / b) + a % b
  {
  }

  /** It divides both numbers. */
  lemma {:induction false} Divides(a: nat, b: nat) returns (p: nat, q: nat)
    ensures a == Gcd(a, b) * p && b == Gcd(a, b) * q
    decreases b
  {
    if b == 0 {
      return 1, 0;
    }
    var g, d := Gcd(a, b), a / b;
    var r, s := Divides(b, a % b);
    DividesNext(a, b, g, d, r, s);
    p, q := d * r + s, r;
  }

  lemma DividesNext(a: nat, b: nat, g: nat, d: nat, r: nat, s: nat)
    requires 0 < b && d == a / b && b == g * r && a % b == g * s
    ensures a == g * (d * r + s) && d * r >= 0
  {
    Division(a, b);
    Swap(d, g, r);
    Spread(g, d * r, s);
    assert a == b * d + g * s;
    assert b * d == d * (g * r);
  }

  /** It is a combination of them. */
  lemma {:induction false} Bezout(a: nat, b: nat) returns (x: int, y: int)
    ensures a * x + b * y == Gcd(a, b)
    decreases b
  {
    if b == 0 {
      return 1, 0;
    }
    var u, v := Bezout(b, a % b);
    x, y := v, u - (a / b) * v;
    BezoutNext(a, b, a / b, u, v);
  }

  lemma BezoutNext(a: nat, b: nat, d: nat, u: int, v: int)
    requires 0 < b && d == a / b
    ensures a * v + b * (u - d * v) == b * u + (a % b) * v
  {
    Division(a, b);
    Spread(b, u, -(d * v));
    Spread(b * d, a % b, v);
    assert b * -(d * v) == -(b * (d * v));
    assert (b * d) * v == b * (d * v);
  }

  lemma Products(c: nat, p: int, q: int)
    requires p <= q
    ensures c * p <= c * q
  {
  }

  /** How many times the double of `g` fits into `m`. */
  function Halves(g: nat, m: nat): nat
    requires 0 < g
  {
    m / 2 / g
  }

  lemma HalvesRest(g: nat, m: nat)
    requires 0 < g
    ensures 0 <= m - 2 * g * Halves(g, m) < 2 * g
  {
    Division(m / 2, g);
    assert 2 * g * Halves(g, m) == 2 * (g * Halves(g, m));
  }

  /** The largest multiple of `g` whose double is at most `m`. */
  function HalfMultiple(g: nat, m: nat): int
    requires 0 < g
  {
    g * Halves(g, m)
  }

  lemma HalfMultipleIs(g: nat, m: nat, t: int)
    requires 0 < g
    ensures 0 <= 2 * HalfMultiple(g, m) <= m < 2 * HalfMultiple(g, m) + 2 * g
    ensures 2 * (g * t) <= m ==> g * t <= HalfMultiple(g, m)
  {
    hide Halves;
    HalvesRest(g, m);
    HalfParts(g, m, Halves(g, m), m - 2 * g * Halves(g, m), t);
  }

  lemma HalfParts(g: nat, m: nat, q: nat, rest: nat, t: int)
    requires m == 2 * g * q + rest && rest < 2 * g
    ensures 0 <= 2 * (g * q) <= m < 2 * (g * q) + 2 * g
    ensures 2 * (g * t) <= m ==> g * t <= g * q
  {
    assert 2 * g * q == 2 * (g * q);
    if t > q {
      Products(g, q + 1, t);
      Spread(g, q, 1);
    } else {
      Products(g, t, q);
    }
  }

  /** Every multiple of the divisor is `a * j - b * k` for some `k` below `a`. */
  lemma Reached(a: nat, b: nat, t: int) returns (j: int, k: nat)
    requires 0 < a
    ensures k < a && a * j - b * k == Gcd(a, b) * t
  {
    hide Gcd;
    var x, y := Bezout(a, b);
    var n := -(y * t);
    k := n % a;
    var q := n / a;
    j := x * t - b * q;
    assert n == a * q + k;
    Combination(a, b, x, y, t, q, k);
  }

  lemma Combination(a: nat, b: nat, x: int, y: int, t: int, q: int, k: int)
    requires -(y * t) == a * q + k
    ensures a * (x * t - b * q) - b * k == (a * x + b * y) * t
  {
    Spread(a * x, b * y, t);
    Spread(a, x * t, -(b * q));
    Spread(b, a * q, k);
    Swap(a, b, q);
    assert (a * x) * t == a * (x * t) && (b * y) * t == b * (y * t);
    assert a * -(b * q) == -(a * (b * q)) && b * -(y * t) == -(b * (y * t));
  }

  lemma WithOne(a: nat)
    ensures Gcd(a, 1) == 1
  {
  }
}
