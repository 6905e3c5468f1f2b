/**
 Where repeated addition of a period leads in arithmetic modulo a power of two:
 exactly to the values that agree with the start modulo the period's largest
 power-of-two divisor.
 */
module Orbit {
  import Arith
  import opened Words

  /** The largest power of two that divides `p`. */
  function Grain(p: nat): (g: nat)
    requires p > 0
    ensures g > 0
  {
    if p % 2 == 1 then 1 else 2 * Grain(p / 2)
  }

  lemma {:induction false} GrainShape(p: nat, n: nat) returns (a: nat, q: nat)
    requires 0 < p < Pow2(n)
    ensures a < n && Grain(p) == Pow2(a) && p == q * Grain(p) && q % 2 == 1
    decreases p
  {
    if p % 2 == 1 {
      a, q := 0, p;
    } else {
      a, q := GrainShape(p / 2, n - 1);
      a := a + 1;
      var g := Grain(p / 2);
      assert q * (2 * g) == 2 * (q * g);
    }
  }

  /** No greater power of two divides `p`. */
  lemma {:induction false} GrainLargest(p: nat, c: nat, a: nat)
    requires p > 0 && p == c * Pow2(a)
    ensures Pow2(a) <= Grain(p)
    decreases a
  {
    if a > 0 {
      assert p == 2 * (c * Pow2(a - 1));
      GrainLargest(p / 2, c, a - 1);
    }
  }

  lemma {:induction false} Pow2Adds(a: nat, b: nat)
    ensures Pow2(a + b) == Pow2(a) * Pow2(b)
  {
    hide Pow2;
    if a == 0 {
      Pow2Zero();
    } else {
      Pow2Adds(a - 1, b);
      Pow2Next(a);
      Pow2Next(a + b);
      Doubled(Pow2(a - 1), Pow2(b));
    }
  }

  lemma Pow2Zero()
    ensures Pow2(0) == 1
  {
  }

  lemma Pow2Next(n: nat)
    requires n > 0
    ensures Pow2(n) == 2 * Pow2(n - 1)
  {
  }

  lemma Doubled(x: nat, y: nat)
    ensures 2 * (x * y) == (2 * x) * y
  {
  }

  /** An odd number has an inverse modulo every power of two. */
  lemma {:induction false} OddInverse(q: nat, n: nat) returns (k: nat, m: nat)
    requires q % 2 == 1
    ensures k * q == 1 + m * Pow2(n)
  {
    if n == 0 {
      k, m := 1, q - 1;
    } else {
      k, m := OddInverse(q, n - 1);
      var s := Pow2(n - 1);
      if m % 2 == 0 {
        Halve(m, s);
        m := m / 2;
      } else {
        Halve(m + q, s);
        assert (k + s) * q == k * q + s * q;
        assert (m + q) * s == m * s + q * s;
        k, m := k + s, (m + q) / 2;
      }
    }
  }

  lemma Halve(m: nat, s: nat)
    requires m % 2 == 0
    ensures m * s == (m / 2) * (2 * s)
  {
    assert m == 2 * (m / 2);
    assert 2 * (m / 2) * s == (m / 2) * (2 * s);
  }

  /** The greatest value below `Pow2(n)` that agrees with `d` modulo the grain. */
  function Top(d: nat, p: nat, n: nat): int
    requires p > 0
  {
    Pow2(n) - Grain(p) + d % Grain(p)
  }

  /** The orbit gets to the top. */
  lemma Reaches(d: nat, p: nat, n: nat) returns (k: nat)
    requires d < Pow2(n) && 0 < p < Pow2(n)
    ensures (d + k * p) % Pow2(n) == Top(d, p, n)
  {
    hide Pow2, Grain;
    var a, q := GrainShape(p, n);
    Pow2Adds(a, n - a);
    Pow2Positive(a);
    var k0, m0 := OddInverse(q, n - a);
    k := TopReached(d, q, Pow2(a), Pow2(n - a), k0, m0);
  }

  lemma TopReached(d: nat, q: nat, g: nat, s: nat, k0: nat, m0: nat) returns (k: nat)
    requires g > 0 && d < g * s && k0 * q == 1 + m0 * s
    ensures (d + k * (q * g)) % (g * s) == g * s - g + d % g
  {
    var j := StepsToTop(d, g, s);
    k := j * k0;
    Products(j, k0, q, g, m0, s);
    Lands(g * s, j * m0, d + k * (q * g), g * s - g + d % g, g - d % g);
  }

  lemma Lands(m: nat, c: nat, x: nat, r: int, gap: nat)
    requires x == r + c * m && r == m - gap && 0 < gap <= m
    ensures x % m == r
  {
    Arith.DivModUnique(x, m, c, r);
  }

  lemma StepsToTop(d: nat, g: nat, s: nat) returns (j: nat)
    requires g > 0 && d < g * s
    ensures d + j * g == g * s - g + d % g && g <= g * s
  {
    var u := d / g;
    QuotientBelow(d, g, s);
    j := s - 1 - u;
    assert d == u * g + d % g;
    Spread(s, u, g);
  }

  lemma Spread(s: nat, u: nat, g: nat)
    requires u < s
    ensures (s - 1 - u) * g == g * s - g - u * g && g <= g * s
  {
    Arith.MulAtLeast(s, g);
  }

  lemma QuotientBelow(d: nat, g: nat, s: nat)
    requires g > 0 && d < g * s
    ensures d / g < s
  {
    var u := d / g;
    assert u * g <= d;
    if u >= s {
      Monotone(s, u, g);
    }
  }

  lemma Monotone(s: nat, u: nat, g: nat)
    requires s <= u
    ensures s * g <= u * g
  {
    assert u * g == s * g + (u - s) * g;
  }

  lemma Products(j: nat, k0: nat, q: nat, g: nat, m0: nat, s: nat)
    requires k0 * q == 1 + m0 * s
    ensures (j * k0) * (q * g) == j * g + (j * m0) * (g * s)
  {
    assert (j * k0) * (q * g) == j * ((k0 * q) * g);
    assert (1 + m0 * s) * g == g + (m0 * s) * g;
    assert j * (g + (m0 * s) * g) == j * g + j * ((m0 * s) * g);
    assert j * ((m0 * s) * g) == (j * m0) * (g * s);
  }

  /** The orbit never gets above the top. */
  lemma Stays(d: nat, p: nat, n: nat, k: nat)
    requires 0 < p < Pow2(n)
    ensures (d + k * p) % Pow2(n) <= Top(d, p, n)
  {
    hide Pow2, Grain;
    var a, q := GrainShape(p, n);
    Pow2Adds(a, n - a);
    Pow2Positive(a);
    NotAbove(d, k, q, Pow2(a), Pow2(n - a));
  }

  lemma NotAbove(d: nat, k: nat, q: nat, g: nat, s: nat)
    requires g > 0 && g * s > 0
    ensures (d + k * (q * g)) % (g * s) <= g * s - g + d % g
  {
    var x := Split(d + k * (q * g), g * s, d, k, q, g, s);
    AtMostTop(x, g, s);
  }

  lemma Split(v: nat, m: nat, d: nat, k: nat, q: nat, g: nat, s: nat) returns (x: nat)
    requires g > 0 && m == g * s > 0 && v == d + k * (q * g)
    ensures x == v % m < g * s && x % g == d % g
  {
    x := v % m;
    SameResidue(d, k, q, g, s, v / m, x);
  }

  lemma AtMostTop(x: nat, g: nat, s: nat)
    requires g > 0 && x < g * s
    ensures x <= g * s - g + x % g
  {
    var j := StepsToTop(x, g, s);
    assert j * g >= 0;
  }

  lemma SameResidue(d: nat, k: nat, q: nat, g: nat, s: nat, c: nat, x: nat)
    requires g > 0 && d + k * (q * g) == c * (g * s) + x
    ensures x % g == d % g
  {
    var u := d / g;
    assert d == u * g + d % g;
    assert k * (q * g) == (k * q) * g && c * (g * s) == (c * s) * g;
    assert x == (u + k * q - c * s) * g + d % g by {
      assert (u + k * q - c * s) * g == u * g + (k * q) * g - (c * s) * g;
    }
    Arith.DivModUnique(x, g, u + k * q - c * s, d % g);
  }
}
