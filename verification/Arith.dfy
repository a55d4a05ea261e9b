/** Facts about Euclidean quotients and remainders that the solver does not find alone. */
module Arith {

  lemma MulMono(a: int, b: int, c: int)
    requires a <= b && 0 <= c
    ensures a * c <= b * c
  {
  }

  lemma Distrib(a: int, b: int, c: int)
    ensures (a + b) * c == a * c + b * c
    ensures (a - b) * c == a * c - b * c
  {
  }

  lemma Cancel(a: int, b: int, c: int)
    requires a * c == b * c && c > 0
    ensures a == b
  {
    Distrib(a, b, c);
    if a > b {
      MulMono(1, a - b, c);
    } else if a < b {
      MulMono(a - b, -1, c);
    }
  }

  /** A quotient and remainder are determined by the equation they satisfy. */
  lemma DivModUnique(x: int, d: int, q: int, r: int)
    requires d > 0 && 0 <= r < d
    requires x == q * d + r
    ensures x / d == q && x % d == r
  {
    Distrib(x / d, q, d);
    var e := x / d - q;
    if e >= 1 {
      MulMono(1, e, d);
    } else if e <= -1 {
      MulMono(e, -1, d);
    }
  }

  lemma Euclid(x: nat, d: nat)
    requires d > 0
    ensures x == x / d * d + x % d && 0 <= x % d < d && 0 <= x / d
  {
  }

  lemma ModShift(b: int, z: int, d: int)
    requires d > 0
    ensures (b + z * d) % d == b % d
    ensures (b + z * d) / d == b / d + z
  {
    Distrib(b / d, z, d);
    DivModUnique(b + z * d, d, b / d + z, b % d);
  }

  lemma DivDouble(c: nat, p: nat)
    requires p > 0
    ensures c / p == 2 * (c / (2 * p)) + c / p % 2
    ensures c / (2 * p) == c / p / 2
  {
    var h, b := c / p / 2, c / p % 2;
    DivDoubleBy(c, p, h, b, c % p);
  }

  lemma DivDoubleBy(c: nat, p: nat, h: nat, b: nat, r: nat)
    requires c == (2 * h + b) * p + r && r < p && b < 2
    ensures c / (2 * p) == h
  {
    RegroupDouble(h, b, p, r);
    DivModUnique(c, 2 * p, h, b * p + r);
  }

  lemma RegroupDouble(h: int, b: int, p: int, r: int)
    ensures (2 * h + b) * p + r == h * (2 * p) + b * p + r
  {
  }

  lemma DivAtLeast(n: int, d: int, k: int)
    requires d > 0
    ensures n / d >= k <==> n >= k * d
  {
    var q := n / d;
    if q >= k {
      MulMono(k, q, d);
    } else {
      MulMono(q + 1, k, d);
      Distrib(q, 1, d);
    }
  }

  lemma DivMono(a: int, b: int, d: int)
    requires a <= b && d > 0
    ensures a / d <= b / d
  {
    DivAtLeast(a, d, a / d);
    DivAtLeast(b, d, a / d);
  }

  /** A product; hiding its body keeps nonlinear arithmetic out of a proof that does not need it. */
  function Times(a: nat, b: nat): (p: nat) { a * b }

  lemma TimesNext(k: nat, d: nat)
    ensures Times(k + 1, d) == Times(k, d) + d && Times(0, d) == 0
  {
    Distrib(k, 1, d);
  }

  lemma TimesMono(a: nat, b: nat, d: nat)
    requires a <= b
    ensures Times(a, d) <= Times(b, d)
  {
    MulMono(a, b, d);
  }

  lemma TimesAdd(a: nat, b: nat, d: nat)
    ensures Times(a + b, d) == Times(a, d) + Times(b, d)
  {
    Distrib(a, b, d);
  }
}
