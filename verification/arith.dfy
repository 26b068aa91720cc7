/** Integer arithmetic the RSA demo relies on: powers, divisibility, primality
    and reduction modulo a positive modulus. Everything is over unbounded `int`,
    as num-bigint's `BigInt` is. */
module Arith {

  function Abs(x: int): nat
  {
    if x < 0 then -x else x
  }

  /** `b` raised to the `e`-th power, as `BigInt::pow` computes it. */
  function Pow(b: int, e: nat): (r: int)
    ensures b >= 0 ==> r >= 0
    ensures b >= 1 ==> r >= 1
    decreases e
  {
    if e == 0 then 1 else b * Pow(b, e - 1)
  }

  /** `d` divides `x`; zero divides only zero. */
  predicate Divides(d: int, x: int)
  {
    if d == 0 then x == 0 else x % d == 0
  }

  /** `n` is a prime: at least 2 and without a divisor strictly between 1 and n. */
  predicate IsPrime(n: int)
  {
    n >= 2 && forall d :: 1 < d < n ==> n % d != 0
  }

  /** `b.modpow(e, m)` for a positive modulus: num-bigint rounds like a floor
      modulus, so the result is the least non-negative residue of b^e. */
  function ModPow(b: int, e: nat, m: int): (r: int)
    requires m > 0
    ensures 0 <= r < m
    ensures Divides(m, Pow(b, e) - r)
  {
    ModDivides(Pow(b, e), m);
    Pow(b, e) % m
  }

  // ---------------------------------------------------------------------------
  // Division with remainder

  /** Quotient and remainder are the only ones with a remainder in [0, |m|). */
  lemma DivModUnique(x: int, m: int, q: int, r: int)
    requires m != 0 && x == m * q + r && 0 <= r < Abs(m)
    ensures x / m == q && x % m == r
  {
    var q0, r0 := x / m, x % m;
    assert m * (q - q0) == r0 - r;
    if q != q0 {
      MulAbsAtLeast(m, q - q0);
    }
  }

  lemma MulAbsAtLeast(m: int, t: int)
    requires t != 0
    ensures Abs(m * t) >= Abs(m)
  {
    var u := Abs(t);
    assert Abs(m * t) == Abs(m * u) by {
      if t < 0 { assert m * t == -(m * u); }
    }
    assert m * u == m + m * (u - 1);
    if m >= 0 {
      assert m * (u - 1) >= 0;
    } else {
      assert m * (u - 1) <= 0;
    }
  }

  lemma ModDivides(x: int, m: int)
    requires m > 0
    ensures Divides(m, x - x % m)
  {
    DividesMultiple(m, x / m);
    assert x - x % m == m * (x / m);
  }

  // ---------------------------------------------------------------------------
  // Divisibility

  lemma DividesMultiple(d: int, k: int)
    ensures Divides(d, d * k)
  {
    if d != 0 {
      DivModUnique(d * k, d, k, 0);
    }
  }

  /** A divisor of x leaves x as an exact multiple. */
  lemma DividesQuotient(d: int, x: int)
    requires d != 0 && Divides(d, x)
    ensures x == d * (x / d)
  {
  }

  lemma DividesLinear(d: int, x: int, y: int, s: int, t: int)
    requires Divides(d, x) && Divides(d, y)
    ensures Divides(d, s * x + t * y)
  {
    if d != 0 {
      var kx, ky := x / d, y / d;
      DividesQuotient(d, x);
      DividesQuotient(d, y);
      calc {
        s * x + t * y;
        s * (d * kx) + t * (d * ky);
        { MulAssocComm(s, d, kx); MulAssocComm(t, d, ky); }
        d * (s * kx) + d * (t * ky);
        d * (s * kx + t * ky);
      }
      DividesMultiple(d, s * kx + t * ky);
    }
  }

  lemma MulAssocComm(s: int, d: int, k: int)
    ensures s * (d * k) == d * (s * k)
  {
  }

  lemma DividesAdd(d: int, x: int, y: int)
    requires Divides(d, x) && Divides(d, y)
    ensures Divides(d, x + y) && Divides(d, x - y)
  {
    DividesLinear(d, x, y, 1, 1);
    DividesLinear(d, x, y, 1, -1);
  }

  lemma DividesMul(d: int, x: int, s: int)
    requires Divides(d, x)
    ensures Divides(d, s * x) && Divides(d, x * s)
  {
    DividesLinear(d, x, 0, s, 0);
  }

  lemma DividesRefl(d: int)
    ensures Divides(d, d) && Divides(d, 0)
  {
    DividesMultiple(d, 1);
    DividesMultiple(d, 0);
  }

  /** A non-zero multiple of d is at least |d| in size. */
  lemma DividesBound(d: int, x: int)
    requires Divides(d, x) && x != 0
    ensures Abs(d) <= Abs(x)
  {
    DividesQuotient(d, x);
    MulAbsAtLeast(d, x / d);
  }

  /** Congruence modulo a positive m, as divisibility of the difference. */
  lemma CongruentMod(x: int, y: int, m: int)
    requires m > 0
    ensures Divides(m, x - y) <==> x % m == y % m
  {
    if Divides(m, x - y) {
      var k := (x - y) / m;
      DividesQuotient(m, x - y);
      assert x == m * (k + y / m) + y % m;
      DivModUnique(x, m, k + y / m, y % m);
    } else if x % m == y % m {
      assert x - y == m * (x / m - y / m);
      DividesMultiple(m, x / m - y / m);
    }
  }

  /** A value already in [0, m) is its own residue. */
  lemma ModSmall(x: int, m: int)
    requires 0 <= x < m
    ensures x % m == x
  {
    DivModUnique(x, m, 0, x);
  }

  lemma ModMul(x: int, y: int, m: int)
    requires m > 0
    ensures (x * y) % m == ((x % m) * y) % m
  {
    var q, r := x / m, x % m;
    assert x * y == (m * q) * y + r * y by {
      assert x == m * q + r;
    }
    MulAssoc(m, q, y);
    DividesMultiple(m, q * y);
    assert x * y - r * y == m * (q * y);
    CongruentMod(x * y, r * y, m);
  }

  // ---------------------------------------------------------------------------
  // Powers

  lemma {:induction false} PowAdd(b: int, x: nat, y: nat)
    ensures Pow(b, x + y) == Pow(b, x) * Pow(b, y)
    decreases x
  {
    if x > 0 {
      PowAdd(b, x - 1, y);
      assert Pow(b, x + y) == b * Pow(b, x - 1 + y);
      MulAssoc(b, Pow(b, x - 1), Pow(b, y));
    }
  }

  lemma MulAssoc(a: int, b: int, c: int)
    ensures a * (b * c) == (a * b) * c
  {
  }

  lemma {:induction false} PowMul(b: int, x: nat, y: nat)
    ensures Pow(b, x * y) == Pow(Pow(b, x), y)
    decreases y
  {
    if y > 0 {
      PowMul(b, x, y - 1);
      assert x * y == x + x * (y - 1);
      PowAdd(b, x, x * (y - 1));
    }
  }

  lemma {:induction false} PowOne(e: nat)
    ensures Pow(1, e) == 1
  {
    if e > 0 { PowOne(e - 1); }
  }

  lemma PowZero(e: nat)
    requires e > 0
    ensures Pow(0, e) == 0
  {
  }

  /** A power's residue depends only on the base's residue. */
  lemma {:induction false} PowMod(b: int, e: nat, m: int)
    requires m > 0
    ensures Pow(b % m, e) % m == Pow(b, e) % m
    decreases e
  {
    if e > 0 {
      PowMod(b, e - 1, m);
      ResidueProduct(b, b % m, Pow(b % m, e - 1), Pow(b, e - 1), m);
    }
  }

  /** Multiplying congruent values by congruent values keeps them congruent:
      from r == b mod m and x == y mod m, r*x == b*y mod m. */
  lemma ResidueProduct(b: int, r: int, x: int, y: int, m: int)
    requires m > 0 && r == b % m && x % m == y % m
    ensures (r * x) % m == (b * y) % m
  {
    ModMul(x, r, m);
    ModMul(y, r, m);
    ModMul(b, y, m);
    assert r * x == x * r && r * y == y * r;
  }

  /** Squaring a residue squares the power: (b^x mod m)^2 mod m == b^(2x) mod m. */
  lemma SquareModPow(b: int, x: nat, m: int)
    requires m > 0
    ensures (ModPow(b, x, m) * ModPow(b, x, m)) % m == ModPow(b, 2 * x, m)
  {
    var r := Pow(b, x) % m;
    PowAdd(b, x, x);
    assert 2 * x == x + x;
    ModMul(Pow(b, x), Pow(b, x), m);
    ModMul(Pow(b, x), r, m);
    assert r * Pow(b, x) == Pow(b, x) * r;
    assert (Pow(b, x) * Pow(b, x)) % m == (r * r) % m;
  }

  // ---------------------------------------------------------------------------
  // Primes

  /** Euclid's lemma for a factor strictly between 0 and the prime, proved by
      descent on that factor: p | a*b gives p | (p mod a)*b. */
  lemma {:induction false} EuclidLemmaSmall(p: int, a: int, b: int)
    requires IsPrime(p) && 0 < a < p && Divides(p, a * b)
    ensures Divides(p, b)
    decreases a
  {
    if a > 1 {
      var t, r := p / a, p % a;
      assert p % a != 0;
      assert p == a * t + r;
      assert 0 < r < a;
      // r * b == p * b - t * (a * b)
      DividesMultiple(p, b);
      DividesLinear(p, p * b, a * b, 1, -t);
      assert r * b == 1 * (p * b) + (-t) * (a * b) by {
        assert (a * t + r) * b == a * t * b + r * b;
      }
      EuclidLemmaSmall(p, r, b);
    }
  }

  /** Euclid's lemma: a prime dividing a product divides a factor. */
  lemma EuclidLemma(p: int, a: int, b: int)
    requires IsPrime(p) && Divides(p, a * b)
    ensures Divides(p, a) || Divides(p, b)
  {
    if !Divides(p, a) {
      var r := a % p;
      ModDivides(a, p);
      DividesMul(p, a - r, b);
      assert (a - r) * b == a * b - r * b;
      DividesAdd(p, a * b, (a - r) * b);
      assert a * b - (a - r) * b == r * b;
      EuclidLemmaSmall(p, r, b);
    }
  }

  /** Two different primes do not divide each other. */
  lemma DistinctPrimes(p: int, q: int)
    requires IsPrime(p) && IsPrime(q) && p != q
    ensures !Divides(q, p)
  {
    if Divides(q, p) {
      DividesBound(q, p);
    }
  }

  /** Two different primes that both divide x make their product divide x. */
  lemma CoprimeProductDivides(p: int, q: int, x: int)
    requires IsPrime(p) && IsPrime(q) && p != q
    requires Divides(p, x) && Divides(q, x)
    ensures Divides(p * q, x)
  {
    DividesQuotient(p, x);
    var s := x / p;
    assert x == p * s;
    DistinctPrimes(p, q);
    EuclidLemma(q, p, s);
    DividesQuotient(q, s);
    assert x == (p * q) * (s / q) by {
      assert s == q * (s / q);
      MulAssocComm(p, q, s / q);
    }
    DividesMultiple(p * q, s / q);
  }
}
