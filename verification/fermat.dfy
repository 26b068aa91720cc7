/** The number theory behind the demo's two correctness claims: Fermat's little
    theorem (through the binomial theorem) and the fact that 1 has only the
    square roots 1 and -1 modulo a prime. */
module Fermat {
  import opened Arith

  /** Binomial coefficients by Pascal's rule. */
  function Binomial(n: nat, k: nat): nat
    decreases n
  {
    if k == 0 then 1 else if n == 0 then 0 else Binomial(n - 1, k - 1) + Binomial(n - 1, k)
  }

  lemma {:induction false} BinomialAbove(n: nat, k: nat)
    requires k > n
    ensures Binomial(n, k) == 0
    decreases n
  {
    if n > 0 {
      BinomialAbove(n - 1, k - 1);
      BinomialAbove(n - 1, k);
    }
  }

  lemma {:induction false} BinomialDiagonal(n: nat)
    ensures Binomial(n, n) == 1
  {
    if n > 0 {
      BinomialDiagonal(n - 1);
      BinomialAbove(n - 1, n);
    }
  }

  lemma {:induction false} BinomialOne(n: nat)
    ensures Binomial(n, 1) == n
  {
    if n > 0 {
      BinomialOne(n - 1);
    }
  }

  /** k * C(n, k) == n * C(n-1, k-1). */
  lemma {:induction false} BinomialAbsorption(n: nat, k: nat)
    requires n >= 1 && k >= 1
    ensures k * Binomial(n, k) == n * Binomial(n - 1, k - 1)
    decreases n
  {
    if k == 1 {
      BinomialOne(n);
    } else if n == 1 {
      BinomialAbove(1, k);
      BinomialAbove(0, k - 1);
    } else {
      BinomialAbsorption(n - 1, k - 1);
      BinomialAbsorption(n - 1, k);
      AbsorptionArith(n, k, Binomial(n - 1, k - 1), Binomial(n - 1, k),
                      Binomial(n - 2, k - 2), Binomial(n - 2, k - 1));
    }
  }

  lemma AbsorptionArith(n: int, k: int, c: int, e: int, d0: int, d1: int)
    requires c == d0 + d1 && (k - 1) * c == (n - 1) * d0 && k * e == (n - 1) * d1
    ensures k * (c + e) == n * c
  {
    calc {
      k * (c + e);
      (k - 1) * c + c + k * e;
      (n - 1) * d0 + c + (n - 1) * d1;
      (n - 1) * (d0 + d1) + c;
      n * c;
    }
  }

  /** A prime p divides C(p, k) for 0 < k < p. */
  lemma PrimeDividesBinomial(p: nat, k: nat)
    requires IsPrime(p) && 0 < k < p
    ensures Divides(p, Binomial(p, k))
  {
    BinomialAbsorption(p, k);
    DividesMultiple(p, Binomial(p - 1, k - 1));
    EuclidLemmaSmall(p, k, Binomial(p, k));
  }

  /** sum of C(n, j) * x^j for j < m. */
  function BinomialSum(n: nat, x: int, m: nat): int
  {
    if m == 0 then 0 else BinomialSum(n, x, m - 1) + Binomial(n, m - 1) * Pow(x, m - 1)
  }

  /** Pascal's rule lifted to the partial sums. */
  lemma {:induction false} PascalSum(n: nat, x: int, m: nat)
    ensures BinomialSum(n + 1, x, m + 1) == x * BinomialSum(n, x, m) + BinomialSum(n, x, m + 1)
  {
    if m > 0 {
      PascalSum(n, x, m - 1);
      PascalArith(BinomialSum(n + 1, x, m), BinomialSum(n, x, m - 1), BinomialSum(n, x, m),
                  Binomial(n, m - 1), Binomial(n, m), x, Pow(x, m - 1), Pow(x, m));
    }
  }

  lemma PascalArith(s1: int, a: int, b: int, c0: int, c1: int, x: int, p: int, q: int)
    requires s1 == x * a + b && b == a + c0 * p && q == x * p
    ensures s1 + (c0 + c1) * q == x * b + (b + c1 * q)
  {
    calc {
      s1 + (c0 + c1) * q;
      x * a + b + c0 * (x * p) + c1 * q;
      { assert c0 * (x * p) == x * (c0 * p); }
      x * (a + c0 * p) + b + c1 * q;
    }
  }

  /** The binomial theorem: (x + 1)^n == sum of C(n, j) * x^j for j <= n. */
  lemma {:induction false} BinomialTheorem(n: nat, x: int)
    ensures Pow(x + 1, n) == BinomialSum(n, x, n + 1)
  {
    if n > 0 {
      BinomialTheorem(n - 1, x);
      PascalSum(n - 1, x, n);
      BinomialAbove(n - 1, n);
      var t := BinomialSum(n - 1, x, n);
      assert BinomialSum(n - 1, x, n + 1) == t;
      assert (x + 1) * t == x * t + t;
    }
  }

  /** All terms but the first of the prime-power expansion vanish mod p. */
  lemma {:induction false} InnerTermsDivisible(p: nat, x: int, m: nat)
    requires IsPrime(p) && 1 <= m <= p
    ensures Divides(p, BinomialSum(p, x, m) - 1)
  {
    if m == 1 {
      DividesRefl(p);
    } else {
      InnerTermsDivisible(p, x, m - 1);
      PrimeDividesBinomial(p, m - 1);
      DividesMul(p, Binomial(p, m - 1), Pow(x, m - 1));
      DividesAdd(p, BinomialSum(p, x, m - 1) - 1, Binomial(p, m - 1) * Pow(x, m - 1));
    }
  }

  /** (x + 1)^p == x^p + 1 modulo a prime p. */
  lemma PrimePowerOfSum(p: nat, x: int)
    requires IsPrime(p)
    ensures Divides(p, Pow(x + 1, p) - Pow(x, p) - 1)
  {
    BinomialTheorem(p, x);
    BinomialDiagonal(p);
    InnerTermsDivisible(p, x, p);
    assert Pow(x + 1, p) == BinomialSum(p, x, p) + Pow(x, p);
  }

  /** Fermat's little theorem in the form p | a^p - a, for a >= 0. */
  lemma {:induction false} FermatPower(p: nat, a: nat)
    requires IsPrime(p)
    ensures Divides(p, Pow(a, p) - a)
  {
    if a == 0 {
      PowZero(p);
      DividesRefl(p);
    } else {
      FermatPower(p, a - 1);
      PrimePowerOfSum(p, a - 1);
      DividesAdd(p, Pow(a, p) - Pow(a - 1, p) - 1, Pow(a - 1, p) - (a - 1));
    }
  }

  /** Fermat's little theorem: a^(p-1) == 1 mod p when p does not divide a. */
  lemma FermatLittle(p: nat, a: int)
    requires IsPrime(p) && a % p != 0
    ensures Pow(a, p - 1) % p == 1
  {
    var r := a % p;
    FermatPower(p, r);
    assert Pow(r, p) - r == r * (Pow(r, p - 1) - 1);
    EuclidLemmaSmall(p, r, Pow(r, p - 1) - 1);
    CongruentMod(Pow(r, p - 1), 1, p);
    ModSmall(1, p);
    PowMod(a, p - 1, p);
  }

  /** Modulo a prime, the only square roots of 1 are 1 and p - 1. */
  lemma SquareRootOfOne(p: nat, x: int)
    requires IsPrime(p) && 0 <= x < p && (x * x) % p == 1
    ensures x == 1 || x == p - 1
  {
    if x != 1 {
      ModSmall(1, p);
      CongruentMod(x * x, 1, p);
      assert (x - 1) * (x + 1) == x * x - 1;
      assert x != 0;
      EuclidLemmaSmall(p, x - 1, x + 1);
      DividesBound(p, x + 1);
    }
  }
}
