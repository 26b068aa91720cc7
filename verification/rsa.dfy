/** Key generation, encryption and decryption of the demo's `main`. The primes
    come from the prime search; the key pair is (e, n) public and (d, n)
    private. */
module Rsa {
  import opened Arith
  import opened Wrappers
  import opened Euclid
  import opened Fermat
  import opened PrimeSearch

  /** The fixed public exponent. */
  const E: nat := 7

  /** Everything `main` derives for one key: the two primes, the modulus, its
      totient and the two exponents. */
  datatype KeyMaterial = KeyMaterial(p: int, q: int, n: int, phiN: int, e: nat, d: nat)

  /** A usable key: n and phi(n) are computed from p and q, and d is the
      inverse of e modulo phi(n), reduced into [0, phi(n)). */
  predicate ValidKey(k: KeyMaterial)
  {
    && k.n == k.p * k.q
    && k.phiN == (k.p - 1) * (k.q - 1)
    && k.phiN >= 2
    && k.d < k.phiN
    && Divides(k.phiN, k.e * k.d - 1)
  }

  // ---------------------------------------------------------------------------
  // Key derivation

  /** One pass of the key loop of `main` after the two primes are popped:
      n = p*q, phi = (p-1)*(q-1), (x, y, g) = extended_euclid(phi, e); the pass
      succeeds when g == 1, with d = y, lifted by phi when negative. */
  method DeriveKey(p: int, q: int, e: nat) returns (key: Option<KeyMaterial>)
    requires p >= 2 && q >= 2
    ensures key.Some? <==> Gcd((p - 1) * (q - 1), e) == 1
    ensures key.Some? ==>
              && key.value.p == p && key.value.q == q && key.value.e == e
              && key.value.n == p * q && key.value.phiN == (p - 1) * (q - 1)
    ensures key.Some? ==> Divides((p - 1) * (q - 1), e * key.value.d - 1)
    ensures key.Some? && (p >= 3 || q >= 3) ==> ValidKey(key.value)
  {
    var n := p * q;
    var phiN := (p - 1) * (q - 1);
    assert phiN >= 1 && (p >= 3 || q >= 3 ==> phiN >= 2) by {
      MulAtLeastSelf(p - 1, q - 1);
      MulAtLeastSelf(q - 1, p - 1);
    }
    var x, y, g := ExtendedEuclid(phiN, e);
    if g != 1 {
      return None;
    }
    var d: int := y;
    if d < 0 {
      d := ModPow(phiN + y, 1, phiN);
    }
    InverseFromBezout(phiN, e, x, y, d);
    key := Some(KeyMaterial(p, q, n, phiN, e, d));
  }

  /** From phi*x + e*y == 1 with |y| < phi, the exponent d the key loop picks
      (y itself, or (phi + y) mod phi when y is negative) is a non-negative
      inverse of e modulo phi, below phi once phi >= 2. */
  lemma InverseFromBezout(phiN: int, e: nat, x: int, y: int, d: int)
    requires phiN >= 1 && phiN * x + e * y == 1
    requires phiN >= 2 ==> -phiN < y < phiN
    requires d == if y < 0 then ModPow(phiN + y, 1, phiN) else y
    ensures d >= 0 && Divides(phiN, e * d - 1)
    ensures phiN >= 2 ==> d < phiN
  {
    if y >= 0 {
      assert e * d - 1 == phiN * (-x);
      DividesMultiple(phiN, -x);
    } else if phiN == 1 {
      assert (e * d - 1) % 1 == 0;
    } else {
      ModSmall(phiN + y, phiN);
      assert d == phiN + y;
      assert e * d - 1 == phiN * (e - x);
      DividesMultiple(phiN, e - x);
    }
  }

  /** The pair of primes the key loop of `main` settles on, given the stream
      of accepted candidates: each pass takes the next two, pops the second as
      p and the first as q, and keeps them when gcd(phi(n), e) == 1. */
  function ChoosePrimes(accepted: seq<int>, e: nat): Option<(int, int)>
  {
    if |accepted| < 2 then None
    else if Gcd((accepted[1] - 1) * (accepted[0] - 1), e) == 1 then Some((accepted[1], accepted[0]))
    else ChoosePrimes(accepted[2..], e)
  }

  /** A chosen pair was accepted by the search and meets the gcd condition. */
  lemma {:induction false} ChoosePrimesSound(accepted: seq<int>, e: nat)
    requires ChoosePrimes(accepted, e).Some?
    ensures ChoosePrimes(accepted, e).value.0 in accepted
    ensures ChoosePrimes(accepted, e).value.1 in accepted
    ensures Gcd((ChoosePrimes(accepted, e).value.0 - 1) * (ChoosePrimes(accepted, e).value.1 - 1), e) == 1
  {
    if Gcd((accepted[1] - 1) * (accepted[0] - 1), e) != 1 {
      ChoosePrimesSound(accepted[2..], e);
      var r := ChoosePrimes(accepted[2..], e).value;
      assert r.0 in accepted[2..] && r.1 in accepted[2..];
    }
  }

  /** One pass of the key loop consumes the next two accepted candidates,
      both at least 5. */
  lemma SearchPass(pending: seq<Draw>, found: seq<int>)
    requires ValidDraws(pending) && |Accepted(pending)| >= 2 && found == Accepted(pending)[..2]
    ensures found[0] >= 5 && found[1] >= 5
  {
    AcceptedInRange(pending, found[0]);
    AcceptedInRange(pending, found[1]);
  }

  /** A pass that pops p and then q off the next two accepted candidates
      [q, p] keeps them or leaves the choice to the rest of the stream. */
  lemma ChoosePrimesPass(q: int, p: int, rest: seq<int>, e: nat)
    ensures ChoosePrimes([q, p] + rest, e) ==
            if Gcd((p - 1) * (q - 1), e) == 1 then Some((p, q)) else ChoosePrimes(rest, e)
    ensures ChooseDistinctPrimes([q, p] + rest, e) ==
            if p != q && Gcd((p - 1) * (q - 1), e) == 1 then Some((p, q)) else ChooseDistinctPrimes(rest, e)
  {
    assert ([q, p] + rest)[2..] == rest;
  }

  /** The key loop of `main` (lines 18-36): draw two primes, derive the key,
      start over when e is not invertible modulo phi(n). The generator is the
      finite sequence of draws; running out of them gives None. */
  method GenerateKey(draws: seq<Draw>) returns (key: Option<KeyMaterial>)
    requires ValidDraws(draws)
    ensures key.Some? <==> ChoosePrimes(Accepted(draws), E).Some?
    ensures key.Some? ==> (key.value.p, key.value.q) == ChoosePrimes(Accepted(draws), E).value
    ensures key.Some? ==> key.value.e == E && ValidKey(key.value)
  {
    var pending := draws;
    while true
      invariant ValidDraws(pending)
      invariant ChoosePrimes(Accepted(draws), E) == ChoosePrimes(Accepted(pending), E)
      decreases |pending|
    {
      var primes, u := FindPrimes(2, pending);
      if primes.None? {
        return None;
      }
      var q := primes.value[0];
      var p := primes.value[1];
      SearchPass(pending, primes.value);
      assert primes.value == [q, p];
      ChoosePrimesPass(q, p, Accepted(pending[u..]), E);
      key := DeriveKey(p, q, E);
      if key.Some? {
        return key;
      }
      pending := pending[u..];
    }
  }

  // ---------------------------------------------------------------------------
  // Encryption and decryption

  /** `message_as_integer.modpow(&e, &n)`: m^e mod n. */
  function Encrypt(m: int, e: nat, n: int): (c: int)
    requires n > 0
    ensures 0 <= c < n
  {
    ModPow(m, e, n)
  }

  /** `encoded_message_as_integer.modpow(&d, &n)`: c^d mod n. */
  function Decrypt(c: int, d: nat, n: int): (m: int)
    requires n > 0
    ensures 0 <= m < n
  {
    ModPow(c, d, n)
  }

  /** m^(1 + k) == m modulo a prime p when k is a multiple of p - 1, for
      every m (Fermat). */
  lemma FermatExponent(p: int, m: int, j: nat, k: nat)
    requires IsPrime(p) && k == j * (p - 1)
    ensures Divides(p, Pow(m, 1 + k) - m)
  {
    if Divides(p, m) {
      DivisibleBaseExponent(p, m, k);
    } else {
      CoprimeBaseExponent(p, m, j, k);
    }
  }

  /** When p divides m, p divides m^(1+k) and m, hence their difference. */
  lemma DivisibleBaseExponent(p: int, m: int, k: nat)
    requires Divides(p, m)
    ensures Divides(p, Pow(m, 1 + k) - m)
  {
    assert Pow(m, 1 + k) == m * Pow(m, k);
    DividesMul(p, m, Pow(m, k));
    DividesAdd(p, m * Pow(m, k), m);
  }

  /** When p does not divide m, m^(j*(p-1)) == 1 modulo p by Fermat's little
      theorem, so m^(1 + j*(p-1)) == m. */
  lemma CoprimeBaseExponent(p: int, m: int, j: nat, k: nat)
    requires IsPrime(p) && !Divides(p, m) && k == j * (p - 1)
    ensures Divides(p, Pow(m, 1 + k) - m)
  {
    assert Pow(m, k) % p == 1 by {
      FermatLittle(p, m);
      PowMul(m, p - 1, j);
      assert (p - 1) * j == k;
      PowMod(Pow(m, p - 1), j, p);
      PowOne(j);
      ModSmall(1, p);
    }
    ModSmall(1, p);
    CongruentMod(Pow(m, k), 1, p);
    DividesMul(p, Pow(m, k) - 1, m);
    assert m * (Pow(m, k) - 1) == Pow(m, 1 + k) - m;
  }

  /** The exponent e*d is 1 + t*phi(n) with t >= 0. */
  lemma ExponentForm(k: KeyMaterial) returns (t: nat)
    requires ValidKey(k)
    ensures k.e * k.d == 1 + t * k.phiN
  {
    DividesQuotient(k.phiN, k.e * k.d - 1);
    var s := (k.e * k.d - 1) / k.phiN;
    t := s;
  }

  /** m^(1 + k) == m modulo n == p*q, for distinct primes p and q, when k is
      a multiple of both p - 1 and q - 1. */
  lemma TotientExponent(p: int, q: int, m: int, k: nat, jp: nat, jq: nat)
    requires IsPrime(p) && IsPrime(q) && p != q
    requires k == jp * (p - 1) && k == jq * (q - 1)
    ensures Divides(p * q, Pow(m, 1 + k) - m)
  {
    FermatExponent(p, m, jp, k);
    FermatExponent(q, m, jq, k);
    CoprimeProductDivides(p, q, Pow(m, 1 + k) - m);
  }

  lemma Regroup(t: int, a: int, b: int)
    ensures t * (a * b) == (t * b) * a && t * (a * b) == (t * a) * b
  {
  }

  /** Decryption undoes encryption up to reduction modulo n:
      (m^e mod n)^d mod n == m^(e*d) mod n. */
  lemma DecryptEncrypt(m: int, e: nat, d: nat, n: int)
    requires n > 0
    ensures Decrypt(Encrypt(m, e, n), d, n) == Pow(m, e * d) % n
  {
    PowMod(Pow(m, e), d, n);
    PowMul(m, e, d);
  }

  /** RSA correctness: for a key built from two distinct primes, decrypting the
      encryption of any m in [0, n) gives m back. */
  lemma RsaRoundTrip(k: KeyMaterial, m: int)
    requires ValidKey(k) && IsPrime(k.p) && IsPrime(k.q) && k.p != k.q
    requires 0 <= m < k.n
    ensures Decrypt(Encrypt(m, k.e, k.n), k.d, k.n) == m
  {
    var t := ExponentForm(k);
    DecryptEncrypt(m, k.e, k.d, k.n);
    var jp: nat := t * (k.q - 1);
    var jq: nat := t * (k.p - 1);
    Regroup(t, k.p - 1, k.q - 1);
    TotientExponent(k.p, k.q, m, t * k.phiN, jp, jq);
    CongruentMod(Pow(m, k.e * k.d), m, k.n);
    ModSmall(m, k.n);
  }

  // ---------------------------------------------------------------------------
  // Equal primes

  /** With p == q the key loop still produces a valid-looking key, but the
      message m == p encrypts to 0 and decrypts to 0. */
  lemma EqualPrimesBreakRoundTrip(k: KeyMaterial)
    requires ValidKey(k) && k.p == k.q && k.p >= 2 && k.e >= 2
    ensures 0 <= k.p < k.n
    ensures Decrypt(Encrypt(k.p, k.e, k.n), k.d, k.n) == 0 != k.p
  {
    var p := k.p;
    MulAtLeastSelf(p, p);
    assert p * p > p by { assert p * p == p + (p - 1) * p; MulAtLeastSelf(p - 1, p); }
    PowAdd(p, 2, k.e - 2);
    assert Pow(p, 2) == p * p;
    DividesMultiple(k.n, Pow(p, k.e - 2));
    assert Encrypt(p, k.e, k.n) == 0;
    if k.d == 0 {
      DividesBound(k.phiN, -1);
      assert false;
    }
    PowZero(k.d);
  }

  /** gcd(16, 7) == 1, by the remainder sequence 16, 7, 2, 1, 0. */
  lemma GcdSixteenSeven()
    ensures Gcd(16, 7) == 1
  {
    assert TruncDiv(16, 7) == 2;
    assert Gcd(16, 7) == Gcd(7, 2);
    assert TruncDiv(7, 2) == 3;
    assert Gcd(7, 2) == Gcd(2, 1);
    assert TruncDiv(2, 1) == 2;
    assert Gcd(2, 1) == Gcd(1, 0);
  }

  /** From an accepted stream [5, 5] the key loop picks p == q == 5, a
      prime; phi(25) == 16 is coprime to e == 7. */
  lemma EqualPrimesChosen()
    ensures ChoosePrimes([5, 5], E) == Some((5, 5))
    ensures IsPrime(5)
  {
    assert 5 % 2 != 0 && 5 % 3 != 0 && 5 % 4 != 0;
    assert (5 - 1) * (5 - 1) == 16;
    GcdSixteenSeven();
  }

  /** The key search of `main` corrected to start over when both passes draw
      the same prime: RSA needs two distinct primes. */
  function ChooseDistinctPrimes(accepted: seq<int>, e: nat): Option<(int, int)>
  {
    if |accepted| < 2 then None
    else if accepted[1] != accepted[0] && Gcd((accepted[1] - 1) * (accepted[0] - 1), e) == 1 then
      Some((accepted[1], accepted[0]))
    else ChooseDistinctPrimes(accepted[2..], e)
  }

  /** The corrected key loop: as `GenerateKey`, but a pass whose two primes
      are equal is discarded like one where e is not invertible. */
  method GenerateDistinctKey(draws: seq<Draw>) returns (key: Option<KeyMaterial>)
    requires ValidDraws(draws)
    ensures key.Some? <==> ChooseDistinctPrimes(Accepted(draws), E).Some?
    ensures key.Some? ==> (key.value.p, key.value.q) == ChooseDistinctPrimes(Accepted(draws), E).value
    ensures key.Some? ==> key.value.e == E && ValidKey(key.value) && key.value.p != key.value.q
  {
    var pending := draws;
    while true
      invariant ValidDraws(pending)
      invariant ChooseDistinctPrimes(Accepted(draws), E) == ChooseDistinctPrimes(Accepted(pending), E)
      decreases |pending|
    {
      var primes, u := FindPrimes(2, pending);
      if primes.None? {
        return None;
      }
      var q := primes.value[0];
      var p := primes.value[1];
      SearchPass(pending, primes.value);
      assert primes.value == [q, p];
      ChoosePrimesPass(q, p, Accepted(pending[u..]), E);
      if p != q {
        key := DeriveKey(p, q, E);
        if key.Some? {
          return key;
        }
      }
      pending := pending[u..];
    }
  }
}
