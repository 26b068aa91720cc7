/** The Miller-Rabin strong-probable-prime test of `miller_rabin`. The witness
    that the source draws from `thread_rng` in each round is an input here:
    round t uses `witnesses[t]`. */
module Primality {
  import opened Arith
  import opened Fermat

  /** n == 2^k * q with q odd, found by halving while n is even. */
  function Split(n: int): (r: (nat, nat))
    requires n >= 1
    ensures n == Pow(2, r.0) * r.1 && r.1 % 2 == 1
    decreases n
  {
    if n % 2 == 0 then
      var (k, q) := Split(n / 2);
      MulAssoc(2, Pow(2, k), q);
      (k + 1, q)
    else
      (0, n)
  }

  /** The halving loop at the head of each round: k counts the factors of two
      in candidate - 1 and q is what is left. It does not terminate for
      candidate == 1, hence the precondition. */
  method Decompose(candidate: int) returns (k: nat, q: nat)
    requires candidate >= 2
    ensures candidate - 1 == Pow(2, k) * q && q % 2 == 1
    ensures (k, q) == Split(candidate - 1)
  {
    var n := candidate - 1;
    k := 0;
    // `n.modpow(1, 2)` is the floor remainder and `n.div(2)` the truncating
    // quotient; for n >= 1 both are Dafny's % and /.
    while n % 2 == 0
      invariant n >= 1
      invariant Split(candidate - 1) == (k + Split(n).0, Split(n).1)
      decreases n
    {
      k := k + 1;
      n := n / 2;
    }
    q := n;
  }

  /** Some a^(2^j * q) with j < k is congruent to -1 modulo c. */
  predicate SomeSquareIsMinusOne(c: int, a: int, k: nat, q: nat)
    requires c > 0
  {
    exists j: nat :: j < k && ModPow(a, Pow(2, j) * q, c) == c - 1
  }

  /** A round with witness a is inconclusive (c survives it) when, for
      c - 1 == 2^k * q with q odd, a^q == 1 or a^(2^j * q) == -1 modulo c
      for some j < k. */
  predicate RoundInconclusive(c: int, a: int)
    requires c >= 2
  {
    var (k, q) := Split(c - 1);
    ModPow(a, q, c) == 1 || SomeSquareIsMinusOne(c, a, k, q)
  }

  /** The test's verdict on the given witnesses: every round inconclusive. */
  predicate AllRoundsInconclusive(c: int, witnesses: seq<int>)
    requires |witnesses| > 0 ==> c >= 2
  {
    forall i :: 0 <= i < |witnesses| ==> RoundInconclusive(c, witnesses[i])
  }

  /** The witness range of `gen_bigint_range(2, candidate - 2)`: half-open. */
  predicate WitnessesInRange(c: int, witnesses: seq<int>)
  {
    forall i :: 0 <= i < |witnesses| ==> 2 <= witnesses[i] < c - 2
  }

  /** `miller_rabin(candidate, iterations)`. Returns false ("composite") at
      the first round that is not inconclusive and true when all are.
      With at least one round, a candidate below 5 makes the source panic
      (empty witness range) or loop forever (candidate 1). */
  method MillerRabin(candidate: int, iterations: nat, witnesses: seq<int>) returns (probablyPrime: bool)
    requires |witnesses| == iterations
    requires iterations > 0 ==> candidate >= 5
    requires WitnessesInRange(candidate, witnesses)
    ensures probablyPrime <==> AllRoundsInconclusive(candidate, witnesses)
    ensures IsPrime(candidate) ==> probablyPrime
  {
    var t := 0;
    while t < iterations
      invariant 0 <= t <= iterations
      invariant forall i :: 0 <= i < t ==> RoundInconclusive(candidate, witnesses[i])
    {
      var inconclusive := false;
      var k, q := Decompose(candidate);
      var a := witnesses[t];
      if ModPow(a, q, candidate) == 1 {
        inconclusive := true;
      }
      for j := 0 to k
        invariant inconclusive <==> ModPow(a, q, candidate) == 1 || SomeSquareIsMinusOne(candidate, a, j, q)
      {
        var exponent := Pow(2, j) * q;
        if ModPow(a, exponent, candidate) == candidate - 1 {
          inconclusive := true;
        }
      }
      if !inconclusive {
        if IsPrime(candidate) {
          PrimeRoundInconclusive(candidate, a);
        }
        return false; // composite
      }
      t := t + 1;
    }
    return true;
  }

  // ---------------------------------------------------------------------------
  // Soundness

  /** Going down from a power a^(2^m * q) that is 1 modulo the prime c: either
      a^q is 1 already or some a^(2^j * q) with j < m is -1. */
  lemma {:induction false} SquaringDescent(c: int, a: int, q: nat, m: nat)
    requires IsPrime(c) && ModPow(a, Pow(2, m) * q, c) == 1
    ensures ModPow(a, q, c) == 1 || SomeSquareIsMinusOne(c, a, m, q)
  {
    if m > 0 {
      var x := ModPow(a, Pow(2, m - 1) * q, c);
      SquareModPow(a, Pow(2, m - 1) * q, c);
      MulAssoc(2, Pow(2, m - 1), q);
      SquareRootOfOne(c, x);
      if x == 1 {
        SquaringDescent(c, a, q, m - 1);
        if SomeSquareIsMinusOne(c, a, m - 1, q) {
          var j: nat :| j < m - 1 && ModPow(a, Pow(2, j) * q, c) == c - 1;
          assert j < m;
        }
      } else {
        assert ModPow(a, Pow(2, m - 1) * q, c) == c - 1;
      }
    }
  }

  /** Soundness of a round: for a prime c, every witness in [2, c - 2] leaves
      the round inconclusive (by Fermat's little theorem and the square roots
      of 1 modulo a prime). */
  lemma PrimeRoundInconclusive(c: int, a: int)
    requires IsPrime(c) && 2 <= a <= c - 2
    ensures RoundInconclusive(c, a)
  {
    var (k, q) := Split(c - 1);
    ModSmall(a, c);
    FermatLittle(c, a);
    assert ModPow(a, Pow(2, k) * q, c) == 1;
    SquaringDescent(c, a, q, k);
  }

  /** A prime passes the test whatever witnesses are drawn; so `false` from
      `miller_rabin` means the candidate is composite. */
  lemma PrimeAllRoundsInconclusive(c: int, witnesses: seq<int>)
    requires IsPrime(c) && WitnessesInRange(c, witnesses)
    ensures AllRoundsInconclusive(c, witnesses)
  {
    forall i | 0 <= i < |witnesses|
      ensures RoundInconclusive(c, witnesses[i])
    {
      PrimeRoundInconclusive(c, witnesses[i]);
    }
  }
}
