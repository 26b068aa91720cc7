/** The accept/reject prime search of `find_prime` and `find_primes`. The
    seeded generator is replaced by a finite sequence of draws: each draw is
    the candidate `gen_bigint(256).abs()` returns together with the ten
    witnesses `miller_rabin` then draws for it. Running out of draws is the
    only way a search can fail here; the source would keep drawing. */
module PrimeSearch {
  import opened Arith
  import opened Wrappers
  import opened Primality

  /** `find_prime` tests each candidate with `miller_rabin(&candidate, &10)`. */
  const Rounds: nat := 10

  /** Candidates are the absolute value of a random 256-bit signed integer,
      so they lie below 2^256. */
  const CandidateLimit: int := 0x1_0000_0000_0000_0000_0000_0000_0000_0000_0000_0000_0000_0000_0000_0000_0000_0000

  datatype Draw = Draw(candidate: int, witnesses: seq<int>)

  /** A draw the source can process: the candidate is in the generator's
      range [0, 2^256) and at least 5 (smaller ones make `miller_rabin` panic
      or hang), and there is one in-range witness per round. */
  predicate ValidDraw(d: Draw)
  {
    && 5 <= d.candidate < CandidateLimit
    && |d.witnesses| == Rounds
    && WitnessesInRange(d.candidate, d.witnesses)
  }

  predicate ValidDraws(draws: seq<Draw>)
  {
    forall i :: 0 <= i < |draws| ==> ValidDraw(draws[i])
  }

  /** The draw's candidate survives all of its rounds. */
  predicate Passes(d: Draw)
    requires ValidDraw(d)
  {
    AllRoundsInconclusive(d.candidate, d.witnesses)
  }

  /** The candidates that pass the test, in the order they were drawn. */
  function Accepted(draws: seq<Draw>): seq<int>
    requires ValidDraws(draws)
  {
    if draws == [] then []
    else (if Passes(draws[0]) then [draws[0].candidate] else []) + Accepted(draws[1..])
  }

  lemma {:induction false} AcceptedAppend(draws: seq<Draw>, i: nat)
    requires ValidDraws(draws) && i < |draws|
    ensures Accepted(draws[i..]) ==
            (if Passes(draws[i]) then [draws[i].candidate] else []) + Accepted(draws[i + 1..])
  {
    assert draws[i..][1..] == draws[i + 1..];
  }

  /** A value is accepted exactly when it is the candidate of a draw that
      passed its rounds. */
  lemma {:induction false} AcceptedMembership(draws: seq<Draw>, x: int)
    requires ValidDraws(draws)
    ensures x in Accepted(draws) <==>
            exists i :: 0 <= i < |draws| && draws[i].candidate == x && Passes(draws[i])
  {
    if draws != [] {
      AcceptedMembership(draws[1..], x);
      if x in Accepted(draws) && !(Passes(draws[0]) && x == draws[0].candidate) {
        var i :| 0 <= i < |draws[1..]| && draws[1..][i].candidate == x && Passes(draws[1..][i]);
        assert draws[i + 1] == draws[1..][i];
      }
      if exists i :: 0 <= i < |draws| && draws[i].candidate == x && Passes(draws[i]) {
        var i :| 0 <= i < |draws| && draws[i].candidate == x && Passes(draws[i]);
        if i > 0 {
          assert draws[1..][i - 1] == draws[i];
        }
      }
    }
  }

  /** Every accepted value lies in the candidate range [5, 2^256). */
  lemma AcceptedInRange(draws: seq<Draw>, x: int)
    requires ValidDraws(draws) && x in Accepted(draws)
    ensures 5 <= x < CandidateLimit
  {
    AcceptedMembership(draws, x);
    var i :| 0 <= i < |draws| && draws[i].candidate == x && Passes(draws[i]);
    assert ValidDraw(draws[i]);
  }

  /** No prime candidate is ever rejected. */
  lemma PrimeAccepted(draws: seq<Draw>, i: int)
    requires ValidDraws(draws) && 0 <= i < |draws| && IsPrime(draws[i].candidate)
    ensures draws[i].candidate in Accepted(draws)
  {
    assert ValidDraw(draws[i]);
    PrimeAllRoundsInconclusive(draws[i].candidate, draws[i].witnesses);
    AcceptedMembership(draws, draws[i].candidate);
  }

  /** `find_prime`: draw candidates until one passes `miller_rabin` with ten
      rounds. Returns it with the number of draws consumed, which is what the
      shared generator has advanced by. */
  method FindPrime(draws: seq<Draw>) returns (prime: Option<int>, used: nat)
    requires ValidDraws(draws)
    ensures used <= |draws|
    ensures prime.None? <==> Accepted(draws) == []
    ensures prime.None? ==> used == |draws|
    ensures prime.Some? ==> 0 < used && prime.value == draws[used - 1].candidate
    ensures prime.Some? ==> Passes(draws[used - 1])
    ensures forall j :: 0 <= j < used - 1 ==> !Passes(draws[j])
    ensures prime.Some? ==> Accepted(draws) == [prime.value] + Accepted(draws[used..])
  {
    var i := 0;
    while i < |draws|
      invariant 0 <= i <= |draws|
      invariant forall j :: 0 <= j < i ==> !Passes(draws[j])
      invariant Accepted(draws) == Accepted(draws[i..])
    {
      var candidate := draws[i].candidate;
      var isPrime := MillerRabin(candidate, Rounds, draws[i].witnesses);
      AcceptedAppend(draws, i);
      if isPrime {
        return Some(candidate), i + 1;
      }
      i := i + 1;
    }
    return None, |draws|;
  }

  /** Accepting is done draw by draw: the candidates accepted from two
      consecutive stretches of the generator are those of the first stretch
      followed by those of the second. */
  lemma {:induction false} AcceptedConcat(a: seq<Draw>, b: seq<Draw>)
    requires ValidDraws(a) && ValidDraws(b)
    ensures ValidDraws(a + b)
    ensures Accepted(a + b) == Accepted(a) + Accepted(b)
  {
    if a != [] {
      assert (a + b)[0] == a[0];
      assert (a + b)[1..] == a[1..] + b;
      AcceptedConcat(a[1..], b);
    } else {
      assert a + b == b;
    }
  }

  lemma AppendAssoc(a: seq<int>, b: seq<int>, c: seq<int>)
    ensures a + (b + c) == (a + b) + c
  {
  }

  lemma PrefixOfConcat(a: seq<int>, b: seq<int>)
    ensures (a + b)[..|a|] == a
  {
  }

  /** `find_primes(to_find, generator)`: `to_find` calls of `find_prime` on
      the same generator, collected in order. The result is exactly the first
      `to_find` accepted candidates. */
  method FindPrimes(toFind: nat, draws: seq<Draw>) returns (primes: Option<seq<int>>, used: nat)
    requires ValidDraws(draws)
    ensures used <= |draws|
    ensures primes.Some? <==> |Accepted(draws)| >= toFind
    ensures primes.Some? ==> |primes.value| == toFind && primes.value == Accepted(draws)[..toFind]
    ensures primes.Some? ==> Accepted(draws) == primes.value + Accepted(draws[used..])
    ensures primes.Some? && toFind > 0 ==> used > 0
  {
    var found: seq<int> := [];
    var pending := draws;
    used := 0;
    for n := 0 to toFind
      invariant |found| == n
      invariant used <= |draws| && pending == draws[used..]
      invariant n > 0 ==> used > 0
      invariant Accepted(draws) == found + Accepted(pending)
    {
      var prime, u := FindPrime(pending);
      if prime.None? {
        return None, |draws|;
      }
      AppendAssoc(found, [prime.value], Accepted(pending[u..]));
      assert draws[used..][u..] == draws[used + u..];
      found := found + [prime.value];
      pending := pending[u..];
      used := used + u;
    }
    PrefixOfConcat(found, Accepted(pending));
    return Some(found), used;
  }
}
