# rsa-tutorial in Dafny

A verified model of the educational RSA demo in `src/main.rs` of
herr-schmidt/rsa-tutorial. The demo finds two 256-bit probable primes
with the Miller-Rabin test, derives the key pair ((e, n) public and
(d, n) private) with e = 7 and the extended Euclidean algorithm, then
encrypts a message and decrypts it again.

Modules, one file each:

- `Arith` (`arith.dfy`): unbounded-integer powers, divisibility, primality, and
  `ModPow` for num-bigint's `modpow`. It also holds the modular-arithmetic lemmas
  the proofs use, including Euclid's lemma for primes.
- `Euclid` (`euclid.dfy`): `extended_euclid` as a loop. The loop uses Rust's
  truncating `BigInt` division (`TruncDiv`). `Gcd` is the remainder sequence
  the loop walks, and it is proved to be the greatest common divisor.
- `Fermat` (`fermat.dfy`): Fermat's little theorem, proved through the
  binomial theorem. It also proves that 1 has only the square roots 1 and -1
  modulo a prime.
- `Primality` (`miller_rabin.dfy`): `miller_rabin`, with the
  halving loop and the per-round witness test. It is proved sound: a prime is
  never reported composite.
- `PrimeSearch` (`prime_search.dfy`): `find_prime` and `find_primes`, which
  draw candidates and keep the ones that pass.
- `Rsa` (`rsa.dfy`): the key loop of `main`, encryption, decryption and the
  RSA round trip. It also holds the equal-primes finding and its correction.
- `Bytes` (`bytes.dfy`) and `Message` (`message.dfy`): the
  little-endian byte conversion and the message pipeline at the end of
  `main`.

The random generators are inputs here. A `Draw` is one candidate that
`gen_bigint(256).abs()` returns, together with the ten witnesses that
`gen_bigint_range` returns for it during the test. A search consumes draws
from a finite sequence. When the draws run out, it returns `None`.

In these places the code does less than an RSA demo evidently means to do.
The model follows the code:

- The witness range is `gen_bigint_range(2, n - 2)`, which is half-open:
  [2, n - 3]. The intended range is [2, n - 2].
- Nothing rejects a message whose integer value is n or more. It is reduced
  modulo n without an error (`Message.MessageReduced`).
- The byte conversion is not lossless. Trailing zero bytes are dropped
  (`Bytes.TrailingZeroIgnored`), and the empty message comes back as `[0]`.
- The key loop does not check that p != q (see Findings).

## Model

| member | source | states |
|---|---|---|
| Arith.ModPow | src/main.rs:115 | `b.modpow(e, m)` for m > 0 is the least non-negative residue of b^e: it lies in [0, m) and m divides b^e minus it |
| Euclid.TruncDiv | src/main.rs:141 | Rust's `BigInt` `/` rounds toward zero: the remainder is smaller than the divisor in size and has the sign of the dividend; for a non-negative dividend and positive divisor it is the floor quotient |
| Euclid.GcdIsGreatestCommonDivisor | src/main.rs:140-146 | the value the remainder sequence ends on divides both inputs; every common divisor divides it; it is non-negative and the largest common divisor for non-negative inputs |
| Euclid.EuclidStep | src/main.rs:141-144 | one loop step keeps both Bézout identities, the gcd of the remainder pair, the ±1 determinant of the coefficient pairs and, for non-negative inputs, the sign and size relations of the y coefficients |
| Euclid.FinalCoefficientBound | src/main.rs:146 | when the loop ends on gcd 1 with a >= 2, the returned y coefficient lies strictly between -a and a |
| Euclid.ExtendedEuclid | src/main.rs:133-147 | returns (x, y, g) with a*x + b*y == g for all signs and g == Gcd(a, b), a greatest common divisor up to sign and the non-negative gcd for a, b >= 0; for a >= 2, b >= 0 and g == 1, -a < y < a |
| Primality.Split | src/main.rs:96-108 | n - 1 == 2^k * q with q odd |
| Primality.Decompose | src/main.rs:96-108 | the halving loop returns k and q with candidate - 1 == 2^k * q, q odd, equal to `Split` |
| Primality.MillerRabin | src/main.rs:87-131 | returns true exactly when every round is inconclusive (a^q == 1, or a^(2^j*q) == n - 1 for some j < k), and always returns true for a prime candidate |
| Primality.SquaringDescent | src/main.rs:115-124 | if a^(2^m*q) == 1 modulo a prime, then a^q == 1 or some a^(2^j*q) with j < m is -1 |
| Primality.PrimeRoundInconclusive | src/main.rs:110-127 | for a prime candidate, each round with a witness in [2, n - 2] is inconclusive |
| Primality.PrimeAllRoundsInconclusive | src/main.rs:87-131 | a prime candidate survives all rounds for any in-range witnesses, so `false` means composite |
| PrimeSearch.AcceptedConcat | src/main.rs:67-83 | the candidates accepted from two consecutive stretches of the shared generator are those of the first stretch followed by those of the second |
| PrimeSearch.AcceptedMembership | src/main.rs:75-85 | a value is accepted exactly when it is the candidate of a draw that passed |
| PrimeSearch.AcceptedInRange | src/main.rs:78 | every accepted value lies in [5, 2^256) |
| PrimeSearch.PrimeAccepted | src/main.rs:79-82 | a prime candidate is never rejected |
| PrimeSearch.FindPrime | src/main.rs:75-85 | returns the first candidate that passes and the number of draws consumed: the draw at `used - 1` passes and every earlier draw fails; None, having consumed every draw, when none passes; the rest of the accepted stream is what is left |
| PrimeSearch.FindPrimes | src/main.rs:67-73 | returns exactly the first `to_find` accepted candidates in order, or None when there are fewer; the rest of the stream is what later calls see |
| Rsa.DeriveKey | src/main.rs:22-35 | succeeds exactly when gcd(phi(n), e) == 1; then n == p*q, phi(n) == (p-1)(q-1), d >= 0 and e*d ≡ 1 (mod phi(n)), with d < phi(n) once phi(n) >= 2 |
| Rsa.InverseFromBezout | src/main.rs:29-33 | from phi*x + e*y == 1 with abs(y) < phi, y (or (phi + y) mod phi when y < 0) is a non-negative inverse of e modulo phi, below phi once phi >= 2 |
| Rsa.ChoosePrimesSound | src/main.rs:18-36 | the pair the key loop settles on consists of accepted candidates with gcd((p-1)(q-1), e) == 1 |
| Rsa.SearchPass | src/main.rs:19 | the two primes of one pass are both at least 5 |
| Rsa.GenerateKey | src/main.rs:18-36 | returns a key exactly when the accepted stream holds a usable pair; each pass pops the second prime found as p and the first as q (lines 19-21); its p and q are the first usable pair in that order, e == 7 and the key is valid |
| Rsa.Encrypt | src/main.rs:52 | the ciphertext m^e mod n lies in [0, n) |
| Rsa.Decrypt | src/main.rs:59 | the decrypted value c^d mod n lies in [0, n) |
| Rsa.FermatExponent | src/main.rs:59 | m^(1 + j*(p-1)) ≡ m (mod p) for a prime p and every m |
| Rsa.DivisibleBaseExponent | src/main.rs:59 | if p divides m, then m^(1+k) ≡ m (mod p) |
| Rsa.CoprimeBaseExponent | src/main.rs:59 | if p does not divide m, then m^(1 + j*(p-1)) ≡ m (mod p) |
| Rsa.ExponentForm | src/main.rs:29-33 | for a valid key, e*d == 1 + t*phi(n) with t >= 0 |
| Rsa.TotientExponent | src/main.rs:22-23 | for distinct primes p and q, m^(1+k) ≡ m (mod p*q) when both p - 1 and q - 1 divide k |
| Rsa.DecryptEncrypt | src/main.rs:52-59 | decrypting an encryption is m^(e*d) mod n |
| Rsa.RsaRoundTrip | src/main.rs:52-59 | for a valid key with distinct primes p and q, decrypting the encryption of any m in [0, n) gives m |
| Rsa.EqualPrimesBreakRoundTrip | src/main.rs:20-23 | with p == q, the message m == p encrypts to 0 and decrypts to 0, not to p |
| Rsa.EqualPrimesChosen | src/main.rs:18-36 | from the accepted stream [5, 5], where 5 is prime, the key loop picks p == q == 5 |
| Rsa.GenerateDistinctKey | src/main.rs:18-36 | the corrected key loop returns a key exactly when a usable pair of distinct primes is accepted; the key is valid with p != q |
| Bytes.FromBytesLE | src/main.rs:47 | the value of an n-byte little-endian string is below 256^n |
| Bytes.ToBytesLE | src/main.rs:53 | `to_bytes_le` always returns at least one byte |
| Bytes.FromToBytes | src/main.rs:53 | reading back the bytes of x gives x, and those bytes are canonical |
| Bytes.ToFromBytes | src/main.rs:47 | a canonical byte string (`[0]` or no trailing zero) survives conversion to an integer and back |
| Bytes.TrailingZeroIgnored | src/main.rs:47 | a trailing zero byte does not change the integer value |
| Message.EncryptMessage | src/main.rs:46-52 | the encrypted message lies in [0, n) |
| Message.DecryptMessage | src/main.rs:59-60 | the decrypted bytes are canonical |
| Message.MessageReduced | src/main.rs:45-64 | for any message, the pipeline returns the bytes of its value reduced modulo n |
| Message.MessageRoundTrip | src/main.rs:45-64 | a canonical message whose value is below n comes back byte for byte |
| Message.CiphertextBytes | src/main.rs:53 | the ciphertext bytes determine the ciphertext integer |

## Left out

- Console output (`println!`) and `String::from_utf8_lossy` are not modelled.
  A message is a byte sequence from the start.
- The seeded `StdRng` and `thread_rng` are not modelled. Their outputs are the
  `Draw` inputs, and the concrete stream for seed 553246 is not computed.
- `find_prime` and the key loop can run forever. With finitely many draws,
  the model returns `None` once the draws are exhausted.
- Candidates below 5 are not modelled. With them `miller_rabin` panics on an
  empty witness range, or loops forever for 1. `ValidDraw` and
  `Primality.MillerRabin` exclude them.
- Primality.MillerRabin: does not state the 4^-k error bound for composites.
  It is a probability over the witnesses.
- Rsa.GenerateKey: does not promise that p and q are prime. Ten Miller-Rabin
  rounds make that likely but do not prove it. The round trip lemmas assume it.
- Rsa.DeriveKey: states d < phi(n) only when phi(n) >= 2. A valid key needs
  phi(n) >= 2, and with phi(n) == 1 the bound can fail for some e: for e = 1,
  `extended_euclid(1, 1)` gives d = 1 == phi(n). With the demo's e = 7 and
  p = q = 2, d is 0.
- Message.MessageRoundTrip: holds only for canonical messages whose value is
  below n. Messages outside that set come back as `Message.MessageReduced` states.
- The internals of num-bigint (`modpow`, `pow`, the byte conversions) are
  modelled by their mathematical meaning over unbounded integers.

## Findings

| source | as written | input that shows it | evidently intended | confidence | as-written member | corrected member |
|---|---|---|---|---|---|---|
| src/main.rs:18-36 | the key loop accepts any two probable primes, also p == q | accepted stream [5, 5] gives p = q = 5, n = 25, phi(n) = 16 and d = 7; the message 5 encrypts to 0 and decrypts to 0 (`Rsa.EqualPrimesChosen`) | draw again when p == q, so RSA decryption inverts encryption | not executed; needs the generator to yield the same prime twice | Rsa.EqualPrimesBreakRoundTrip | Rsa.GenerateDistinctKey |
