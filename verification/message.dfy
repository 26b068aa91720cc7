/** The message pipeline at the end of `main`: the message bytes become an
    integer, the integer is encrypted with (e, n), and the ciphertext integer
    is decrypted with (d, n) and turned back into bytes. */
module Message {
  import opened Arith
  import opened Rsa
  import opened Bytes

  /** Lines 46-52: the bytes read as an unsigned little-endian integer and
      raised to e modulo n. Nothing rejects a message whose value is n or
      more. */
  function EncryptMessage(message: seq<Byte>, e: nat, n: int): (c: int)
    requires n > 0
    ensures 0 <= c < n
  {
    Encrypt(FromBytesLE(message), e, n)
  }

  /** Lines 59-60: the ciphertext integer raised to d modulo n, as its
      magnitude bytes. */
  function DecryptMessage(c: int, d: nat, n: int): (message: seq<Byte>)
    requires n > 0
    ensures Canonical(message)
  {
    FromToBytes(Decrypt(c, d, n));
    ToBytesLE(Decrypt(c, d, n))
  }

  /** What the pipeline gives back for any message: the bytes of its value
      reduced modulo n. Trailing zero bytes are lost and a value of n or more
      comes back reduced, without an error. */
  lemma MessageReduced(k: KeyMaterial, message: seq<Byte>)
    requires ValidKey(k) && IsPrime(k.p) && IsPrime(k.q) && k.p != k.q
    ensures DecryptMessage(EncryptMessage(message, k.e, k.n), k.d, k.n) ==
            ToBytesLE(FromBytesLE(message) % k.n)
  {
    var m := FromBytesLE(message);
    PowMod(m, k.e, k.n);
    assert EncryptMessage(message, k.e, k.n) == Encrypt(m % k.n, k.e, k.n);
    RsaRoundTrip(k, m % k.n);
  }

  /** The round trip of `main`: a canonical message whose value is below n
      comes back byte for byte. */
  lemma MessageRoundTrip(k: KeyMaterial, message: seq<Byte>)
    requires ValidKey(k) && IsPrime(k.p) && IsPrime(k.q) && k.p != k.q
    requires Canonical(message) && FromBytesLE(message) < k.n
    ensures DecryptMessage(EncryptMessage(message, k.e, k.n), k.d, k.n) == message
  {
    MessageReduced(k, message);
    ModSmall(FromBytesLE(message), k.n);
    ToFromBytes(message);
  }

  /** The printed ciphertext bytes (line 53) determine the ciphertext. */
  lemma CiphertextBytes(message: seq<Byte>, e: nat, n: int)
    requires n > 0
    ensures FromBytesLE(ToBytesLE(EncryptMessage(message, e, n))) == EncryptMessage(message, e, n)
  {
    FromToBytes(EncryptMessage(message, e, n));
  }
}
