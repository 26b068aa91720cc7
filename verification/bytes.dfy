/** The unsigned little-endian byte conversion the demo uses around the
    cipher: `BigInt::from_bytes_le(Plus, bytes)` and `to_bytes_le().1`. */
module Bytes {
  import opened Arith

  type Byte = b: int | 0 <= b < 256

  /** The value of a little-endian byte string: byte i weighs 256^i. The empty
      string is 0. */
  function FromBytesLE(bs: seq<Byte>): (x: nat)
    ensures x < Pow(256, |bs|)
  {
    if bs == [] then 0 else bs[0] + 256 * FromBytesLE(bs[1..])
  }

  /** The base-256 digits of x, least significant first, without trailing
      zeros; empty for 0. */
  function Digits(x: nat): seq<Byte>
  {
    if x == 0 then [] else [x % 256] + Digits(x / 256)
  }

  /** The magnitude bytes of a non-negative integer: the minimal little-endian
      string, except that 0 is the single byte [0]. */
  function ToBytesLE(x: nat): (bs: seq<Byte>)
    ensures |bs| >= 1
  {
    if x == 0 then [0] else Digits(x)
  }

  /** The last (most significant) byte is not zero. */
  predicate NoTrailingZero(bs: seq<Byte>)
  {
    |bs| > 0 ==> bs[|bs| - 1] != 0
  }

  /** The strings `to_bytes_le` can return: [0], or a string whose last byte
      is not zero. */
  predicate Canonical(bs: seq<Byte>)
  {
    bs == [0] || (|bs| > 0 && bs[|bs| - 1] != 0)
  }

  lemma {:induction false} DigitsRoundTrip(x: nat)
    ensures FromBytesLE(Digits(x)) == x && NoTrailingZero(Digits(x))
  {
    if x > 0 {
      DigitsRoundTrip(x / 256);
      var ds := Digits(x);
      assert ds[1..] == Digits(x / 256);
    }
  }

  /** Reading back the bytes of x gives x, and those bytes are canonical. */
  lemma FromToBytes(x: nat)
    ensures FromBytesLE(ToBytesLE(x)) == x
    ensures Canonical(ToBytesLE(x))
  {
    if x == 0 {
      assert FromBytesLE([0]) == 0 + 256 * FromBytesLE([]);
    } else {
      DigitsRoundTrip(x);
    }
  }

  /** A string with a non-zero last byte has a non-zero value. */
  lemma {:induction false} NonZeroValue(bs: seq<Byte>)
    requires |bs| > 0 && bs[|bs| - 1] != 0
    ensures FromBytesLE(bs) > 0
  {
    if bs[0] == 0 {
      assert |bs| > 1;
      assert bs[1..][|bs[1..]| - 1] == bs[|bs| - 1];
      NonZeroValue(bs[1..]);
    }
  }

  lemma {:induction false} DigitsOfValue(bs: seq<Byte>)
    requires NoTrailingZero(bs)
    ensures Digits(FromBytesLE(bs)) == bs
  {
    if bs != [] {
      var x := FromBytesLE(bs);
      var rest := bs[1..];
      assert x % 256 == bs[0] && x / 256 == FromBytesLE(rest) by {
        DivModUnique(x, 256, FromBytesLE(rest), bs[0]);
      }
      if rest == [] {
        assert x == bs[0] && x != 0;
      } else {
        assert rest[|rest| - 1] == bs[|bs| - 1];
        NonZeroValue(bs);
        DigitsOfValue(rest);
      }
    }
  }

  /** Converting a canonical byte string to an integer and back gives it
      back. */
  lemma ToFromBytes(bs: seq<Byte>)
    requires Canonical(bs)
    ensures ToBytesLE(FromBytesLE(bs)) == bs
  {
    if bs == [0] {
      assert FromBytesLE(bs) == 0 + 256 * FromBytesLE([]);
    } else {
      NonZeroValue(bs);
      DigitsOfValue(bs);
    }
  }

  /** A trailing zero byte does not change the value: the conversion loses
      trailing NUL bytes of a message. */
  lemma {:induction false} TrailingZeroIgnored(bs: seq<Byte>)
    ensures FromBytesLE(bs + [0]) == FromBytesLE(bs)
  {
    if bs != [] {
      assert (bs + [0])[1..] == bs[1..] + [0];
      TrailingZeroIgnored(bs[1..]);
    } else {
      assert FromBytesLE([0]) == 0 + 256 * FromBytesLE([]);
    }
  }
}
