/**
 * The int <-> byte conversions of utils.Utils. That class is not part of
 * this model. What the store relies on is stated as the predicate
 * IsIntCodec: an int encodes to 4 bytes that decode back to it, and four
 * zero bytes, and only they, decode to 0. The model takes the codec as a
 * parameter with that property; the two's-complement codecs in both byte
 * orders are defined here and proved to have it.
 */
module Utils {
  import opened JavaRuntime

  /** The contents of a `byte[Integer.BYTES]` array. */
  type Bytes4 = b: seq<byte> | |b| == 4 witness [0, 0, 0, 0]

  /**
   * Utils.intToBytes and Utils.byteArrayToInt. The store only decodes the
   * four bytes of an `Integer.BYTES` array, so what toInt gives for other
   * lengths is left open.
   */
  datatype Codec = Codec(toBytes: int32 -> Bytes4, toInt: seq<byte> -> int32)

  ghost predicate IsIntCodec(c: Codec)
  {
    && (forall x: int32 :: c.toInt(c.toBytes(x)) == x)
    && c.toInt(Zeros(4)) == 0
    && (forall b: seq<byte> :: |b| == 4 && c.toInt(b) == 0 ==> b == Zeros(4))
  }

  /** Utils.intsToByteArray(k, i): the 8-byte encoding of a (key, index) pair. */
  function IntsToBytes(c: Codec, k: int32, i: int32): (b: seq<byte>)
    ensures |b| == 8 && b[..4] == c.toBytes(k) && b[4..] == c.toBytes(i)
  {
    c.toBytes(k) + c.toBytes(i)
  }

  // ---------------------------------------------------------------------------
  // Two's complement in 4 bytes.

  function Pow256(n: nat): (p: nat)
    ensures p >= 1
  {
    if n == 0 then 1 else 256 * Pow256(n - 1)
  }

  /** The n low-order base-256 digits of u, most significant first. */
  function Digits(u: int, n: nat): (b: seq<byte>)
    ensures |b| == n
    decreases n
  {
    if n == 0 then [] else Digits(u / 256, n - 1) + [(u % 256) as byte]
  }

  /** The unsigned value of a byte sequence, most significant byte first. */
  function Unsigned(b: seq<byte>): (u: nat)
    ensures u < Pow256(|b|)
  {
    if b == [] then 0 else Unsigned(b[..|b| - 1]) * 256 + b[|b| - 1] as int
  }

  function Reverse4(b: Bytes4): (r: Bytes4)
    ensures forall k :: 0 <= k < 4 ==> r[k] == b[3 - k]
  {
    [b[3], b[2], b[1], b[0]]
  }

  function BigEndianBytes(x: int32): Bytes4
  {
    Digits(x % 0x1_0000_0000, 4)
  }

  function BigEndianInt(b: seq<byte>): int32
  {
    if |b| != 4 then 0 else
    var u := Unsigned(b);
    assert Pow256(4) == 0x1_0000_0000;
    if u < 0x8000_0000 then u else u - 0x1_0000_0000
  }

  const BigEndian: Codec := Codec(BigEndianBytes, BigEndianInt)

  const LittleEndian: Codec :=
    Codec(x => Reverse4(BigEndianBytes(x)), b => if |b| == 4 then BigEndianInt(Reverse4(b)) else 0)

  lemma {:induction false} UnsignedOfDigits(u: int, n: nat)
    requires 0 <= u < Pow256(n)
    ensures Unsigned(Digits(u, n)) == u
  {
    if n > 0 {
      var d := Digits(u / 256, n - 1);
      assert (d + [(u % 256) as byte])[..n - 1] == d;
      UnsignedOfDigits(u / 256, n - 1);
    }
  }

  lemma {:induction false} UnsignedZeros(n: nat)
    ensures Unsigned(Zeros(n)) == 0
  {
    if n > 0 {
      assert Zeros(n)[..n - 1] == Zeros(n - 1);
      UnsignedZeros(n - 1);
    }
  }

  lemma {:induction false} UnsignedZeroOnlyFromZeros(b: seq<byte>)
    requires Unsigned(b) == 0
    ensures b == Zeros(|b|)
  {
    if b != [] {
      var n := |b|;
      UnsignedZeroOnlyFromZeros(b[..n - 1]);
      assert b == b[..n - 1] + [b[n - 1]];
    }
  }

  /** Decoding an encoded int gives the int back. */
  lemma BigEndianDecodeEncode(x: int32)
    ensures BigEndianInt(BigEndianBytes(x)) == x
  {
    assert Pow256(4) == 0x1_0000_0000;
    UnsignedOfDigits(x % 0x1_0000_0000, 4);
  }

  /** Only four zero bytes decode to 0. */
  lemma BigEndianZero(b: Bytes4)
    ensures BigEndianInt(b) == 0 <==> b == Zeros(4)
  {
    if BigEndianInt(b) == 0 {
      UnsignedZeroOnlyFromZeros(b);
    }
    if b == Zeros(4) {
      UnsignedZeros(4);
    }
  }

  /** Big-endian two's complement is a codec the store can use. */
  lemma BigEndianIsIntCodec()
    ensures IsIntCodec(BigEndian)
  {
    forall x: int32
      ensures BigEndian.toInt(BigEndian.toBytes(x)) == x
    {
      BigEndianDecodeEncode(x);
    }
    forall b: seq<byte> | |b| == 4
      ensures BigEndian.toInt(b) == 0 <==> b == Zeros(4)
    {
      BigEndianZero(b);
    }
  }

  /** So is little-endian two's complement. */
  lemma LittleEndianIsIntCodec()
    ensures IsIntCodec(LittleEndian)
  {
    forall x: int32
      ensures LittleEndian.toInt(LittleEndian.toBytes(x)) == x
    {
      var d := BigEndianBytes(x);
      assert Reverse4(Reverse4(d)) == d;
      BigEndianDecodeEncode(x);
    }
    forall b: seq<byte> | |b| == 4
      ensures LittleEndian.toInt(b) == 0 <==> b == Zeros(4)
    {
      BigEndianZero(Reverse4(b));
      if b == Zeros(4) {
        assert Reverse4(b) == Zeros(4);
      }
      if Reverse4(b) == Zeros(4) {
        assert b == Reverse4(Reverse4(b));
      }
    }
  }
}
