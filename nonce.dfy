/** The worker's `int64to8`: a nonce stored into a one-element
    `BigUint64Array` (which reduces it modulo 2^64) and read back as its 8
    bytes. The byte order is the host's; this model assumes a little-endian
    host. */
module NonceEncoding {
  import opened Bytes

  function Pow256(k: nat): (p: nat)
    ensures p >= 1
  {
    if k == 0 then 1 else 256 * Pow256(k - 1)
  }

  /** 2^64, the modulus of a `BigUint64Array` element. */
  const TWO_64: nat := 0x1_0000_0000_0000_0000

  lemma Pow256EightIsTwo64()
    ensures Pow256(8) == TWO_64
  {
    assert Pow256(2) == 0x1_0000;
    assert Pow256(4) == 0x1_0000_0000;
    assert Pow256(6) == 0x1_0000_0000_0000;
  }

  /** The `k` least significant base-256 digits of `v`, least significant
      first. */
  function LittleEndian(v: nat, k: nat): (r: seq<Byte>)
    ensures |r| == k
  {
    if k == 0 then [] else [v % 256] + LittleEndian(v / 256, k - 1)
  }

  /** The value of a little-endian byte string. */
  function FromLittleEndian(bytes: seq<Byte>): nat
  {
    if bytes == [] then 0 else bytes[0] + 256 * FromLittleEndian(bytes[1..])
  }

  /** `int64to8(n)`. */
  function Int64To8(n: int): (r: seq<Byte>)
    ensures |r| == 8
  {
    LittleEndian(n % TWO_64, 8)
  }

  lemma {:induction false} FromLittleEndianBound(bytes: seq<Byte>)
    ensures FromLittleEndian(bytes) < Pow256(|bytes|)
  {
    if bytes != [] {
      FromLittleEndianBound(bytes[1..]);
    }
  }

  /** Decoding `k` little-endian digits recovers any value below 256^k. */
  lemma {:induction false} LittleEndianRoundTrip(v: nat, k: nat)
    requires v < Pow256(k)
    ensures FromLittleEndian(LittleEndian(v, k)) == v
  {
    if k > 0 {
      assert v / 256 < Pow256(k - 1);
      LittleEndianRoundTrip(v / 256, k - 1);
      assert LittleEndian(v, k)[1..] == LittleEndian(v / 256, k - 1);
    }
  }

  /** Encoding the value of a byte string in as many digits gives back the
      byte string. */
  lemma {:induction false} FromLittleEndianRoundTrip(bytes: seq<Byte>)
    ensures LittleEndian(FromLittleEndian(bytes), |bytes|) == bytes
  {
    if bytes != [] {
      FromLittleEndianRoundTrip(bytes[1..]);
      var v := FromLittleEndian(bytes);
      assert v % 256 == bytes[0] && v / 256 == FromLittleEndian(bytes[1..]);
    }
  }

  /** Decoding `int64to8(n)` gives `n` reduced modulo 2^64, so `n` itself for
      every nonce in `[0, 2^64)`. */
  lemma Int64To8Decodes(n: int)
    ensures FromLittleEndian(Int64To8(n)) == n % TWO_64
    ensures 0 <= n < TWO_64 ==> FromLittleEndian(Int64To8(n)) == n
  {
    Pow256EightIsTwo64();
    LittleEndianRoundTrip(n % TWO_64, 8);
  }

  /** Every 8-byte string is the encoding of a nonce in `[0, 2^64)`, namely
      its own value. */
  lemma Int64To8Onto(bytes: seq<Byte>)
    requires |bytes| == 8
    ensures FromLittleEndian(bytes) < TWO_64
    ensures Int64To8(FromLittleEndian(bytes)) == bytes
  {
    var v := FromLittleEndian(bytes);
    Pow256EightIsTwo64();
    FromLittleEndianBound(bytes);
    assert v % TWO_64 == v by { ModBelow(v, TWO_64); }
    FromLittleEndianRoundTrip(bytes);
  }

  lemma ModBelow(v: nat, m: nat)
    requires v < m
    ensures v % m == v
  {
  }

  /** Two nonces have the same encoding exactly when they agree modulo 2^64:
      the encoding wraps around and loses nothing else. */
  lemma Int64To8SameIff(m: int, n: int)
    ensures Int64To8(m) == Int64To8(n) <==> m % TWO_64 == n % TWO_64
  {
    Int64To8Decodes(m);
    Int64To8Decodes(n);
  }
}
