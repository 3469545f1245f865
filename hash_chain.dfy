/** The worker's `createHash`: lay out `currentHash || signer || nonce` in a
    72-byte buffer, hash it with keccak-256 and decode the hex digest.
    keccak-256 is a foreign collaborator, so it is a parameter here: any
    function from bytes to text, constrained only by the shape of what the
    collaborator returns. */
module HashChain {
  import opened Bytes
  import opened Hex
  import opened NonceEncoding

  /** A digest function as the worker calls it: `keccak(data, 256)`. */
  type Keccak = seq<Byte> -> string

  /** A 256-bit digest rendered as 64 lowercase hex digits. */
  predicate IsHexDigest(s: string)
  {
    |s| == 64 && AllLowerHexDigits(s) && AllHexDigits(s)
  }

  /** What the model assumes of the collaborator: every digest it returns has
      the shape of a keccak-256 hex digest. */
  ghost predicate IsKeccak256(keccak: Keccak)
  {
    forall data :: IsHexDigest(keccak(data))
  }

  /** The buffer writes succeed: `set` throws a RangeError when the source does
      not fit at its offset in the 72-byte buffer. */
  predicate PreimageFits(currentHash: seq<Byte>, signer: seq<Byte>)
  {
    |currentHash| <= 72 && 32 + |signer| <= 72
  }

  /** The buffer `createHash` hands to keccak: 72 zero bytes, then
      `currentHash` at offset 0, the signer at 32 and the encoded nonce at 64,
      each write over the previous ones. */
  function Preimage(currentHash: seq<Byte>, signer: seq<Byte>, nonce: int): (data: seq<Byte>)
    requires PreimageFits(currentHash, signer)
    ensures |data| == 72
  {
    Overlay(Overlay(Overlay(Zeros(72), currentHash, 0), signer, 32), Int64To8(nonce), 64)
  }

  /** For the 32-byte hash and signer the protocol uses, the pre-image is the
      plain concatenation `currentHash || signer || int64to8(nonce)`. */
  lemma PreimageLayout(currentHash: seq<Byte>, signer: seq<Byte>, nonce: int)
    requires |currentHash| == 32 && |signer| == 32
    ensures Preimage(currentHash, signer, nonce)[..32] == currentHash
    ensures Preimage(currentHash, signer, nonce)[32..64] == signer
    ensures Preimage(currentHash, signer, nonce)[64..] == Int64To8(nonce)
    ensures Preimage(currentHash, signer, nonce) == currentHash + signer + Int64To8(nonce)
  {
    var data := Preimage(currentHash, signer, nonce);
    var a := Overlay(Zeros(72), currentHash, 0);
    var b := Overlay(a, signer, 32);
    assert data[..32] == b[..32] == a[..32];
    assert data == data[..32] + data[32..64] + data[64..];
  }

  /** Whatever the lengths of hash and signer, the last 8 bytes are the
      nonce encoding, and so the pre-image determines the nonce modulo 2^64. */
  lemma PreimageNonce(currentHash: seq<Byte>, signer: seq<Byte>, m: int, n: int)
    requires PreimageFits(currentHash, signer)
    ensures Preimage(currentHash, signer, n)[64..] == Int64To8(n)
    ensures Preimage(currentHash, signer, m) == Preimage(currentHash, signer, n) <==> m % TWO_64 == n % TWO_64
  {
    var pm, pn := Preimage(currentHash, signer, m), Preimage(currentHash, signer, n);
    assert pm[64..] == Int64To8(m);
    Int64To8SameIff(m, n);
    if m % TWO_64 == n % TWO_64 {
      assert pm == pm[..64] + pm[64..] && pn == pn[..64] + pn[64..];
    }
  }

  /** The digest `createHash` resolves to. */
  function HashOf(keccak: Keccak, currentHash: seq<Byte>, signer: seq<Byte>, nonce: int): seq<Byte>
    requires IsKeccak256(keccak) && PreimageFits(currentHash, signer)
  {
    DecodeHex(keccak(Preimage(currentHash, signer, nonce)))
  }

  /** Every digest is 32 bytes and, the nonce encoding wrapping modulo 2^64,
      nonces that agree modulo 2^64 have the same digest. */
  lemma HashOfShape(keccak: Keccak, currentHash: seq<Byte>, signer: seq<Byte>, m: int, n: int)
    requires IsKeccak256(keccak) && PreimageFits(currentHash, signer)
    ensures |HashOf(keccak, currentHash, signer, n)| == 32
    ensures m % TWO_64 == n % TWO_64 ==> HashOf(keccak, currentHash, signer, m) == HashOf(keccak, currentHash, signer, n)
  {
    DecodeHexAt(keccak(Preimage(currentHash, signer, n)));
    PreimageNonce(currentHash, signer, m, n);
  }

  /** `target.set(source, offset)` on a typed array. */
  method Place(target: array<Byte>, source: seq<Byte>, offset: nat)
    requires offset + |source| <= target.Length
    modifies target
    ensures target[..] == Overlay(old(target[..]), source, offset)
  {
    forall k | 0 <= k < |source| {
      target[offset + k] := source[k];
    }
  }

  /** `createHash(currentHash, signerAddressBytes, nonce)`: the result is the
      32-byte digest of the pre-image, and, being `HashOf` of the inputs, the
      same for the same inputs. */
  method CreateHash(keccak: Keccak, currentHash: seq<Byte>, signer: seq<Byte>, nonce: int)
    returns (hash: array<Byte>)
    requires IsKeccak256(keccak)
    requires PreimageFits(currentHash, signer)
    ensures fresh(hash)
    ensures hash.Length == 32
    ensures hash[..] == DecodeHex(keccak(Preimage(currentHash, signer, nonce)))
  {
    var dataToHash := new Byte[32 + 32 + 8](_ => 0);
    assert dataToHash[..] == Zeros(72);
    Place(dataToHash, currentHash, 0);
    Place(dataToHash, signer, 32);
    Place(dataToHash, Int64To8(nonce), 64);
    var digest := keccak(dataToHash[..]);
    hash := HexToBytes(digest);
  }
}
