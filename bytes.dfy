/** Byte values as held by a JavaScript `Uint8Array`, and the small sequence
    helpers the rest of the model shares. */
module Bytes {

  /** One element of a `Uint8Array`. */
  type Byte = x: int | 0 <= x < 256

  function Min(a: int, b: int): int { if a <= b then a else b }

  function Max(a: int, b: int): int { if a >= b then a else b }

  /** A freshly allocated `Uint8Array` of length `n` holds `n` zero bytes. */
  function Zeros(n: nat): seq<Byte>
  {
    seq(n, _ => 0)
  }

  /** The contents of `target` after `target.set(source, offset)`, which copies
      `source` into `target` starting at `offset` (the call throws a RangeError
      when `source` does not fit, hence the precondition). */
  function Overlay(target: seq<Byte>, source: seq<Byte>, offset: nat): (r: seq<Byte>)
    requires offset + |source| <= |target|
    ensures |r| == |target|
    ensures r[offset..offset + |source|] == source
    ensures forall i :: 0 <= i < |target| && !(offset <= i < offset + |source|) ==> r[i] == target[i]
  {
    target[..offset] + source + target[offset + |source|..]
  }
}
