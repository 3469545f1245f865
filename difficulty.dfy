/** The difficulty test of the worker (`validateHash`): a digest passes when
    the bytes `hash.slice(0, difficulty)` add up to zero. */
module Difficulty {
  import opened Bytes

  /** `arr.reduce((a, b) => a + b, 0)`: a left fold of `+` from 0. */
  function Sum(s: seq<Byte>): int
  {
    if s == [] then 0 else Sum(s[..|s| - 1]) + s[|s| - 1]
  }

  /** The end index that `slice(0, end)` uses on an array of length `len`:
      a negative `end` counts back from the end of the array, and the result
      is clamped to `[0, len]`, so slicing never fails. */
  function SliceEnd(end: int, len: nat): (k: nat)
    ensures k <= len
  {
    if end < 0 then (if len + end < 0 then 0 else len + end)
    else if end < len then end
    else len
  }

  /** `validateHash(hash, difficulty)`: the digest passes exactly when the
      bytes the slice keeps are all zero. */
  function ValidateHash(hash: seq<Byte>, difficulty: int): (ok: bool)
    ensures ok <==> HasLeadingZeroBytes(hash, if difficulty >= 0 then difficulty else |hash| + difficulty)
  {
    var prefix := hash[..SliceEnd(difficulty, |hash|)];
    SumZeroIff(prefix);
    assert forall i :: 0 <= i < |prefix| ==> prefix[i] == hash[i];
    Sum(prefix) == 0
  }

  /** The intended reading of the test: the first `k` bytes (as many as
      there are) are all zero. */
  ghost predicate HasLeadingZeroBytes(hash: seq<Byte>, k: int)
  {
    forall i :: 0 <= i < k && i < |hash| ==> hash[i] == 0
  }

  /** Bytes are never negative, so a byte sum is zero exactly when every
      byte is zero. */
  lemma {:induction false} SumZeroIff(s: seq<Byte>)
    ensures Sum(s) >= 0
    ensures Sum(s) == 0 <==> forall i :: 0 <= i < |s| ==> s[i] == 0
  {
    if s != [] {
      var init := s[..|s| - 1];
      SumZeroIff(init);
      assert forall i :: 0 <= i < |init| ==> init[i] == s[i];
    }
  }

  /** `validateHash` tests exactly for leading zero bytes: with a
      non-negative difficulty `d`, the first `min(d, |hash|)` bytes; with a
      negative one (JavaScript's slice from the end), all but the last `-d`. */
  lemma ValidateHashMeaning(hash: seq<Byte>, d: int)
    ensures d >= 0 ==> (ValidateHash(hash, d) <==> HasLeadingZeroBytes(hash, d))
    ensures d < 0 ==> (ValidateHash(hash, d) <==> HasLeadingZeroBytes(hash, |hash| + d))
  {
    var prefix := hash[..SliceEnd(d, |hash|)];
    SumZeroIff(prefix);
    assert forall i :: 0 <= i < |prefix| ==> prefix[i] == hash[i];
  }

  /** The edge cases: difficulty 0 accepts every digest, and a difficulty
      beyond the digest length checks the whole digest without failing. */
  lemma ValidateHashEdges(hash: seq<Byte>, d: int)
    ensures ValidateHash(hash, 0)
    ensures d >= |hash| ==> (ValidateHash(hash, d) <==> forall i :: 0 <= i < |hash| ==> hash[i] == 0)
  {
    ValidateHashMeaning(hash, 0);
    ValidateHashMeaning(hash, d);
  }

  /** Raising the difficulty only ever rejects more digests. */
  lemma ValidateHashMonotone(hash: seq<Byte>, d: int, e: int)
    requires 0 <= d <= e
    ensures ValidateHash(hash, e) ==> ValidateHash(hash, d)
  {
    ValidateHashMeaning(hash, d);
    ValidateHashMeaning(hash, e);
  }
}
