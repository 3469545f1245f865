/** The worker's `hexToBytes`, which fills a fresh `Uint8Array` from pairs of
    hex digits, and the lowercase hex encoding it inverts. */
module Hex {
  import opened Bytes

  /** A character `parseInt(_, 16)` reads as a digit. */
  predicate IsHexDigit(c: char)
  {
    ('0' <= c <= '9') || ('a' <= c <= 'f') || ('A' <= c <= 'F')
  }

  predicate IsLowerHexDigit(c: char)
  {
    ('0' <= c <= '9') || ('a' <= c <= 'f')
  }

  predicate AllHexDigits(s: string)
  {
    forall i :: 0 <= i < |s| ==> IsHexDigit(s[i])
  }

  predicate AllLowerHexDigits(s: string)
  {
    forall i :: 0 <= i < |s| ==> IsLowerHexDigit(s[i])
  }

  function DigitValue(c: char): (v: nat)
    requires IsHexDigit(c)
    ensures v < 16
  {
    if '0' <= c <= '9' then (c as int) - ('0' as int)
    else if 'a' <= c <= 'f' then 10 + (c as int) - ('a' as int)
    else 10 + (c as int) - ('A' as int)
  }

  /** The lowercase digit for a value below 16. */
  function DigitChar(v: nat): (c: char)
    requires v < 16
    ensures IsLowerHexDigit(c) && DigitValue(c) == v
  {
    if v < 10 then ('0' as int + v) as char else ('a' as int + v - 10) as char
  }

  /** `parseInt(s, 16)` for a slice of one or two hex digits, as the loop of
      `hexToBytes` takes them (one digit only at the end of an odd-length
      string). A lowercase pair is the encoding of the byte it parses to. */
  function ParseHex(s: string): (v: Byte)
    requires 1 <= |s| <= 2 && AllHexDigits(s)
    ensures |s| == 2 && AllLowerHexDigits(s) ==> EncodeHex([v]) == s
  {
    if |s| == 1 then DigitValue(s[0])
    else
      var v := 16 * DigitValue(s[0]) + DigitValue(s[1]);
      if AllLowerHexDigits(s) then
        EncodeDecode(s);
        assert DecodeHex(s) == [v];
        v
      else v
  }

  /** Reference decoding: one byte per complete pair of digits; a trailing
      lone digit contributes nothing. */
  function DecodeHex(hex: string): seq<Byte>
    requires AllHexDigits(hex)
  {
    if |hex| < 2 then []
    else [16 * DigitValue(hex[0]) + DigitValue(hex[1])] + DecodeHex(hex[2..])
  }

  /** Lowercase hex encoding, two digits per byte, high digit first (the form
      in which the keccak collaborator returns its digest). */
  function EncodeHex(bytes: seq<Byte>): (hex: string)
    ensures |hex| == 2 * |bytes|
    ensures AllLowerHexDigits(hex) && AllHexDigits(hex)
  {
    if bytes == [] then ""
    else [DigitChar(bytes[0] / 16), DigitChar(bytes[0] % 16)] + EncodeHex(bytes[1..])
  }

  /** The decoded bytes are indexed by pairs: `|hex| / 2` of them, byte `k`
      being the value of digits `2k` and `2k + 1`. */
  lemma {:induction false} DecodeHexAt(hex: string)
    requires AllHexDigits(hex)
    ensures |DecodeHex(hex)| == |hex| / 2
    ensures forall k :: 0 <= k < |hex| / 2 ==>
      DecodeHex(hex)[k] == 16 * DigitValue(hex[2 * k]) + DigitValue(hex[2 * k + 1])
  {
    if |hex| >= 2 {
      var rest := hex[2..];
      assert AllHexDigits(rest) by {
        forall i | 0 <= i < |rest| ensures IsHexDigit(rest[i]) { assert rest[i] == hex[i + 2]; }
      }
      DecodeHexAt(rest);
      forall k | 1 <= k < |hex| / 2
        ensures DecodeHex(hex)[k] == 16 * DigitValue(hex[2 * k]) + DigitValue(hex[2 * k + 1])
      {
        assert DecodeHex(hex)[k] == DecodeHex(rest)[k - 1];
        assert rest[2 * (k - 1)] == hex[2 * k] && rest[2 * (k - 1) + 1] == hex[2 * k + 1];
      }
    }
  }

  /** Decoding the lowercase hex encoding of a byte array gives back that
      array. */
  lemma {:induction false} DecodeEncode(bytes: seq<Byte>)
    ensures DecodeHex(EncodeHex(bytes)) == bytes
  {
    if bytes != [] {
      var hex := EncodeHex(bytes);
      DecodeEncode(bytes[1..]);
      assert hex[2..] == EncodeHex(bytes[1..]);
      assert 16 * (bytes[0] / 16) + bytes[0] % 16 == bytes[0];
    }
  }

  /** Conversely, an even-length lowercase hex string is the encoding of what
      it decodes to. */
  lemma {:induction false} EncodeDecode(hex: string)
    requires AllLowerHexDigits(hex) && AllHexDigits(hex) && |hex| % 2 == 0
    ensures EncodeHex(DecodeHex(hex)) == hex
  {
    if |hex| >= 2 {
      var rest := hex[2..];
      assert AllLowerHexDigits(rest) && AllHexDigits(rest) by {
        forall i | 0 <= i < |rest| ensures IsLowerHexDigit(rest[i]) { assert rest[i] == hex[i + 2]; }
      }
      EncodeDecode(rest);
      var b := 16 * DigitValue(hex[0]) + DigitValue(hex[1]);
      assert b / 16 == DigitValue(hex[0]) && b % 16 == DigitValue(hex[1]);
      LowerDigitUnique(hex[0], DigitChar(b / 16));
      LowerDigitUnique(hex[1], DigitChar(b % 16));
      assert DecodeHex(hex) == [b] + DecodeHex(rest);
    }
  }

  /** Parsing the two digits a byte encodes to gives back the byte. */
  lemma ParseHexEncode(b: Byte)
    ensures ParseHex(EncodeHex([b])) == b
  {
    DecodeEncode([b]);
    var s := EncodeHex([b]);
    assert DecodeHex(s) == [16 * DigitValue(s[0]) + DigitValue(s[1])];
  }

  lemma LowerDigitUnique(c: char, d: char)
    requires IsLowerHexDigit(c) && IsLowerHexDigit(d) && DigitValue(c) == DigitValue(d)
    ensures c == d
  {
  }

  /** `hexToBytes(hex)`: allocate `|hex| / 2` zero bytes (a fractional length
      is truncated), then walk the string two characters at a time, parsing
      each slice and storing it at the next index; a store past the end, which
      only the lone last digit of an odd-length string reaches, is dropped as
      a typed array drops it. */
  method HexToBytes(hex: string) returns (bytes: array<Byte>)
    requires AllHexDigits(hex)
    ensures fresh(bytes)
    ensures bytes.Length == |hex| / 2
    ensures bytes[..] == DecodeHex(hex)
  {
    bytes := new Byte[|hex| / 2](_ => 0);
    var c, i := 0, 0;
    while c < |hex|
      invariant c == 2 * i
      invariant c <= |hex| + 1
      invariant bytes.Length == |hex| / 2
      invariant forall k :: 0 <= k < i && k < bytes.Length ==>
        bytes[k] == 16 * DigitValue(hex[2 * k]) + DigitValue(hex[2 * k + 1])
    {
      var digits := hex[c..Min(c + 2, |hex|)];
      var v := ParseHex(digits);
      if i < bytes.Length {
        bytes[i] := v;
      }
      c, i := c + 2, i + 1;
    }
    DecodeHexAt(hex);
  }
}
