/** Go's `encoding/hex`: lower-case, high nibble first, two characters per byte. */
module Hex {

  type byte = x: int | 0 <= x < 256

  predicate IsLowerHexDigit(c: char)
  {
    '0' <= c <= '9' || 'a' <= c <= 'f'
  }

  predicate IsLowerHex(s: string)
  {
    forall i :: 0 <= i < |s| ==> IsLowerHexDigit(s[i])
  }

  function HexDigit(v: nat): (c: char)
    requires v < 16
    ensures IsLowerHexDigit(c)
  {
    "0123456789abcdef"[v]
  }

  function NibbleValue(c: char): (v: nat)
    requires IsLowerHexDigit(c)
    ensures v < 16
  {
    if c <= '9' then (c as int) - ('0' as int) else (c as int) - ('a' as int) + 10
  }

  lemma NibbleRoundTrip(v: nat)
    requires v < 16
    ensures NibbleValue(HexDigit(v)) == v
  {
  }

  lemma DigitRoundTrip(c: char)
    requires IsLowerHexDigit(c)
    ensures HexDigit(NibbleValue(c)) == c
  {
    var digits := "0123456789abcdef";
    if c <= '9' {
      assert digits[..10] == "0123456789";
    } else {
      assert digits[10..] == "abcdef";
    }
  }

  /** `hex.EncodeToString(b)`. */
  function HexEncode(b: seq<byte>): (s: string)
    ensures |s| == 2 * |b|
    ensures IsLowerHex(s)
    decreases |b|
  {
    if b == [] then []
    else [HexDigit(b[0] / 16), HexDigit(b[0] % 16)] + HexEncode(b[1..])
  }

  /** `hex.DecodeString` on well-formed lower-case input. */
  function HexDecode(s: string): (b: seq<byte>)
    requires |s| % 2 == 0 && IsLowerHex(s)
    ensures |b| == |s| / 2
    decreases |s|
  {
    if s == [] then []
    else [16 * NibbleValue(s[0]) + NibbleValue(s[1])] + HexDecode(s[2..])
  }

  /** Decoding two digits in front of a well-formed text. */
  lemma DecodeCons(hi: nat, lo: nat, t: string)
    requires hi < 16 && lo < 16
    requires |t| % 2 == 0 && IsLowerHex(t)
    ensures |[HexDigit(hi), HexDigit(lo)] + t| % 2 == 0 && IsLowerHex([HexDigit(hi), HexDigit(lo)] + t)
    ensures HexDecode([HexDigit(hi), HexDigit(lo)] + t) == [16 * hi + lo] + HexDecode(t)
  {
    var s := [HexDigit(hi), HexDigit(lo)] + t;
    assert s[2..] == t;
    NibbleRoundTrip(hi);
    NibbleRoundTrip(lo);
  }

  /** Decoding an encoding gives the bytes back. */
  lemma {:induction false} DecodeEncode(b: seq<byte>)
    ensures HexDecode(HexEncode(b)) == b
    decreases |b|
  {
    if b != [] {
      var t := HexEncode(b[1..]);
      var hi, lo := b[0] / 16, b[0] % 16;
      assert HexEncode(b) == [HexDigit(hi), HexDigit(lo)] + t;
      DecodeCons(hi, lo, t);
      DecodeEncode(b[1..]);
      assert b == [16 * hi + lo] + b[1..];
    }
  }

  /** Encoding a decoding gives the lower-case text back. */
  lemma {:induction false} EncodeDecode(s: string)
    requires |s| % 2 == 0 && IsLowerHex(s)
    ensures HexEncode(HexDecode(s)) == s
    decreases |s|
  {
    if s != [] {
      var b := HexDecode(s);
      var v := 16 * NibbleValue(s[0]) + NibbleValue(s[1]);
      assert b[0] == v && b[1..] == HexDecode(s[2..]);
      assert v / 16 == NibbleValue(s[0]) && v % 16 == NibbleValue(s[1]);
      DigitRoundTrip(s[0]);
      DigitRoundTrip(s[1]);
      EncodeDecode(s[2..]);
      assert s == [s[0], s[1]] + s[2..];
    }
  }

  /** Distinct byte strings have distinct encodings. */
  lemma EncodeInjective(a: seq<byte>, b: seq<byte>)
    ensures HexEncode(a) == HexEncode(b) <==> a == b
  {
    DecodeEncode(a);
    DecodeEncode(b);
  }
}
