/** The payload codec: every payload byte travels as two upper-case ASCII
    hexadecimal digits, high nibble first, so no payload byte on the wire is
    ever above 127. Arithmetic is on bv8, which wraps exactly like the uint8
    results of the firmware's helpers. */
module Hex {

  /** An upper-case ASCII hexadecimal digit, '0'..'9' or 'A'..'F'. */
  predicate IsHexDigit(c: bv8) {
    48 <= c <= 57 || 65 <= c <= 70
  }

  /** The digit for a nibble: '0'..'9' for 0..9 and 'A'..'F' for 10..15. */
  function NibbleToHex(n: bv8): (c: bv8)
    ensures n < 16 ==> IsHexDigit(c) && NibbleFromHex(c) == n
  {
    if n < 10 then 48 + n else 55 + n
  }

  /** The nibble for a digit. Anything from 'A' (65) up is read as a letter,
      everything below as a decimal digit; there is no check. */
  function NibbleFromHex(c: bv8): (n: bv8)
    ensures IsHexDigit(c) ==> n < 16
  {
    if 65 <= c then c - 55 else c - 48
  }

  /** The two digits that carry one payload byte. */
  function HexByte(b: bv8): (r: seq<bv8>)
    ensures |r| == 2 && IsHexDigit(r[0]) && IsHexDigit(r[1])
    ensures r[0] < 128 && r[1] < 128
    ensures DecodePair(r[0], r[1]) == b
  {
    [NibbleToHex((0xF0 & b) >> 4), NibbleToHex(0x0F & b)]
  }

  /** The byte the receiver assembles from a pair of digits. */
  function DecodePair(hi: bv8, lo: bv8): bv8 {
    (NibbleFromHex(hi) << 4) | NibbleFromHex(lo)
  }

  /** Decoding is also a right inverse on upper-case digits: a digit read and
      written again is the same digit, and so is a decoded pair. */
  lemma DigitsRoundTrip(hi: bv8, lo: bv8)
    requires IsHexDigit(hi) && IsHexDigit(lo)
    ensures NibbleToHex(NibbleFromHex(hi)) == hi
    ensures HexByte(DecodePair(hi, lo)) == [hi, lo]
  {
  }

  /** Lower-case letters are not digits of this codec: 'a' decodes to 42, and
      the pair "0a" to 0x2A rather than 0x0A. */
  lemma LowercaseMisdecoded()
    ensures NibbleFromHex(97) == 42
    ensures forall c: bv8 :: 97 <= c <= 102 ==> 16 <= NibbleFromHex(c)
    ensures DecodePair(48, 97) == 0x2A
  {
  }
}
