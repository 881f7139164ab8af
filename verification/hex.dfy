/** Base16 encoding (section 8 of RFC 4648) as the `hex` crate writes it:
    two lowercase digits per byte, high nibble first. The decoder is the
    inverse the encoding is judged against; like the crate's decoder it
    accepts digits of either case. */
module Hex {
  import opened Bytes

  predicate IsLowerHexDigit(c: char) {
    '0' <= c <= '9' || 'a' <= c <= 'f'
  }

  predicate AllLowerHex(s: string) {
    forall i | 0 <= i < |s| :: IsLowerHexDigit(s[i])
  }

  /** The digit naming a nibble. */
  function DigitChar(n: int): (c: char)
    requires 0 <= n < 16
    ensures IsLowerHexDigit(c)
    ensures DigitValue(c) == Some(n)
  {
    if n < 10 then ('0' as int + n) as char else ('a' as int + (n - 10)) as char
  }

  /** The nibble a digit names, in either case; None for any other character. */
  function DigitValue(c: char): (r: Option<int>)
    ensures r.Some? ==> 0 <= r.value < 16
  {
    if '0' <= c <= '9' then Some(c as int - '0' as int)
    else if 'a' <= c <= 'f' then Some(c as int - 'a' as int + 10)
    else if 'A' <= c <= 'F' then Some(c as int - 'A' as int + 10)
    else None
  }

  lemma {:induction false} LowerDigitRoundTrip(c: char)
    requires IsLowerHexDigit(c)
    ensures DigitValue(c).Some? && DigitChar(DigitValue(c).value) == c
  {
  }

  /** `hex::encode`: every byte becomes two lowercase digits. */
  function Encode(bytes: seq<byte>): (s: string)
    ensures |s| == 2 * |bytes|
    ensures AllLowerHex(s)
  {
    if |bytes| == 0 then ""
    else [DigitChar(bytes[0] / 16), DigitChar(bytes[0] % 16)] + Encode(bytes[1..])
  }

  /** The inverse of Encode: None for an odd length or a non-digit. */
  function Decode(s: string): (r: Option<seq<byte>>)
    ensures r.Some? ==> 2 * |r.value| == |s|
  {
    if |s| == 0 then Some([])
    else if |s| == 1 then None
    else
      match (DigitValue(s[0]), DigitValue(s[1]), Decode(s[2..]))
      case (Some(hi), Some(lo), Some(rest)) => Some([hi * 16 + lo] + rest)
      case _ => None
  }

  /** Decoding an encoding gives back the bytes. */
  lemma {:induction false} DecodeEncode(bytes: seq<byte>)
    ensures Decode(Encode(bytes)) == Some(bytes)
  {
    if |bytes| > 0 {
      var s := Encode(bytes);
      DecodeEncode(bytes[1..]);
      assert s[2..] == Encode(bytes[1..]);
      assert [bytes[0] / 16 * 16 + bytes[0] % 16] + bytes[1..] == bytes;
    }
  }

  /** A lowercase string that decodes is the encoding of what it decodes to,
      so Encode is a bijection onto the even-length lowercase digit strings. */
  lemma {:induction false} EncodeDecode(s: string)
    requires AllLowerHex(s)
    requires Decode(s).Some?
    ensures Encode(Decode(s).value) == s
  {
    if |s| > 0 {
      var bytes := Decode(s).value;
      assert AllLowerHex(s[2..]);
      EncodeDecode(s[2..]);
      LowerDigitRoundTrip(s[0]);
      LowerDigitRoundTrip(s[1]);
      var hi, lo := DigitValue(s[0]).value, DigitValue(s[1]).value;
      assert bytes[0] / 16 == hi && bytes[0] % 16 == lo;
      assert bytes[1..] == Decode(s[2..]).value;
      assert s == [s[0], s[1]] + s[2..];
    }
  }

  /** Distinct byte strings have distinct encodings. */
  lemma {:induction false} EncodeInjective(a: seq<byte>, b: seq<byte>)
    ensures Encode(a) == Encode(b) <==> a == b
  {
    DecodeEncode(a);
    DecodeEncode(b);
  }
}
