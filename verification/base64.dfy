/** Base64 encoding (section 4 of RFC 4648) with the standard alphabet and
    `=` padding, as `base64::encode` writes it.

    The encoding is defined in two layers. The first splits the bytes into
    six-bit values, three bytes to four values, with a final group of one or
    two bytes zero-filled to two or three values. The second writes each value
    as one alphabet character. Padding then fills the output to a multiple of
    four characters.

    The decoder is the strict inverse. It refuses characters outside the
    alphabet, misplaced padding, and non-zero bits after the last byte. */
module Base64 {
  import opened Bytes

  /** A six-bit value, the index of one alphabet character. */
  type sextet = x: int | 0 <= x < 64

  const Pad: char := '='

  predicate IsAlphabetChar(c: char) {
    'A' <= c <= 'Z' || 'a' <= c <= 'z' || '0' <= c <= '9' || c == '+' || c == '/'
  }

  // ---------------------------------------------------------------------
  // Bytes and six-bit values
  // ---------------------------------------------------------------------

  /** The six-bit values of a byte string, most significant bits first; the
      bits of a final partial group are zero-filled to a whole value. */
  function ToSextets(bytes: seq<byte>): (v: seq<sextet>)
    ensures |v| == (4 * |bytes| + 2) / 3
  {
    if |bytes| == 0 then []
    else if |bytes| == 1 then [bytes[0] / 4, bytes[0] % 4 * 16]
    else if |bytes| == 2 then [bytes[0] / 4, bytes[0] % 4 * 16 + bytes[1] / 16, bytes[1] % 16 * 4]
    else
      [bytes[0] / 4, bytes[0] % 4 * 16 + bytes[1] / 16, bytes[1] % 16 * 4 + bytes[2] / 64, bytes[2] % 64]
      + ToSextets(bytes[3..])
  }

  /** Whole three-byte groups are split independently of what follows. */
  lemma {:induction false} ToSextetsAppend(a: seq<byte>, b: seq<byte>)
    requires |a| % 3 == 0
    ensures ToSextets(a + b) == ToSextets(a) + ToSextets(b)
  {
    if |a| == 0 {
      assert a + b == b;
    } else {
      assert (a + b)[3..] == a[3..] + b;
      ToSextetsAppend(a[3..], b);
    }
  }

  /** The three bytes four six-bit values carry. */
  function JoinGroup(v0: sextet, v1: sextet, v2: sextet, v3: sextet): (b: seq<byte>) {
    [v0 * 4 + v1 / 16, v1 % 16 * 16 + v2 / 4, v2 % 4 * 64 + v3]
  }

  /** The bytes a sequence of six-bit values carries: None when the length
      leaves a single value over, or when the fill bits of a final partial
      group are not zero. */
  function FromSextets(v: seq<sextet>): (r: Option<seq<byte>>)
    ensures r.Some? ==> |v| == (4 * |r.value| + 2) / 3
  {
    if |v| == 0 then Some([])
    else if |v| == 1 then None
    else if |v| == 2 then
      if v[1] % 16 == 0 then Some(JoinGroup(v[0], v[1], 0, 0)[..1]) else None
    else if |v| == 3 then
      if v[2] % 4 == 0 then Some(JoinGroup(v[0], v[1], v[2], 0)[..2]) else None
    else
      match FromSextets(v[4..])
      case None => None
      case Some(rest) => Some(JoinGroup(v[0], v[1], v[2], v[3]) + rest)
  }

  /** Joining the values of three bytes gives the bytes back. */
  lemma {:induction false} JoinSplitGroup(b0: byte, b1: byte, b2: byte)
    ensures JoinGroup(b0 / 4, b0 % 4 * 16 + b1 / 16, b1 % 16 * 4 + b2 / 64, b2 % 64) == [b0, b1, b2]
  {
    DivMod(b0 % 4, b1 / 16, 16);
    DivMod(b1 % 16, b2 / 64, 4);
  }

  lemma {:induction false} FromToSextets(bytes: seq<byte>)
    ensures FromSextets(ToSextets(bytes)) == Some(bytes)
  {
    if 1 <= |bytes| <= 2 {
      FromToPartialGroup(bytes);
    } else if |bytes| >= 3 {
      var v := ToSextets(bytes);
      ToSextetsCons(bytes);
      FromToSextets(bytes[3..]);
      JoinSplitGroup(bytes[0], bytes[1], bytes[2]);
      FromSextetsOfCons(v);
      assert bytes == [bytes[0], bytes[1], bytes[2]] + bytes[3..];
    }
  }

  /** A final group of one or two bytes survives the zero fill. */
  lemma {:induction false} FromToPartialGroup(bytes: seq<byte>)
    requires 1 <= |bytes| <= 2
    ensures FromSextets(ToSextets(bytes)) == Some(bytes)
  {
    if |bytes| == 1 {
      assert bytes == [bytes[0]];
      PartialGroupValues(bytes);
      FromOneByteValues(bytes[0]);
    } else {
      assert bytes == [bytes[0], bytes[1]];
      PartialGroupValues(bytes);
      FromTwoByteValues(bytes[0], bytes[1]);
    }
  }

  lemma {:induction false} PartialGroupValues(bytes: seq<byte>)
    requires 1 <= |bytes| <= 2
    ensures |bytes| == 1 ==> ToSextets(bytes) == [bytes[0] / 4, bytes[0] % 4 * 16]
    ensures |bytes| == 2 ==> ToSextets(bytes) == [bytes[0] / 4, bytes[0] % 4 * 16 + bytes[1] / 16, bytes[1] % 16 * 4]
  {
  }

  /** The two values of a lone final byte: four fill bits, all zero. */
  lemma {:induction false} FromOneByteValues(b0: byte)
    ensures FromSextets([b0 / 4, b0 % 4 * 16]) == Some([b0])
  {
    var v: seq<sextet> := [b0 / 4, b0 % 4 * 16];
    DivMod(b0 % 4, 0, 16);
    assert v[1] % 16 == 0;
    assert JoinGroup(v[0], v[1], 0, 0) == [b0, 0, 0];
    assert FromSextets(v) == Some(JoinGroup(v[0], v[1], 0, 0)[..1]);
    assert JoinGroup(v[0], v[1], 0, 0)[..1] == [b0];
  }

  /** The three values of two final bytes: two fill bits, both zero. */
  lemma {:induction false} FromTwoByteValues(b0: byte, b1: byte)
    ensures FromSextets([b0 / 4, b0 % 4 * 16 + b1 / 16, b1 % 16 * 4]) == Some([b0, b1])
  {
    var v: seq<sextet> := [b0 / 4, b0 % 4 * 16 + b1 / 16, b1 % 16 * 4];
    DivMod(b0 % 4, b1 / 16, 16);
    DivMod(b1 % 16, 0, 4);
    assert v[2] % 4 == 0;
    assert JoinGroup(v[0], v[1], v[2], 0) == [b0, b1, 0];
    assert FromSextets(v) == Some(JoinGroup(v[0], v[1], v[2], 0)[..2]);
    assert JoinGroup(v[0], v[1], v[2], 0)[..2] == [b0, b1];
  }

  /** A whole group of three bytes in front gives four values in front. */
  lemma {:induction false} ToSextetsCons(bytes: seq<byte>)
    requires |bytes| >= 3
    ensures ToSextets(bytes)
         == [bytes[0] / 4, bytes[0] % 4 * 16 + bytes[1] / 16, bytes[1] % 16 * 4 + bytes[2] / 64, bytes[2] % 64]
            + ToSextets(bytes[3..])
  {
  }

  /** Four values in front of values that join give three bytes in front. */
  lemma {:induction false} FromSextetsOfCons(v: seq<sextet>)
    requires |v| >= 4 && FromSextets(v[4..]).Some?
    ensures FromSextets(v) == Some(JoinGroup(v[0], v[1], v[2], v[3]) + FromSextets(v[4..]).value)
  {
  }

  /** Values that join, four at a time in front. */
  lemma {:induction false} FromSextetsCons(v: seq<sextet>)
    requires |v| >= 4 && FromSextets(v).Some?
    ensures FromSextets(v[4..]).Some?
    ensures FromSextets(v).value == JoinGroup(v[0], v[1], v[2], v[3]) + FromSextets(v[4..]).value
  {
  }

  /** Splitting the bytes of four values gives the values back. */
  lemma {:induction false} SplitJoinGroup(v0: sextet, v1: sextet, v2: sextet, v3: sextet)
    ensures var b := JoinGroup(v0, v1, v2, v3);
            [b[0] / 4, b[0] % 4 * 16 + b[1] / 16, b[1] % 16 * 4 + b[2] / 64, b[2] % 64] == [v0, v1, v2, v3]
  {
    DivMod(v0, v1 / 16, 4);
    DivMod(v1 % 16, v2 / 4, 16);
    DivMod(v2 % 4, v3, 64);
  }

  lemma {:induction false} ToFromSextets(v: seq<sextet>)
    requires FromSextets(v).Some?
    ensures ToSextets(FromSextets(v).value) == v
  {
    var bytes := FromSextets(v).value;
    if |v| == 2 {
      SplitJoinGroup(v[0], v[1], 0, 0);
      assert bytes == [JoinGroup(v[0], v[1], 0, 0)[0]];
    } else if |v| == 3 {
      SplitJoinGroup(v[0], v[1], v[2], 0);
      assert bytes == JoinGroup(v[0], v[1], v[2], 0)[..2];
    } else if |v| >= 4 {
      FromSextetsCons(v);
      var rest := FromSextets(v[4..]).value;
      ToFromSextets(v[4..]);
      SplitJoinGroup(v[0], v[1], v[2], v[3]);
      assert bytes[3..] == rest;
      ToSextetsCons(bytes);
    }
  }

  // ---------------------------------------------------------------------
  // Six-bit values and alphabet characters
  // ---------------------------------------------------------------------

  /** The alphabet character for a six-bit value. */
  function CharOf(v: sextet): (c: char)
    ensures IsAlphabetChar(c)
  {
    if v < 26 then ('A' as int + v) as char
    else if v < 52 then ('a' as int + (v - 26)) as char
    else if v < 62 then ('0' as int + (v - 52)) as char
    else if v == 62 then '+'
    else '/'
  }

  /** The six-bit value of an alphabet character; None for any other. */
  function ValueOf(c: char): (r: Option<sextet>)
    ensures r.Some? <==> IsAlphabetChar(c)
  {
    if 'A' <= c <= 'Z' then Some(c as int - 'A' as int)
    else if 'a' <= c <= 'z' then Some(c as int - 'a' as int + 26)
    else if '0' <= c <= '9' then Some(c as int - '0' as int + 52)
    else if c == '+' then Some(62)
    else if c == '/' then Some(63)
    else None
  }

  lemma {:induction false} CharOfRoundTrip(v: sextet)
    ensures ValueOf(CharOf(v)) == Some(v)
  {
  }

  lemma {:induction false} ValueOfRoundTrip(c: char)
    requires IsAlphabetChar(c)
    ensures CharOf(ValueOf(c).value) == c
  {
  }

  /** The characters writing a sequence of six-bit values. */
  function Render(v: seq<sextet>): (s: string)
    ensures |s| == |v|
    ensures forall i | 0 <= i < |s| :: IsAlphabetChar(s[i])
  {
    seq(|v|, i requires 0 <= i < |v| => CharOf(v[i]))
  }

  /** The six-bit values of a string of alphabet characters; None if any
      character is outside the alphabet. */
  function Values(s: string): (r: Option<seq<sextet>>)
    ensures r.Some? <==> forall i | 0 <= i < |s| :: IsAlphabetChar(s[i])
    ensures r.Some? ==> |r.value| == |s|
  {
    if forall i | 0 <= i < |s| :: IsAlphabetChar(s[i])
    then Some(seq(|s|, i requires 0 <= i < |s| => ValueOf(s[i]).value))
    else None
  }

  lemma {:induction false} ValuesRender(v: seq<sextet>)
    ensures Values(Render(v)) == Some(v)
  {
    var s := Render(v);
    forall i | 0 <= i < |v|
      ensures ValueOf(s[i]).value == v[i]
    {
      CharOfRoundTrip(v[i]);
    }
    assert Values(s).value == v;
  }

  lemma {:induction false} RenderValues(s: string)
    requires Values(s).Some?
    ensures Render(Values(s).value) == s
  {
    var v := Values(s).value;
    forall i | 0 <= i < |s|
      ensures CharOf(v[i]) == s[i]
    {
      ValueOfRoundTrip(s[i]);
    }
  }

  // ---------------------------------------------------------------------
  // Padding, encoding and decoding
  // ---------------------------------------------------------------------

  /** Number of `=` an encoding of n bytes ends with. */
  function PadLength(n: nat): (k: nat) {
    (3 - n % 3) % 3
  }

  function Padding(k: nat): (p: string)
    ensures |p| == k
    ensures forall i | 0 <= i < k :: p[i] == Pad
  {
    seq(k, _ => Pad)
  }

  /** The values of n bytes and their padding fill whole groups of four. */
  lemma {:induction false} LengthArithmetic(n: nat)
    ensures (4 * n + 2) / 3 + PadLength(n) == 4 * ((n + 2) / 3)
  {
    var q := n / 3;
    if n % 3 == 0 {
      DivMod(4 * q, 2, 3);
      DivMod(q, 2, 3);
    } else if n % 3 == 1 {
      DivMod(4 * q + 2, 0, 3);
      DivMod(q + 1, 0, 3);
    } else {
      DivMod(4 * q + 3, 1, 3);
      DivMod(q + 1, 1, 3);
    }
  }

  /** `base64::encode` with the standard alphabet and padding. */
  function Encode(bytes: seq<byte>): (s: string)
    ensures |s| == 4 * ((|bytes| + 2) / 3)
  {
    LengthArithmetic(|bytes|);
    Render(ToSextets(bytes)) + Padding(PadLength(|bytes|))
  }

  /** The characters of an encoding of n bytes: alphabet characters, then
      exactly PadLength(n) padding characters. */
  predicate Shaped(s: string, n: nat) {
    && |s| == 4 * ((n + 2) / 3)
    && forall i | 0 <= i < |s| ::
         if i < |s| - PadLength(n) then IsAlphabetChar(s[i]) else s[i] == Pad
  }

  /** An encoding is alphabet characters followed by exactly the padding
      the input length calls for: none, `=` or `==`. */
  lemma {:induction false} EncodeShaped(bytes: seq<byte>)
    ensures Shaped(Encode(bytes), |bytes|)
  {
    var s := Encode(bytes);
    var r := Render(ToSextets(bytes));
    assert |s| - PadLength(|bytes|) == |r|;
    forall i | 0 <= i < |s|
      ensures if i < |s| - PadLength(|bytes|) then IsAlphabetChar(s[i]) else s[i] == Pad
    {
      if i < |r| {
        assert s[i] == r[i];
      } else {
        assert s[i] == Padding(PadLength(|bytes|))[i - |r|];
      }
    }
  }

  /** Number of `=` a string ends with, counting at most two. */
  function TrailingPads(s: string): (k: nat)
    ensures k <= 2 && k <= |s|
    ensures forall i | |s| - k <= i < |s| :: s[i] == Pad
  {
    if |s| >= 1 && s[|s| - 1] == Pad then
      if |s| >= 2 && s[|s| - 2] == Pad then 2 else 1
    else 0
  }

  /** Strict base64 decoding: None unless s is exactly the encoding of some bytes. */
  function Decode(s: string): (r: Option<seq<byte>>)
  {
    if |s| % 4 != 0 then None
    else
      match Values(s[..|s| - TrailingPads(s)])
      case None => None
      case Some(v) => FromSextets(v)
  }

  /** The padding an encoding ends with is exactly the padding Decode strips. */
  lemma {:induction false} TrailingPadsOfEncode(bytes: seq<byte>)
    ensures TrailingPads(Encode(bytes)) == PadLength(|bytes|)
    ensures Encode(bytes)[..|Encode(bytes)| - PadLength(|bytes|)] == Render(ToSextets(bytes))
  {
    var s := Encode(bytes);
    var r := Render(ToSextets(bytes));
    var k := PadLength(|bytes|);
    assert s == r + Padding(k);
    assert s[..|s| - k] == r;
    if k < 2 && |s| >= k + 1 {
      assert s[|s| - k - 1] == r[|r| - 1];
    }
  }

  /** A length that is a multiple of four and holds the values of n bytes
      plus k pads fixes k. */
  lemma {:induction false} PaddingArithmetic(n: nat, m: nat, k: nat)
    requires m % 4 == 0 && k <= 2 && k <= m
    requires m - k == (4 * n + 2) / 3
    ensures k == PadLength(n)
  {
    var q := n / 3;
    assert n == 3 * q + n % 3;
    if n % 3 == 0 {
      assert (4 * n + 2) / 3 == 4 * q;
    } else if n % 3 == 1 {
      assert (4 * n + 2) / 3 == 4 * q + 2;
    } else {
      assert (4 * n + 2) / 3 == 4 * q + 3;
    }
  }

  /** Decode strips the trailing padding, reads the values, joins them. */
  lemma {:induction false} DecodeSteps(s: string, v: seq<sextet>)
    requires |s| % 4 == 0
    requires Values(s[..|s| - TrailingPads(s)]) == Some(v)
    ensures Decode(s) == FromSextets(v)
  {
  }

  /** Decoding an encoding gives back the bytes. */
  lemma {:induction false} DecodeEncode(bytes: seq<byte>)
    ensures Decode(Encode(bytes)) == Some(bytes)
  {
    var s := Encode(bytes);
    var v := ToSextets(bytes);
    EncodeLengthMultiple(bytes);
    TrailingPadsOfEncode(bytes);
    ValuesRender(v);
    FromToSextets(bytes);
    DecodeSteps(s, v);
  }

  lemma {:induction false} EncodeLengthMultiple(bytes: seq<byte>)
    ensures |Encode(bytes)| % 4 == 0
  {
    DivMod((|bytes| + 2) / 3, 0, 4);
  }

  /** A string that decodes is the encoding of what it decodes to: Encode is
      a bijection between byte strings and the strings Decode accepts. */
  lemma {:induction false} EncodeDecode(s: string)
    requires Decode(s).Some?
    ensures Encode(Decode(s).value) == s
  {
    var k := TrailingPads(s);
    var body := s[..|s| - k];
    assert |s| % 4 == 0;
    assert Values(body).Some?;
    var v := Values(body).value;
    DecodeSteps(s, v);
    var bytes := FromSextets(v).value;
    RenderValues(body);
    ToFromSextets(v);
    PaddingArithmetic(|bytes|, |s|, k);
    assert s == body + Padding(k);
  }

  /** Distinct byte strings have distinct encodings. */
  lemma {:induction false} EncodeInjective(a: seq<byte>, b: seq<byte>)
    ensures Encode(a) == Encode(b) <==> a == b
  {
    DecodeEncode(a);
    DecodeEncode(b);
  }
}
