/** UTF-8 (RFC 3629): the bytes `str::as_bytes` exposes for a Rust string.
    A Dafny `char` is a Unicode scalar value, as is a Rust `char`, so a
    `string` here stands for a `&str`. The decoder is the inverse the
    encoding is judged against; it refuses overlong forms, surrogates and
    values past U+10FFFF, so every byte string has at most one reading. */
module Utf8 {
  import opened Bytes

  /** A byte of the form 10xxxxxx, which continues a multi-byte sequence. */
  predicate IsContinuation(b: byte) {
    0x80 <= b < 0xC0
  }

  /** The number of bytes a sequence opened by b has; 0 if b cannot open one. */
  function Width(b: byte): (n: nat) {
    if b < 0x80 then 1
    else if b < 0xC0 then 0
    else if b < 0xE0 then 2
    else if b < 0xF0 then 3
    else if b < 0xF8 then 4
    else 0
  }

  /** The bytes of one scalar value: one byte below U+0080, else a leading
      byte announcing the length followed by six-bit continuation bytes. */
  function EncodeChar(c: char): (r: seq<byte>)
    ensures 1 <= |r| <= 4
    ensures |r| == Width(r[0])
    ensures forall i | 1 <= i < |r| :: IsContinuation(r[i])
  {
    var cp := c as int;
    if cp < 0x80 then [cp]
    else if cp < 0x800 then [0xC0 + cp / 0x40, 0x80 + cp % 0x40]
    else if cp < 0x1_0000 then [0xE0 + cp / 0x1000, 0x80 + cp / 0x40 % 0x40, 0x80 + cp % 0x40]
    else [0xF0 + cp / 0x4_0000, 0x80 + cp / 0x1000 % 0x40, 0x80 + cp / 0x40 % 0x40, 0x80 + cp % 0x40]
  }

  /** The scalar value one complete byte sequence stands for; None for a
      missing continuation byte, an overlong form, a surrogate, or a value
      past U+10FFFF. */
  function DecodeChar(b: seq<byte>): (r: Option<char>)
    requires 1 <= |b| <= 4 && |b| == Width(b[0])
  {
    if |b| == 1 then Some(b[0] as char)
    else if !(forall i | 1 <= i < |b| :: IsContinuation(b[i])) then None
    else if |b| == 2 then
      var cp: int := (b[0] as int - 0xC0) * 0x40 + (b[1] as int - 0x80);
      if cp < 0x80 then None else Some(cp as char)
    else if |b| == 3 then
      var cp: int := (b[0] as int - 0xE0) * 0x1000 + (b[1] as int - 0x80) * 0x40 + (b[2] as int - 0x80);
      if cp < 0x800 || 0xD800 <= cp < 0xE000 then None else Some(cp as char)
    else
      var cp: int := (b[0] as int - 0xF0) * 0x4_0000 + (b[1] as int - 0x80) * 0x1000 + (b[2] as int - 0x80) * 0x40 + (b[3] as int - 0x80);
      if cp < 0x1_0000 || 0x11_0000 <= cp then None else Some(cp as char)
  }

  /** Two bytes carry five and six bits of the value, high bits first. */
  lemma {:induction false} TwoByteSplit(x0: int, x1: int)
    requires 0 <= x0 < 0x20 && 0 <= x1 < 0x40
    ensures var cp := x0 * 0x40 + x1;
            cp / 0x40 == x0 && cp % 0x40 == x1
  {
    DivMod(x0, x1, 0x40);
  }

  /** Three bytes carry four, six and six bits of the value. */
  lemma {:induction false} ThreeByteSplit(x0: int, x1: int, x2: int)
    requires 0 <= x0 < 0x10 && 0 <= x1 < 0x40 && 0 <= x2 < 0x40
    ensures var cp := x0 * 0x1000 + x1 * 0x40 + x2;
            cp / 0x1000 == x0 && cp / 0x40 % 0x40 == x1 && cp % 0x40 == x2
  {
    DivMod(x0, x1 * 0x40 + x2, 0x1000);
    DivMod(x0 * 0x40 + x1, x2, 0x40);
    DivMod(x0, x1, 0x40);
  }

  /** Four bytes carry three, six, six and six bits of the value. */
  lemma {:induction false} FourByteSplit(x0: int, x1: int, x2: int, x3: int)
    requires 0 <= x0 < 8 && 0 <= x1 < 0x40 && 0 <= x2 < 0x40 && 0 <= x3 < 0x40
    ensures var cp := x0 * 0x4_0000 + x1 * 0x1000 + x2 * 0x40 + x3;
            cp / 0x4_0000 == x0 && cp / 0x1000 % 0x40 == x1 && cp / 0x40 % 0x40 == x2 && cp % 0x40 == x3
  {
    DivMod(x0, x1 * 0x1000 + x2 * 0x40 + x3, 0x4_0000);
    DivMod(x0 * 0x40 + x1, x2 * 0x40 + x3, 0x1000);
    DivMod(x0, x1, 0x40);
    DivMod(x0 * 0x1000 + x1 * 0x40 + x2, x3, 0x40);
    DivMod(x0 * 0x40 + x1, x2, 0x40);
  }

  /** A value below 2^21 written as four digits in radix 64. */
  lemma {:induction false} Radix64Digits(cp: int)
    requires 0 <= cp < 0x20_0000
    ensures cp == (cp / 0x4_0000) * 0x4_0000 + (cp / 0x1000 % 0x40) * 0x1000 + (cp / 0x40 % 0x40) * 0x40 + cp % 0x40
    ensures cp / 0x4_0000 < 8
  {
    var x3, t := cp % 0x40, cp / 0x40;
    var x2, u := t % 0x40, t / 0x40;
    var x1, x0 := u % 0x40, u / 0x40;
    assert cp == ((x0 * 0x40 + x1) * 0x40 + x2) * 0x40 + x3;
    FourByteSplit(x0, x1, x2, x3);
  }

  /** A value below 2^16 written as three digits: four bits, six, six. */
  lemma {:induction false} ThreeDigits(cp: int)
    requires 0 <= cp < 0x1_0000
    ensures cp == (cp / 0x1000) * 0x1000 + (cp / 0x40 % 0x40) * 0x40 + cp % 0x40
  {
    var x2, t := cp % 0x40, cp / 0x40;
    var x1, x0 := t % 0x40, t / 0x40;
    assert cp == (x0 * 0x40 + x1) * 0x40 + x2;
    ThreeByteSplit(x0, x1, x2);
  }

  lemma {:induction false} DecodeEncodeChar(c: char)
    ensures DecodeChar(EncodeChar(c)) == Some(c)
  {
    var cp := c as int;
    var e := EncodeChar(c);
    if cp < 0x80 {
    } else if cp < 0x800 {
      assert (e[0] as int - 0xC0) * 0x40 + (e[1] as int - 0x80) == cp;
    } else if cp < 0x1_0000 {
      ThreeDigits(cp);
      assert (e[0] as int - 0xE0) * 0x1000 + (e[1] as int - 0x80) * 0x40 + (e[2] as int - 0x80) == cp;
    } else {
      Radix64Digits(cp);
      assert (e[0] as int - 0xF0) * 0x4_0000 + (e[1] as int - 0x80) * 0x1000 + (e[2] as int - 0x80) * 0x40 + (e[3] as int - 0x80) == cp;
    }
  }

  lemma {:induction false} EncodeDecodeChar(b: seq<byte>)
    requires 1 <= |b| <= 4 && |b| == Width(b[0])
    requires DecodeChar(b).Some?
    ensures EncodeChar(DecodeChar(b).value) == b
  {
    if |b| == 2 {
      EncodeDecodeTwo(b);
    } else if |b| == 3 {
      EncodeDecodeThree(b);
    } else if |b| == 4 {
      EncodeDecodeFour(b);
    }
  }

  lemma {:induction false} EncodeDecodeTwo(b: seq<byte>)
    requires |b| == 2 && Width(b[0]) == 2
    requires DecodeChar(b).Some?
    ensures EncodeChar(DecodeChar(b).value) == b
  {
    var x0, x1 := b[0] as int - 0xC0, b[1] as int - 0x80;
    var cp := x0 * 0x40 + x1;
    assert DecodeChar(b) == Some(cp as char);
    TwoByteSplit(x0, x1);
  }

  lemma {:induction false} EncodeDecodeThree(b: seq<byte>)
    requires |b| == 3 && Width(b[0]) == 3
    requires DecodeChar(b).Some?
    ensures EncodeChar(DecodeChar(b).value) == b
  {
    var x0, x1, x2 := b[0] as int - 0xE0, b[1] as int - 0x80, b[2] as int - 0x80;
    var cp := x0 * 0x1000 + x1 * 0x40 + x2;
    assert DecodeChar(b) == Some(cp as char);
    ThreeByteSplit(x0, x1, x2);
  }

  lemma {:induction false} EncodeDecodeFour(b: seq<byte>)
    requires |b| == 4 && Width(b[0]) == 4
    requires DecodeChar(b).Some?
    ensures EncodeChar(DecodeChar(b).value) == b
  {
    var x0, x1, x2, x3 := b[0] as int - 0xF0, b[1] as int - 0x80, b[2] as int - 0x80, b[3] as int - 0x80;
    var cp := x0 * 0x4_0000 + x1 * 0x1000 + x2 * 0x40 + x3;
    assert DecodeChar(b) == Some(cp as char);
    FourByteSplit(x0, x1, x2, x3);
  }

  /** `str::as_bytes`: the UTF-8 encoding of a string. */
  function Encode(s: string): (r: seq<byte>)
    ensures |s| <= |r| <= 4 * |s|
  {
    if |s| == 0 then [] else EncodeChar(s[0]) + Encode(s[1..])
  }

  /** The string a byte sequence is the UTF-8 encoding of; None if it is not
      well-formed UTF-8. */
  function Decode(b: seq<byte>): (r: Option<string>)
    decreases |b|
  {
    if |b| == 0 then Some([])
    else
      var n := Width(b[0]);
      if n == 0 || |b| < n then None
      else
        match (DecodeChar(b[..n]), Decode(b[n..]))
        case (Some(c), Some(rest)) => Some([c] + rest)
        case _ => None
  }

  /** The encoding of a character in front of a decodable tail decodes to
      the character in front of the tail's string. */
  lemma {:induction false} DecodeAfterChar(c: char, tail: seq<byte>, rest: string)
    requires Decode(tail) == Some(rest)
    ensures Decode(EncodeChar(c) + tail) == Some([c] + rest)
  {
    var e := EncodeChar(c);
    var b := e + tail;
    assert b[0] == e[0];
    assert b[..|e|] == e && b[|e|..] == tail;
    DecodeEncodeChar(c);
  }

  /** Decoding an encoding gives back the string. */
  lemma {:induction false} DecodeEncode(s: string)
    ensures Decode(Encode(s)) == Some(s)
  {
    if |s| > 0 {
      DecodeEncode(s[1..]);
      DecodeAfterChar(s[0], Encode(s[1..]), s[1..]);
      assert [s[0]] + s[1..] == s;
    }
  }

  /** Well-formed UTF-8 is the encoding of the string it decodes to, so
      Encode is a bijection onto the well-formed byte strings. */
  lemma {:induction false} EncodeDecode(b: seq<byte>)
    requires Decode(b).Some?
    ensures Encode(Decode(b).value) == b
  {
    if |b| > 0 {
      var n := Width(b[0]);
      DecodeFirst(b);
      var c, rest := DecodeChar(b[..n]).value, Decode(b[n..]).value;
      EncodeDecode(b[n..]);
      EncodeDecodeChar(b[..n]);
      EncodeCons(c, rest);
      assert b == b[..n] + b[n..];
    }
  }

  lemma {:induction false} EncodeCons(c: char, rest: string)
    ensures Encode([c] + rest) == EncodeChar(c) + Encode(rest)
  {
    assert ([c] + rest)[1..] == rest;
  }

  /** A non-empty decodable byte string is a decodable first character
      followed by a decodable tail. */
  lemma {:induction false} DecodeFirst(b: seq<byte>)
    requires |b| > 0 && Decode(b).Some?
    ensures 1 <= Width(b[0]) <= |b| && Width(b[0]) <= 4
    ensures DecodeChar(b[..Width(b[0])]).Some? && Decode(b[Width(b[0])..]).Some?
    ensures Decode(b).value == [DecodeChar(b[..Width(b[0])]).value] + Decode(b[Width(b[0])..]).value
  {
  }

  /** Distinct strings have distinct encodings. */
  lemma {:induction false} EncodeInjective(s: string, t: string)
    ensures Encode(s) == Encode(t) <==> s == t
  {
    DecodeEncode(s);
    DecodeEncode(t);
  }

  predicate IsAscii(s: string) {
    forall i | 0 <= i < |s| :: s[i] as int < 0x80
  }

  /** An ASCII string encodes to its character codes, one byte each. */
  lemma {:induction false} EncodeAscii(s: string)
    requires IsAscii(s)
    ensures |Encode(s)| == |s|
    ensures forall i | 0 <= i < |s| :: Encode(s)[i] == s[i] as int
  {
    if |s| > 0 {
      assert IsAscii(s[1..]);
      EncodeAscii(s[1..]);
    }
  }
}
