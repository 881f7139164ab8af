/** The text form of a `uuid::Uuid` as its `Display` writes it: the 32
    lowercase hex digits of the 16 bytes, in groups of 8-4-4-4-12 separated
    by hyphens. The parser of that form is the partner the rendering is
    checked against. */
module Uuid {
  import opened Bytes
  import Hex

  /** Sixteen bytes, most significant first. */
  type Uuid = b: seq<byte> | |b| == 16
    witness [0, 0, 0, 0, 0, 0, 0, 0, 0, 0, 0, 0, 0, 0, 0, 0]

  /** The indices of the four hyphens in the hyphenated form. */
  predicate IsHyphenIndex(i: int) {
    i == 8 || i == 13 || i == 18 || i == 23
  }

  /** Inserts the hyphens into 32 digits. */
  function Group(d: string): (s: string)
    requires |d| == 32
    ensures |s| == 36
  {
    d[..8] + "-" + d[8..12] + "-" + d[12..16] + "-" + d[16..20] + "-" + d[20..]
  }

  /** Removes the hyphens from a 36-character hyphenated form. */
  function Ungroup(s: string): (d: string)
    requires |s| == 36
    ensures |d| == 32
  {
    s[..8] + s[9..13] + s[14..18] + s[19..23] + s[24..]
  }

  lemma {:induction false} UngroupGroup(d: string)
    requires |d| == 32
    ensures Ungroup(Group(d)) == d
  {
    var s := Group(d);
    assert s[..8] == d[..8];
    assert s[9..13] == d[8..12];
    assert s[14..18] == d[12..16];
    assert s[19..23] == d[16..20];
    assert s[24..] == d[20..];
    assert d == d[..8] + d[8..12] + d[12..16] + d[16..20] + d[20..];
  }

  /** Grouping places the i-th digit at index i plus the hyphens before it,
      and hyphens at the four hyphen indices. */
  lemma {:induction false} GroupIndices(d: string)
    requires |d| == 32
    ensures forall i | 0 <= i < 36 ::
      Group(d)[i] == if IsHyphenIndex(i) then '-'
                     else d[i - (if i < 8 then 0 else if i < 13 then 1 else if i < 18 then 2 else if i < 23 then 3 else 4)]
  {
  }

  lemma {:induction false} GroupUngroup(s: string)
    requires |s| == 36
    requires forall i | 0 <= i < 36 && IsHyphenIndex(i) :: s[i] == '-'
    ensures Group(Ungroup(s)) == s
  {
    var d := Ungroup(s);
    GroupIndices(d);
    assert forall i | 0 <= i < 36 :: Group(d)[i] == s[i];
  }

  /** `uuid::Uuid`'s `Display`: the hyphenated lowercase form. */
  function Hyphenated(id: Uuid): (s: string)
    ensures |s| == 36
    ensures forall i | 0 <= i < 36 :: if IsHyphenIndex(i) then s[i] == '-' else Hex.IsLowerHexDigit(s[i])
  {
    var d := Hex.Encode(id);
    GroupIndices(d);
    Group(d)
  }

  /** Reads the hyphenated form back; None unless s has the hyphens in
      place and hex digits everywhere else. */
  function ParseHyphenated(s: string): (r: Option<Uuid>)
  {
    if |s| == 36 && s[8] == '-' && s[13] == '-' && s[18] == '-' && s[23] == '-' then
      match Hex.Decode(Ungroup(s))
      case Some(b) => Some(b)
      case None => None
    else None
  }

  /** Parsing the rendering of a UUID gives the UUID back. */
  lemma {:induction false} ParseHyphenatedRoundTrip(id: Uuid)
    ensures ParseHyphenated(Hyphenated(id)) == Some(id)
  {
    var d := Hex.Encode(id);
    UngroupGroup(d);
    Hex.DecodeEncode(id);
  }

  /** A lowercase hyphenated form that parses is the rendering of what it
      parses to. */
  lemma {:induction false} HyphenatedRoundTrip(s: string)
    requires ParseHyphenated(s).Some?
    requires forall i | 0 <= i < |s| && !IsHyphenIndex(i) :: Hex.IsLowerHexDigit(s[i])
    ensures Hyphenated(ParseHyphenated(s).value) == s
  {
    var d := Ungroup(s);
    GroupUngroup(s);
    GroupIndices(d);
    assert Hex.AllLowerHex(d);
    Hex.EncodeDecode(d);
  }

  /** Distinct UUIDs render differently. */
  lemma {:induction false} HyphenatedInjective(a: Uuid, b: Uuid)
    ensures Hyphenated(a) == Hyphenated(b) <==> a == b
  {
    ParseHyphenatedRoundTrip(a);
    ParseHyphenatedRoundTrip(b);
  }
}
