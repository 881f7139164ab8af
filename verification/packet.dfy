/** The HTTQ packet and its two operations in the source: construction,
    which fixes the version, TTL and placeholder signature and base64-encodes
    the payload (no encryption happens), and mock signing, which overwrites
    the signature with `SIG_` followed by a fresh random UUID.

    The random UUID is a parameter here: `Sign` is given the UUID's 16 bytes
    and writes them as `uuid::Uuid`'s `Display` would. The private key that
    `sign` receives is ignored by the source, so the model has no such
    parameter. */
module Packet {
  import opened Bytes
  import opened Identity
  import Base64
  import Hex
  import Uuid

  datatype HttqPacket = HttqPacket(
    version: string,
    destination: QuantumIdentity,
    origin: QuantumIdentity,
    payload: string,
    signature: string,
    ttl: uint8)

  /** A resolved Orbital location: a record with no operations of its own. */
  datatype OrbitalLocation = OrbitalLocation(
    identity: QuantumIdentity,
    meshRoutes: seq<string>,
    latencyMs: uint32)

  const ProtocolVersion: string := "1.0"
  const DefaultTtl: uint8 := 64
  const Unsigned: string := "UNSIGNED"
  const SignaturePrefix: string := "SIG_"

  /** `HttqPacket::new`: an unsigned version-1.0 packet with a hop budget of
      64 whose payload is the standard padded base64 of the given bytes. */
  function New(dest: QuantumIdentity, origin: QuantumIdentity, payload: seq<byte>): (p: HttqPacket)
    ensures p.version == "1.0" && p.ttl == 64 && p.signature == "UNSIGNED"
    ensures p.destination == dest && p.origin == origin
    ensures Base64.Decode(p.payload) == Some(payload)
    ensures |p.payload| == 4 * ((|payload| + 2) / 3)
    ensures Base64.Shaped(p.payload, |payload|)
  {
    Base64.DecodeEncode(payload);
    Base64.EncodeShaped(payload);
    HttqPacket(ProtocolVersion, dest, origin, Base64.Encode(payload), Unsigned, DefaultTtl)
  }

  /** `HttqPacket::sign`: the signature becomes `SIG_` and the hyphenated
      lowercase UUID, 40 characters in all, from which the UUID can be read
      back; no other field changes, and whatever signature was there is lost. */
  function Sign(p: HttqPacket, id: Uuid.Uuid): (q: HttqPacket)
    ensures q.version == p.version && q.destination == p.destination && q.origin == p.origin
    ensures q.payload == p.payload && q.ttl == p.ttl
    ensures |q.signature| == 40 && q.signature[..4] == "SIG_"
    ensures forall i | 4 <= i < 40 ::
              if Uuid.IsHyphenIndex(i - 4) then q.signature[i] == '-' else Hex.IsLowerHexDigit(q.signature[i])
    ensures Uuid.ParseHyphenated(q.signature[4..]) == Some(id)
  {
    Uuid.ParseHyphenatedRoundTrip(id);
    var text := Uuid.Hyphenated(id);
    var signature := SignaturePrefix + text;
    assert signature[4..] == text;
    assert forall i | 4 <= i < 40 :: signature[i] == text[i - 4];
    p.(signature := signature)
  }

  /** The UUID a signature was made with; None for any signature `Sign`
      cannot have written, the `UNSIGNED` placeholder among them. */
  function SigningUuid(p: HttqPacket): (r: Option<Uuid.Uuid>)
  {
    if |p.signature| >= 4 && p.signature[..4] == SignaturePrefix
    then Uuid.ParseHyphenated(p.signature[4..])
    else None
  }

  /** A new packet carries no signature. */
  lemma {:induction false} NewIsUnsigned(dest: QuantumIdentity, origin: QuantumIdentity, payload: seq<byte>)
    ensures SigningUuid(New(dest, origin, payload)) == None
  {
    var p := New(dest, origin, payload);
    assert p.signature[..4][0] == 'U';
  }

  /** The signature `Sign` writes names the UUID it was given. */
  lemma {:induction false} SigningUuidOfSign(p: HttqPacket, id: Uuid.Uuid)
    ensures SigningUuid(Sign(p, id)) == Some(id)
  {
  }

  /** Signing depends on nothing but the packet's other fields and the UUID:
      any earlier signature, `UNSIGNED` or not, is overwritten. */
  lemma {:induction false} SignOverwrites(p: HttqPacket, earlier: string, id: Uuid.Uuid)
    ensures Sign(p.(signature := earlier), id) == Sign(p, id)
  {
  }

  /** Signing twice is signing once with the second UUID. */
  lemma {:induction false} SignTwice(p: HttqPacket, a: Uuid.Uuid, b: Uuid.Uuid)
    ensures Sign(Sign(p, a), b) == Sign(p, b)
  {
  }

  /** Different UUIDs give different signatures. */
  lemma {:induction false} SignInjective(p: HttqPacket, a: Uuid.Uuid, b: Uuid.Uuid)
    ensures Sign(p, a) == Sign(p, b) <==> a == b
  {
    SigningUuidOfSign(p, a);
    SigningUuidOfSign(p, b);
  }

  /** The packet built from "dest_hash", "origin_hash" and the bytes of
      "Hello World": version 1.0, TTL 64, payload "SGVsbG8gV29ybGQ=". */
  lemma {:induction false} HelloWorldPacket()
    ensures var p := New(FromHash("dest_hash"), FromHash("origin_hash"),
                         [72, 101, 108, 108, 111, 32, 87, 111, 114, 108, 100]);
            p.version == "1.0" && p.ttl == 64 && p.payload == "SGVsbG8gV29ybGQ="
  {
    HelloWorldPayload([72, 101, 108, 108, 111, 32, 87, 111, 114, 108, 100]);
  }

  /** The base64 of "Hello World": fifteen values and one `=`. */
  lemma {:induction false} HelloWorldPayload(hello: seq<byte>)
    requires hello == [72, 101, 108, 108, 111, 32, 87, 111, 114, 108, 100]
    ensures Base64.Encode(hello) == "SGVsbG8gV29ybGQ="
  {
    HelloWorldSextets(hello);
    assert [18, 6, 21, 44] + [27, 6, 60, 32] + [21, 54, 61, 50] + [27, 6, 16]
        == [18, 6, 21, 44, 27, 6, 60, 32, 21, 54, 61, 50, 27, 6, 16];
    HelloWorldRender();
    assert Base64.Padding(1) == "=";
  }

  /** The six-bit values of "Hello World", assembled from its three-byte
      groups. */
  lemma {:induction false} HelloWorldSextets(hello: seq<byte>)
    requires hello == [72, 101, 108] + [108, 111, 32] + [87, 111, 114] + [108, 100]
    ensures Base64.ToSextets(hello) == [18, 6, 21, 44] + [27, 6, 60, 32] + [21, 54, 61, 50] + [27, 6, 16]
  {
    var g0: seq<byte>, g1: seq<byte>, g2: seq<byte>, g3: seq<byte> := [72, 101, 108], [108, 111, 32], [87, 111, 114], [108, 100];
    HelloWorldGroups();
    Base64.ToSextetsAppend(g0 + g1 + g2, g3);
    Base64.ToSextetsAppend(g0 + g1, g2);
    Base64.ToSextetsAppend(g0, g1);
  }

  /** The six-bit values of each group of "Hello World". */
  lemma {:induction false} HelloWorldGroups()
    ensures Base64.ToSextets([72, 101, 108]) == [18, 6, 21, 44]
    ensures Base64.ToSextets([108, 111, 32]) == [27, 6, 60, 32]
    ensures Base64.ToSextets([87, 111, 114]) == [21, 54, 61, 50]
    ensures Base64.ToSextets([108, 100]) == [27, 6, 16]
  {
    GroupOfThree(72, 101, 108);
    GroupOfThree(108, 111, 32);
    GroupOfThree(87, 111, 114);
  }

  lemma {:induction false} GroupOfThree(b0: byte, b1: byte, b2: byte)
    ensures Base64.ToSextets([b0, b1, b2]) == [b0 / 4, b0 % 4 * 16 + b1 / 16, b1 % 16 * 4 + b2 / 64, b2 % 64]
  {
  }

  /** The alphabet characters of those six-bit values. */
  lemma {:induction false} HelloWorldRender()
    ensures Base64.Render([18, 6, 21, 44, 27, 6, 60, 32, 21, 54, 61, 50, 27, 6, 16]) == "SGVsbG8gV29ybGQ"
  {
  }
}
