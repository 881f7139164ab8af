# HTTQ protocol value types, modelled in Dafny

This project models the value-type layer of the HTTQ identity-routed
transport. The layer lives in `src/lib.rs` and has three parts:

- **QuantumIdentity (QIK).** A newtype over a digest string that addresses a
  peer. `from_public_key` hashes the UTF-8 bytes of a key with SHA-256 and
  writes the 32-byte digest in lowercase hex. `from_hash` wraps any string
  verbatim. `as_str` reads the string back. `Display` writes
  `httq://<digest>`. Equality is the derived equality on the string.
- **HttqPacket.** `new` fixes the version to `"1.0"`, the TTL to 64 and the
  signature to `"UNSIGNED"`. It keeps both identities and base64-encodes the
  payload; no encryption happens. `sign` is a mock. It overwrites the
  signature with `SIG_` followed by a random v4 UUID and changes nothing else.
- **OrbitalLocation.** A record of an identity, a list of relay names and a
  latency in milliseconds. It has no behaviour.

All of it is pure string and byte transformation, so the model is a set of
pure functions over immutable datatypes:

| file | module | models |
|---|---|---|
| `bytes.dfy` | `Bytes` | `u8`/`u32` as integer ranges; `Option` |
| `hex.dfy` | `Hex` | lowercase base16 (section 8 of RFC 4648) as the `hex` crate writes it, and its decoder |
| `base64.dfy` | `Base64` | standard padded base64 (section 4 of RFC 4648) as `base64::encode` writes it, and a strict decoder |
| `utf8.dfy` | `Utf8` | UTF-8 (RFC 3629), the bytes `str::as_bytes` returns, and its decoder |
| `uuid.dfy` | `Uuid` | the hyphenated lowercase text that `uuid::Uuid`'s `Display` writes, and its parser |
| `identity.dfy` | `Identity` | `QuantumIdentity` and its four operations |
| `packet.dfy` | `Packet` | `HttqPacket::{new, sign}` and the `OrbitalLocation` record |

Three things the source calls into are handled as follows:

- **SHA-256** is a parameter `sha256: seq<byte> -> Digest`. `Digest` is the
  type of 32-byte sequences, so the hash promises 32 bytes and nothing more.
- **The random UUID** of `sign` is a parameter: its 16 bytes. The model
  writes them as the UUID's `Display` would.
- **Each encoder** (hex, base64, UTF-8, UUID text) is paired with a decoder.
  The decoders are not in the source. Each one exists so that the encoding
  can be proved to round-trip in both directions.

The crate's own doc comment (src/lib.rs:7) calls the packet encrypted and
signed, but neither happens in the code: encryption and signing are TODOs
at src/lib.rs:65 and src/lib.rs:79. This model follows the code. Identity
equality is the derived `PartialEq` on the single `String` field
(src/lib.rs:16-17), so two identities are equal exactly when their stored
strings are.

## Model

| member | source | states |
|---|---|---|
| `Identity.FromPublicKey` | src/lib.rs:21-26 | For any key, the identity is 64 characters, all lowercase hex digits, and hex-decoding it gives the SHA-256 digest of the key's UTF-8 bytes |
| `Identity.FromPublicKeyEqualIff` | src/lib.rs:21-26 | Two keys give equal identities exactly when SHA-256 gives their UTF-8 bytes equal digests, so derivation is deterministic and loses nothing of the digest |
| `Identity.SameIdentityMeansCollision` | src/lib.rs:21-26 | Two distinct keys share an identity only if their UTF-8 byte strings are distinct inputs on which SHA-256 collides |
| `Identity.WakandaIdentityLength` | src/lib.rs:97-100 | The identity derived from `"wakanda_public_key"` is 64 characters long, and its UTF-8 encoding, whose length `str::len` reports, is 64 bytes, whatever digest the hash returns |
| `Identity.FromHash` | src/lib.rs:29-31 | `from_hash` stores its argument unchanged: `as_str` of the result is the argument, for any string, including non-hex strings and strings that are not 64 characters long |
| `Identity.FromHashAsStr` | src/lib.rs:34-36 | Wrapping the string `as_str` returns gives back the same identity, so `from_hash` and `as_str` are inverse |
| `Identity.EqualIffSameDigest` | src/lib.rs:16-17 | The derived equality: two identities are equal exactly when their stored strings are |
| `Identity.Display` | src/lib.rs:39-43 | The display form starts with `httq://`, continues with the stored string, and is 7 characters longer than it |
| `Identity.ParseDisplayRoundTrip` | src/lib.rs:39-43 | Stripping the `httq://` tag from a display form recovers the identity |
| `Identity.DisplayRoundTrip` | src/lib.rs:39-43 | Every string that starts with `httq://` is the display form of the identity its remainder wraps |
| `Identity.DisplayInjective` | src/lib.rs:39-43 | Two identities display the same exactly when they are equal |
| `Hex.Encode` | src/lib.rs:25 | The hex of n bytes is 2n characters, each a lowercase hex digit |
| `Hex.DecodeEncode` | src/lib.rs:25 | Hex-decoding the hex of any bytes gives the bytes back |
| `Hex.EncodeDecode` | src/lib.rs:25 | A lowercase digit string that hex-decodes is the hex of what it decodes to |
| `Hex.EncodeInjective` | src/lib.rs:25 | Distinct byte strings have distinct hex |
| `Utf8.Encode` | src/lib.rs:23 | The UTF-8 bytes of a string number between one and four per character |
| `Utf8.DecodeEncode` | src/lib.rs:23 | Decoding the UTF-8 bytes of any string gives the string back |
| `Utf8.EncodeDecode` | src/lib.rs:23 | Any well-formed UTF-8 byte string is the encoding of the string it decodes to |
| `Utf8.EncodeInjective` | src/lib.rs:23 | Distinct keys have distinct UTF-8 bytes, so they reach SHA-256 as distinct inputs |
| `Utf8.EncodeAscii` | src/lib.rs:23 | An ASCII key's bytes are its character codes, one byte per character |
| `Packet.New` | src/lib.rs:64-75 | A new packet has version `"1.0"`, TTL 64, signature `"UNSIGNED"`, and the given destination and origin. Its payload is 4·⌈n/3⌉ characters for n payload bytes: alphabet characters followed by exactly the padding n calls for. Decoding the payload gives back the payload bytes |
| `Base64.Encode` | src/lib.rs:66 | The base64 of n bytes is 4·⌈n/3⌉ characters |
| `Base64.ToSextetsAppend` | src/lib.rs:66 | Whole three-byte groups are encoded independently of the bytes that follow them |
| `Base64.EncodeShaped` | src/lib.rs:66 | The base64 of n bytes is base64-alphabet characters followed by exactly (3 − n mod 3) mod 3 `=` characters |
| `Base64.DecodeEncode` | src/lib.rs:66 | Decoding the base64 of any bytes gives the bytes back |
| `Base64.EncodeDecode` | src/lib.rs:66 | Every string the strict decoder accepts is the base64 of what it decodes to |
| `Base64.EncodeInjective` | src/lib.rs:66 | Distinct payloads have distinct base64 |
| `Packet.HelloWorldPacket` | src/lib.rs:103-108 | The packet built from `"dest_hash"`, `"origin_hash"` and the bytes of `"Hello World"` has version `"1.0"`, TTL 64 and payload `"SGVsbG8gV29ybGQ="` |
| `Packet.NewIsUnsigned` | src/lib.rs:72 | The `"UNSIGNED"` placeholder of a new packet is not a signature `sign` could have written |
| `Packet.Sign` | src/lib.rs:78-81 | Signing leaves version, destination, origin, payload and TTL unchanged. The new signature is 40 characters: `SIG_` followed by the 8-4-4-4-12 hyphenated layout with lowercase hex digits, from which the UUID parses back |
| `Packet.SignOverwrites` | src/lib.rs:78-81 | The result of signing does not depend on the earlier signature, `"UNSIGNED"` or any other: it is overwritten |
| `Packet.SignTwice` | src/lib.rs:78-81 | Signing a signed packet again is the same as signing the original once with the second UUID |
| `Packet.SigningUuidOfSign` | src/lib.rs:80 | The UUID can be read back from the signature `sign` writes |
| `Packet.SignInjective` | src/lib.rs:80 | Signing with different UUIDs gives different packets |
| `Uuid.Hyphenated` | src/lib.rs:80 | The UUID text is 36 characters: hyphens at indices 8, 13, 18 and 23, lowercase hex digits everywhere else |
| `Uuid.ParseHyphenatedRoundTrip` | src/lib.rs:80 | Parsing the hyphenated text of any UUID gives the UUID back |
| `Uuid.HyphenatedRoundTrip` | src/lib.rs:80 | A hyphenated lowercase text that parses is the text of the UUID it parses to |
| `Uuid.HyphenatedInjective` | src/lib.rs:80 | Distinct UUIDs have distinct text |

## Left out

- SHA-256 internals (src/lib.rs:22-24): the `sha2` crate is a foreign call. The model takes the hash as a parameter returning exactly 32 bytes.
- UUID generation (src/lib.rs:80): `Uuid::new_v4` is random. `Packet.Sign` takes the 16 UUID bytes as a parameter. It does not constrain the version and variant bits a v4 UUID carries.
- The private key of `sign` (src/lib.rs:78): the source ignores it, so the model has no such parameter.
- `Serialize`/`Deserialize`, `Debug`, `Clone` and `Hash` derives (src/lib.rs:16, 46, 85): the wire format and hashing belong to libraries. Of the derived traits, only equality is modelled, as Dafny's structural equality on datatypes.
- `OrbitalLocation` (src/lib.rs:86-90): declared as a datatype with its three fields. It has no behaviour, so nothing is stated about it.
- Encryption and real signing: the code has only the TODOs at src/lib.rs:65 and src/lib.rs:79, so the payload is modelled as plain base64 and the signature as the mock `SIG_` text.
- The hex and base64 decoders: the source never decodes. `Hex.Decode` accepts either case, as the `hex` crate's decoder does. `Base64.Decode` is the strict RFC 4648 decoder, which refuses non-zero bits after the last byte. Each is used only as the inverse of its encoder.
