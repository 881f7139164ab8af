/** The Quantum Identity Key (QIK): a newtype over a digest string that
    addresses a peer. It is derived from a public key by hashing the key's
    UTF-8 bytes with SHA-256 and writing the 32-byte digest in lowercase hex,
    or taken verbatim from a known hash string. Equality is the derived
    equality on the wrapped string; `Display` writes it as `httq://<digest>`.

    SHA-256 is a foreign call; the model takes it as a parameter whose only
    promise is the one the type makes: 32 bytes out for any bytes in. */
module Identity {
  import opened Bytes
  import Hex
  import Utf8

  /** A SHA-256 digest: exactly 32 bytes. */
  type Digest = b: seq<byte> | |b| == 32
    witness [0, 0, 0, 0, 0, 0, 0, 0, 0, 0, 0, 0, 0, 0, 0, 0,
             0, 0, 0, 0, 0, 0, 0, 0, 0, 0, 0, 0, 0, 0, 0, 0]

  datatype QuantumIdentity = QuantumIdentity(digest: string)

  /** The scheme tag `Display` puts in front of the digest. */
  const Scheme: string := "httq://"

  /** `QuantumIdentity::as_str`: the wrapped string. */
  function AsStr(id: QuantumIdentity): (s: string) {
    id.digest
  }

  /** `QuantumIdentity::from_public_key`: the lowercase hex of the SHA-256
      digest of the key's UTF-8 bytes, 64 characters long whatever the key. */
  function FromPublicKey(sha256: seq<byte> -> Digest, key: string): (id: QuantumIdentity)
    ensures |AsStr(id)| == 64
    ensures Hex.AllLowerHex(AsStr(id))
    ensures Hex.Decode(AsStr(id)) == Some(sha256(Utf8.Encode(key)))
  {
    var digest := sha256(Utf8.Encode(key));
    Hex.DecodeEncode(digest);
    QuantumIdentity(Hex.Encode(digest))
  }

  /** `QuantumIdentity::from_hash`: wraps any string as it is, without
      checking its length or its digits. */
  function FromHash(hash: string): (id: QuantumIdentity)
    ensures AsStr(id) == hash
  {
    QuantumIdentity(hash)
  }

  /** Reading back the wrapped string and wrapping it again is the identity. */
  lemma {:induction false} FromHashAsStr(id: QuantumIdentity)
    ensures FromHash(AsStr(id)) == id
  {
  }

  /** The derived equality: two identities are equal exactly when their
      digest strings are. */
  lemma {:induction false} EqualIffSameDigest(a: QuantumIdentity, b: QuantumIdentity)
    ensures a == b <==> AsStr(a) == AsStr(b)
  {
  }

  /** The `Display` form: the scheme tag followed by the digest. */
  function Display(id: QuantumIdentity): (s: string)
    ensures |s| == |AsStr(id)| + 7
    ensures s[..7] == "httq://"
    ensures s[7..] == AsStr(id)
  {
    Scheme + id.digest
  }

  /** Reads a `Display` form back; None without the scheme tag. */
  function ParseDisplay(s: string): (r: Option<QuantumIdentity>)
  {
    if |s| >= |Scheme| && s[..|Scheme|] == Scheme then Some(FromHash(s[|Scheme|..])) else None
  }

  lemma {:induction false} ParseDisplayRoundTrip(id: QuantumIdentity)
    ensures ParseDisplay(Display(id)) == Some(id)
  {
  }

  /** Every string carrying the scheme tag is the `Display` of exactly one
      identity. */
  lemma {:induction false} DisplayRoundTrip(s: string)
    requires ParseDisplay(s).Some?
    ensures Display(ParseDisplay(s).value) == s
  {
    assert s == s[..|Scheme|] + s[|Scheme|..];
  }

  /** Distinct identities display differently. */
  lemma {:induction false} DisplayInjective(a: QuantumIdentity, b: QuantumIdentity)
    ensures Display(a) == Display(b) <==> a == b
  {
    ParseDisplayRoundTrip(a);
    ParseDisplayRoundTrip(b);
  }

  /** Two keys give the same identity exactly when SHA-256 gives their
      UTF-8 bytes the same digest. */
  lemma {:induction false} FromPublicKeyEqualIff(sha256: seq<byte> -> Digest, k1: string, k2: string)
    ensures FromPublicKey(sha256, k1) == FromPublicKey(sha256, k2)
        <==> sha256(Utf8.Encode(k1)) == sha256(Utf8.Encode(k2))
  {
    Hex.EncodeInjective(sha256(Utf8.Encode(k1)), sha256(Utf8.Encode(k2)));
  }

  /** Distinct keys share an identity only through a SHA-256 collision on
      distinct inputs, so identities are as collision-resistant as the hash. */
  lemma {:induction false} SameIdentityMeansCollision(sha256: seq<byte> -> Digest, k1: string, k2: string)
    requires k1 != k2
    requires FromPublicKey(sha256, k1) == FromPublicKey(sha256, k2)
    ensures Utf8.Encode(k1) != Utf8.Encode(k2)
    ensures sha256(Utf8.Encode(k1)) == sha256(Utf8.Encode(k2))
  {
    FromPublicKeyEqualIff(sha256, k1, k2);
    Utf8.EncodeInjective(k1, k2);
  }

  /** The identity derived from "wakanda_public_key" is 64 characters long,
      and 64 bytes long as `str::len` counts, whatever digest SHA-256 gives. */
  lemma {:induction false} WakandaIdentityLength(sha256: seq<byte> -> Digest)
    ensures |AsStr(FromPublicKey(sha256, "wakanda_public_key"))| == 64
    ensures |Utf8.Encode(AsStr(FromPublicKey(sha256, "wakanda_public_key")))| == 64
  {
    var s := AsStr(FromPublicKey(sha256, "wakanda_public_key"));
    assert Utf8.IsAscii(s);
    Utf8.EncodeAscii(s);
  }
}
