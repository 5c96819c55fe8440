/** The signed envelope both implementations put around a payload: 32 bytes of MAC, then the payload,
    as base64url text. */
module Seal {
  import opened Wrappers
  import opened Bytes
  import Base64Url

  /** A time.Duration, in nanoseconds. */
  type Duration = n: int | -0x8000_0000_0000_0000 <= n < 0x8000_0000_0000_0000

  /** What a server is configured with. HMAC-SHA256 and SHA-256 are uninterpreted: any functions with
      32-byte results. */
  datatype Secret = Secret(mac: (Octets, Octets) -> Digest, sha256: Octets -> Digest, key: Octets, ttl: Duration)

  const SIGNATURE_LENGTH := 32

  function Token(secret: Secret, payload: Octets): string {
    Base64Url.Encode(secret.mac(secret.key, payload) + payload)
  }

  /** The payload behind a signature that verifies. */
  function Unseal(secret: Secret, raw: Option<Octets>): Option<Octets> {
    var bytes :- raw;
    if |bytes| <= SIGNATURE_LENGTH then None else
      var signature, payload := bytes[..SIGNATURE_LENGTH], bytes[SIGNATURE_LENGTH..];
      if signature == secret.mac(secret.key, payload) then Some(payload) else None
  }

  /** Either library recovers exactly the payload that was sealed. */
  lemma UnsealToken(secret: Secret, payload: Octets)
    requires payload != []
    ensures Unseal(secret, Base64Url.GoDecode(Token(secret, payload))) == Some(payload)
    ensures Unseal(secret, Base64Url.JavaDecode(Token(secret, payload))) == Some(payload)
    ensures Token(secret, payload) != ""
  {
    var signature := secret.mac(secret.key, payload);
    var bytes := signature + payload;
    Base64Url.LibrariesReadEncoded(bytes);
    assert bytes[..SIGNATURE_LENGTH] == signature && bytes[SIGNATURE_LENGTH..] == payload;
  }
}
