/** CursorCodec.java and FilterFingerprint.java: the writer and the reader of the Java implementation.
    An OffsetDateTime or Instant is a number of nanoseconds since the Unix epoch. */
module JavaCodec {
  import opened Wrappers
  import opened Domain
  import opened Bytes
  import opened Decimal
  import opened Json
  import opened Timestamp
  import opened Payload
  import opened Seal
  import Base64Url

  const CURRENT_VERSION := 1
  const FINGERPRINT_BYTES := 8
  const SECOND := 1_000_000_000
  const MICROSECOND := 1_000

  /** `issuedAt` counts seconds. */
  datatype Cursor = Cursor(
    version: int, createdAt: int, id: int, descending: bool, fingerprint: string, issuedAt: int)

  /** FilterFingerprint.of */
  function Fingerprint(sha256: Octets -> Digest, query: ListQuery): string {
    var canonical := IntText(query.accountId) + "|" + query.status + "|" + query.sort.Text();
    Base64Url.Encode(sha256(Utf8(canonical))[..FINGERPRINT_BYTES])
  }

  function Issue(createdAt: int, id: int, descending: bool, fingerprint: string, now: int): Cursor {
    Cursor(CURRENT_VERSION, createdAt, id, descending, fingerprint, now / SECOND)
  }

  // ----- writing: no escaping anywhere -----

  function CanonicalPayload(c: Cursor): string {
    "{\"v\":" + IntText(c.version)
    + ",\"c\":\"" + Format(Java, c.createdAt / MICROSECOND)
    + "\",\"i\":" + IntText(c.id)
    + ",\"d\":" + (if c.descending then "true" else "false")
    + ",\"f\":\"" + c.fingerprint
    + "\",\"t\":" + IntText(c.issuedAt)
    + "}"
  }

  function Encoded(secret: Secret, c: Cursor): string {
    Token(secret, Utf8(CanonicalPayload(c)))
  }

  /** System.arraycopy between two arrays. */
  method ArrayCopy(source: array<Byte>, from: nat, target: array<Byte>, at: nat, length: nat)
    requires source != target
    requires from + length <= source.Length && at + length <= target.Length
    modifies target
    ensures target[..] == old(target[..at]) + source[from..from + length] + old(target[at + length..])
  {
    for i := 0 to length
      invariant target[..] == old(target[..at]) + source[from..from + i] + old(target[at + i..])
    {
      target[at + i] := source[from + i];
    }
  }

  method ArrayOf(bytes: Octets) returns (a: array<Byte>)
    ensures fresh(a) && a[..] == bytes
  {
    a := new Byte[|bytes|](i requires 0 <= i < |bytes| => bytes[i]);
  }

  /** The signature and the payload copied into one array. */
  method Concatenate(signature: array<Byte>, payload: array<Byte>) returns (bytes: array<Byte>)
    ensures fresh(bytes) && bytes[..] == signature[..] + payload[..]
  {
    bytes := new Byte[signature.Length + payload.Length](_ => 0);
    ArrayCopy(signature, 0, bytes, 0, signature.Length);
    assert bytes[..signature.Length] == signature[..];
    ArrayCopy(payload, 0, bytes, signature.Length, payload.Length);
  }

  /** CursorCodec.encode */
  method Encode(secret: Secret, c: Cursor) returns (token: string)
    ensures token == Encoded(secret, c)
  {
    var payloadBytes := Utf8(CanonicalPayload(c));
    var payload := ArrayOf(payloadBytes);
    var signature := ArrayOf(secret.mac(secret.key, payloadBytes));
    var bytes := Concatenate(signature, payload);
    return Base64Url.Encode(bytes[..]);
  }

  // ----- reading -----

  /** CursorCodec.rejectIfExpired */
  predicate Expired(ttl: int, issuedAt: int, now: int) {
    now > issuedAt * SECOND + ttl
  }

  /** CursorCodec.readPayload */
  function ReadCursor(payload: Octets): Result<Cursor, Failure> {
    match ReadPayload(Java, payload)
    case None => Err(InvalidCursor)
    case Some(parsed) =>
      if parsed.createdAt.None? || parsed.fingerprint.None? then Err(InvalidCursor) else
        var createdAt := JavaParse(parsed.createdAt.value);
        if createdAt.None? then Err(InvalidCursor)
        else Ok(Cursor(parsed.version, createdAt.value * MICROSECOND, parsed.id, parsed.descending,
                       parsed.fingerprint.value, parsed.issuedAt))
  }

  /** CursorCodec.decode */
  function Decoded(secret: Secret, token: string, now: int): Result<Cursor, Failure> {
    match Unseal(secret, Base64Url.JavaDecode(token))
    case None => Err(InvalidCursor)
    case Some(payload) =>
      var cursor := ReadCursor(payload);
      if cursor.Err? then cursor
      else if cursor.value.version != CURRENT_VERSION then Err(InvalidCursor)
      else if Expired(secret.ttl, cursor.value.issuedAt, now) then Err(CursorExpired)
      else cursor
  }

  // ----- the payload written without escaping -----

  predicate Plain(s: string) {
    forall c | c in s :: !NeedsEscape(c)
  }

  lemma PlainConcat(a: string, b: string)
    requires Plain(a) && Plain(b)
    ensures Plain(a + b)
  {
  }

  lemma DigitsArePlain(digits: string)
    requires AllDigits(digits)
    ensures Plain(digits)
  {
  }

  lemma TimestampIsPlain(writer: Dialect, instant: int)
    ensures Plain(Format(writer, instant))
  {
    var civil := ToCivil(instant);
    DigitsArePlain(Padded(civil.micro, 6));
    DigitsArePlain(Padded(civil.second, 2));
    assert Plain(SecondMicro(civil));
    DigitsArePlain(Padded(civil.minute, 2));
    DigitsArePlain(Padded(civil.hour, 2));
    assert Plain(HourMinute(civil, SecondMicro(civil)));
    DigitsArePlain(Padded(civil.date.day, 2));
    DigitsArePlain(Padded(civil.date.month, 2));
    assert Plain(TailText(civil));
    DigitsArePlain(Padded(Abs(civil.date.year), 4));
    PlainConcat(YearText(writer, civil.date.year), TailText(civil));
  }

  /** What surrounds the fingerprint in either payload. */
  function BeforeFingerprint(createdAt: string, id: int, descending: bool): string {
    "{\"v\":" + NatText(VERSION) + ",\"c\":\"" + createdAt + "\",\"i\":" + IntText(id)
    + ",\"d\":" + (if descending then "true" else "false") + ",\"f\":\""
  }

  function AfterFingerprint(issuedAt: int): string {
    "\",\"t\":" + IntText(issuedAt) + "}"
  }

  /** The quotes of a string value may be counted with the punctuation around it. */
  lemma QuotedBetween(left: string, s: string, right: string, rest: string, opening: string, closing: string)
    requires opening == left + "\"" && closing == "\"" + right
    ensures left + (Quoted(s) + (right + rest)) == opening + (Escape(s) + (closing + rest))
  {
  }

  lemma LastSplits(descending: bool, fingerprint: string, issuedAt: int)
    ensures LastPieces(descending, fingerprint, issuedAt)
         == ",\"d\":" + (ValueText(Boolean(descending))
            + (",\"f\":\"" + (Escape(fingerprint) + AfterFingerprint(issuedAt))))
  {
    var t := IntText(issuedAt) + "}";
    QuotedBetween(",\"f\":", fingerprint, ",\"t\":", t, ",\"f\":\"", "\",\"t\":");
    assert "\",\"t\":" + t == AfterFingerprint(issuedAt);
  }

  lemma RegroupSix(p: string, v: string, c: string, s: string, i: string, n: string, rest: string)
    ensures p + (v + (c + (s + (i + (n + rest))))) == p + v + c + s + i + n + rest
  {
    assert c + (s + (i + (n + rest))) == c + s + i + n + rest;
  }

  lemma RegroupThree(front: string, p: string, d: string, f: string, rest: string)
    ensures front + (p + (d + (f + rest))) == front + p + d + f + rest
  {
  }

  lemma CanonicalSplits(createdAt: string, id: int, descending: bool, fingerprint: string, issuedAt: int)
    requires Plain(createdAt)
    ensures Canonical(createdAt, id, descending, fingerprint, issuedAt)
         == BeforeFingerprint(createdAt, id, descending) + (Escape(fingerprint) + AfterFingerprint(issuedAt))
  {
    var v, i, d := NatText(VERSION), IntText(id), ValueText(Boolean(descending));
    var last := Escape(fingerprint) + AfterFingerprint(issuedAt);
    var rest := ",\"d\":" + (d + (",\"f\":\"" + last));
    CanonicalPieces(createdAt, id, descending, fingerprint, issuedAt);
    LastSplits(descending, fingerprint, issuedAt);
    EscapeIsIdentity(createdAt);
    QuotedBetween(",\"c\":", createdAt, ",\"i\":", i + rest, ",\"c\":\"", "\",\"i\":");
    RegroupSix("{\"v\":", v, ",\"c\":\"", createdAt, "\",\"i\":", i, rest);
    RegroupThree("{\"v\":" + v + ",\"c\":\"" + createdAt + "\",\"i\":" + i, ",\"d\":", d, ",\"f\":\"", last);
  }

  lemma JavaSplits(c: Cursor)
    requires c.version == CURRENT_VERSION
    ensures CanonicalPayload(c)
         == BeforeFingerprint(Format(Java, c.createdAt / MICROSECOND), c.id, c.descending)
            + (c.fingerprint + AfterFingerprint(c.issuedAt))
  {
    var front := BeforeFingerprint(Format(Java, c.createdAt / MICROSECOND), c.id, c.descending);
    var t := IntText(c.issuedAt);
    assert front + c.fingerprint + "\",\"t\":" + t + "}" == front + (c.fingerprint + ("\",\"t\":" + t + "}"));
  }

  lemma SurroundedEqual(front: string, a: string, b: string, back: string)
    ensures front + (a + back) == front + (b + back) <==> a == b
  {
    if front + (a + back) == front + (b + back) {
      var whole := front + (a + back);
      assert |a| == |b|;
      assert a == whole[|front|..|front| + |a|] == b;
    }
  }

  /** The writer that never escapes produces the canonical payload exactly for fingerprints that need
      no escaping. */
  lemma JavaPayloadIsCanonical(c: Cursor)
    requires c.version == CURRENT_VERSION
    ensures CanonicalPayload(c)
         == Canonical(Format(Java, c.createdAt / MICROSECOND), c.id, c.descending, c.fingerprint, c.issuedAt)
       <==> Plain(c.fingerprint)
  {
    var createdAt := Format(Java, c.createdAt / MICROSECOND);
    TimestampIsPlain(Java, c.createdAt / MICROSECOND);
    JavaSplits(c);
    CanonicalSplits(createdAt, c.id, c.descending, c.fingerprint, c.issuedAt);
    SurroundedEqual(BeforeFingerprint(createdAt, c.id, c.descending), c.fingerprint, Escape(c.fingerprint),
                    AfterFingerprint(c.issuedAt));
    EscapeIsIdentity(c.fingerprint);
  }
}
