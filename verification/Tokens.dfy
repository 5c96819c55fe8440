/** What a token means across implementations: either one writes it, either one reads it. */
module Tokens {
  import opened Wrappers
  import opened Domain
  import opened Bytes
  import opened Timestamp
  import opened Payload
  import opened Seal
  import Base64Url
  import GoCursor
  import JavaCodec

  type Cursor = GoCursor.Cursor

  const SECOND := GoCursor.SECOND
  const MICROSECOND := GoCursor.MICROSECOND

  /** The cursor an implementation issues, as text. */
  function PayloadOf(writer: Dialect, c: Cursor): string {
    match writer
    case Go => GoCursor.PayloadText(c)
    case Java => JavaCodec.CanonicalPayload(
                   JavaCodec.Issue(c.createdAt, c.id, c.descending, c.fingerprint, c.issuedAt))
  }

  function Issued(writer: Dialect, secret: Secret, c: Cursor): string {
    match writer
    case Go => GoCursor.Encoded(secret, c)
    case Java => JavaCodec.Encoded(
                   secret, JavaCodec.Issue(c.createdAt, c.id, c.descending, c.fingerprint, c.issuedAt))
  }

  /** The cursor an implementation reads from a token, with its issue date in nanoseconds. */
  function Read(reader: Dialect, secret: Secret, token: string, now: int): Result<Cursor, Failure> {
    match reader
    case Go => GoCursor.Decoded(secret, token, now)
    case Java =>
      match JavaCodec.Decoded(secret, token, now)
      case Err(e) => Err(e)
      case Ok(c) => Ok(GoCursor.Cursor(c.createdAt, c.id, c.descending, c.fingerprint, c.issuedAt * SECOND))
  }

  predicate Expired(reader: Dialect, ttl: int, issuedAt: int, now: int) {
    match reader
    case Go => GoCursor.Expired(ttl, issuedAt, now)
    case Java => JavaCodec.Expired(ttl, issuedAt, now)
  }

  /** What survives a token: microseconds of the position, seconds of the issue date. */
  function Floored(c: Cursor): Cursor {
    c.(createdAt := c.createdAt / MICROSECOND * MICROSECOND, issuedAt := c.issuedAt / SECOND * SECOND)
  }

  function YearOf(c: Cursor): int {
    YearOfInstant(c.createdAt / MICROSECOND)
  }

  /** A clock a cursor may be stamped with. java.time.Instant spans -31557014167219200 to 31556889864403199
      seconds, and must still span the date with any Duration added to it. */
  predicate Stampable(instant: int) {
    -31_557_004_943_847_162 <= instant / SECOND <= 31_556_880_641_031_161
  }

  /** A cursor its writer can issue: 64-bit numbers, a year java.time.Year can hold, and for the writer
      that never escapes a fingerprint that needs no escaping. */
  predicate Issuable(writer: Dialect, c: Cursor) {
    && FitsInt64(c.id) && Stampable(c.issuedAt)
    && -999_999_999 <= YearOf(c) <= 999_999_999
    && (writer == Java ==> JavaCodec.Plain(c.fingerprint))
  }

  function TimestampText(writer: Dialect, c: Cursor): string {
    Format(writer, c.createdAt / MICROSECOND)
  }

  lemma PayloadIsCanonical(writer: Dialect, c: Cursor)
    requires Issuable(writer, c)
    ensures PayloadOf(writer, c)
         == Canonical(TimestampText(writer, c), c.id, c.descending, c.fingerprint, c.issuedAt / SECOND)
  {
    if writer == Java {
      JavaCodec.JavaPayloadIsCanonical(
        JavaCodec.Issue(c.createdAt, c.id, c.descending, c.fingerprint, c.issuedAt));
    }
  }

  lemma PayloadIsNotEmpty(payload: string)
    requires payload != ""
    ensures Utf8(payload) != []
  {
  }

  /** No token looks like the end of a walk. */
  lemma IssuedIsNotEmpty(writer: Dialect, secret: Secret, c: Cursor)
    ensures Issued(writer, secret, c) != ""
  {
    var payload := Utf8(PayloadOf(writer, c));
    assert Issued(writer, secret, c) == Token(secret, payload);
    TokenIsNotEmpty(secret, payload);
  }

  lemma TokenIsNotEmpty(secret: Secret, payload: Octets)
    ensures Token(secret, payload) != ""
  {
    var bytes := secret.mac(secret.key, payload) + payload;
    Base64Url.RoundTrip(bytes);
    Base64Url.RoundTrip([]);
    assert |bytes| >= SIGNATURE_LENGTH;
  }

  lemma IssuedUnseals(writer: Dialect, secret: Secret, c: Cursor)
    requires Issuable(writer, c)
    ensures Issued(writer, secret, c) == Token(secret, Utf8(PayloadOf(writer, c)))
    ensures Issued(writer, secret, c) != ""
    ensures Unseal(secret, Base64Url.GoDecode(Issued(writer, secret, c))) == Some(Utf8(PayloadOf(writer, c)))
    ensures Unseal(secret, Base64Url.JavaDecode(Issued(writer, secret, c))) == Some(Utf8(PayloadOf(writer, c)))
  {
    PayloadIsCanonical(writer, c);
    PayloadIsNotEmpty(PayloadOf(writer, c));
    UnsealToken(secret, Utf8(PayloadOf(writer, c)));
  }

  lemma IssuedPayloadReads(writer: Dialect, reader: Dialect, c: Cursor)
    requires Issuable(writer, c)
    ensures ReadPayload(reader, Utf8(PayloadOf(writer, c)))
         == Some(Wire(VERSION, Some(TimestampText(writer, c)), c.id, c.descending, Some(c.fingerprint),
                      c.issuedAt / SECOND))
  {
    PayloadIsCanonical(writer, c);
    CanonicalReadsBack(reader, TimestampText(writer, c), c.id, c.descending, c.fingerprint, c.issuedAt / SECOND);
  }

  /** The whole story of an issued token. Whichever implementation wrote it, whichever reads it, the
      reader gets exactly the floored position while the token lives, a 410 afterwards, and refuses it
      exactly for the years the two timestamp layouts do not share. */
  lemma IssuedTokenReads(writer: Dialect, reader: Dialect, secret: Secret, c: Cursor, now: int)
    requires Issuable(writer, c)
    ensures Read(reader, secret, Issued(writer, secret, c), now)
         == if !Readable(writer, reader, YearOf(c)) then Err(InvalidCursor)
            else if Expired(reader, secret.ttl, c.issuedAt / SECOND, now) then Err(CursorExpired)
            else Ok(Floored(c))
  {
    IssuedUnseals(writer, secret, c);
    IssuedPayloadReads(writer, reader, c);
    TimestampTravels(writer, reader, c.createdAt / MICROSECOND);
  }

  /** Issuing again what was read gives the same token. */
  lemma ReissueIsIdentity(writer: Dialect, secret: Secret, c: Cursor)
    ensures Issued(writer, secret, Floored(c)) == Issued(writer, secret, c)
  {
    assert Floored(c).createdAt / MICROSECOND == c.createdAt / MICROSECOND;
    assert Floored(c).issuedAt / SECOND == c.issuedAt / SECOND;
  }

  // ----- any text at all -----

  function RawBytes(reader: Dialect, token: string): Option<Octets> {
    match reader
    case Go => Base64Url.GoDecode(token)
    case Java => Base64Url.JavaDecode(token)
  }

  /** Of all texts a client may send, a reader accepts, or calls expired, only the MAC of a payload followed
      by that payload. */
  lemma AcceptedIsSealed(reader: Dialect, secret: Secret, token: string, now: int)
    requires Read(reader, secret, token, now) != Err(InvalidCursor)
    ensures exists payload :: payload != [] && RawBytes(reader, token) == Some(secret.mac(secret.key, payload) + payload)
  {
    hide Base64Url.GoDecode, Base64Url.JavaDecode, ReadPayload, GoCursor.Accept, JavaCodec.ReadCursor;
    assert Unseal(secret, RawBytes(reader, token)).Some?;
    var payload := Unseal(secret, RawBytes(reader, token)).value;
    var bytes := RawBytes(reader, token).value;
    assert bytes == bytes[..SIGNATURE_LENGTH] + bytes[SIGNATURE_LENGTH..];
    assert payload == bytes[SIGNATURE_LENGTH..];
  }

  /** What either reader makes of any text whose seal verifies. It is refused unless its payload reads, is of
      version 1 and has a timestamp; it is expired past its date plus the `ttl`; otherwise the cursor read is
      the one the payload spells. */
  lemma SealedTextReads(reader: Dialect, secret: Secret, token: string, payload: Octets, now: int)
    requires RawBytes(reader, token) == Some(secret.mac(secret.key, payload) + payload) && payload != []
    ensures var wire, read := ReadPayload(reader, payload), Read(reader, secret, token, now);
            if wire.None? || wire.value.version != 1 || wire.value.createdAt.None?
               || Parse(reader, wire.value.createdAt.value).None? || (reader == Java && wire.value.fingerprint.None?)
            then read == Err(InvalidCursor)
            else if Expired(reader, secret.ttl, wire.value.issuedAt, now) then read == Err(CursorExpired)
            else
              && read.Ok?
              && read.value.createdAt == Parse(reader, wire.value.createdAt.value).value * 1_000
              && read.value.id == wire.value.id
              && read.value.descending == wire.value.descending
              && read.value.fingerprint == (if wire.value.fingerprint.Some? then wire.value.fingerprint.value else "")
              && read.value.issuedAt == wire.value.issuedAt * 1_000_000_000
  {
    hide Base64Url.GoDecode, Base64Url.JavaDecode, ReadPayload, GoParse, JavaParse, Unseal, GoCursor.Sub;
    SealedUnseals(reader, secret, token, payload);
    EmptyIsNoTimestamp();
  }

  lemma SealedUnseals(reader: Dialect, secret: Secret, token: string, payload: Octets)
    requires RawBytes(reader, token) == Some(secret.mac(secret.key, payload) + payload) && payload != []
    ensures Unseal(secret, RawBytes(reader, token)) == Some(payload)
  {
    hide RawBytes;
    var signature := secret.mac(secret.key, payload);
    var bytes := signature + payload;
    assert bytes[..SIGNATURE_LENGTH] == signature && bytes[SIGNATURE_LENGTH..] == payload;
  }

  lemma EmptyIsNoTimestamp()
    ensures GoParse("") == None
  {
  }

  /** So a text is accepted exactly if it is a seal over an unexpired payload of version 1 that reads: in
      particular a signed payload of any other version never is. */
  lemma AcceptedIffVersion1(reader: Dialect, secret: Secret, token: string, now: int)
    ensures Read(reader, secret, token, now).Ok? <==>
              exists payload ::
                && payload != [] && RawBytes(reader, token) == Some(secret.mac(secret.key, payload) + payload)
                && ReadPayload(reader, payload).Some?
                && var w := ReadPayload(reader, payload).value;
                   && w.version == 1 && w.createdAt.Some? && Parse(reader, w.createdAt.value).Some?
                   && (reader == Java ==> w.fingerprint.Some?)
                   && !Expired(reader, secret.ttl, w.issuedAt, now)
  {
    hide Read, RawBytes, ReadPayload, Parse, Expired;
    if Read(reader, secret, token, now) != Err(InvalidCursor) {
      AcceptedIsSealed(reader, secret, token, now);
    }
    forall payload | payload != [] && RawBytes(reader, token) == Some(secret.mac(secret.key, payload) + payload)
      ensures Read(reader, secret, token, now).Ok? <==>
                && ReadPayload(reader, payload).Some?
                && var w := ReadPayload(reader, payload).value;
                   && w.version == 1 && w.createdAt.Some? && Parse(reader, w.createdAt.value).Some?
                   && (reader == Java ==> w.fingerprint.Some?)
                   && !Expired(reader, secret.ttl, w.issuedAt, now)
    {
      SealedTextReads(reader, secret, token, payload, now);
    }
  }

  /** What a reader makes of a text changes with the clock in one way only: an accepted token expires, and
      once expired stays so. */
  lemma ClockOnlyExpires(reader: Dialect, secret: Secret, token: string, now: int, later: int)
    requires now <= later && secret.ttl < GoCursor.MAX_DURATION
    ensures var before, after := Read(reader, secret, token, now), Read(reader, secret, token, later);
            after == before || (before.Ok? && after == Err(CursorExpired))
  {
    hide Base64Url.GoDecode, Base64Url.JavaDecode, ReadPayload, Unseal, GoParse, JavaParse;
  }

  lemma TokenIsInjective(secret: Secret, a: Octets, b: Octets)
    requires Token(secret, a) == Token(secret, b)
    ensures a == b
  {
    var x, y := secret.mac(secret.key, a) + a, secret.mac(secret.key, b) + b;
    Base64Url.RoundTrip(x);
    Base64Url.RoundTrip(y);
    assert a == x[32..] && b == y[32..];
  }

  lemma CanonicalIsInjective(s: string, t: string, c: Cursor)
    requires FitsInt64(c.id) && Stampable(c.issuedAt)
    requires Canonical(s, c.id, c.descending, c.fingerprint, c.issuedAt / SECOND)
          == Canonical(t, c.id, c.descending, c.fingerprint, c.issuedAt / SECOND)
    ensures s == t
  {
    CanonicalReadsBack(Go, s, c.id, c.descending, c.fingerprint, c.issuedAt / SECOND);
    CanonicalReadsBack(Go, t, c.id, c.descending, c.fingerprint, c.issuedAt / SECOND);
  }

  /** The two implementations issue the same bytes exactly up to the year 9999. */
  lemma TokensAgree(secret: Secret, c: Cursor)
    requires Issuable(Java, c)
    ensures Issued(Go, secret, c) == Issued(Java, secret, c) <==> YearOf(c) <= 9999
  {
    PayloadIsCanonical(Go, c);
    PayloadIsCanonical(Java, c);
    WritersAgree(c.createdAt / MICROSECOND);
    if Issued(Go, secret, c) == Issued(Java, secret, c) {
      TokenIsInjective(secret, Utf8(PayloadOf(Go, c)), Utf8(PayloadOf(Java, c)));
      Utf8RoundTrip(PayloadOf(Go, c));
      Utf8RoundTrip(PayloadOf(Java, c));
      CanonicalIsInjective(TimestampText(Go, c), TimestampText(Java, c), c);
    }
  }
}
