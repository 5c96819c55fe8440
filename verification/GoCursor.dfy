/** go/pkg/cursor/cursor.go: the fingerprint, the writer and the reader of the Go implementation.
    A time.Time is a number of nanoseconds since the Unix epoch. */
module GoCursor {
  import opened Wrappers
  import opened Domain
  import opened Bytes
  import opened Decimal
  import opened Json
  import opened Timestamp
  import opened Payload
  import opened Seal
  import Base64Url

  const FINGERPRINT_BYTES := 8
  const SECOND := 1_000_000_000
  const MICROSECOND := 1_000
  /** The largest time.Duration. */
  const MAX_DURATION := 0x7fff_ffff_ffff_ffff

  datatype Cursor = Cursor(createdAt: int, id: int, descending: bool, fingerprint: string, issuedAt: int)

  // ----- the filter fingerprint -----

  function Preimage(accountId: int, status: string, sort: string): string {
    IntText(accountId) + ("|" + (status + ("|" + sort)))
  }

  function Fingerprint(sha256: Octets -> Digest, query: ListQuery): string {
    Base64Url.Encode(sha256(Utf8(Preimage(query.accountId, query.status, query.sort.Text())))[..FINGERPRINT_BYTES])
  }

  // ----- writing -----

  class StringBuilder {
    var text: string

    constructor ()
      ensures text == ""
    {
      text := "";
    }

    method WriteString(s: string)
      modifies this
      ensures text == old(text) + s
    {
      text := text + s;
    }
  }

  function Hex4(v: int): string
    requires 0 <= v < 0x10000
  {
    [HexDigit(v / 4096), HexDigit(v / 256 % 16), HexDigit(v / 16 % 16), HexDigit(v % 16)]
  }

  lemma {:induction false} EscapeAppend(s: string, c: char)
    ensures Escape(s + [c]) == Escape(s) + EscapeChar(c)
  {
    if s == "" {
      assert Escape("" + [c]) == EscapeChar(c);
    } else {
      assert (s + [c])[1..] == s[1..] + [c];
      EscapeAppend(s[1..], c);
    }
  }

  method WriteRune(b: StringBuilder, r: char)
    modifies b
    ensures b.text == old(b.text) + EscapeChar(r)
  {
    match r {
      case '"' => b.WriteString("\\\"");
      case '\\' => b.WriteString("\\\\");
      case '\n' => b.WriteString("\\n");
      case '\r' => b.WriteString("\\r");
      case '\t' => b.WriteString("\\t");
      case _ =>
        if r < ' ' {
          assert "\\u" + Hex4(r as int) == "\\u00" + [HexDigit(r as int / 16), HexDigit(r as int % 16)];
          b.WriteString("\\u" + Hex4(r as int));
        } else {
          b.WriteString([r]);
        }
    }
  }

  /** Appends `s` as a JSON string literal, rune by rune. */
  method WriteJSONString(b: StringBuilder, s: string)
    modifies b
    ensures b.text == old(b.text) + Quoted(s)
  {
    ghost var before := b.text;
    b.WriteString("\"");
    for i := 0 to |s|
      invariant b.text == before + ("\"" + Escape(s[..i]))
    {
      WriteRune(b, s[i]);
      assert s[..i + 1] == s[..i] + [s[i]];
      EscapeAppend(s[..i], s[i]);
      assert b.text == before + ("\"" + Escape(s[..i + 1]));
    }
    assert s[..|s|] == s;
    b.WriteString("\"");
    assert b.text == before + Quoted(s);
  }

  /** The payload of a cursor: `createdAt` keeps its microseconds and `issuedAt` its seconds. */
  function PayloadText(c: Cursor): string {
    Canonical(Format(Go, c.createdAt / MICROSECOND), c.id, c.descending, c.fingerprint, c.issuedAt / SECOND)
  }

  method CanonicalPayload(c: Cursor) returns (text: string)
    ensures text == PayloadText(c)
  {
    var b := new StringBuilder();
    var createdAt := Format(Go, c.createdAt / MICROSECOND);
    b.WriteString("{\"v\":");
    b.WriteString(NatText(VERSION));
    b.WriteString(",\"c\":");
    WriteJSONString(b, createdAt);
    b.WriteString(",\"i\":");
    b.WriteString(IntText(c.id));
    WriteLastMembers(b, c);
    text := b.text;
    AppendFirst(createdAt, c.id, LastPieces(c.descending, c.fingerprint, c.issuedAt / SECOND));
    CanonicalPieces(createdAt, c.id, c.descending, c.fingerprint, c.issuedAt / SECOND);
  }

  /** The second half of CanonicalPayload. */
  method WriteLastMembers(b: StringBuilder, c: Cursor)
    modifies b
    ensures b.text == old(b.text) + LastPieces(c.descending, c.fingerprint, c.issuedAt / SECOND)
  {
    ghost var front := b.text;
    b.WriteString(",\"d\":");
    b.WriteString(if c.descending then "true" else "false");
    b.WriteString(",\"f\":");
    WriteJSONString(b, c.fingerprint);
    b.WriteString(",\"t\":");
    b.WriteString(IntText(c.issuedAt / SECOND));
    b.WriteString("}");
    AppendLast(front, c.descending, c.fingerprint, c.issuedAt / SECOND);
  }

  /** Appending the last three members piece by piece, or all at once. */
  lemma AppendLast(front: string, descending: bool, fingerprint: string, issuedAt: int)
    ensures front + ",\"d\":" + ValueText(Boolean(descending)) + ",\"f\":" + Quoted(fingerprint)
            + ",\"t\":" + IntText(issuedAt) + "}"
         == front + LastPieces(descending, fingerprint, issuedAt)
  {
    var d, f, t := ValueText(Boolean(descending)), Quoted(fingerprint), IntText(issuedAt);
    AppendFour(front, ",\"d\":", d, ",\"f\":", f + (",\"t\":" + (t + "}")));
    AppendFour(front + ",\"d\":" + d + ",\"f\":", f, ",\"t\":", t, "}");
  }

  lemma AppendFirst(createdAt: string, id: int, rest: string)
    ensures "" + "{\"v\":" + NatText(VERSION) + ",\"c\":" + Quoted(createdAt) + ",\"i\":" + IntText(id) + rest
         == "{\"v\":" + (ValueText(Integer(VERSION)) + (",\"c\":" + (Quoted(createdAt)
            + (",\"i\":" + (IntText(id) + rest)))))
  {
    var v, c, i := NatText(VERSION), Quoted(createdAt), IntText(id);
    AppendFour("{\"v\":", v, ",\"c\":", c, ",\"i\":" + (i + rest));
    AppendFour("{\"v\":" + v + ",\"c\":" + c, ",\"i\":", i, rest, "");
    assert "" + "{\"v\":" == "{\"v\":";
  }

  lemma AppendFour(front: string, p: string, q: string, r: string, s: string)
    ensures front + p + q + r + s == front + (p + (q + (r + s)))
  {
    assert p + (q + (r + s)) == p + q + r + s;
  }

  /** The running state of hmac.New(sha256.New, key). */
  class Hmac {
    const mac: (Octets, Octets) -> Digest
    const key: Octets
    var written: Octets

    constructor (mac: (Octets, Octets) -> Digest, key: Octets)
      ensures this.mac == mac && this.key == key && written == []
    {
      this.mac := mac;
      this.key := key;
      written := [];
    }

    method Write(bytes: Octets)
      modifies this
      ensures written == old(written) + bytes
    {
      written := written + bytes;
    }

    function Sum(): Digest
      reads this
    {
      mac(key, written)
    }
  }

  function Encoded(secret: Secret, c: Cursor): string {
    Token(secret, Utf8(PayloadText(c)))
  }

  method Encode(secret: Secret, c: Cursor) returns (token: string)
    ensures token == Encoded(secret, c)
  {
    var text := CanonicalPayload(c);
    var payload := Utf8(text);
    var mac := new Hmac(secret.mac, secret.key);
    mac.Write(payload);
    assert mac.written == payload;
    return Base64Url.Encode(mac.Sum() + payload);
  }

  // ----- reading -----

  /** time.Time.Sub saturates at the bounds of time.Duration. */
  function Sub(a: int, b: int): int {
    if a - b > MAX_DURATION then MAX_DURATION
    else if a - b < -MAX_DURATION - 1 then -MAX_DURATION - 1
    else a - b
  }

  /** The expiry test, on an issue date in seconds. A `ttl` of zero or less skips it. */
  predicate Expired(ttl: int, issuedAt: int, now: int) {
    ttl > 0 && Sub(now, issuedAt * SECOND) > ttl
  }

  /** What a payload stands for once its signature is verified. */
  function Accept(wire: Option<Wire>, ttl: int, now: int): Result<Cursor, Failure> {
    if wire.None? || wire.value.version != VERSION then Err(InvalidCursor) else
      var w := wire.value;
      var createdAt := GoParse(if w.createdAt.Some? then w.createdAt.value else "");
      if createdAt.None? then Err(InvalidCursor)
      else if Expired(ttl, w.issuedAt, now) then Err(CursorExpired)
      else
        var fingerprint := if w.fingerprint.Some? then w.fingerprint.value else "";
        Ok(Cursor(createdAt.value * MICROSECOND, w.id, w.descending, fingerprint, w.issuedAt * SECOND))
  }

  function Decoded(secret: Secret, token: string, now: int): Result<Cursor, Failure> {
    match Unseal(secret, Base64Url.GoDecode(token))
    case None => Err(InvalidCursor)
    case Some(payload) => Accept(ReadPayload(Go, payload), secret.ttl, now)
  }

  method DecodeAt(secret: Secret, token: string, now: int) returns (r: Result<Cursor, Failure>)
    ensures r == Decoded(secret, token, now)
  {
    var raw := Base64Url.GoDecode(token);
    if raw.None? || |raw.value| <= SIGNATURE_LENGTH {
      return Err(InvalidCursor);
    }
    var signature, payload := raw.value[..SIGNATURE_LENGTH], raw.value[SIGNATURE_LENGTH..];
    var mac := new Hmac(secret.mac, secret.key);
    mac.Write(payload);
    assert mac.written == payload;
    if signature != mac.Sum() {
      return Err(InvalidCursor);
    }
    var p := ReadPayload(Go, payload);
    if p.None? || p.value.version != VERSION {
      return Err(InvalidCursor);
    }
    var createdAt := GoParse(if p.value.createdAt.Some? then p.value.createdAt.value else "");
    if createdAt.None? {
      return Err(InvalidCursor);
    }
    var issuedAt := p.value.issuedAt * SECOND;
    if secret.ttl > 0 && Sub(now, issuedAt) > secret.ttl {
      return Err(CursorExpired);
    }
    return Ok(Cursor(
      createdAt.value * MICROSECOND,
      p.value.id,
      p.value.descending,
      if p.value.fingerprint.Some? then p.value.fingerprint.value else "",
      issuedAt));
  }
}
