/** The bytes on the wire, character by character: alphabets, escapes, the payload, the fingerprint and the
    token, and the conformance vectors of the contract. */
module WireFormat {
  import opened Wrappers
  import opened Domain
  import opened Bytes
  import opened Decimal
  import opened Json
  import opened Timestamp
  import opened Seal
  import opened Tokens
  import CivilTime
  import Base64Url
  import Filters
  import GoCursor
  import JavaCodec

  // ----- base64url -----

  /** Table 2 of RFC 4648. */
  lemma AlphabetWrittenOut(v: Base64Url.Sextet)
    ensures v < 26 ==> Base64Url.Symbol(v) == "ABCDEFGHIJKLMNOPQRSTUVWXYZ"[v]
    ensures 26 <= v < 52 ==> Base64Url.Symbol(v) == "abcdefghijklmnopqrstuvwxyz"[v - 26]
    ensures 52 <= v < 62 ==> Base64Url.Symbol(v) == "0123456789"[v - 52]
    ensures Base64Url.Symbol(62) == '-' && Base64Url.Symbol(63) == '_'
  {
    if v < 26 {
      Capital(v);
    } else if v < 52 {
      Small(v - 26);
    }
  }

  lemma Capital(i: nat)
    requires i < 26
    ensures "ABCDEFGHIJKLMNOPQRSTUVWXYZ"[i] == 'A' + i as char
  {
  }

  lemma Small(i: nat)
    requires i < 26
    ensures "abcdefghijklmnopqrstuvwxyz"[i] == 'a' + i as char
  {
  }

  /** Each sextet is six bits of the byte string, from the high end on, padded with zero bits. */
  lemma {:induction false} SextetsWrittenOut(bytes: Octets, q: nat, r: nat)
    requires 3 * q < |bytes| && r < 4 && 4 * q + r < |Base64Url.ToSextets(bytes)|
    ensures var b0: int := bytes[3 * q];
            var b1: int := if 3 * q + 1 < |bytes| then bytes[3 * q + 1] else 0;
            var b2: int := if 3 * q + 2 < |bytes| then bytes[3 * q + 2] else 0;
            Base64Url.ToSextets(bytes)[4 * q + r]
            == (b0 * 65536 + b1 * 256 + b2) / (if r == 0 then 262144 else if r == 1 then 4096 else if r == 2 then 64 else 1) % 64
  {
    hide Base64Url.Regroup, Base64Url.ToSextets;
    if q == 0 {
      FirstGroup(bytes, r);
    } else {
      var rest, n := bytes[3..], 3 * (q - 1);
      ShiftedSextet(bytes, 4 * (q - 1) + r);
      SextetsWrittenOut(rest, q - 1, r);
      assert rest[n] == bytes[n + 3];
      assert n + 1 < |rest| ==> rest[n + 1] == bytes[n + 4];
      assert n + 2 < |rest| ==> rest[n + 2] == bytes[n + 5];
    }
  }

  lemma ShiftedSextet(bytes: Octets, k: nat)
    requires |bytes| > 2
    ensures |Base64Url.ToSextets(bytes)| == 4 + |Base64Url.ToSextets(bytes[3..])|
    ensures k < |Base64Url.ToSextets(bytes[3..])| ==>
              Base64Url.ToSextets(bytes)[k + 4] == Base64Url.ToSextets(bytes[3..])[k]
  {
    hide Base64Url.Regroup;
  }

  lemma FirstGroup(bytes: Octets, r: nat)
    requires bytes != [] && r < 4 && r < |Base64Url.ToSextets(bytes)|
    ensures var b0: int := bytes[0];
            var b1: int := if 1 < |bytes| then bytes[1] else 0;
            var b2: int := if 2 < |bytes| then bytes[2] else 0;
            Base64Url.ToSextets(bytes)[r]
            == (b0 * 65536 + b1 * 256 + b2) / (if r == 0 then 262144 else if r == 1 then 4096 else if r == 2 then 64 else 1) % 64
  {
    hide Base64Url.Regroup, Base64Url.ToSextets;
    HeadGroup(bytes, r);
    SixBitsOf(bytes[0], if 1 < |bytes| then bytes[1] else 0, if 2 < |bytes| then bytes[2] else 0);
  }

  lemma HeadGroup(bytes: Octets, r: nat)
    requires bytes != [] && r < 4 && r < |Base64Url.ToSextets(bytes)|
    ensures Base64Url.ToSextets(bytes)[r]
         == Base64Url.Regroup(bytes[0], if 1 < |bytes| then bytes[1] else 0, if 2 < |bytes| then bytes[2] else 0)[r]
  {
    hide Base64Url.Regroup;
  }

  lemma SixBitsOf(b0: Byte, b1: Byte, b2: Byte)
    ensures var v, g := b0 * 65536 + b1 * 256 + b2, Base64Url.Regroup(b0, b1, b2);
            g[0] == v / 262144 % 64 && g[1] == v / 4096 % 64 && g[2] == v / 64 % 64 && g[3] == v % 64
  {
    var a, d, f: int := b0 / 4, b1 / 16, b2 / 64;
    var c, e, g: int := b0 % 4, b1 % 16, b2 % 64;
    Quotients(a, c * 16 + d, e * 4 + f, g);
    SameBits(b0, b1, b2, a, c, d, e, f, g);
  }

  lemma SameBits(b0: int, b1: int, b2: int, a: int, c: int, d: int, e: int, f: int, g: int)
    requires b0 == a * 4 + c && b1 == d * 16 + e && b2 == f * 64 + g
    ensures b0 * 65536 + b1 * 256 + b2 == a * 262144 + (c * 16 + d) * 4096 + (e * 4 + f) * 64 + g
  {
  }

  lemma Quotients(x: int, y: int, z: int, w: int)
    requires 0 <= x < 64 && 0 <= y < 64 && 0 <= z < 64 && 0 <= w < 64
    ensures var v := x * 262144 + y * 4096 + z * 64 + w;
            v / 262144 % 64 == x && v / 4096 % 64 == y && v / 64 % 64 == z && v % 64 == w
  {
    var v := x * 262144 + y * 4096 + z * 64 + w;
    assert v / 64 == x * 4096 + y * 64 + z;
    assert v / 4096 == x * 64 + y;
    assert v / 262144 == x;
  }

  lemma {:induction false} SextetCount(bytes: Octets)
    ensures |Base64Url.ToSextets(bytes)| == (4 * |bytes| + 2) / 3
  {
    if |bytes| > 2 {
      SextetCount(bytes[3..]);
    }
  }

  /** The text has a symbol for each sextet, in order. */
  lemma EncodingWrittenOut(bytes: Octets)
    ensures |Base64Url.Encode(bytes)| == (4 * |bytes| + 2) / 3 == |Base64Url.ToSextets(bytes)|
    ensures forall k | 0 <= k < |Base64Url.Encode(bytes)| ::
              Base64Url.Encode(bytes)[k] == Base64Url.Symbol(Base64Url.ToSextets(bytes)[k])
  {
    hide Base64Url.ToSextets, Base64Url.Symbol;
    SextetCount(bytes);
  }

  /** What Go's decoder skips, and the padding Java's decoder takes. */
  lemma {:induction false} GoSkipsLineBreaks(a: string, b: string)
    ensures Base64Url.GoDecode(a + ("\n" + b)) == Base64Url.GoDecode(a + b)
    ensures Base64Url.GoDecode(a + ("\r" + b)) == Base64Url.GoDecode(a + b)
  {
    LineBreakSkipped(a, '\n', b);
    LineBreakSkipped(a, '\r', b);
  }

  lemma {:induction false} LineBreakSkipped(a: string, c: char, b: string)
    requires c == '\n' || c == '\r'
    ensures Base64Url.WithoutLineBreaks(a + ([c] + b)) == Base64Url.WithoutLineBreaks(a + b)
  {
    if a == "" {
      assert a + ([c] + b) == [c] + b && a + b == b;
    } else {
      LineBreakSkipped(a[1..], c, b);
      assert (a + ([c] + b))[1..] == a[1..] + ([c] + b);
      assert (a + b)[1..] == a[1..] + b;
      assert (a + b)[..1] == (a + ([c] + b))[..1];
    }
  }

  lemma JavaTakesPadding(text: string)
    requires Base64Url.AllSymbols(text)
    ensures |text| % 4 == 2 ==> Base64Url.JavaDecode(text + "==") == Base64Url.Decode(text)
    ensures |text| % 4 == 3 ==> Base64Url.JavaDecode(text + "=") == Base64Url.Decode(text)
  {
    hide Base64Url.Decode;
    if |text| % 4 == 2 {
      TwoPads(text);
    } else if |text| % 4 == 3 {
      OnePad(text);
    }
  }

  lemma TwoPads(text: string)
    requires |text| % 4 == 2
    ensures Base64Url.JavaDecode(text + "==") == Base64Url.Decode(text)
  {
    hide Base64Url.Decode;
    var padded := text + "==";
    assert padded[|padded| - 2..] == "==";
    assert padded[..|padded| - 2] == text;
  }

  lemma OnePad(text: string)
    requires |text| % 4 == 3 && Base64Url.AllSymbols(text)
    ensures Base64Url.JavaDecode(text + "=") == Base64Url.Decode(text)
  {
    hide Base64Url.Decode;
    var padded := text + "=";
    assert text[|text| - 1] in text;
    assert padded[|padded| - 2..][0] == text[|text| - 1];
    assert padded[..|padded| - 1] == text;
  }

  // ----- UTF-8 -----

  /** RFC 3629, section 3: the form of each length, and the value it carries. */
  lemma Utf8WrittenOut(c: char)
    ensures var v, bytes := c as int, CharBytes(c);
            if v < 0x80 then bytes == [v]
            else if v < 0x800 then
              |bytes| == 2 && 0xC0 <= bytes[0] < 0xE0 && 0x80 <= bytes[1] < 0xC0
              && v == (bytes[0] as int - 0xC0) * 64 + (bytes[1] as int - 0x80)
            else if v < 0x10000 then
              |bytes| == 3 && 0xE0 <= bytes[0] < 0xF0 && 0x80 <= bytes[1] < 0xC0 && 0x80 <= bytes[2] < 0xC0
              && v == (bytes[0] as int - 0xE0) * 4096 + (bytes[1] as int - 0x80) * 64 + (bytes[2] as int - 0x80)
            else
              |bytes| == 4 && 0xF0 <= bytes[0] < 0xF8
              && 0x80 <= bytes[1] < 0xC0 && 0x80 <= bytes[2] < 0xC0 && 0x80 <= bytes[3] < 0xC0
              && v == (bytes[0] as int - 0xF0) * 262144 + (bytes[1] as int - 0x80) * 4096 + (bytes[2] as int - 0x80) * 64 + (bytes[3] as int - 0x80)
  {
    SixBits(c as int);
  }

  // ----- JSON strings -----

  /** Section 7 of RFC 8259, in the short forms the writer chooses. */
  lemma EscapesWrittenOut(c: char)
    ensures EscapeChar(c)
         == if c == '"' then "\\\"" else if c == '\\' then "\\\\"
            else if c == 10 as char then "\\n" else if c == 13 as char then "\\r" else if c == 9 as char then "\\t"
            else if c < 32 as char
            then "\\u00" + ["0123456789abcdef"[c as int / 16], "0123456789abcdef"[c as int % 16]]
            else [c]
  {
    if c < 32 as char {
      HexDigitsWrittenOut(c as int / 16);
      HexDigitsWrittenOut(c as int % 16);
    }
  }

  lemma HexDigitsWrittenOut(v: nat)
    requires v < 16
    ensures HexDigit(v) == "0123456789abcdef"[v]
  {
  }

  // ----- the payload -----

  /** What either server signs, character by character; Java writes the fingerprint as it stands. */
  lemma PayloadWrittenOut(writer: Dialect, c: Cursor)
    ensures PayloadOf(writer, c)
         == "{\"v\":1,\"c\":\"" + Format(writer, c.createdAt / 1_000)
            + "\",\"i\":" + IntText(c.id)
            + ",\"d\":" + (if c.descending then "true" else "false")
            + ",\"f\":\"" + (if writer == Go then Escape(c.fingerprint) else c.fingerprint)
            + "\",\"t\":" + IntText(c.issuedAt / 1_000_000_000) + "}"
  {
    hide Format, IntText, NatText, Escape;
    var createdAt, fingerprint := Format(writer, c.createdAt / 1_000), if writer == Go then Escape(c.fingerprint) else c.fingerprint;
    VersionText();
    match writer {
      case Go =>
        JavaCodec.TimestampIsPlain(Go, c.createdAt / 1_000);
        JavaCodec.CanonicalSplits(createdAt, c.id, c.descending, c.fingerprint, c.issuedAt / 1_000_000_000);
      case Java =>
        JavaCodec.JavaSplits(JavaCodec.Issue(c.createdAt, c.id, c.descending, c.fingerprint, c.issuedAt));
    }
    Around(createdAt, c.id, c.descending, fingerprint, c.issuedAt / 1_000_000_000);
  }

  lemma VersionText()
    ensures NatText(1) == "1"
  {
    CivilTime.NumbersWrittenOut(1);
  }

  lemma Around(createdAt: string, id: int, descending: bool, fingerprint: string, seconds: int)
    ensures JavaCodec.BeforeFingerprint(createdAt, id, descending) + (fingerprint + JavaCodec.AfterFingerprint(seconds))
         == "{\"v\":1,\"c\":\"" + createdAt + "\",\"i\":" + IntText(id) + ",\"d\":" + (if descending then "true" else "false")
            + ",\"f\":\"" + fingerprint + "\",\"t\":" + IntText(seconds) + "}"
  {
    hide IntText, NatText;
    VersionText();
    var i, d, t := IntText(id), if descending then "true" else "false", IntText(seconds);
    assert "{\"v\":" + "1" + ",\"c\":\"" == "{\"v\":1,\"c\":\"";
    var front := "{\"v\":1,\"c\":\"" + createdAt + "\",\"i\":" + i + ",\"d\":" + d + ",\"f\":\"";
    assert front + (fingerprint + ("\",\"t\":" + t + "}")) == front + fingerprint + "\",\"t\":" + t + "}";
  }

  // ----- the fingerprint and the token -----

  /** Eight bytes of the hash of the three filters, on both servers. */
  lemma FingerprintWrittenOut(sha256: Octets -> Digest, query: ListQuery)
    ensures var text := IntText(query.accountId) + "|" + query.status + "|"
                        + if query.sort == CreatedAtDesc then "created_at:desc" else "created_at:asc";
            && GoCursor.Fingerprint(sha256, query) == Base64Url.Encode(sha256(Utf8(text))[..8])
            && JavaCodec.Fingerprint(sha256, query) == Base64Url.Encode(sha256(Utf8(text))[..8])
  {
    hide Base64Url.Encode, Utf8, IntText;
    var account, status, sort := IntText(query.accountId), query.status, query.sort.Text();
    assert account + "|" + status + "|" + sort == GoCursor.Preimage(query.accountId, status, sort);
  }

  lemma TokenWrittenOut(writer: Dialect, secret: Secret, c: Cursor)
    ensures var payload := Utf8(PayloadOf(writer, c));
            Issued(writer, secret, c) == Base64Url.Encode(secret.mac(secret.key, payload) + payload)
  {
    hide Base64Url.Encode, Utf8;
  }

  // ----- the conformance vectors -----

  lemma FirstVectorId()
    ensures IntText(9_999_998) == "9999998"
  {
  }

  lemma SecondVectorId()
    ensures IntText(9_500_001) == "9500001"
  {
  }

  lemma ThirdVectorId()
    ensures IntText(1) == "1"
  {
  }

  lemma IssueDateHead()
    ensures NatText(1_767_225) == "1767225"
  {
  }

  lemma IssueDate()
    ensures IntText(1_767_225_600) == "1767225600"
  {
    hide NatText;
    IssueDateHead();
    CivilTime.NumbersWrittenOut(17_672_256);
    CivilTime.NumbersWrittenOut(176_722_560);
    CivilTime.NumbersWrittenOut(1_767_225_600);
  }

  /** The payloads of the three conformance vectors, as either server writes them. */
  lemma FirstPayload(writer: Dialect, c: Cursor)
    requires c == GoCursor.Cursor(1_620_070_360_000_000_000, 9_999_998, true, "jlkDlANVKaQ", 1_767_225_600_000_000_000)
    ensures PayloadOf(writer, c)
         == "{\"v\":1,\"c\":\"" + "2021-05-03T19:32:40.000000Z" + "\",\"i\":" + "9999998" + ",\"d\":" + "true"
            + ",\"f\":\"" + "jlkDlANVKaQ" + "\",\"t\":" + "1767225600" + "}"
  {
    hide Format, IntText, PayloadOf, Escape;
    PayloadWrittenOut(writer, c);
    CivilTime.FirstVector(writer, c.createdAt / 1_000);
    FirstVectorId();
    IssueDate();
    EscapeIsIdentity("jlkDlANVKaQ");
  }

  lemma SecondPayload(writer: Dialect, c: Cursor)
    requires c == GoCursor.Cursor(1_610_070_420_000_000_000, 9_500_001, true, "zJlP3yfvPv8", 1_767_225_600_000_000_000)
    ensures PayloadOf(writer, c)
         == "{\"v\":1,\"c\":\"" + "2021-01-08T01:47:00.000000Z" + "\",\"i\":" + "9500001" + ",\"d\":" + "true"
            + ",\"f\":\"" + "zJlP3yfvPv8" + "\",\"t\":" + "1767225600" + "}"
  {
    hide Format, IntText, PayloadOf, Escape;
    PayloadWrittenOut(writer, c);
    CivilTime.SecondVector(writer, c.createdAt / 1_000);
    SecondVectorId();
    IssueDate();
    EscapeIsIdentity("zJlP3yfvPv8");
  }

  lemma ThirdPayload(writer: Dialect, c: Cursor)
    requires c == GoCursor.Cursor(1_420_070_420_000_000_000, 1, false, "ysln4sD3H8g", 1_767_225_600_000_000_000)
    ensures PayloadOf(writer, c)
         == "{\"v\":1,\"c\":\"" + "2015-01-01T00:00:20.000000Z" + "\",\"i\":" + "1" + ",\"d\":" + "false"
            + ",\"f\":\"" + "ysln4sD3H8g" + "\",\"t\":" + "1767225600" + "}"
  {
    hide Format, IntText, PayloadOf, Escape;
    PayloadWrittenOut(writer, c);
    CivilTime.ThirdVector(writer, c.createdAt / 1_000);
    ThirdVectorId();
    IssueDate();
    EscapeIsIdentity("ysln4sD3H8g");
  }
}
