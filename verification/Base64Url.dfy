/** base64url without padding (section 5 of RFC 4648): the token text of a byte string. Bytes are
    regrouped as sextets, and each sextet is written as one symbol. */
module Base64Url {
  import opened Wrappers
  import opened Bytes

  type Sextet = v: int | 0 <= v < 64

  // ----- bytes and sextets -----

  function Regroup(b0: Byte, b1: Byte, b2: Byte): (group: seq<Sextet>)
    ensures |group| == 4
  {
    [b0 / 4, b0 % 4 * 16 + b1 / 16, b1 % 16 * 4 + b2 / 64, b2 % 64]
  }

  function Degroup(v0: Sextet, v1: Sextet, v2: Sextet, v3: Sextet): (bytes: Octets)
    ensures |bytes| == 3
  {
    [v0 * 4 + v1 / 16, v1 % 16 * 16 + v2 / 4, v2 % 4 * 64 + v3]
  }

  /** A last group of one or two bytes is regrouped as if zeros followed, into two or three sextets. */
  function ToSextets(bytes: Octets): seq<Sextet> {
    if bytes == [] then []
    else if |bytes| == 1 then Regroup(bytes[0], 0, 0)[..2]
    else if |bytes| == 2 then Regroup(bytes[0], bytes[1], 0)[..3]
    else Regroup(bytes[0], bytes[1], bytes[2]) + ToSextets(bytes[3..])
  }

  /** A lone last sextet is refused; the spare low bits of a short last group are ignored. */
  function FromSextets(vs: seq<Sextet>): Option<Octets> {
    if vs == [] then Some([])
    else if |vs| == 1 then None
    else if |vs| == 2 then Some(Degroup(vs[0], vs[1], 0, 0)[..1])
    else if |vs| == 3 then Some(Degroup(vs[0], vs[1], vs[2], 0)[..2])
    else
      var rest :- FromSextets(vs[4..]);
      Some(Degroup(vs[0], vs[1], vs[2], vs[3]) + rest)
  }

  lemma RegroupRoundTrip(b0: Byte, b1: Byte, b2: Byte)
    ensures var g := Regroup(b0, b1, b2); Degroup(g[0], g[1], g[2], g[3]) == [b0, b1, b2]
  {
  }

  lemma DegroupRoundTrip(v0: Sextet, v1: Sextet, v2: Sextet, v3: Sextet)
    ensures var g := Degroup(v0, v1, v2, v3); Regroup(g[0], g[1], g[2]) == [v0, v1, v2, v3]
  {
    var b0, b1, b2 := v0 * 4 + v1 / 16, v1 % 16 * 16 + v2 / 4, v2 % 4 * 64 + v3;
    assert b0 / 4 == v0 && b0 % 4 == v1 / 16;
    assert b1 / 16 == v1 % 16 && b1 % 16 == v2 / 4;
    assert b2 / 64 == v2 % 4 && b2 % 64 == v3;
  }

  lemma {:induction false} SextetsRoundTrip(bytes: Octets)
    ensures FromSextets(ToSextets(bytes)) == Some(bytes)
  {
    if |bytes| == 1 {
      RegroupRoundTrip(bytes[0], 0, 0);
      var g := Regroup(bytes[0], 0, 0);
      assert g[2] == 0 && g[3] == 0;
      assert Degroup(g[0], g[1], 0, 0)[..1] == [bytes[0]];
      assert FromSextets(g[..2]) == Some(Degroup(g[0], g[1], 0, 0)[..1]);
      assert bytes == [bytes[0]];
    } else if |bytes| == 2 {
      RegroupRoundTrip(bytes[0], bytes[1], 0);
      var g := Regroup(bytes[0], bytes[1], 0);
      assert g[3] == 0 && Degroup(g[0], g[1], g[2], 0)[..2] == [bytes[0], bytes[1]];
      assert FromSextets(g[..3]) == Some(Degroup(g[0], g[1], g[2], 0)[..2]);
      assert bytes == [bytes[0], bytes[1]];
    } else if |bytes| >= 3 {
      RegroupRoundTrip(bytes[0], bytes[1], bytes[2]);
      SextetsRoundTrip(bytes[3..]);
      assert ToSextets(bytes)[4..] == ToSextets(bytes[3..]);
      assert bytes == [bytes[0], bytes[1], bytes[2]] + bytes[3..];
    }
  }

  /** The bits of the last sextet that stand for no byte are zero. */
  predicate SpareBitsClear(vs: seq<Sextet>) {
    && (|vs| % 4 == 2 ==> vs[|vs| - 1] % 16 == 0)
    && (|vs| % 4 == 3 ==> vs[|vs| - 1] % 4 == 0)
  }

  lemma PairReencodes(v0: Sextet, v1: Sextet)
    ensures Regroup(Degroup(v0, v1, 0, 0)[0], 0, 0)[..2] == [v0, v1 - v1 % 16]
  {
    var b0 := v0 * 4 + v1 / 16;
    assert b0 / 4 == v0 && b0 % 4 == v1 / 16;
  }

  lemma TripleReencodes(v0: Sextet, v1: Sextet, v2: Sextet)
    ensures var g := Degroup(v0, v1, v2, 0); Regroup(g[0], g[1], 0)[..3] == [v0, v1, v2 - v2 % 4]
  {
    var b0, b1 := v0 * 4 + v1 / 16, v1 % 16 * 16 + v2 / 4;
    assert b0 / 4 == v0 && b0 % 4 == v1 / 16;
    assert b1 / 16 == v1 % 16 && b1 % 16 == v2 / 4;
  }

  lemma FirstGroupReencodes(vs: seq<Sextet>)
    requires |vs| >= 4 && FromSextets(vs).Some?
    ensures FromSextets(vs[4..]).Some?
    ensures ToSextets(FromSextets(vs).value) == vs[..4] + ToSextets(FromSextets(vs[4..]).value)
  {
    var g, tail := Degroup(vs[0], vs[1], vs[2], vs[3]), FromSextets(vs[4..]).value;
    DegroupRoundTrip(vs[0], vs[1], vs[2], vs[3]);
    assert FromSextets(vs).value == g + tail;
    assert (g + tail)[3..] == tail;
    assert vs[..4] == [vs[0], vs[1], vs[2], vs[3]];
  }

  lemma SpareBitsOfTail(vs: seq<Sextet>)
    requires |vs| >= 4
    ensures SpareBitsClear(vs) <==> SpareBitsClear(vs[4..])
  {
    assert |vs[4..]| % 4 == |vs| % 4;
  }

  lemma {:induction false} SextetsReencode(vs: seq<Sextet>)
    requires FromSextets(vs).Some?
    ensures ToSextets(FromSextets(vs).value) == vs <==> SpareBitsClear(vs)
  {
    if |vs| == 2 {
      PairReencodes(vs[0], vs[1]);
      assert vs == [vs[0], vs[1]];
    } else if |vs| == 3 {
      TripleReencodes(vs[0], vs[1], vs[2]);
      assert vs == [vs[0], vs[1], vs[2]];
    } else if |vs| >= 4 {
      FirstGroupReencodes(vs);
      SpareBitsOfTail(vs);
      SextetsReencode(vs[4..]);
      SameFront(vs[..4], ToSextets(FromSextets(vs[4..]).value), vs[4..]);
      assert vs == vs[..4] + vs[4..];
    }
  }

  lemma SameFront<T>(front: seq<T>, a: seq<T>, b: seq<T>)
    ensures front + a == front + b <==> a == b
  {
    assert (front + a)[|front|..] == a && (front + b)[|front|..] == b;
  }

  // ----- sextets and symbols -----

  function Symbol(v: Sextet): char {
    if v < 26 then 'A' + v as char
    else if v < 52 then 'a' + (v - 26) as char
    else if v < 62 then '0' + (v - 52) as char
    else if v == 62 then '-'
    else '_'
  }

  predicate IsSymbol(c: char) {
    'A' <= c <= 'Z' || 'a' <= c <= 'z' || '0' <= c <= '9' || c == '-' || c == '_'
  }

  function SymbolValue(c: char): (v: Sextet)
    requires IsSymbol(c)
    ensures Symbol(v) == c
  {
    if 'A' <= c <= 'Z' then (c - 'A') as int
    else if 'a' <= c <= 'z' then (c - 'a') as int + 26
    else if '0' <= c <= '9' then (c - '0') as int + 52
    else if c == '-' then 62
    else 63
  }

  predicate AllSymbols(text: string) {
    forall c | c in text :: IsSymbol(c)
  }

  lemma SymbolReadsBack(v: Sextet)
    ensures IsSymbol(Symbol(v)) && SymbolValue(Symbol(v)) == v
  {
  }

  function Symbols(vs: seq<Sextet>): (text: string)
    ensures |text| == |vs| && AllSymbols(text)
  {
    seq(|vs|, i requires 0 <= i < |vs| => Symbol(vs[i]))
  }

  function Values(text: string): (vs: seq<Sextet>)
    requires AllSymbols(text)
    ensures |vs| == |text| && Symbols(vs) == text
  {
    seq(|text|, i requires 0 <= i < |text| => SymbolValue(text[i]))
  }

  lemma ValuesOfSymbols(vs: seq<Sextet>)
    ensures Values(Symbols(vs)) == vs
  {
    forall i | 0 <= i < |vs|
      ensures Values(Symbols(vs))[i] == vs[i]
    {
      SymbolReadsBack(vs[i]);
    }
  }

  function Encode(bytes: Octets): (text: string)
    ensures AllSymbols(text)
  {
    Symbols(ToSextets(bytes))
  }

  function Decode(text: string): Option<Octets> {
    if AllSymbols(text) then FromSextets(Values(text)) else None
  }

  /** Decoding undoes encoding on every byte string. */
  lemma RoundTrip(bytes: Octets)
    ensures Decode(Encode(bytes)) == Some(bytes)
  {
    ValuesOfSymbols(ToSextets(bytes));
    SextetsRoundTrip(bytes);
  }

  /** Decoding is not injective: a text is the encoding of what it decodes to exactly when its spare
      bits are zero. Any other setting of them is another text for the same bytes. */
  lemma ReencodesIffSpareBitsClear(text: string)
    requires AllSymbols(text) && Decode(text).Some?
    ensures Encode(Decode(text).value) == text <==> SpareBitsClear(Values(text))
  {
    SextetsReencode(Values(text));
    var again := ToSextets(Decode(text).value);
    ValuesOfSymbols(again);
  }

  // ----- what each library takes besides -----

  /** base64.RawURLEncoding.DecodeString skips line breaks, and refuses padding. */
  function GoDecode(text: string): Option<Octets> {
    Decode(WithoutLineBreaks(text))
  }

  function WithoutLineBreaks(text: string): string {
    if text == "" then ""
    else (if text[0] == '\r' || text[0] == '\n' then "" else text[..1]) + WithoutLineBreaks(text[1..])
  }

  /** java.util.Base64.getUrlDecoder() takes a token with or without its padding, and no line break. */
  function JavaDecode(text: string): Option<Octets> {
    var n := |text|;
    if n >= 4 && n % 4 == 0 && text[n - 2..] == "==" then Decode(text[..n - 2])
    else if n >= 4 && n % 4 == 0 && text[n - 1] == '=' then Decode(text[..n - 1])
    else Decode(text)
  }

  lemma {:induction false} SymbolsAreKept(text: string)
    requires AllSymbols(text)
    ensures WithoutLineBreaks(text) == text
  {
    if text != "" {
      SymbolsAreKept(text[1..]);
      assert text[0] in text;
      assert text == text[..1] + text[1..];
    }
  }

  /** Whatever either library encoded, both decode to the same bytes. */
  lemma LibrariesReadEncoded(bytes: Octets)
    ensures GoDecode(Encode(bytes)) == Some(bytes) && JavaDecode(Encode(bytes)) == Some(bytes)
  {
    var text := Encode(bytes);
    RoundTrip(bytes);
    SymbolsAreKept(text);
    if text != "" {
      assert text[|text| - 1] in text;
      if |text| >= 2 { assert text[|text| - 2..][1] == text[|text| - 1]; }
    }
  }
}
