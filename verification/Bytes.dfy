/** Octets, and UTF-8 (RFC 3629): the bytes both implementations take of their strings. A Dafny string
    is a sequence of Unicode scalar values. */
module Bytes {
  import opened Wrappers

  type Byte = b: int | 0 <= b < 256

  type Octets = seq<Byte>

  /** The output of HMAC-SHA256 and of SHA-256. */
  type Digest = bytes: Octets | |bytes| == 32 witness seq(32, _ => 0)

  function CharBytes(c: char): (bytes: Octets)
    ensures 1 <= |bytes| <= 4
  {
    var v := c as int;
    if v < 0x80 then [v]
    else if v < 0x800 then [0xC0 + v / 64, 0x80 + v % 64]
    else if v < 0x10000 then [0xE0 + v / 4096, 0x80 + v / 64 % 64, 0x80 + v % 64]
    else [0xF0 + v / 262144, 0x80 + v / 4096 % 64, 0x80 + v / 64 % 64, 0x80 + v % 64]
  }

  function Utf8(text: string): Octets {
    if text == [] then [] else CharBytes(text[0]) + Utf8(text[1..])
  }

  function Scalar(v: int): Option<char> {
    if 0 <= v < 0xD800 || 0xE000 <= v <= 0x10FFFF then Some(v as char) else None
  }

  predicate Continues(bytes: Octets, n: nat) {
    n < |bytes| && forall i | 1 <= i <= n :: 0x80 <= bytes[i] < 0xC0
  }

  /** The six bits a continuation byte carries. */
  function Low(b: Byte): int {
    b as int - 0x80
  }

  /** The scalar value a byte sequence starts with, and how many bytes it takes. Overlong forms and
      surrogates are refused. */
  function LeadingChar(bytes: Octets): Option<(char, nat)>
    requires bytes != []
  {
    var b0: int := bytes[0];
    if b0 < 0x80 then Some((b0 as char, 1))
    else if 0xC2 <= b0 < 0xE0 && Continues(bytes, 1) then
      Some((((b0 - 0xC0) * 64 + Low(bytes[1])) as char, 2))
    else if 0xE0 <= b0 < 0xF0 && Continues(bytes, 2) then
      var v := (b0 - 0xE0) * 4096 + Low(bytes[1]) * 64 + Low(bytes[2]);
      if v < 0x800 || Scalar(v).None? then None else Some((Scalar(v).value, 3))
    else if 0xF0 <= b0 < 0xF5 && Continues(bytes, 3) then
      var v := (b0 - 0xF0) * 262144 + Low(bytes[1]) * 4096 + Low(bytes[2]) * 64 + Low(bytes[3]);
      if v < 0x10000 || Scalar(v).None? then None else Some((Scalar(v).value, 4))
    else None
  }

  function FromUtf8(bytes: Octets): Option<string> {
    if bytes == [] then Some("") else
      var (c, width) :- LeadingChar(bytes);
      if width > |bytes| || width == 0 then None else
        var rest :- FromUtf8(bytes[width..]);
        Some([c] + rest)
  }

  lemma SixBits(v: int)
    requires v >= 0
    ensures v == v / 64 * 64 + v % 64
    ensures v == v / 4096 * 4096 + v / 64 % 64 * 64 + v % 64
    ensures v == v / 262144 * 262144 + v / 4096 % 64 * 4096 + v / 64 % 64 * 64 + v % 64
  {
    var w, x := v / 64, v / 4096;
    assert x == w / 64;
    assert v / 262144 == x / 64;
    assert w == x * 64 + w % 64;
    assert x == x / 64 * 64 + x % 64;
  }

  lemma LeadingCharReads(c: char, rest: Octets)
    ensures LeadingChar(CharBytes(c) + rest) == Some((c, |CharBytes(c)|))
  {
    var v, bytes := c as int, CharBytes(c) + rest;
    SixBits(v);
    if v < 0x800 {
    } else if v < 0x10000 {
      assert Continues(bytes, 2);
    } else {
      assert Continues(bytes, 3);
    }
  }

  /** Decoding undoes encoding, so distinct strings have distinct bytes. */
  lemma {:induction false} Utf8RoundTrip(text: string)
    ensures FromUtf8(Utf8(text)) == Some(text)
  {
    if text != [] {
      var rest := Utf8(text[1..]);
      LeadingCharReads(text[0], rest);
      Utf8RoundTrip(text[1..]);
      assert (CharBytes(text[0]) + rest)[|CharBytes(text[0])|..] == rest;
      assert text == [text[0]] + text[1..];
    }
  }
}
