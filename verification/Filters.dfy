/** The binding of a token to the filters it was issued for. */
module Filters {
  import opened Domain
  import opened Bytes
  import opened Decimal
  import GoCursor
  import JavaCodec
  import Base64Url

  /** The text up to the first bar and the text after it. */
  function FirstBar(text: string): nat {
    if text == "" || text[0] == '|' then 0 else 1 + FirstBar(text[1..])
  }

  lemma {:induction false} FirstBarStops(before: string, rest: string)
    requires '|' !in before
    ensures FirstBar(before + ("|" + rest)) == |before|
  {
    var text := before + ("|" + rest);
    if before == "" {
      assert text == "|" + rest;
    } else {
      assert text[1..] == before[1..] + ("|" + rest);
      FirstBarStops(before[1..], rest);
    }
  }

  lemma IntTextHasNoBar(n: int)
    ensures '|' !in IntText(n)
  {
  }

  lemma {:induction false} IntTextIsInjective(m: int, n: int)
    requires IntText(m) == IntText(n)
    ensures m == n
  {
    var a, b := if m < 0 then -m else m, if n < 0 then -n else n;
    NatTextRoundTrip(a);
    NatTextRoundTrip(b);
    assert NatText(a)[0] in NatText(a) && NatText(b)[0] in NatText(b);
    assert m < 0 ==> IntText(m)[1..] == NatText(a);
    assert n < 0 ==> IntText(n)[1..] == NatText(b);
  }

  /** The bar cannot be confused with one in the status: the account is digits, and neither sort
      contains a bar. So the preimage determines the three filters. */
  lemma PreimageIsInjective(a: ListQuery, b: ListQuery)
    requires GoCursor.Preimage(a.accountId, a.status, a.sort.Text())
          == GoCursor.Preimage(b.accountId, b.status, b.sort.Text())
    ensures a == b
  {
    var p, q := a.status + ("|" + a.sort.Text()), b.status + ("|" + b.sort.Text());
    IntTextHasNoBar(a.accountId);
    IntTextHasNoBar(b.accountId);
    FirstBarStops(IntText(a.accountId), p);
    FirstBarStops(IntText(b.accountId), q);
    SameSplit(IntText(a.accountId), p, IntText(b.accountId), q);
    IntTextIsInjective(a.accountId, b.accountId);
    StatusSplit(a.status, a.sort, b.status, b.sort);
  }

  lemma SameSplit(a: string, p: string, b: string, q: string)
    requires a + ("|" + p) == b + ("|" + q) && |a| == |b|
    ensures a == b && p == q
  {
    var whole := a + ("|" + p);
    assert a == whole[..|a|] == b;
    assert p == whole[|a| + 1..] == q;
  }

  lemma SortEndsDifferently(status: string, sort: Sort)
    ensures var text := status + ("|" + sort.Text());
            |text| >= 4 && text[|text| - 4] == if sort == CreatedAtDesc then 'd' else ':'
  {
  }

  lemma StatusSplit(s: string, sort: Sort, t: string, other: Sort)
    requires s + ("|" + sort.Text()) == t + ("|" + other.Text())
    ensures s == t && sort == other
  {
    SortEndsDifferently(s, sort);
    SortEndsDifferently(t, other);
    SameSplit(s, sort.Text(), t, other.Text());
  }

  /** Both implementations hash the same text. */
  lemma FingerprintsAgree(sha256: Octets -> Digest, query: ListQuery)
    ensures GoCursor.Fingerprint(sha256, query) == JavaCodec.Fingerprint(sha256, query)
  {
    var account, status, sort := IntText(query.accountId), query.status, query.sort.Text();
    assert account + "|" + status + "|" + sort == GoCursor.Preimage(query.accountId, status, sort);
  }

  /** Two different texts whose hashes agree on their first eight bytes. */
  predicate Collision(sha256: Octets -> Digest, a: string, b: string) {
    a != b && sha256(Utf8(a))[..GoCursor.FINGERPRINT_BYTES] == sha256(Utf8(b))[..GoCursor.FINGERPRINT_BYTES]
  }

  /** Fingerprints agree exactly for the same filters, or on a collision of the truncated hash. */
  lemma FingerprintBinds(sha256: Octets -> Digest, a: ListQuery, b: ListQuery)
    ensures GoCursor.Fingerprint(sha256, a) == GoCursor.Fingerprint(sha256, b)
       <==> (a == b || Collision(sha256, GoCursor.Preimage(a.accountId, a.status, a.sort.Text()),
                                         GoCursor.Preimage(b.accountId, b.status, b.sort.Text())))
  {
    var p, q := GoCursor.Preimage(a.accountId, a.status, a.sort.Text()),
                GoCursor.Preimage(b.accountId, b.status, b.sort.Text());
    if p == q {
      PreimageIsInjective(a, b);
    }
    Base64Url.RoundTrip(sha256(Utf8(p))[..GoCursor.FINGERPRINT_BYTES]);
    Base64Url.RoundTrip(sha256(Utf8(q))[..GoCursor.FINGERPRINT_BYTES]);
  }

  /** A fingerprint needs no escaping, so the writer that never escapes may carry it. */
  lemma FingerprintIsPlain(sha256: Octets -> Digest, query: ListQuery)
    ensures JavaCodec.Plain(GoCursor.Fingerprint(sha256, query))
  {
  }
}
