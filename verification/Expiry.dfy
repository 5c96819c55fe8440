/** The two expiry tests: Go subtracts and saturates, Java adds. Instants and `ttl` are nanoseconds. */
module Expiry {
  import GoCursor
  import JavaCodec

  const SECOND := GoCursor.SECOND
  const MAX_DURATION := GoCursor.MAX_DURATION

  /** The two tests agree at every instant before the deadline, and beyond it exactly for a positive
      `ttl` short of the largest Duration: Go lets any other `ttl` run for ever. */
  lemma TestsAgree(ttl: int, issuedAt: int, now: int)
    requires ttl <= MAX_DURATION
    ensures (GoCursor.Expired(ttl, issuedAt, now) <==> JavaCodec.Expired(ttl, issuedAt, now))
       <==> (0 < ttl < MAX_DURATION || now <= issuedAt * SECOND + ttl)
  {
  }

  /** Both tests in numbers, with dates in seconds and everything else in nanoseconds. */
  lemma TestsWrittenOut(ttl: int, issuedAt: int, now: int)
    ensures GoCursor.Expired(ttl, issuedAt, now)
       <==> 0 < ttl < 9_223_372_036_854_775_807 && now - issuedAt * 1_000_000_000 > ttl
    ensures JavaCodec.Expired(ttl, issuedAt, now) <==> now - issuedAt * 1_000_000_000 > ttl
  {
  }

  /** A token issued at instant `issued` is stamped with the second it was issued in. It is accepted at
      least until one second short of its `ttl`, and refused once the `ttl` is over. */
  lemma LifeOfToken(ttl: int, issued: int, now: int)
    requires 0 < ttl < MAX_DURATION
    ensures issued <= now <= issued + ttl - SECOND ==> !GoCursor.Expired(ttl, issued / SECOND, now)
    ensures now > issued + ttl ==> GoCursor.Expired(ttl, issued / SECOND, now)
  {
    assert issued - SECOND < issued / SECOND * SECOND <= issued;
  }

  /** Once expired, a token stays expired. */
  lemma ExpiryIsFinal(ttl: int, issuedAt: int, now: int, later: int)
    requires ttl < MAX_DURATION && now <= later
    ensures GoCursor.Expired(ttl, issuedAt, now) ==> GoCursor.Expired(ttl, issuedAt, later)
    ensures JavaCodec.Expired(ttl, issuedAt, now) ==> JavaCodec.Expired(ttl, issuedAt, later)
  {
  }
}
