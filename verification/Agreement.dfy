/** Tokens at the service boundary: what replaying an issued token does, under the same query or another,
    on the server that issued it or on the other one. */
module Agreement {
  import opened Wrappers
  import opened Domain
  import opened Walk
  import opened Timestamp
  import opened Payload
  import opened Seal
  import opened Tokens
  import opened Service
  import Filters
  import GoCursor

  /** A position the token format can carry, and a clock it can stamp. */
  predicate Carriable(bound: Bound, issuedAt: int) {
    && FitsInt64(bound.id) && Stampable(issuedAt)
    && -999_999_999 <= YearOfInstant(bound.createdAt) <= 999_999_999
  }

  lemma CursorIsIssuable(writer: Dialect, secret: Secret, query: ListQuery, bound: Bound, issuedAt: int)
    requires Carriable(bound, issuedAt)
    ensures var c := CursorAt(secret, query, bound, issuedAt);
            Issuable(writer, c) && YearOf(c) == YearOfInstant(bound.createdAt)
            && Floored(c).createdAt == bound.createdAt * MICROSECOND
  {
    Filters.FingerprintIsPlain(secret.sha256, query);
    assert bound.createdAt * MICROSECOND / MICROSECOND == bound.createdAt;
  }

  /** The result of replaying a token, whatever it was issued for: the outcome of reading it, then of
      comparing its filters and its direction with the query's. */
  lemma ReplayOutcome(writer: Dialect, server: Dialect, secret: Secret, query: ListQuery, c: Cursor, now: int)
    requires Issuable(writer, c)
    ensures Resume(server, secret, query, Issued(writer, secret, c), now)
         == if !Readable(writer, server, YearOf(c)) then Err(InvalidCursor)
            else if Expired(server, secret.ttl, c.issuedAt / SECOND, now) then Err(CursorExpired)
            else if c.fingerprint != GoCursor.Fingerprint(secret.sha256, query) then Err(FilterMismatch)
            else if c.descending != query.sort.Descending() then Err(if server == Go then FilterMismatch else InvalidCursor)
            else Ok(After(Bound(c.createdAt / MICROSECOND, c.id)))
  {
    IssuedUnseals(writer, secret, c);
    IssuedTokenReads(writer, server, secret, c, now);
    assert Floored(c).createdAt / MICROSECOND == c.createdAt / MICROSECOND;
  }

  /** Replaying a token on the query it was issued for resumes at exactly the last row returned, while
      the token lives and its year is one both timestamp layouts can carry. */
  lemma ResumeAfterIssue(writer: Dialect, server: Dialect, secret: Secret, query: ListQuery, bound: Bound,
                         issuedAt: int, now: int)
    requires Carriable(bound, issuedAt)
    ensures Resume(server, secret, query, Issued(writer, secret, CursorAt(secret, query, bound, issuedAt)), now)
         == if !Readable(writer, server, YearOfInstant(bound.createdAt)) then Err(InvalidCursor)
            else if Expired(server, secret.ttl, issuedAt / SECOND, now) then Err(CursorExpired)
            else Ok(After(bound))
    ensures Issued(writer, secret, CursorAt(secret, query, bound, issuedAt)) != ""
  {
    hide Resume, Issued, Issuable, Expired, Readable;
    var c := CursorAt(secret, query, bound, issuedAt);
    CursorIsIssuable(writer, secret, query, bound, issuedAt);
    ReplayOutcome(writer, server, secret, query, c, now);
    IssuedUnseals(writer, secret, c);
    assert c.createdAt / MICROSECOND == bound.createdAt;
  }

  /** The direction check of either service never decides without a collision: a token that reads, carries
      the fingerprint asked for and contradicts the direction asked for was issued for another query whose
      preimage collides with the one of this query. */
  lemma DirectionCheckNeedsCollision(writer: Dialect, server: Dialect, secret: Secret, query: ListQuery,
                                     other: ListQuery, bound: Bound, issuedAt: int, now: int)
    requires Carriable(bound, issuedAt)
    requires var read := Read(server, secret, Issued(writer, secret, CursorAt(secret, query, bound, issuedAt)), now);
             && read.Ok?
             && read.value.fingerprint == GoCursor.Fingerprint(secret.sha256, other)
             && read.value.descending != other.sort.Descending()
    ensures Filters.Collision(secret.sha256,
              GoCursor.Preimage(query.accountId, query.status, query.sort.Text()),
              GoCursor.Preimage(other.accountId, other.status, other.sort.Text()))
  {
    hide Read, Issued, Issuable, Expired, Readable, GoCursor.Fingerprint;
    var c := CursorAt(secret, query, bound, issuedAt);
    CursorIsIssuable(writer, secret, query, bound, issuedAt);
    IssuedTokenReads(writer, server, secret, c, now);
    Filters.FingerprintBinds(secret.sha256, query, other);
  }

  /** A token issued for one query and accepted under another exhibits a collision of the truncated
      hash. */
  lemma ForeignTokenNeedsCollision(writer: Dialect, server: Dialect, secret: Secret, query: ListQuery,
                                   other: ListQuery, bound: Bound, issuedAt: int, now: int)
    requires Carriable(bound, issuedAt) && query != other
    requires var c := CursorAt(secret, query, bound, issuedAt);
             var outcome := Resume(server, secret, other, Issued(writer, secret, c), now);
             && Readable(writer, server, YearOf(c)) && !Expired(server, secret.ttl, issuedAt / SECOND, now)
             && outcome != Err(FilterMismatch)
    ensures Filters.Collision(secret.sha256,
              GoCursor.Preimage(query.accountId, query.status, query.sort.Text()),
              GoCursor.Preimage(other.accountId, other.status, other.sort.Text()))
  {
    hide Resume, Issued, Issuable, Expired, Readable;
    var c := CursorAt(secret, query, bound, issuedAt);
    CursorIsIssuable(writer, secret, query, bound, issuedAt);
    ReplayOutcome(writer, server, secret, other, c, now);
    Filters.FingerprintBinds(secret.sha256, query, other);
  }

  /** Every row the page may end on has a year both layouts write alike. */
  predicate SharedYears(table: Table) {
    forall row | row in table :: FitsInt64(row.id) && 0 <= YearOfInstant(row.createdAt) <= 9999
  }

  lemma AnswersAgree(secret: Secret, query: ListQuery, limit: nat, position: Position, table: Table, issuedAt: int)
    requires limit >= 1 && SharedYears(table) && Stampable(issuedAt)
    ensures Answer(Go, secret, query, limit, position, table, issuedAt)
         == Answer(Java, secret, query, limit, position, table, issuedAt)
  {
    var end := PageEnd(query, position, limit, table);
    if end.After? {
      var all := RemainingInOrder(query, position, table);
      assert all[limit - 1] in Elements(all);
      var c := CursorAt(secret, query, end.bound, issuedAt);
      CursorIsIssuable(Java, secret, query, end.bound, issuedAt);
      TokensAgree(secret, c);
    }
  }

  /** One contract, two servers. On the same table, for a first page or for any token either of them
      issued for a shared year, the two servers accept alike, answer the same page with the same token,
      and fail alike; only a direction contradicting its own fingerprint is named differently. */
  lemma ServersAgree(writer: Dialect, secret: Secret, query: ListQuery, limit: nat, token: string, c: Cursor,
                     table: Table, checkedAt: int, issuedAt: int)
    requires limit >= 1 && SharedYears(table) && Stampable(issuedAt)
    requires 0 < secret.ttl < GoCursor.MAX_DURATION
    requires token == "" || (Issuable(writer, c) && token == Issued(writer, secret, c) && 0 <= YearOf(c) <= 9999)
    ensures var go := Listed(Go, secret, query, limit, token, Up(table), checkedAt, issuedAt);
            var java := Listed(Java, secret, query, limit, token, Up(table), checkedAt, issuedAt);
            && (go.Ok? <==> java.Ok?)
            && (go != java ==> go == Err(FilterMismatch) && java == Err(InvalidCursor)
                               && token != "" && c.descending != query.sort.Descending()
                               && c.fingerprint == GoCursor.Fingerprint(secret.sha256, query))
  {
    hide Issued, Issuable, Answer, Read;
    if token != "" {
      ReplayOutcome(writer, Go, secret, query, c, checkedAt);
      ReplayOutcome(writer, Java, secret, query, c, checkedAt);
    }
    var position := Resume(Go, secret, query, token, checkedAt);
    if position.Ok? {
      AnswersAgree(secret, query, limit, position.value, table, issuedAt);
    }
  }
}
