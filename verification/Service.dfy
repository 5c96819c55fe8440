/** The page step of both services: a request with an optional token becomes one statement, and the last
    row kept becomes the next token. */
module Service {
  import opened Wrappers
  import opened Domain
  import opened Queries
  import opened Walk
  import opened Timestamp
  import opened Seal
  import opened Tokens
  import Filters
  import GoCursor
  import JavaCodec

  /** The table as one statement sees it, or a failing database. */
  datatype Database = Up(table: Table) | Down

  // ----- what a page request means -----

  function CursorAt(secret: Secret, query: ListQuery, bound: Bound, issuedAt: int): Cursor {
    GoCursor.Cursor(bound.createdAt * MICROSECOND, bound.id, query.sort.Descending(),
                    GoCursor.Fingerprint(secret.sha256, query), issuedAt)
  }

  /** The position a token stands for under the query asked now. The two implementations name a
      contradicting direction differently. */
  function Resume(server: Dialect, secret: Secret, query: ListQuery, token: string, now: int): Result<Position, Failure> {
    if token == "" then Ok(Start) else
      match Read(server, secret, token, now)
      case Err(e) => Err(e)
      case Ok(c) =>
        if c.fingerprint != GoCursor.Fingerprint(secret.sha256, query) then Err(FilterMismatch)
        else if c.descending != query.sort.Descending() then Err(if server == Go then FilterMismatch else InvalidCursor)
        else Ok(After(Bound(c.createdAt / MICROSECOND, c.id)))
  }

  /** The page at a position: the walk's own page, and a token for where it ends. */
  function Answer(server: Dialect, secret: Secret, query: ListQuery, limit: nat, position: Position, table: Table,
                  issuedAt: int): KeysetPage
    requires limit >= 1
  {
    var rows, end := PageRows(query, position, limit, table), PageEnd(query, position, limit, table);
    if end.After? then KeysetPage(rows, Issued(server, secret, CursorAt(secret, query, end.bound, issuedAt)), true)
    else KeysetPage(rows, "", false)
  }

  function Listed(server: Dialect, secret: Secret, query: ListQuery, limit: nat, token: string, db: Database,
                  checkedAt: int, issuedAt: int): Result<KeysetPage, Failure>
    requires limit >= 1
  {
    match Resume(server, secret, query, token, checkedAt)
    case Err(e) => Err(e)
    case Ok(position) =>
      if db.Down? then Err(DatabaseFailure)
      else Ok(Answer(server, secret, query, limit, position, db.table, issuedAt))
  }

  // ----- the extra row -----

  function Trim(rows: seq<Row>, limit: nat): (seq<Row>, bool) {
    if |rows| > limit then (rows[..limit], true) else (rows, false)
  }

  /** Fetching one row more than the page tells whether the walk goes on, and the row never leaves. */
  lemma ExtraRow(query: ListQuery, position: Position, limit: nat, table: Table)
    requires limit >= 1
    ensures var (rows, hasMore) := Trim(PageRows(query, position, limit + 1, table), limit);
            var end := PageEnd(query, position, limit, table);
            && rows == PageRows(query, position, limit, table)
            && hasMore == end.After?
            && (hasMore ==> |rows| == limit && end.bound == KeyOf(rows[|rows| - 1]))
  {
  }

  /** The page and the token built from limit + 1 fetched rows. */
  function PageOf(server: Dialect, secret: Secret, query: ListQuery, limit: nat, fetched: seq<Row>, issuedAt: int)
    : KeysetPage
    requires limit >= 1
  {
    var (rows, hasMore) := Trim(fetched, limit);
    KeysetPage(
      rows,
      if hasMore then Issued(server, secret, CursorAt(secret, query, KeyOf(rows[|rows| - 1]), issuedAt)) else "",
      hasMore)
  }

  lemma FetchedAnswers(server: Dialect, secret: Secret, query: ListQuery, limit: nat, position: Position,
                       table: Table, issuedAt: int)
    requires limit >= 1
    ensures PageOf(server, secret, query, limit, PageRows(query, position, limit + 1, table), issuedAt)
         == Answer(server, secret, query, limit, position, table, issuedAt)
  {
    ExtraRow(query, position, limit, table);
  }

  lemma ListedFrom(server: Dialect, secret: Secret, query: ListQuery, limit: nat, token: string, db: Database,
                   position: Position, checkedAt: int, issuedAt: int)
    requires limit >= 1 && db.Up? && Resume(server, secret, query, token, checkedAt) == Ok(position)
    ensures Listed(server, secret, query, limit, token, db, checkedAt, issuedAt)
         == Ok(PageOf(server, secret, query, limit, PageRows(query, position, limit + 1, db.table), issuedAt))
  {
    FetchedAnswers(server, secret, query, limit, position, db.table, issuedAt);
  }

  /** What a page tells its reader. It holds at most `limit` rows, and a full page exactly when it is not the
      last. `has_more` and a non-empty `next` say the same thing: that some matching row past the
      position asked for, in the table this page was read from, is not on the page. */
  lemma PageTellsTheEnd(server: Dialect, secret: Secret, query: ListQuery, limit: nat, position: Position,
                        table: Table, issuedAt: int)
    requires limit >= 1
    ensures var page := Answer(server, secret, query, limit, position, table, issuedAt);
            && |page.rows| <= limit
            && (page.hasMore ==> |page.rows| == limit)
            && (page.hasMore <==> page.next != "")
            && (page.hasMore <==> exists row :: row in Remaining(query, position, table) && row !in page.rows)
  {
    hide Remaining, Issued, CursorAt;
    HasMoreIsExact(query, position, limit, table);
    var end := PageEnd(query, position, limit, table);
    if end.After? {
      IssuedIsNotEmpty(server, secret, CursorAt(secret, query, end.bound, issuedAt));
    }
  }

  /** A failing database is never the end of a walk: no token turns it into a page, and a first page says
      what failed. */
  lemma FailureIsNotTheEnd(server: Dialect, secret: Secret, query: ListQuery, limit: nat, token: string,
                           checkedAt: int, issuedAt: int)
    requires limit >= 1
    ensures var outcome := Listed(server, secret, query, limit, token, Down, checkedAt, issuedAt);
            && outcome.Err?
            && (outcome == Err(DatabaseFailure) <==> token == "" || Resume(server, secret, query, token, checkedAt).Ok?)
            && forall table ::
                 outcome != Err(DatabaseFailure) ==>
                   Listed(server, secret, query, limit, token, Up(table), checkedAt, issuedAt) == outcome
  {
    hide Read, Answer;
    ReadNeverBlamesDatabase(server, secret, token, checkedAt);
  }

  lemma ReadNeverBlamesDatabase(server: Dialect, secret: Secret, token: string, now: int)
    ensures Read(server, secret, token, now) != Err(DatabaseFailure)
  {
    if Read(server, secret, token, now) != Err(InvalidCursor) {
      AcceptedIsSealed(server, secret, token, now);
      var payload :| payload != [] && RawBytes(server, token) == Some(secret.mac(secret.key, payload) + payload);
      SealedTextReads(server, secret, token, payload, now);
    }
  }

  // ----- the Go service -----

  /** The cursor checks of Transactions.List: signature, age, filters, direction. */
  method CheckCursor(secret: Secret, q: ListQuery, token: string, now: int) returns (after: Result<Bound, Failure>)
    requires token != ""
    ensures Resume(Go, secret, q, token, now)
         == (match after case Err(e) => Err(e) case Ok(bound) => Ok(After(bound)))
  {
    var fingerprint := GoCursor.Fingerprint(secret.sha256, q);
    var decoded := GoCursor.DecodeAt(secret, token, now);
    if decoded.Err? {
      return Err(decoded.error);
    }
    var position := decoded.value;
    if position.fingerprint != fingerprint {
      return Err(FilterMismatch);
    }
    if position.descending != q.sort.Descending() {
      return Err(FilterMismatch);
    }
    return Ok(Bound(position.createdAt / MICROSECOND, position.id));
  }

  /** Transactions.List. The clock is read once to check the token and once to stamp the next one. */
  method List(secret: Secret, params: ListParams, db: Database, checkedAt: int, issuedAt: int)
    returns (r: Result<KeysetPage, Failure>)
    requires params.limit >= 1
    ensures r == Listed(Go, secret, params.query, params.limit, params.cursor, db, checkedAt, issuedAt)
  {
    hide Read, Answer, PageOf, PageRows, FirstPage, NextPage;
    var q := params.query;
    var fetch := params.limit + 1;
    var rows: seq<Row>;
    ghost var from := Start;
    if params.cursor == "" {
      if db.Down? {
        return Err(DatabaseFailure);
      }
      rows := FirstPage(q, fetch, db.table);
      FirstPageIsHead(q, fetch, db.table);
    } else {
      var after := CheckCursor(secret, q, params.cursor, checkedAt);
      if after.Err? {
        return Err(after.error);
      }
      if db.Down? {
        return Err(DatabaseFailure);
      }
      rows := NextPage(q, after.value, fetch, db.table);
      NextPageIsTail(q, after.value, fetch, db.table);
      from := After(after.value);
    }
    ListedFrom(Go, secret, q, params.limit, params.cursor, db, from, checkedAt, issuedAt);
    var page := FinishPage(secret, q, params.limit, rows, issuedAt);
    return Ok(page);
  }

  /** The end of Transactions.List: drop the extra row, sign a cursor for the last row kept. */
  method FinishPage(secret: Secret, q: ListQuery, limit: nat, fetched: seq<Row>, issuedAt: int)
    returns (page: KeysetPage)
    requires limit >= 1
    ensures page == PageOf(Go, secret, q, limit, fetched, issuedAt)
  {
    var (rows, hasMore) := Trim(fetched, limit);
    var next := "";
    if hasMore {
      var last := rows[|rows| - 1];
      next := GoCursor.Encode(secret, GoCursor.Cursor(
        last.createdAt * MICROSECOND, last.id, q.sort.Descending(), GoCursor.Fingerprint(secret.sha256, q), issuedAt));
    }
    page := KeysetPage(rows, next, hasMore);
  }

  // ----- the Java service -----

  /** TransactionService.decodeAgainst */
  function DecodeAgainst(secret: Secret, query: ListQuery, token: string, fingerprint: string, now: int)
    : Result<JavaCodec.Cursor, Failure>
  {
    var cursor := JavaCodec.Decoded(secret, token, now);
    if cursor.Err? then cursor
    else if cursor.value.fingerprint != fingerprint then Err(FilterMismatch)
    else if cursor.value.descending != query.sort.Descending() then Err(InvalidCursor)
    else cursor
  }

  /** TransactionService.nextCursorAfter */
  function NextCursorAfter(secret: Secret, rows: seq<Row>, query: ListQuery, fingerprint: string, now: int): string
    requires rows != []
  {
    var last := rows[|rows| - 1];
    JavaCodec.Encoded(secret, JavaCodec.Issue(
      last.createdAt * MICROSECOND, last.id, query.sort.Descending(), fingerprint, now))
  }

  datatype JavaPage = JavaPage(rows: seq<Row>, nextCursor: Option<string>, hasMore: bool)

  function BoundOf(c: JavaCodec.Cursor): Bound {
    Bound(c.createdAt / MICROSECOND, c.id)
  }

  /** What TransactionService.list does once the cursor is decoded. */
  function JavaPageAt(secret: Secret, query: ListQuery, limit: nat, after: Option<Bound>, table: Table, issuedAt: int)
    : JavaPage
    requires limit >= 1
  {
    var fetched := JavaFetch(query, after, limit + 1, table);
    var hasMore := |fetched| > limit;
    var rows := if hasMore then fetched[..limit] else fetched;
    var fingerprint := JavaCodec.Fingerprint(secret.sha256, query);
    JavaPage(rows, if hasMore then Some(NextCursorAfter(secret, rows, query, fingerprint, issuedAt)) else None, hasMore)
  }

  /** TransactionService.list */
  function JavaList(secret: Secret, query: ListQuery, limit: nat, token: Option<string>, db: Database,
                    checkedAt: int, issuedAt: int): Result<JavaPage, Failure>
    requires limit >= 1
  {
    var fingerprint := JavaCodec.Fingerprint(secret.sha256, query);
    var cursor := if token.None? then None else Some(DecodeAgainst(secret, query, token.value, fingerprint, checkedAt));
    if cursor.Some? && cursor.value.Err? then Err(cursor.value.error)
    else if db.Down? then Err(DatabaseFailure)
    else
      var after := if cursor.None? then None else Some(BoundOf(cursor.value.value));
      Ok(JavaPageAt(secret, query, limit, after, db.table, issuedAt))
  }

  /** A Java page in the terms of the contract, where the end of the walk is an absent token. */
  function ContractPage(page: Result<JavaPage, Failure>): Result<KeysetPage, Failure> {
    match page
    case Err(e) => Err(e)
    case Ok(p) => Ok(KeysetPage(p.rows, if p.nextCursor.Some? then p.nextCursor.value else "", p.hasMore))
  }

  function PositionAfter(after: Option<Bound>): Position {
    match after
    case None => Start
    case Some(bound) => After(bound)
  }

  lemma JavaFetchIsPage(query: ListQuery, after: Option<Bound>, limit: nat, table: Table)
    requires query.accountId >= 0
    ensures JavaFetch(query, after, limit, table)
         == PageRows(query, PositionAfter(after), limit, table)
  {
    RepositoriesAgree(query);
    match after {
      case None => FirstPageIsHead(query, limit, table);
      case Some(bound) => NextPageIsTail(query, bound, limit, table);
    }
  }

  lemma JavaResumes(secret: Secret, query: ListQuery, token: string, now: int)
    requires token != ""
    ensures Resume(Java, secret, query, token, now)
         == match DecodeAgainst(secret, query, token, JavaCodec.Fingerprint(secret.sha256, query), now)
            case Err(e) => Err(e)
            case Ok(c) => Ok(After(BoundOf(c)))
  {
    Filters.FingerprintsAgree(secret.sha256, query);
  }

  lemma JavaPageAnswers(secret: Secret, query: ListQuery, limit: nat, after: Option<Bound>, table: Table, issuedAt: int)
    requires limit >= 1 && query.accountId >= 0
    ensures ContractPage(Ok(JavaPageAt(secret, query, limit, after, table, issuedAt)))
         == Ok(Answer(Java, secret, query, limit, PositionAfter(after), table, issuedAt))
  {
    hide Answer, PageOf, JavaPageAt, JavaFetch, PageRows;
    JavaPageIsPageOf(secret, query, limit, after, table, issuedAt);
    JavaFetchIsPage(query, after, limit + 1, table);
    FetchedAnswers(Java, secret, query, limit, PositionAfter(after), table, issuedAt);
  }

  lemma JavaPageIsPageOf(secret: Secret, query: ListQuery, limit: nat, after: Option<Bound>, table: Table, issuedAt: int)
    requires limit >= 1
    ensures ContractPage(Ok(JavaPageAt(secret, query, limit, after, table, issuedAt)))
         == Ok(PageOf(Java, secret, query, limit, JavaFetch(query, after, limit + 1, table), issuedAt))
  {
    hide JavaFetch, GoCursor.Fingerprint, JavaCodec.Fingerprint, JavaCodec.Encoded;
    Filters.FingerprintsAgree(secret.sha256, query);
  }

  /** TransactionService.list is the same page step. */
  lemma JavaListIsListed(secret: Secret, query: ListQuery, limit: nat, token: Option<string>, db: Database,
                         checkedAt: int, issuedAt: int)
    requires limit >= 1 && query.accountId >= 0 && token != Some("")
    ensures ContractPage(JavaList(secret, query, limit, token, db, checkedAt, issuedAt))
         == Listed(Java, secret, query, limit, if token.None? then "" else token.value, db, checkedAt, issuedAt)
  {
    var after := None;
    if token.Some? {
      JavaResumes(secret, query, token.value, checkedAt);
      var cursor := DecodeAgainst(secret, query, token.value, JavaCodec.Fingerprint(secret.sha256, query), checkedAt);
      if cursor.Ok? {
        after := Some(BoundOf(cursor.value));
      }
    }
    if db.Up? {
      JavaPageAnswers(secret, query, limit, after, db.table, issuedAt);
    }
  }
}
