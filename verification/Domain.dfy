/** The vocabulary of the walk: rows, positions, the two sort orders and what a query asks for. */
module Domain {
  const DEFAULT_LIMIT := 20
  const MAX_LIMIT := 100

  /** One row of `transactions`. `createdAt` counts microseconds since the Unix epoch, the precision
      of a `timestamptz`. */
  datatype Row = Row(id: int, accountId: int, amountCents: int, labelText: string, createdAt: int)

  /** The sort key of a row, and the position a page resumes from. */
  datatype Bound = Bound(createdAt: int, id: int)

  function KeyOf(row: Row): Bound {
    Bound(row.createdAt, row.id)
  }

  /** The direction of one ORDER BY column. */
  datatype Direction = ASC | DESC

  /** The two ORDER BY columns. SQL lets each have its own direction. */
  datatype Order = Order(createdAt: Direction, id: Direction)

  /** The operator of a tuple comparison with the bound. */
  datatype Comparison = Less | Greater

  datatype Sort = CreatedAtDesc | CreatedAtAsc {
    predicate Descending() {
      this != CreatedAtAsc
    }

    function Text(): string {
      match this
      case CreatedAtDesc => "created_at:desc"
      case CreatedAtAsc => "created_at:asc"
    }

    function SqlDirection(): Direction {
      match this
      case CreatedAtDesc => DESC
      case CreatedAtAsc => ASC
    }

    function SqlBoundOperator(): Comparison {
      match this
      case CreatedAtDesc => Less
      case CreatedAtAsc => Greater
    }

    /** The ORDER BY both implementations write for this sort. */
    function Ordering(): Order {
      Order(SqlDirection(), SqlDirection())
    }
  }

  /** Everything a walk is bound to. `accountId` is 0 when no account filter applies. */
  datatype ListQuery = ListQuery(accountId: int, status: string, sort: Sort)

  datatype ListParams = ListParams(query: ListQuery, limit: int, cursor: string)

  datatype KeysetPage = KeysetPage(rows: seq<Row>, next: string, hasMore: bool)

  /** The ways a listing can fail once its parameters are accepted. */
  datatype Failure = InvalidCursor | CursorExpired | FilterMismatch | DatabaseFailure

  /** The primary key of the table: no two rows share an id. */
  ghost predicate UniqueIds(rows: set<Row>) {
    forall a, b | a in rows && b in rows && a.id == b.id :: a == b
  }

  type Table = rows: set<Row> | UniqueIds(rows) witness {}

  function Elements<T>(rows: seq<T>): set<T> {
    set row | row in rows
  }

  function Min(a: int, b: int): int {
    if a < b then a else b
  }

  function Max(a: int, b: int): int {
    if a < b then b else a
  }
}
