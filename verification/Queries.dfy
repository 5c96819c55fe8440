/** The statements both repositories send, as data, and what PostgreSQL answers to them. */
module Queries {
  import opened Wrappers
  import opened Domain
  import opened Relational

  /** SELECT ... FROM transactions [WHERE account_id = ?] [AND (created_at, id) op (?, ?)]
      ORDER BY ... LIMIT ? [OFFSET ?] */
  datatype Statement = Statement(byAccount: bool, bound: Option<Comparison>, order: Order)

  datatype Arguments = Arguments(accountId: int, after: Bound, limit: nat, offset: nat)

  datatype KeysetQueries = KeysetQueries(
    firstPage: Statement,
    nextPage: Statement,
    firstPageByAccount: Statement,
    nextPageByAccount: Statement)

  const DESCENDING_QUERIES := KeysetQueries(
    Statement(false, None, Order(DESC, DESC)),
    Statement(false, Some(Less), Order(DESC, DESC)),
    Statement(true, None, Order(DESC, DESC)),
    Statement(true, Some(Less), Order(DESC, DESC)))

  const ASCENDING_QUERIES := KeysetQueries(
    Statement(false, None, Order(ASC, ASC)),
    Statement(false, Some(Greater), Order(ASC, ASC)),
    Statement(true, None, Order(ASC, ASC)),
    Statement(true, Some(Greater), Order(ASC, ASC)))

  const OFFSET_PAGE := Statement(false, None, Order(DESC, DESC))
  const OFFSET_PAGE_BY_ACCOUNT := Statement(true, None, Order(DESC, DESC))

  function QueriesFor(sort: Sort): KeysetQueries {
    if sort.Descending() then DESCENDING_QUERIES else ASCENDING_QUERIES
  }

  // ----- what a statement means -----

  predicate TupleLess(a: Bound, b: Bound) {
    a.createdAt < b.createdAt || (a.createdAt == b.createdAt && a.id < b.id)
  }

  predicate Compare(op: Comparison, key: Bound, bound: Bound) {
    match op
    case Less => TupleLess(key, bound)
    case Greater => TupleLess(bound, key)
  }

  predicate Where(statement: Statement, args: Arguments, row: Row) {
    && (statement.byAccount ==> row.accountId == args.accountId)
    && (statement.bound.Some? ==> Compare(statement.bound.value, KeyOf(row), args.after))
  }

  function Window<T>(rows: seq<T>, offset: nat, limit: nat): seq<T> {
    rows[Min(offset, |rows|)..Min(offset + limit, |rows|)]
  }

  function Execute(statement: Statement, args: Arguments, table: Table): seq<Row> {
    Window(
      OrderBy(statement.order, set row | row in table && Where(statement, args, row)),
      args.offset,
      args.limit)
  }

  /** Why `sort` only takes two values: a tuple comparison selects the rows that come after the bound
      exactly when both columns move in its one direction. */
  lemma BoundSelectsWhatFollows(op: Comparison, order: Order)
    ensures (forall key, bound :: Compare(op, key, bound) <==> Before(order, bound, key))
       <==> order == (if op == Less then Order(DESC, DESC) else Order(ASC, ASC))
    ensures forall key, bound :: Compare(op, key, bound) <==>
              if op == Less then key.createdAt < bound.createdAt || (key.createdAt == bound.createdAt && key.id < bound.id)
              else key.createdAt > bound.createdAt || (key.createdAt == bound.createdAt && key.id > bound.id)
  {
    var low, late, high := Bound(0, 0), Bound(1, 0), Bound(0, 1);
    assert Compare(op, late, low) <==> op == Greater;
    assert Compare(op, high, low) <==> op == Greater;
    assert Before(order, low, late) <==> order.createdAt == ASC;
    assert Before(order, low, high) <==> order.id == ASC;
  }

  // ----- the Go repository -----

  function FirstPage(query: ListQuery, limit: nat, table: Table): seq<Row> {
    var queries := QueriesFor(query.sort);
    var args := Arguments(query.accountId, Bound(0, 0), limit, 0);
    if query.accountId > 0 then Execute(queries.firstPageByAccount, args, table)
    else Execute(queries.firstPage, args, table)
  }

  function NextPage(query: ListQuery, after: Bound, limit: nat, table: Table): seq<Row> {
    var queries := QueriesFor(query.sort);
    var args := Arguments(query.accountId, after, limit, 0);
    if query.accountId > 0 then Execute(queries.nextPageByAccount, args, table)
    else Execute(queries.nextPage, args, table)
  }

  function OffsetPage(accountId: int, offset: nat, limit: nat, table: Table): seq<Row> {
    var args := Arguments(accountId, Bound(0, 0), limit, offset);
    if accountId > 0 then Execute(OFFSET_PAGE_BY_ACCOUNT, args, table)
    else Execute(OFFSET_PAGE, args, table)
  }

  datatype QueryFailure = ScanningTransaction | IteratingTransactions

  /** The row-collecting loop: `results` is what the driver yields (None for a row that does not scan)
      and `broken` whether the iteration itself ended on an error. */
  method Collect(results: seq<Option<Row>>, broken: bool) returns (outcome: Result<seq<Row>, QueryFailure>)
    ensures outcome.Err? && outcome.error == ScanningTransaction <==> None in results
    ensures outcome.Err? && outcome.error == IteratingTransactions <==> None !in results && broken
    ensures outcome.Ok? ==> |outcome.value| == |results|
    ensures outcome.Ok? ==> forall i | 0 <= i < |results| :: results[i] == Some(outcome.value[i])
  {
    var transactions: seq<Row> := [];
    var next := 0;
    while next < |results|
      invariant 0 <= next <= |results| && |transactions| == next
      invariant forall i | 0 <= i < next :: results[i] == Some(transactions[i])
    {
      match results[next] {
        case None => return Err(ScanningTransaction);
        case Some(transaction) => transactions := transactions + [transaction];
      }
      next := next + 1;
    }
    if broken {
      return Err(IteratingTransactions);
    }
    return Ok(transactions);
  }

  // ----- the Java repository -----

  function JavaFirstPage(sort: Sort): Statement {
    Statement(false, None, Order(sort.SqlDirection(), sort.SqlDirection()))
  }

  function JavaNextPage(sort: Sort): Statement {
    Statement(false, Some(sort.SqlBoundOperator()), Order(sort.SqlDirection(), sort.SqlDirection()))
  }

  function JavaFirstPageForAccount(sort: Sort): Statement {
    Statement(true, None, Order(sort.SqlDirection(), sort.SqlDirection()))
  }

  function JavaNextPageForAccount(sort: Sort): Statement {
    Statement(true, Some(sort.SqlBoundOperator()), Order(sort.SqlDirection(), sort.SqlDirection()))
  }

  function JavaFetch(query: ListQuery, after: Option<Bound>, limit: nat, table: Table): seq<Row> {
    var hasAccountFilter := query.accountId != 0;
    match after
    case None =>
      var args := Arguments(query.accountId, Bound(0, 0), limit, 0);
      Execute(if hasAccountFilter then JavaFirstPageForAccount(query.sort) else JavaFirstPage(query.sort), args, table)
    case Some(bound) =>
      var args := Arguments(query.accountId, bound, limit, 0);
      Execute(if hasAccountFilter then JavaNextPageForAccount(query.sort) else JavaNextPage(query.sort), args, table)
  }

  function JavaOffsetPage(accountId: int, offset: nat, limit: nat, table: Table): seq<Row> {
    var args := Arguments(accountId, Bound(0, 0), limit, offset);
    if accountId != 0 then Execute(OFFSET_PAGE_BY_ACCOUNT, args, table)
    else Execute(OFFSET_PAGE, args, table)
  }

  /** The two repositories test for the account filter differently (`> 0` and `!= 0`). They answer
      alike on every table exactly when the account id is not negative. */
  lemma RepositoriesAgree(query: ListQuery)
    ensures (forall after, limit: nat, table: Table ::
               JavaFetch(query, after, limit, table)
               == (match after case None => FirstPage(query, limit, table)
                               case Some(bound) => NextPage(query, bound, limit, table)))
       <==> query.accountId >= 0
  {
    if query.accountId < 0 {
      var stranger := Row(1, 0, 0, "", 0);
      var table: Table := {stranger};
      var all := OrderBy(query.sort.Ordering(), table);
      assert (set row | row in table && Where(QueriesFor(query.sort).firstPage, Arguments(query.accountId, Bound(0, 0), 1, 0), row)) == table;
      assert FirstPage(query, 1, table) == Window(all, 0, 1) == all;
      assert (set row | row in table && Where(JavaFirstPageForAccount(query.sort), Arguments(query.accountId, Bound(0, 0), 1, 0), row)) == {};
      assert JavaFetch(query, None, 1, table) == [];
    }
  }
}
