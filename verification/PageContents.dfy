/** What the statements return, row by row, in nothing but the columns of the table: who is on a page, in which
    order, and who is left out. */
module PageContents {
  import opened Wrappers
  import opened Domain
  import opened Relational
  import opened Queries

  /** LIMIT on a sorted listing: the page is sorted, and a row left out comes after all of a full page. */
  lemma Cut(order: Order, rows: Table, limit: nat)
    ensures var page := Window(OrderBy(order, rows), 0, limit);
            && |page| == Min(limit, |rows|)
            && Sorted(order, page)
            && (forall row | row in page :: row in rows)
            && (forall row | row in rows && row !in page ::
                  |page| == limit && forall kept | kept in page :: Before(order, KeyOf(kept), KeyOf(row)))
  {
    hide Before, First, OrderBy;
    var all := OrderBy(order, rows);
    var page := Window(all, 0, limit);
    OrderBySorted(order, rows);
    ListedRows(order, rows);
    forall row | row in rows && row !in page
      ensures |page| == limit && forall kept | kept in page :: Before(order, KeyOf(kept), KeyOf(row))
    {
      assert row in Elements(all);
      LeftOut(order, all, limit, row);
    }
  }

  lemma LeftOut(order: Order, all: seq<Row>, limit: nat, row: Row)
    requires Sorted(order, all) && row in all && row !in Window(all, 0, limit)
    ensures |all| > limit
    ensures forall kept | kept in Window(all, 0, limit) :: Before(order, KeyOf(kept), KeyOf(row))
  {
    hide Before;
    var page := Window(all, 0, limit);
    var j :| 0 <= j < |all| && all[j] == row;
    assert j >= |page|;
    forall kept | kept in page
      ensures Before(order, KeyOf(kept), KeyOf(row))
    {
      var i :| 0 <= i < |page| && page[i] == kept;
      assert all[i] == kept;
    }
  }

  /** The rows a statement selects. */
  function Chosen(statement: Statement, args: Arguments, table: Table): Table {
    set row | row in table && Where(statement, args, row)
  }

  lemma ExecuteCuts(statement: Statement, args: Arguments, table: Table)
    requires args.offset == 0
    ensures var page, rows := Execute(statement, args, table), Chosen(statement, args, table);
            && |page| == Min(args.limit, |rows|) && |rows| <= |table|
            && Sorted(statement.order, page)
            && (forall row | row in page :: row in rows)
            && (forall row | row in rows && row !in page ::
                  |page| == args.limit && forall kept | kept in page :: Before(statement.order, KeyOf(kept), KeyOf(row)))
  {
    hide Where, Window, Before;
    Cut(statement.order, Chosen(statement, args, table), args.limit);
    SubsetSize(Chosen(statement, args, table), table);
  }

  lemma SubsetSize<T>(a: set<T>, b: set<T>)
    requires a <= b
    ensures |a| <= |b|
  {
    if a != {} {
      var x :| x in a;
      SubsetSize(a - {x}, b - {x});
    }
  }

  /** A page as large as the table leaves nothing out. */
  lemma WholePage(statement: Statement, args: Arguments, table: Table)
    requires args.offset == 0 && args.limit >= |table|
    ensures forall row :: row in Execute(statement, args, table) <==> row in Chosen(statement, args, table)
  {
    var rows := Chosen(statement, args, table);
    var all := OrderBy(statement.order, rows);
    SubsetSize(rows, table);
    assert Execute(statement, args, table) == all;
    assert forall row :: row in all <==> row in Elements(all);
  }

  // ----- the first page -----

  /** A first page as large as the table holds exactly the rows of the account, or all rows without one. */
  lemma FirstPageSelects(query: ListQuery, limit: nat, table: Table)
    requires limit >= |table|
    ensures forall row :: row in FirstPage(query, limit, table) <==>
              row in table && (query.accountId > 0 ==> row.accountId == query.accountId)
  {
    var queries := QueriesFor(query.sort);
    WholePage(if query.accountId > 0 then queries.firstPageByAccount else queries.firstPage,
              Arguments(query.accountId, Bound(0, 0), limit, 0), table);
  }

  /** A first page holds rows of the account, `limit` of them if any is left out, in the order of the sort, and
      those left out come after. */
  lemma FirstPageInOrder(query: ListQuery, limit: nat, table: Table)
    ensures var page := FirstPage(query, limit, table);
            && |page| <= limit
            && (forall row | row in page ::
                  row in table && (query.accountId > 0 ==> row.accountId == query.accountId))
            && (forall i, j | 0 <= i < j < |page| ::
                  if query.sort == CreatedAtDesc
                  then page[i].createdAt > page[j].createdAt
                       || (page[i].createdAt == page[j].createdAt && page[i].id > page[j].id)
                  else page[i].createdAt < page[j].createdAt
                       || (page[i].createdAt == page[j].createdAt && page[i].id < page[j].id))
            && (forall row | row in table && row !in page && (query.accountId > 0 ==> row.accountId == query.accountId) ::
                  |page| == limit)
            && (forall row, kept | row in table && row !in page && kept in page
                                   && (query.accountId > 0 ==> row.accountId == query.accountId) ::
                  if query.sort == CreatedAtDesc
                  then kept.createdAt > row.createdAt || (kept.createdAt == row.createdAt && kept.id > row.id)
                  else kept.createdAt < row.createdAt || (kept.createdAt == row.createdAt && kept.id < row.id))
  {
    hide Execute;
    var queries := QueriesFor(query.sort);
    ExecuteCuts(if query.accountId > 0 then queries.firstPageByAccount else queries.firstPage,
                Arguments(query.accountId, Bound(0, 0), limit, 0), table);
  }

  // ----- the next page -----

  /** A next page as large as the table holds exactly the rows of the account strictly past the bound. */
  lemma NextPageSelects(query: ListQuery, after: Bound, limit: nat, table: Table)
    requires limit >= |table|
    ensures forall row :: row in NextPage(query, after, limit, table) <==>
              && row in table && (query.accountId > 0 ==> row.accountId == query.accountId)
              && if query.sort == CreatedAtDesc
                 then row.createdAt < after.createdAt || (row.createdAt == after.createdAt && row.id < after.id)
                 else row.createdAt > after.createdAt || (row.createdAt == after.createdAt && row.id > after.id)
  {
    var queries := QueriesFor(query.sort);
    WholePage(if query.accountId > 0 then queries.nextPageByAccount else queries.nextPage,
              Arguments(query.accountId, after, limit, 0), table);
  }

  lemma NextPageInOrder(query: ListQuery, after: Bound, limit: nat, table: Table)
    ensures var page := NextPage(query, after, limit, table);
            && |page| <= limit
            && (forall row | row in page ::
                  && row in table && (query.accountId > 0 ==> row.accountId == query.accountId)
                  && if query.sort == CreatedAtDesc
                     then row.createdAt < after.createdAt || (row.createdAt == after.createdAt && row.id < after.id)
                     else row.createdAt > after.createdAt || (row.createdAt == after.createdAt && row.id > after.id))
            && (forall i, j | 0 <= i < j < |page| ::
                  if query.sort == CreatedAtDesc
                  then page[i].createdAt > page[j].createdAt
                       || (page[i].createdAt == page[j].createdAt && page[i].id > page[j].id)
                  else page[i].createdAt < page[j].createdAt
                       || (page[i].createdAt == page[j].createdAt && page[i].id < page[j].id))
  {
    hide Execute;
    var queries := QueriesFor(query.sort);
    ExecuteCuts(if query.accountId > 0 then queries.nextPageByAccount else queries.nextPage,
                Arguments(query.accountId, after, limit, 0), table);
  }

  /** A row past the bound that is not on the page comes after every row of a full page. */
  lemma NextPageLeavesOut(query: ListQuery, after: Bound, limit: nat, table: Table, row: Row, kept: Row)
    requires row in table && (query.accountId > 0 ==> row.accountId == query.accountId)
    requires if query.sort == CreatedAtDesc
             then row.createdAt < after.createdAt || (row.createdAt == after.createdAt && row.id < after.id)
             else row.createdAt > after.createdAt || (row.createdAt == after.createdAt && row.id > after.id)
    requires row !in NextPage(query, after, limit, table)
    ensures |NextPage(query, after, limit, table)| == limit
    ensures kept in NextPage(query, after, limit, table) ==>
              if query.sort == CreatedAtDesc
              then kept.createdAt > row.createdAt || (kept.createdAt == row.createdAt && kept.id > row.id)
              else kept.createdAt < row.createdAt || (kept.createdAt == row.createdAt && kept.id < row.id)
  {
    hide Execute;
    var queries := QueriesFor(query.sort);
    ExecuteCuts(if query.accountId > 0 then queries.nextPageByAccount else queries.nextPage,
                Arguments(query.accountId, after, limit, 0), table);
  }

  // ----- the Java repository -----

  function JavaStatement(query: ListQuery, after: Option<Bound>): Statement {
    match after
    case None => if query.accountId != 0 then JavaFirstPageForAccount(query.sort) else JavaFirstPage(query.sort)
    case Some(_) => if query.accountId != 0 then JavaNextPageForAccount(query.sort) else JavaNextPage(query.sort)
  }

  function JavaArguments(query: ListQuery, after: Option<Bound>, limit: nat): Arguments {
    Arguments(query.accountId, if after.Some? then after.value else Bound(0, 0), limit, 0)
  }

  lemma JavaFetchExecutes(query: ListQuery, after: Option<Bound>, limit: nat, table: Table)
    ensures JavaFetch(query, after, limit, table)
         == Execute(JavaStatement(query, after), JavaArguments(query, after, limit), table)
  {
    hide Execute;
  }

  lemma JavaFetchSelects(query: ListQuery, after: Option<Bound>, limit: nat, table: Table)
    requires limit >= |table|
    ensures forall row :: row in JavaFetch(query, after, limit, table) <==>
              && row in table && (query.accountId != 0 ==> row.accountId == query.accountId)
              && (after.Some? ==>
                    if query.sort == CreatedAtDesc
                    then row.createdAt < after.value.createdAt
                         || (row.createdAt == after.value.createdAt && row.id < after.value.id)
                    else row.createdAt > after.value.createdAt
                         || (row.createdAt == after.value.createdAt && row.id > after.value.id))
  {
    hide Execute, JavaFetch;
    JavaFetchExecutes(query, after, limit, table);
    WholePage(JavaStatement(query, after), JavaArguments(query, after, limit), table);
  }

  lemma JavaFetchInOrder(query: ListQuery, after: Option<Bound>, limit: nat, table: Table)
    ensures var page := JavaFetch(query, after, limit, table);
            && |page| <= limit
            && (forall row | row in page ::
                  && row in table && (query.accountId != 0 ==> row.accountId == query.accountId)
                  && (after.Some? ==>
                        if query.sort == CreatedAtDesc
                        then row.createdAt < after.value.createdAt
                             || (row.createdAt == after.value.createdAt && row.id < after.value.id)
                        else row.createdAt > after.value.createdAt
                             || (row.createdAt == after.value.createdAt && row.id > after.value.id)))
            && (forall i, j | 0 <= i < j < |page| ::
                  if query.sort == CreatedAtDesc
                  then page[i].createdAt > page[j].createdAt
                       || (page[i].createdAt == page[j].createdAt && page[i].id > page[j].id)
                  else page[i].createdAt < page[j].createdAt
                       || (page[i].createdAt == page[j].createdAt && page[i].id < page[j].id))
  {
    hide Execute, JavaFetch;
    JavaFetchExecutes(query, after, limit, table);
    ExecuteCuts(JavaStatement(query, after), JavaArguments(query, after, limit), table);
  }

  lemma JavaFetchLeavesOut(query: ListQuery, after: Option<Bound>, limit: nat, table: Table, row: Row, kept: Row)
    requires row in table && (query.accountId != 0 ==> row.accountId == query.accountId)
    requires after.Some? ==>
               if query.sort == CreatedAtDesc
               then row.createdAt < after.value.createdAt
                    || (row.createdAt == after.value.createdAt && row.id < after.value.id)
               else row.createdAt > after.value.createdAt
                    || (row.createdAt == after.value.createdAt && row.id > after.value.id)
    requires row !in JavaFetch(query, after, limit, table)
    ensures |JavaFetch(query, after, limit, table)| == limit
    ensures kept in JavaFetch(query, after, limit, table) ==>
              if query.sort == CreatedAtDesc
              then kept.createdAt > row.createdAt || (kept.createdAt == row.createdAt && kept.id > row.id)
              else kept.createdAt < row.createdAt || (kept.createdAt == row.createdAt && kept.id < row.id)
  {
    hide Execute, JavaFetch;
    JavaFetchExecutes(query, after, limit, table);
    ExecuteCuts(JavaStatement(query, after), JavaArguments(query, after, limit), table);
  }

  // ----- the page by rank -----

  /** At rank 0 and as large as the table, the offset page is the whole selection, newest first. */
  lemma OffsetPageSelects(accountId: int, limit: nat, table: Table)
    requires limit >= |table|
    ensures var all := OffsetPage(accountId, 0, limit, table);
            && (forall row :: row in all <==> row in table && (accountId > 0 ==> row.accountId == accountId))
            && (forall i, j | 0 <= i < j < |all| ::
                  all[i].createdAt > all[j].createdAt || (all[i].createdAt == all[j].createdAt && all[i].id > all[j].id))
  {
    hide Execute;
    var statement := if accountId > 0 then OFFSET_PAGE_BY_ACCOUNT else OFFSET_PAGE;
    WholePage(statement, Arguments(accountId, Bound(0, 0), limit, 0), table);
    ExecuteCuts(statement, Arguments(accountId, Bound(0, 0), limit, 0), table);
  }

  /** At any rank, the offset page is that many rows of the whole selection, from that rank on. */
  lemma OffsetPageIsSlice(accountId: int, offset: nat, limit: nat, table: Table)
    ensures var all := OffsetPage(accountId, 0, |table|, table);
            && (offset >= |all| ==> OffsetPage(accountId, offset, limit, table) == [])
            && (offset < |all| && offset + limit >= |all| ==> OffsetPage(accountId, offset, limit, table) == all[offset..])
            && (offset + limit < |all| ==> OffsetPage(accountId, offset, limit, table) == all[offset..offset + limit])
  {
    hide OrderBy, Where;
    var statement := if accountId > 0 then OFFSET_PAGE_BY_ACCOUNT else OFFSET_PAGE;
    var here, args := Arguments(accountId, Bound(0, 0), limit, offset), Arguments(accountId, Bound(0, 0), |table|, 0);
    assert Chosen(statement, here, table) == Chosen(statement, args, table) by { SameWhere(statement, here, args); }
    var all := OrderBy(statement.order, Chosen(statement, args, table));
    SubsetSize(Chosen(statement, args, table), table);
    assert Execute(statement, args, table) == Window(all, 0, |table|) == all;
  }

  lemma SameWhere(statement: Statement, a: Arguments, b: Arguments)
    requires a.accountId == b.accountId && a.after == b.after
    ensures forall row :: Where(statement, a, row) == Where(statement, b, row)
  {
  }
}
