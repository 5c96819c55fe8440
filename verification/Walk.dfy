/** The keyset walk itself, on raw bounds: what one page returns, where it leaves the walk, and what is left.
    `WalkMachine` interleaves such page steps with writers, and `TokenWalk` refines it to opaque tokens. */
module Walk {
  import opened Domain
  import opened Relational
  import opened Queries

  /** Where a walk stands: before its first page, after a row it handed out, or over. */
  datatype Position = Start | After(bound: Bound) | End

  predicate Matches(query: ListQuery, row: Row) {
    query.accountId > 0 ==> row.accountId == query.accountId
  }

  predicate Ahead(sort: Sort, position: Position, row: Row) {
    match position
    case Start => true
    case After(bound) => Before(sort.Ordering(), bound, KeyOf(row))
    case End => false
  }

  /** The rows a walk standing at `position` has still to hand out, if nobody writes. */
  function Remaining(query: ListQuery, position: Position, table: Table): Table {
    set row | row in table && Matches(query, row) && Ahead(query.sort, position, row)
  }

  function RemainingInOrder(query: ListQuery, position: Position, table: Table): seq<Row> {
    OrderBy(query.sort.Ordering(), Remaining(query, position, table))
  }

  function Take<T>(rows: seq<T>, limit: nat): seq<T> {
    rows[..Min(limit, |rows|)]
  }

  /** The rows of one page and the position they leave the walk at. */
  function PageRows(query: ListQuery, position: Position, limit: nat, table: Table): seq<Row> {
    Take(RemainingInOrder(query, position, table), limit)
  }

  function PageEnd(query: ListQuery, position: Position, limit: nat, table: Table): Position
    requires limit >= 1
  {
    var remaining := RemainingInOrder(query, position, table);
    if |remaining| > limit then After(KeyOf(remaining[limit - 1])) else End
  }

  /** What bounds the number of pages still to come. */
  function Fuel(query: ListQuery, position: Position, table: Table): nat {
    if position.End? then 0 else |Remaining(query, position, table)| + 1
  }

  lemma PageIsPrefix(query: ListQuery, position: Position, limit: nat, table: Table)
    ensures PageRows(query, position, limit, table) == Take(RemainingInOrder(query, position, table), limit)
  {
  }

  lemma ListingLength(query: ListQuery, position: Position, table: Table)
    ensures |RemainingInOrder(query, position, table)| == |Remaining(query, position, table)|
  {
  }

  lemma ListedIsStored(query: ListQuery, position: Position, table: Table, i: nat)
    requires i < |RemainingInOrder(query, position, table)|
    ensures RemainingInOrder(query, position, table)[i] in Remaining(query, position, table)
    ensures RemainingInOrder(query, position, table)[i] in table
  {
    assert RemainingInOrder(query, position, table)[i] in Elements(RemainingInOrder(query, position, table));
  }

  /** The statement run without a cursor lists the head of the walk. */
  lemma FirstPageIsHead(query: ListQuery, limit: nat, table: Table)
    ensures FirstPage(query, limit, table) == PageRows(query, Start, limit, table)
  {
    var statement := if query.accountId > 0 then QueriesFor(query.sort).firstPageByAccount
                                            else QueriesFor(query.sort).firstPage;
    var args := Arguments(query.accountId, Bound(0, 0), limit, 0);
    assert (set row | row in table && Where(statement, args, row)) == Remaining(query, Start, table);
  }

  /** The statement run with a bound lists exactly what comes after it. */
  lemma NextPageIsTail(query: ListQuery, after: Bound, limit: nat, table: Table)
    ensures NextPage(query, after, limit, table) == PageRows(query, After(after), limit, table)
  {
    var statement := if query.accountId > 0 then QueriesFor(query.sort).nextPageByAccount
                                            else QueriesFor(query.sort).nextPage;
    var args := Arguments(query.accountId, after, limit, 0);
    assert (set row | row in table && Where(statement, args, row)) == Remaining(query, After(after), table);
  }

  /** In a sorted listing, the rows listed after the i-th are the rows its key comes before. */
  lemma RowsListedAfter(order: Order, listing: seq<Row>, i: nat, later: set<Row>)
    requires Sorted(order, listing) && i < |listing|
    requires forall row :: row in later <==> row in listing && Before(order, KeyOf(listing[i]), KeyOf(row))
    ensures Elements(listing[i + 1..]) == later
  {
    var rest := listing[i + 1..];
    forall row | row in later
      ensures row in rest
    {
      var j :| 0 <= j < |listing| && listing[j] == row;
      assert j > i;
      assert rest[j - i - 1] == row;
    }
    forall row | row in rest
      ensures row in later
    {
      var k :| 0 <= k < |rest| && rest[k] == row;
      assert row == listing[i + 1 + k];
    }
  }

  lemma RemainingAfterRow(query: ListQuery, position: Position, table: Table, row: Row)
    requires row in Remaining(query, position, table)
    ensures forall other ::
              other in Remaining(query, After(KeyOf(row)), table) <==>
              other in Remaining(query, position, table) && Before(query.sort.Ordering(), KeyOf(row), KeyOf(other))
  {
  }

  /** Resuming after the i-th listed row leaves exactly the rows listed after it. */
  lemma RemainingAfterRank(query: ListQuery, position: Position, table: Table, i: nat)
    requires i < |RemainingInOrder(query, position, table)|
    ensures var all := RemainingInOrder(query, position, table);
            RemainingInOrder(query, After(KeyOf(all[i])), table) == all[i + 1..]
  {
    var order := query.sort.Ordering();
    var all := RemainingInOrder(query, position, table);
    var later := Remaining(query, After(KeyOf(all[i])), table);
    OrderBySorted(order, Remaining(query, position, table));
    assert all[i] in Elements(all);
    RemainingAfterRow(query, position, table, all[i]);
    RowsListedAfter(order, all, i, later);
    OrderByUnique(order, later, all[i + 1..]);
  }

  lemma NothingRemains(query: ListQuery, table: Table)
    ensures RemainingInOrder(query, End, table) == []
  {
    assert Remaining(query, End, table) == {};
  }

  /** The rows a page leaves are the rows listed after the ones it returns. */
  lemma PageLeaves(query: ListQuery, position: Position, limit: nat, table: Table)
    requires limit >= 1
    ensures var all := RemainingInOrder(query, position, table);
            RemainingInOrder(query, PageEnd(query, position, limit, table), table) == all[Min(limit, |all|)..]
  {
    hide RemainingInOrder, KeyOf;
    if |RemainingInOrder(query, position, table)| > limit {
      RemainingAfterRank(query, position, table, limit - 1);
    } else {
      NothingRemains(query, table);
    }
  }

  /** One page cuts what remains in two: the rows it returns, then the rows it leaves. */
  lemma PageSplits(query: ListQuery, position: Position, limit: nat, table: Table)
    requires limit >= 1
    ensures RemainingInOrder(query, position, table)
         == PageRows(query, position, limit, table)
          + RemainingInOrder(query, PageEnd(query, position, limit, table), table)
  {
    hide RemainingInOrder, PageEnd;
    PageLeaves(query, position, limit, table);
  }

  lemma ConcatPartitions(order: Order, front: seq<Row>, back: seq<Row>)
    requires Sorted(order, front + back)
    ensures Elements(front + back) == Elements(front) + Elements(back)
    ensures Elements(front) !! Elements(back)
    ensures Sorted(order, front)
    ensures forall a, b | a in front && b in back :: Before(order, KeyOf(a), KeyOf(b))
  {
    var all := front + back;
    forall a, b | a in front && b in back
      ensures Before(order, KeyOf(a), KeyOf(b))
    {
      var i :| 0 <= i < |front| && front[i] == a;
      var j :| 0 <= j < |back| && back[j] == b;
      assert all[i] == a && all[|front| + j] == b;
    }
    assert forall i | 0 <= i < |front| :: all[i] == front[i];
  }

  lemma PagePartitions(query: ListQuery, position: Position, limit: nat, table: Table)
    requires limit >= 1
    ensures var rows := PageRows(query, position, limit, table);
            var left := Remaining(query, PageEnd(query, position, limit, table), table);
            && Elements(rows) + left == Remaining(query, position, table)
            && Elements(rows) !! left
            && |rows| + |left| == |Remaining(query, position, table)|
            && Sorted(query.sort.Ordering(), rows)
  {
    PageSplits(query, position, limit, table);
    OrderBySorted(query.sort.Ordering(), Remaining(query, position, table));
    ConcatPartitions(
      query.sort.Ordering(),
      PageRows(query, position, limit, table),
      RemainingInOrder(query, PageEnd(query, position, limit, table), table));
  }

  /** `has_more` is exact: a page is the last one iff nothing matching lies past its rows. */
  lemma HasMoreIsExact(query: ListQuery, position: Position, limit: nat, table: Table)
    requires limit >= 1
    ensures PageEnd(query, position, limit, table).After?
       <==> exists row :: row in Remaining(query, position, table) && row !in PageRows(query, position, limit, table)
  {
    PagePartitions(query, position, limit, table);
    var rows := PageRows(query, position, limit, table);
    var end := PageEnd(query, position, limit, table);
    var left := Remaining(query, end, table);
    if end.After? {
      assert |rows| == limit && |left| > 0;
      var row :| row in left;
      assert row !in Elements(rows);
    } else {
      assert left == {};
      assert forall row | row in Remaining(query, position, table) :: row in Elements(rows);
    }
  }
}
