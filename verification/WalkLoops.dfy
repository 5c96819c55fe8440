/** The client loops of walk_test.go and KeysetDriftIT.java, run against a table that is written to
    between two pages, and the two counters their assertions rest on. */
module WalkLoops {
  import opened Wrappers
  import opened Domain
  import opened Relational
  import opened Queries
  import opened Walk
  import opened Timestamp
  import opened Seal
  import opened Tokens
  import opened Service
  import opened Agreement
  import Drift
  import GoCursor

  const TWENTY_SECONDS := 20_000_000
  const NEWEST_FIRST := ListQuery(0, "", CreatedAtDesc)

  /** The table, with its identity column. */
  class Store {
    var rows: set<Row>
    var nextId: int

    ghost predicate Valid()
      reads this
    {
      UniqueIds(rows) && forall row | row in rows :: row.id < nextId
    }

    method Insert(accountId: int, amountCents: int, labelText: string, createdAt: int)
      requires Valid()
      modifies this
      ensures Valid() && nextId == old(nextId) + 1
      ensures var row := Row(old(nextId), accountId, amountCents, labelText, createdAt);
              row !in old(rows) && rows == old(rows) + {row}
    {
      rows := rows + {Row(nextId, accountId, amountCents, labelText, createdAt)};
      nextId := nextId + 1;
    }
  }

  /** `count` rows more than `before`, all later than `instant` and of one account. */
  ghost predicate Arrived(before: set<Row>, after: set<Row>, account: int, instant: int, count: nat) {
    && before <= after
    && |after| == |before| + count
    && forall row | row in after - before :: row.accountId == account && row.createdAt > instant
  }

  /** Adds rows at the head of the descending order: its instant keeps moving forward. */
  class HeadInserter {
    var createdAt: int

    ghost predicate AtHead(store: Store)
      reads this, store
    {
      forall row | row in store.rows :: row.createdAt <= createdAt
    }

    method Insert(store: Store, count: nat)
      requires store.Valid() && AtHead(store)
      modifies this, store
      ensures store.Valid() && AtHead(store) && createdAt == old(createdAt) + count * 20_000_000
      ensures Arrived(old(store.rows), store.rows, 42, old(createdAt), count)
    {
      ghost var before := store.rows;
      for i := 0 to count
        invariant store.Valid() && AtHead(store) && createdAt == old(createdAt) + i * 20_000_000
        invariant Arrived(before, store.rows, 42, old(createdAt), i)
      {
        createdAt := createdAt + TWENTY_SECONDS;
        store.Insert(42, 1000, "ARRIVED MID WALK", createdAt);
      }
    }
  }

  /** Rows later than every row of the walk are behind any position of a descending walk. */
  lemma ArrivalsStayBehind(query: ListQuery, last: Row, original: Table, now: Table)
    requires query.sort == CreatedAtDesc && original <= now
    requires forall row | row in now - original :: row.createdAt > last.createdAt
    ensures Remaining(query, After(KeyOf(last)), now) == Remaining(query, After(KeyOf(last)), original)
  {
  }

  /** What one turn of a loop hands out and leaves, on the rows the walk started with. */
  lemma TurnOfWalk(query: ListQuery, position: Position, limit: nat, original: Table)
    requires limit >= 1 && PageRows(query, position, limit, original) != []
    ensures var page := PageRows(query, position, limit, original);
            var last := page[|page| - 1];
            && last in original
            && RemainingInOrder(query, position, original)
               == page + RemainingInOrder(query, After(KeyOf(last)), original)
            && |Remaining(query, After(KeyOf(last)), original)| < |Remaining(query, position, original)|
  {
    hide RemainingInOrder, PageRows, Remaining;
    var all := RemainingInOrder(query, position, original);
    PageIsPrefix(query, position, limit, original);
    var i := Min(limit, |all|) - 1;
    RemainingAfterRank(query, position, original, i);
    assert all == all[..i + 1] + all[i + 1..];
    ListedIsStored(query, position, original, i);
    ListingLength(query, position, original);
    ListingLength(query, After(KeyOf(all[i])), original);
  }

  lemma ListingOfAll(original: Table)
    ensures RemainingInOrder(NEWEST_FIRST, Start, original) == OrderBy(CreatedAtDesc.Ordering(), original)
  {
    assert Remaining(NEWEST_FIRST, Start, original) == original;
  }

  /** Rows that arrived since leave the next page what it would have been. */
  lemma NextPageUnchanged(query: ListQuery, last: Row, limit: nat, original: Table, now: Table)
    requires query.sort == CreatedAtDesc && original <= now
    requires forall row | row in now - original :: row.createdAt > last.createdAt
    ensures NextPage(query, KeyOf(last), limit, now) == PageRows(query, After(KeyOf(last)), limit, original)
  {
    NextPageIsTail(query, KeyOf(last), limit, now);
    ArrivalsStayBehind(query, last, original, now);
  }

  ghost predicate Underway(query: ListQuery, position: Position, seen: seq<Row>, original: Table) {
    seen + RemainingInOrder(query, position, original) == RemainingInOrder(query, Start, original)
  }

  lemma UnderwayAtStart(query: ListQuery, original: Table)
    ensures Underway(query, Start, [], original)
  {
  }

  lemma TurnKeepsUnderway(query: ListQuery, position: Position, limit: nat, seen: seq<Row>, original: Table)
    requires limit >= 1 && PageRows(query, position, limit, original) != []
    requires Underway(query, position, seen, original)
    ensures var page := PageRows(query, position, limit, original);
            Underway(query, After(KeyOf(page[|page| - 1])), seen + page, original)
  {
    hide RemainingInOrder, PageRows;
    var page := PageRows(query, position, limit, original);
    TurnOfWalk(query, position, limit, original);
    assert seen + (page + RemainingInOrder(query, After(KeyOf(page[|page| - 1])), original))
        == (seen + page) + RemainingInOrder(query, After(KeyOf(page[|page| - 1])), original);
  }

  lemma EmptyPageEndsWalk(query: ListQuery, position: Position, limit: nat, seen: seq<Row>, original: Table)
    requires limit >= 1 && PageRows(query, position, limit, original) == []
    requires Underway(query, position, seen, original)
    ensures seen == RemainingInOrder(query, Start, original)
  {
    assert RemainingInOrder(query, position, original) == [];
  }

  /** TestKeysetWalk_DoesNotDrift: whatever arrives at the head, the walk hands out exactly the rows it
      started with, newest first. */
  method KeysetWalk(store: Store, inserter: HeadInserter, pageSize: nat, insertsPerPage: nat) returns (seen: seq<Row>)
    requires store.Valid() && inserter.AtHead(store) && pageSize >= 1
    modifies store, inserter
    ensures UniqueIds(old(store.rows)) && seen == OrderBy(CreatedAtDesc.Ordering(), old(store.rows))
    ensures seen != [] ==> |store.rows| >= |old(store.rows)| + insertsPerPage
  {
    hide RemainingInOrder, PageRows, Remaining, FirstPage, NextPage, OrderBy, Underway;
    ghost var original: Table, position, from := store.rows, Start, inserter.createdAt;
    UnderwayAtStart(NEWEST_FIRST, original);
    seen := [];
    var page := FirstPage(NEWEST_FIRST, pageSize, store.rows);
    FirstPageIsHead(NEWEST_FIRST, pageSize, original);
    while |page| > 0
      invariant store.Valid() && inserter.AtHead(store) && original <= store.rows && from <= inserter.createdAt
      invariant forall row | row in original :: row.createdAt <= from
      invariant forall row | row in store.rows - original :: row.createdAt > from
      invariant page == PageRows(NEWEST_FIRST, position, pageSize, original)
      invariant Underway(NEWEST_FIRST, position, seen, original)
      invariant |store.rows| >= |original| + if seen == [] then 0 else insertsPerPage
      decreases |Remaining(NEWEST_FIRST, position, original)|
    {
      TurnOfWalk(NEWEST_FIRST, position, pageSize, original);
      TurnKeepsUnderway(NEWEST_FIRST, position, pageSize, seen, original);
      seen := seen + page;
      inserter.Insert(store, insertsPerPage);
      var last := page[|page| - 1];
      page := NextPage(NEWEST_FIRST, KeyOf(last), pageSize, store.rows);
      NextPageUnchanged(NEWEST_FIRST, last, pageSize, original, store.rows);
      position := After(KeyOf(last));
    }
    EmptyPageEndsWalk(NEWEST_FIRST, position, pageSize, seen, original);
    ListingOfAll(original);
  }

  // ----- the token-driven loop -----

  /** What the client holds between two requests of one instant. */
  ghost predicate Holds(secret: Secret, query: ListQuery, position: Position, original: Table, now: int,
                        cursor: Option<string>)
  {
    match position
    case Start => cursor == None
    case After(bound) =>
      && (exists row :: row in original && KeyOf(row) == bound)
      && cursor == Some(Issued(Java, secret, CursorAt(secret, query, bound, now)))
    case End => cursor == None
  }

  predicate Serviceable(secret: Secret, original: Table, now: int) {
    SharedYears(original) && Stampable(now) && SECOND <= secret.ttl < GoCursor.MAX_DURATION
  }

  lemma CursorResumes(secret: Secret, query: ListQuery, position: Position, original: Table, now: int,
                      cursor: Option<string>)
    requires Serviceable(secret, original, now) && Holds(secret, query, position, original, now, cursor)
    requires !position.End?
    ensures cursor != Some("")
    ensures Resume(Java, secret, query, if cursor.None? then "" else cursor.value, now) == Ok(position)
  {
    match position {
      case Start =>
      case After(bound) =>
        hide Resume, Issued, CursorAt;
        ResumeAfterIssue(Java, Java, secret, query, bound, now, now);
        assert now <= now / SECOND * SECOND + SECOND;
    }
  }

  /** One answer of the Java service, seen from the rows the walk started with. */
  lemma AnswerOnOriginal(secret: Secret, query: ListQuery, limit: nat, position: Position, original: Table,
                         now: int, cursor: Option<string>, table: Table)
    requires limit >= 1 && query.accountId >= 0 && !position.End?
    requires Serviceable(secret, original, now) && Holds(secret, query, position, original, now, cursor)
    requires Remaining(query, position, table) == Remaining(query, position, original)
    ensures var r := JavaList(secret, query, limit, cursor, Up(table), now, now);
            var end := PageEnd(query, position, limit, original);
            && r.Ok?
            && r.value.rows == PageRows(query, position, limit, original)
            && (r.value.nextCursor.Some? <==> end.After?)
            && Holds(secret, query, end, original, now, r.value.nextCursor)
  {
    hide Resume, Issued, CursorAt, JavaPageAt, DecodeAgainst, Remaining;
    CursorResumes(secret, query, position, original, now, cursor);
    JavaListIsListed(secret, query, limit, cursor, Up(table), now, now);
    JavaTokenIffMore(secret, query, limit, cursor, Up(table), now, now);
    PageEndIsStored(query, position, limit, original);
  }

  lemma PageEndIsStored(query: ListQuery, position: Position, limit: nat, table: Table)
    requires limit >= 1
    ensures var end := PageEnd(query, position, limit, table);
            end.After? ==> exists row :: row in table && KeyOf(row) == end.bound
  {
    if PageEnd(query, position, limit, table).After? {
      ListedIsStored(query, position, table, limit - 1);
    }
  }

  lemma JavaTokenIffMore(secret: Secret, query: ListQuery, limit: nat, cursor: Option<string>, db: Database,
                         checkedAt: int, issuedAt: int)
    requires limit >= 1
    ensures var r := JavaList(secret, query, limit, cursor, db, checkedAt, issuedAt);
            r.Ok? ==> (r.value.nextCursor.Some? <==> r.value.hasMore)
  {
  }

  lemma PageKeepsUnderway(query: ListQuery, position: Position, limit: nat, seen: seq<Row>, original: Table)
    requires limit >= 1 && !position.End? && Underway(query, position, seen, original)
    ensures var rows, end := PageRows(query, position, limit, original), PageEnd(query, position, limit, original);
            && Underway(query, end, seen + rows, original)
            && Fuel(query, end, original) < Fuel(query, position, original)
            && !end.Start?
  {
    hide RemainingInOrder, PageRows, PageEnd, Remaining;
    var rows, end := PageRows(query, position, limit, original), PageEnd(query, position, limit, original);
    PageSplits(query, position, limit, original);
    PagePartitions(query, position, limit, original);
    assert seen + (rows + RemainingInOrder(query, end, original))
        == (seen + rows) + RemainingInOrder(query, end, original);
    FullPageIfMore(query, position, limit, original);
  }

  lemma FullPageIfMore(query: ListQuery, position: Position, limit: nat, original: Table)
    requires limit >= 1
    ensures !PageEnd(query, position, limit, original).Start?
    ensures PageEnd(query, position, limit, original).After? ==> |PageRows(query, position, limit, original)| == limit
  {
  }

  lemma UnderwayAtEnd(query: ListQuery, seen: seq<Row>, original: Table)
    requires Underway(query, End, seen, original)
    ensures seen == RemainingInOrder(query, Start, original)
  {
    assert Remaining(query, End, original) == {};
  }

  lemma SameRemaining(query: ListQuery, position: Position, original: Table, now: Table, instant: int)
    requires query.sort == CreatedAtDesc && original <= now
    requires position.After? ==> exists row :: row in original && KeyOf(row) == position.bound
    requires position.Start? ==> now == original
    requires forall row | row in original :: row.createdAt <= instant
    requires forall row | row in now - original :: row.createdAt > instant
    ensures Remaining(query, position, now) == Remaining(query, position, original)
  {
    if position.After? {
      var last :| last in original && KeyOf(last) == position.bound;
      ArrivalsStayBehind(query, last, original, now);
    }
  }

  /** insertNewerRowsAtTheHead: `count` rows of the account, one a minute after `instant`. */
  method InsertNewer(store: Store, account: int, instant: int, count: nat)
    requires store.Valid()
    modifies store
    ensures store.Valid() && Arrived(old(store.rows), store.rows, account, instant, count)
  {
    ghost var before := store.rows;
    for i := 1 to count + 1
      invariant store.Valid() && Arrived(before, store.rows, account, instant, i - 1)
    {
      store.Insert(account, i, "INSERTED DURING THE WALK", instant + i * 60_000_000);
    }
  }

  /** The loop of KeysetDriftIT: pages are fetched through the service until it returns no token, and rows
      arrive at the head after the first page. The rows returned are exactly those that matched when the
      walk began, newest first. */
  method TokenDrivenWalk(secret: Secret, store: Store, query: ListQuery, pageSize: nat, instant: int, count: nat,
                         now: int)
    returns (seen: seq<Row>)
    requires store.Valid() && query.sort == CreatedAtDesc && query.accountId >= 0 && pageSize >= 1
    requires Serviceable(secret, store.rows, now) && forall row | row in store.rows :: row.createdAt <= instant
    modifies store
    ensures UniqueIds(old(store.rows)) && seen == RemainingInOrder(query, Start, old(store.rows))
    ensures Arrived(old(store.rows), store.rows, query.accountId, instant, count)
  {
    hide RemainingInOrder, Remaining, JavaList, Underway, Serviceable, PageRows, PageEnd, Fuel;
    ghost var original: Table, position := store.rows, Start;
    UnderwayAtStart(query, original);
    seen := [];
    var cursor := None;
    var firstPage, done := true, false;
    while !done
      invariant store.Valid() && original <= store.rows && (position.Start? ==> firstPage)
      invariant if firstPage then store.rows == original && !done
                else Arrived(original, store.rows, query.accountId, instant, count)
      invariant forall row | row in store.rows - original :: row.createdAt > instant
      invariant done <==> position.End?
      invariant Holds(secret, query, position, original, now, cursor)
      invariant Underway(query, position, seen, original)
      decreases Fuel(query, position, original)
    {
      SameRemaining(query, position, original, store.rows, instant);
      AnswerOnOriginal(secret, query, pageSize, position, original, now, cursor, store.rows);
      PageKeepsUnderway(query, position, pageSize, seen, original);
      var page := JavaList(secret, query, pageSize, cursor, Up(store.rows), now, now).value;
      seen := seen + page.rows;
      cursor := page.nextCursor;
      position := PageEnd(query, position, pageSize, original);
      if firstPage {
        InsertNewer(store, query.accountId, instant, count);
        firstPage := false;
      }
      done := cursor.None?;
    }
    UnderwayAtEnd(query, seen, original);
  }

  // ----- the offset walk -----

  lemma {:induction false} OffsetWalkKeepsPrefix(accountId: int, tables: seq<Table>, more: Table, pages: nat, size: nat)
    requires pages <= |tables|
    ensures Drift.OffsetWalk(accountId, tables + [more], pages, size) == Drift.OffsetWalk(accountId, tables, pages, size)
  {
    hide OffsetPage;
    if pages > 0 {
      OffsetWalkKeepsPrefix(accountId, tables, more, pages - 1, size);
      assert (tables + [more])[pages - 1] == tables[pages - 1];
    }
  }

  lemma ArrivalsAreAtHead(k: nat, before: Table, after: Table, instant: int)
    requires Arrived(before, after, 42, instant, k)
    requires forall row | row in before :: row.createdAt <= instant
    ensures Drift.HeadDiffers(0, k, before, after)
  {
    assert Drift.Selected(0, before) == before;
    assert Drift.Selected(0, after) == after;
    assert |after| == |after - before| + |before|;
  }

  lemma ExtendArrivals(k: nat, tables: seq<Table>, now: Table)
    requires tables != [] && Drift.ArrivalsAtHead(0, k, tables) && Drift.HeadDiffers(0, k, tables[|tables| - 1], now)
    ensures Drift.ArrivalsAtHead(0, k, tables + [now])
  {
    hide Drift.HeadDiffers;
    var longer := tables + [now];
    forall p | 0 <= p < |longer| - 1
      ensures Drift.HeadDiffers(0, k, longer[p], longer[p + 1])
    {
      assert longer[p] == tables[p];
      assert p < |tables| - 1 ==> longer[p + 1] == tables[p + 1];
    }
  }

  /** What drifting by `k` rows a page costs an offset walk over `original`. */
  ghost predicate Drifted(original: set<Row>, seen: seq<Row>, pages: nat, k: nat) {
    && |seen| - |Elements(seen)| == (pages - 1) * k
    && Elements(seen) <= original
    && |original - Elements(seen)| == (pages - 1) * k
  }

  lemma WholeTableDrifts(tables: seq<Table>, pages: nat, size: nat, k: nat)
    requires 0 < pages <= |tables| && Drift.ArrivalsAtHead(0, k, tables) && k <= size
    requires |tables[0]| == pages * size
    ensures Drifted(tables[0], Drift.OffsetWalk(0, tables, pages, size), pages, k)
  {
    hide Drift.OffsetWalk, Drift.ArrivalsAtHead;
    var listing := Drift.Listing(0, tables[0]);
    assert Drift.Selected(0, tables[0]) == tables[0];
    assert listing[..|listing|] == listing;
    assert |listing| == pages * size && Elements(listing) == tables[0];
    Drift.OffsetDriftLaw(0, tables, pages, size, k);
  }

  /** TestOffsetWalk_Drifts: over whole pages, with at most a page of arrivals each time, the walk
      repeats, and misses, exactly the rows that arrived before its last page. */
  method OffsetWalk(store: Store, inserter: HeadInserter, walkRows: nat, pageSize: nat, insertsPerPage: nat,
                    ghost pages: nat)
    returns (seen: seq<Row>)
    requires store.Valid() && inserter.AtHead(store)
    requires |store.rows| == walkRows == pages * pageSize && pages >= 1 && 1 <= pageSize && insertsPerPage <= pageSize
    modifies store, inserter
    ensures Drifted(old(store.rows), seen, pages, insertsPerPage)
  {
    hide Drift.OffsetWalk, Drift.ArrivalsAtHead, Drift.HeadDiffers, OffsetPage;
    ghost var tables: seq<Table> := [store.rows];
    StartOfOffsetWalk(store.rows, pageSize, insertsPerPage);
    seen := [];
    var pageNumber := 0;
    while pageNumber * pageSize < walkRows
      invariant store.Valid() && inserter.AtHead(store)
      invariant 0 <= pageNumber <= pages && |tables| == pageNumber + 1
      invariant tables[0] == old(store.rows) && tables[pageNumber] == store.rows
      invariant Drift.ArrivalsAtHead(0, insertsPerPage, tables)
      invariant seen == Drift.OffsetWalk(0, tables, pageNumber, pageSize)
      decreases pages - pageNumber
    {
      PagesLeft(pageNumber, pages, pageSize);
      var page := OffsetPage(0, pageNumber * pageSize, pageSize, store.rows);
      seen := seen + page;
      ghost var instant := inserter.createdAt;
      inserter.Insert(store, insertsPerPage);
      ArrivalsAreAtHead(insertsPerPage, tables[pageNumber], store.rows, instant);
      NextOffsetPage(tables, store.rows, pageNumber, pageSize);
      ExtendArrivals(insertsPerPage, tables, store.rows);
      tables := tables + [store.rows];
      pageNumber := pageNumber + 1;
    }
    PagesDone(pageNumber, pages, pageSize);
    WholeTableDrifts(tables, pages, pageSize, insertsPerPage);
  }

  lemma StartOfOffsetWalk(table: Table, size: nat, k: nat)
    ensures Drift.OffsetWalk(0, [table], 0, size) == [] && Drift.ArrivalsAtHead(0, k, [table])
  {
  }

  lemma NextOffsetPage(tables: seq<Table>, more: Table, p: nat, size: nat)
    requires |tables| == p + 1
    ensures 0 <= p * size
    ensures Drift.OffsetWalk(0, tables + [more], p + 1, size)
         == Drift.OffsetWalk(0, tables, p, size) + OffsetPage(0, p * size, size, tables[p])
  {
    hide OffsetPage;
    OffsetWalkKeepsPrefix(0, tables, more, p, size);
    assert (tables + [more])[p] == tables[p];
  }

  lemma PagesLeft(p: nat, pages: nat, size: nat)
    requires p * size < pages * size
    ensures p < pages && 0 <= p * size
  {
  }

  lemma PagesDone(p: nat, pages: nat, size: nat)
    requires p * size >= pages * size && p <= pages && size >= 1
    ensures p == pages
  {
    assert p < pages ==> (pages - p) * size >= 1;
  }

  // ----- the counters of the assertions -----

  /** duplicatesIn: each id that occurs more than once, listed once. */
  method DuplicatesIn(ids: seq<int>) returns (duplicates: seq<int>)
    ensures forall id :: id in duplicates <==> multiset(ids)[id] >= 2
    ensures forall i, j | 0 <= i < j < |duplicates| :: duplicates[i] != duplicates[j]
  {
    var counts: map<int, int> := map[];
    duplicates := [];
    for i := 0 to |ids|
      invariant forall id :: multiset(ids[..i])[id] == if id in counts then counts[id] else 0
      invariant forall id :: id in duplicates <==> multiset(ids[..i])[id] >= 2
      invariant forall j, k | 0 <= j < k < |duplicates| :: duplicates[j] != duplicates[k]
    {
      var id := ids[i];
      assert ids[..i + 1] == ids[..i] + [id];
      counts := counts[id := (if id in counts then counts[id] else 0) + 1];
      if counts[id] == 2 {
        duplicates := duplicates + [id];
      }
    }
    assert ids[..|ids|] == ids;
  }

  /** missingFrom: the ids from 1 to `total` that were not seen, in order. */
  method MissingFrom(seen: seq<int>, total: nat) returns (missing: seq<int>)
    ensures forall id :: id in missing <==> 1 <= id <= total && id !in seen
    ensures forall i, j | 0 <= i < j < |missing| :: missing[i] < missing[j]
  {
    var found: set<int> := {};
    for i := 0 to |seen|
      invariant forall id :: id in found <==> id in seen[..i]
    {
      found := found + {seen[i]};
    }
    assert seen[..|seen|] == seen;
    missing := [];
    for id := 1 to total + 1
      invariant forall other :: other in missing <==> 1 <= other < id && other !in seen
      invariant forall i | 0 <= i < |missing| :: missing[i] < id
      invariant forall i, j | 0 <= i < j < |missing| :: missing[i] < missing[j]
    {
      if id !in found {
        missing := missing + [id];
      }
    }
  }
}
