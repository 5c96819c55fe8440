/** The walk over a table nobody writes to: the pages, in order, are the sorted listing cut every
    `limit` rows, which is also what OFFSET returns on such a table. */
module StillTable {
  import opened Domain
  import opened Relational
  import opened Queries
  import opened Walk

  /** The pages of a whole walk from `position`, resuming each time where the last page ended. */
  function Pages(query: ListQuery, position: Position, limit: nat, table: Table): seq<seq<Row>>
    requires limit >= 1
    decreases Fuel(query, position, table)
  {
    if position.End? then [] else
      PagePartitions(query, position, limit, table);
      [PageRows(query, position, limit, table)] + Pages(query, PageEnd(query, position, limit, table), limit, table)
  }

  function Flatten<T>(pages: seq<seq<T>>): seq<T> {
    if pages == [] then [] else pages[0] + Flatten(pages[1..])
  }

  /** A listing cut every `limit` rows; an empty listing still makes one empty page. */
  function Chunks<T>(listing: seq<T>, limit: nat): seq<seq<T>>
    requires limit >= 1
  {
    if |listing| <= limit then [listing] else [listing[..limit]] + Chunks(listing[limit..], limit)
  }

  /** One page is the first chunk, and the rows it leaves are the rest of the listing. */
  lemma PageIsFirstChunk(query: ListQuery, position: Position, limit: nat, table: Table)
    requires limit >= 1 && !position.End?
    ensures var all := RemainingInOrder(query, position, table);
            var end := PageEnd(query, position, limit, table);
            if |all| <= limit then end.End? && PageRows(query, position, limit, table) == all
            else
              && end.After?
              && PageRows(query, position, limit, table) == all[..limit]
              && RemainingInOrder(query, end, table) == all[limit..]
              && Fuel(query, end, table) < Fuel(query, position, table)
  {
    PageLeaves(query, position, limit, table);
  }

  lemma {:induction false} PagesAreChunks(query: ListQuery, position: Position, limit: nat, table: Table)
    requires limit >= 1 && !position.End?
    ensures Pages(query, position, limit, table) == Chunks(RemainingInOrder(query, position, table), limit)
    decreases Fuel(query, position, table)
  {
    PageIsFirstChunk(query, position, limit, table);
    var end := PageEnd(query, position, limit, table);
    if end.After? {
      PagesAreChunks(query, end, limit, table);
    }
  }

  lemma {:induction false} FlattenChunks<T>(listing: seq<T>, limit: nat)
    requires limit >= 1
    ensures Flatten(Chunks(listing, limit)) == listing
  {
    if |listing| <= limit {
      assert Flatten([listing]) == listing;
    } else {
      FlattenChunks(listing[limit..], limit);
      assert listing == listing[..limit] + listing[limit..];
    }
  }

  lemma {:induction false} ChunkIsWindow<T>(listing: seq<T>, limit: nat, p: nat)
    requires limit >= 1 && p < |Chunks(listing, limit)|
    ensures 0 <= p * limit <= |listing|
    ensures Chunks(listing, limit)[p] == listing[p * limit..Min(p * limit + limit, |listing|)]
  {
    if |listing| > limit && p > 0 {
      var rest := listing[limit..];
      ChunkIsWindow(rest, limit, p - 1);
      var at := (p - 1) * limit;
      assert at + limit == p * limit;
      assert rest[at..Min(at + limit, |rest|)] == listing[at + limit..Min(at + 2 * limit, |listing|)];
    }
  }

  lemma {:induction false} ChunkCount<T>(listing: seq<T>, limit: nat)
    requires limit >= 1
    ensures (|Chunks(listing, limit)| - 1) * limit < Max(|listing|, 1) <= |Chunks(listing, limit)| * limit
  {
    if |listing| > limit {
      ChunkCount(listing[limit..], limit);
      var tail := |Chunks(listing[limit..], limit)|;
      assert (tail + 1) * limit == tail * limit + limit;
      assert (tail - 1) * limit == tail * limit - limit;
    }
  }

  /** Nothing is lost or repeated: the pages put end to end are the sorted listing. */
  lemma PagesCoverListing(query: ListQuery, position: Position, limit: nat, table: Table)
    requires limit >= 1 && !position.End?
    ensures Flatten(Pages(query, position, limit, table)) == RemainingInOrder(query, position, table)
  {
    PagesAreChunks(query, position, limit, table);
    FlattenChunks(RemainingInOrder(query, position, table), limit);
  }

  /** The walk takes max(1, ceil(n / limit)) pages. */
  lemma PageCount(query: ListQuery, position: Position, limit: nat, table: Table)
    requires limit >= 1 && !position.End?
    ensures var n, pages := |Remaining(query, position, table)|, |Pages(query, position, limit, table)|;
            (pages - 1) * limit < Max(n, 1) <= pages * limit
  {
    PagesAreChunks(query, position, limit, table);
    ChunkCount(RemainingInOrder(query, position, table), limit);
  }

  /** On a still table the two endpoints page alike: keyset page `p` is the page at OFFSET p * limit. */
  lemma KeysetPageIsOffsetPage(query: ListQuery, limit: nat, table: Table, p: nat)
    requires limit >= 1 && query.sort == CreatedAtDesc
    requires p < |Pages(query, Start, limit, table)|
    ensures Pages(query, Start, limit, table)[p] == OffsetPage(query.accountId, p * limit, limit, table)
  {
    PagesAreChunks(query, Start, limit, table);
    var listing := RemainingInOrder(query, Start, table);
    ChunkIsWindow(listing, limit, p);
    assert Chunks(listing, limit)[p] == Window(listing, p * limit, limit);
    OffsetPageIsWindow(query, p * limit, limit, table);
  }

  lemma OffsetPageIsWindow(query: ListQuery, offset: nat, limit: nat, table: Table)
    requires query.sort == CreatedAtDesc
    ensures OffsetPage(query.accountId, offset, limit, table)
         == Window(RemainingInOrder(query, Start, table), offset, limit)
  {
    var statement := if query.accountId > 0 then OFFSET_PAGE_BY_ACCOUNT else OFFSET_PAGE;
    var args := Arguments(query.accountId, Bound(0, 0), limit, offset);
    assert (set row | row in table && Where(statement, args, row)) == Remaining(query, Start, table);
  }

  /** An ascending walk of a still table visits the rows of the descending one, backwards. */
  lemma AscendingWalkReversesDescending(query: ListQuery, upLimit: nat, downLimit: nat, table: Table)
    requires upLimit >= 1 && downLimit >= 1
    ensures Flatten(Pages(query.(sort := CreatedAtAsc), Start, upLimit, table))
         == Reverse(Flatten(Pages(query.(sort := CreatedAtDesc), Start, downLimit, table)))
  {
    var up, down := query.(sort := CreatedAtAsc), query.(sort := CreatedAtDesc);
    PagesCoverListing(up, Start, upLimit, table);
    PagesCoverListing(down, Start, downLimit, table);
    assert Remaining(up, Start, table) == Remaining(down, Start, table);
    AscendingIsDescendingReversed(Remaining(up, Start, table));
  }
}
