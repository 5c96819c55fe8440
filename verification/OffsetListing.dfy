/** The counter-example endpoint: a page addressed by its rank in the newest-first listing. */
module OffsetListing {
  import opened Wrappers
  import opened Domain
  import opened Queries
  import opened Timestamp
  import opened Service
  import opened Drift

  datatype OffsetPage = OffsetPage(rows: seq<Row>, page: int, size: int, hasMore: bool)

  /** The largest rank: Go computes it on 64 bits, Java on 32. */
  function MaxRank(server: Dialect): int {
    match server
    case Go => 0x7FFF_FFFF_FFFF_FFFF
    case Java => 0x7FFF_FFFF
  }

  /** What the server's product keeps of its exact value. */
  function Wrap(server: Dialect, n: int): (wrapped: int)
    ensures -MaxRank(server) - 1 <= wrapped <= MaxRank(server)
    ensures -MaxRank(server) - 1 <= n <= MaxRank(server) <==> wrapped == n
    ensures (n - wrapped) % (2 * MaxRank(server) + 2) == 0
  {
    var half := MaxRank(server) + 1;
    (n + half) % (2 * half) - half
  }

  /** The page that starts at a rank. */
  function PageFrom(accountId: int, rank: nat, page: int, size: nat, table: Table): OffsetPage {
    var all := Listing(accountId, table);
    OffsetPage(Window(all, rank, size), page, size, |all| > rank + size)
  }

  /** What either server answers. PostgreSQL refuses a negative OFFSET. */
  function RankListed(server: Dialect, accountId: int, page: int, size: nat, db: Database): Result<OffsetPage, Failure> {
    var rank := Wrap(server, (page - 1) * size);
    if db.Down? || rank < 0 then Err(DatabaseFailure) else Ok(PageFrom(accountId, rank, page, size, db.table))
  }

  lemma TrimmedWindow(all: seq<Row>, rank: nat, size: nat)
    ensures Trim(Window(all, rank, size + 1), size) == (Window(all, rank, size), |all| > rank + size)
  {
    if |all| > rank + size {
      assert all[rank..rank + size + 1][..size] == all[rank..rank + size];
    }
  }

  /** Transactions.ListByOffset */
  method ListByOffset(accountId: int, page: int, size: nat, db: Database) returns (r: Result<OffsetPage, Failure>)
    ensures r == RankListed(Go, accountId, page, size, db)
  {
    hide Listing, Queries.OffsetPage, Window;
    var offset := Wrap(Go, (page - 1) * size);
    if db.Down? || offset < 0 {
      return Err(DatabaseFailure);
    }
    var fetched := Queries.OffsetPage(accountId, offset, size + 1, db.table);
    OffsetPageReadsRanks(accountId, offset, size + 1, db.table);
    TrimmedWindow(Listing(accountId, db.table), offset, size);
    var (rows, hasMore) := Trim(fetched, size);
    return Ok(OffsetPage(rows, page, size, hasMore));
  }

  /** TransactionService.listByOffset */
  function JavaListByOffset(accountId: int, page: int, size: nat, db: Database): Result<OffsetPage, Failure> {
    var offset := Wrap(Java, (page - 1) * size);
    if db.Down? || offset < 0 then Err(DatabaseFailure) else
      var fetched := JavaOffsetPage(accountId, offset, size + 1, db.table);
      var hasMore := |fetched| > size;
      var rows := if hasMore then fetched[..size] else fetched;
      Ok(OffsetPage(rows, page, size, hasMore))
  }

  lemma JavaListByOffsetIsRankListed(accountId: int, page: int, size: nat, db: Database)
    requires accountId >= 0
    ensures JavaListByOffset(accountId, page, size, db) == RankListed(Java, accountId, page, size, db)
  {
    hide Listing, Execute;
    var offset := Wrap(Java, (page - 1) * size);
    if db.Up? && offset >= 0 {
      OffsetPageReadsRanks(accountId, offset, size + 1, db.table);
      TrimmedWindow(Listing(accountId, db.table), offset, size);
    }
  }

  // ----- which ranks are honoured -----

  lemma NatProduct(a: nat, b: nat)
    ensures a * b >= 0
  {
  }

  /** The page asked for: `size` rows from rank (page - 1) * size on. */
  function RankPage(accountId: int, page: int, size: nat, table: Table): OffsetPage
    requires page >= 1
  {
    NatProduct(page - 1, size);
    PageFrom(accountId, (page - 1) * size, page, size, table)
  }

  lemma BeyondTheListing(accountId: int, rank: nat, page: int, size: nat, table: Table)
    requires size >= 1
    ensures PageFrom(accountId, rank, page, size, table) == OffsetPage([], page, size, false)
       <==> rank >= |Listing(accountId, table)|
  {
    var all := Listing(accountId, table);
    if rank < |all| {
      assert |Window(all, rank, size)| > 0;
    }
  }

  /** A server returns the page asked for exactly when its rank fits the server's integers, or wraps to one
      that is beyond the listing as well. The listing is no longer than a rank can address. */
  lemma RankIsHonoured(server: Dialect, accountId: int, page: int, size: nat, table: Table)
    requires page >= 1 && size >= 1 && |Listing(accountId, table)| <= MaxRank(server)
    ensures RankListed(server, accountId, page, size, Up(table)) == Ok(RankPage(accountId, page, size, table))
       <==> ((page - 1) * size <= MaxRank(server) || Wrap(server, (page - 1) * size) >= |Listing(accountId, table)|)
  {
    hide Listing, PageFrom;
    NatProduct(page - 1, size);
    var exact, rank := (page - 1) * size, Wrap(server, (page - 1) * size);
    if exact > MaxRank(server) {
      BeyondTheListing(accountId, exact, page, size, table);
      if rank >= 0 {
        BeyondTheListing(accountId, rank, page, size, table);
      }
    }
  }

  /** A page number whose rank wraps to 0: the server answers with the first rows where there are none. */
  lemma WrappedRankRepeatsFirstPage(server: Dialect, accountId: int, table: Table)
    requires 0 < |Listing(accountId, table)| <= MaxRank(server)
    ensures var page := if server == Go then 4_611_686_018_427_387_905 else 1_073_741_825;
            && RankListed(server, accountId, page, 4, Up(table)) == Ok(PageFrom(accountId, 0, page, 4, table))
            && PageFrom(accountId, 0, page, 4, table).rows == Listing(accountId, table)[..Min(4, |Listing(accountId, table)|)]
            && RankPage(accountId, page, 4, table).rows == []
  {
    hide Listing;
    var page := if server == Go then 4_611_686_018_427_387_905 else 1_073_741_825;
    assert Wrap(server, (page - 1) * 4) == 0;
    BeyondTheListing(accountId, (page - 1) * 4, page, 4, table);
  }

  /** The answer in terms of the statements: the rows of the page's own rank, 1-based, and `has_more` iff the
      statement finds a row at the rank of the next page. */
  lemma PageTellsTheEnd(server: Dialect, accountId: int, page: int, size: nat, rank: nat, table: Table)
    requires page >= 1 && size >= 1 && rank == (page - 1) * size
    requires rank <= if server == Go then 9_223_372_036_854_775_807 else 2_147_483_647
    ensures var r := RankListed(server, accountId, page, size, Up(table));
            && r.Ok? && r.value.page == page && r.value.size == size
            && r.value.rows == Queries.OffsetPage(accountId, rank, size, table)
            && (r.value.hasMore <==> Queries.OffsetPage(accountId, rank + size, 1, table) != [])
  {
    hide Listing, Queries.OffsetPage;
    OffsetPageReadsRanks(accountId, rank, size, table);
    OffsetPageReadsRanks(accountId, rank + size, 1, table);
  }

  /** A rank past 32 or 64 bits wraps: a negative one is the database's refusal. */
  lemma WrapWrittenOut(server: Dialect, n: int)
    ensures server == Go ==> Wrap(Go, n) == (n + 9_223_372_036_854_775_808) % 18_446_744_073_709_551_616 - 9_223_372_036_854_775_808
    ensures server == Java ==> Wrap(Java, n) == (n + 2_147_483_648) % 4_294_967_296 - 2_147_483_648
  {
  }

  lemma FailureIsReported(server: Dialect, accountId: int, page: int, size: nat, db: Database)
    ensures RankListed(server, accountId, page, size, db).Err? <==> db.Down? || Wrap(server, (page - 1) * size) < 0
    ensures RankListed(server, accountId, page, size, db).Err? ==>
              RankListed(server, accountId, page, size, db) == Err(DatabaseFailure)
  {
  }
}
